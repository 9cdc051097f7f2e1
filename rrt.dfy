/** The planner (`RRT`): a tree grown from the start state towards samples of
    the search space until a new node comes within one step of the goal.
    Samples are an input sequence (one per iteration) and the square root of
    `numpy` is a parameter. Where the source would divide by a zero length,
    the model adds no node, and where it would raise `IndexError`, the model
    requires dimensions that fit instead. */
module Rrt {
  import opened Collision
  import opened NodeTree

  datatype Option<T> = None | Some(value: T)

  datatype Result<T, E> = Ok(value: T) | Err(error: E)

  /** Why the constructor refuses its arguments. */
  datatype PlannerError = DimensionMismatch

  /** A node the planner can name: one of the tree, or the goal node, which is
      kept outside the tree (it is never added to a child list). */
  datatype NodeRef = GoalNode | TreeNode(index: nat)

  /** `_check_for_collision` over the first `n` obstacles: `collide or
      in_collision(...)`, one obstacle after the other. */
  function CollidesWithAny(obstacles: seq<Obstacle>, p: State, n: nat): (r: bool)
    requires n <= |obstacles| && forall i :: 0 <= i < n ==> Fits(obstacles[i], |p|)
    ensures r <==> exists i :: 0 <= i < n && InCollision(obstacles[i], p)
    decreases n
  {
    if n == 0 then false
    else CollidesWithAny(obstacles, p, n - 1) || InCollision(obstacles[n - 1], p)
  }

  /** Every obstacle can be tested against a point of `n` coordinates. */
  predicate AllFit(obstacles: seq<Obstacle>, n: nat)
  {
    forall i :: 0 <= i < |obstacles| ==> Fits(obstacles[i], n)
  }

  function CheckForCollision(obstacles: seq<Obstacle>, p: State): (r: bool)
    requires AllFit(obstacles, |p|)
    ensures r <==> exists i :: 0 <= i < |obstacles| && InCollision(obstacles[i], p)
  {
    CollidesWithAny(obstacles, p, |obstacles|)
  }

  /** Without obstacles nothing collides. */
  lemma NoObstacleNoCollision(p: State)
    ensures !CheckForCollision([], p)
  {
  }

  /** `_check_for_completion`: the Euclidean distance from `state` to `goal` is
      at most the step size. */
  function CheckForCompletion(state: State, goal: State, stepSize: real): (r: bool)
    requires |state| <= |goal|
    ensures r ==> stepSize >= 0.0
    ensures forall d {:trigger IsRoot(d, SqDist(state, goal))} ::
              IsRoot(d, SqDist(state, goal)) ==> (r <==> d <= stepSize)
  {
    WithinBound(SqDist(state, goal), stepSize)
  }

  /** Completion compares squared distances: for a non-negative step it holds
      exactly when the squared distance is at most the squared step size. */
  lemma CompletionBySquares(state: State, goal: State, stepSize: real)
    requires |state| <= |goal| && stepSize >= 0.0
    ensures CheckForCompletion(state, goal, stepSize) <==> SqDist(state, goal) <= Sq(stepSize)
  {
  }

  /** A node holding the goal state completes for every non-negative step. */
  lemma CompletionAtGoal(goal: State, stepSize: real)
    requires stepSize >= 0.0
    ensures CheckForCompletion(goal, goal, stepSize)
  {
    assert goal[..|goal|] == goal;
    SqDistZero(goal, goal);
    SqPositive(stepSize);
  }

  /** One coordinate of `vector/d*self.step_size`. */
  function Scale(x: real, d: real, stepSize: real): real
    requires d != 0.0
  {
    x / d * stepSize
  }

  /** The candidate of `_extend_sample`: the point `stepSize` along the
      direction from `from` to `toward`, for a direction of length `d`. */
  function Steer(from: State, toward: State, stepSize: real, d: real): (p: State)
    requires |toward| <= |from| && d != 0.0
    ensures |p| == |toward|
    ensures forall i :: 0 <= i < |p| ==> p[i] == Scale(toward[i] - from[i], d, stepSize) + from[i]
  {
    seq(|toward|, i requires 0 <= i < |toward| => Scale(toward[i] - from[i], d, stepSize) + from[i])
  }

  /** The factor by which `_extend_sample` stretches the direction. */
  function Ratio(stepSize: real, d: real): real
    requires d != 0.0
  {
    stepSize / d
  }

  /** `x / d * stepSize` is `x` times the ratio `stepSize / d`. */
  lemma ScaleIsProduct(x: real, d: real, stepSize: real)
    requires d != 0.0
    ensures Scale(x, d, stepSize) == x * Ratio(stepSize, d)
  {
  }

  /** A product under a name of its own, so that the solver matches two
      products by their factors. */
  function Times(x: real, y: real): real
  {
    x * y
  }

  lemma SqMul(x: real, r: real)
    ensures Sq(x * r) == Times(Sq(x), Sq(r))
  {
  }

  lemma SumFactor(x: real, y: real, f: real)
    ensures Times(x, f) + Times(y, f) == Times(x + y, f)
  {
  }

  /** Every coordinate of `c` differs from `b` by `r` times the difference
      of `a` from `b`. */
  predicate ScaledFrom(a: State, c: State, b: State, r: real)
    requires |a| == |c| <= |b|
  {
    forall i :: 0 <= i < |a| ==> c[i] - b[i] == (a[i] - b[i]) * r
  }

  /** Scaling every coordinate difference by `r` scales the squared distance
      by `r * r`. */
  lemma {:induction false} SqDistScaled(a: State, c: State, b: State, r: real)
    requires |a| == |c| <= |b| && ScaledFrom(a, c, b, r)
    ensures SqDist(c, b) == Times(SqDist(a, b), Sq(r))
    decreases |a|
  {
    if |a| > 0 {
      var k := |a| - 1;
      SqDistScaled(a[..k], c[..k], b, r);
      SqMul(a[k] - b[k], r);
      SumFactor(SqDist(a[..k], b), Sq(a[k] - b[k]), Sq(r));
    }
  }

  /** The candidate differs from `from` by the direction times
      `stepSize / d`. */
  lemma SteerIsScaled(from: State, toward: State, stepSize: real, d: real)
    requires |toward| <= |from| && d != 0.0
    ensures ScaledFrom(toward, Steer(from, toward, stepSize, d), from, Ratio(stepSize, d))
  {
    forall i | 0 <= i < |toward|
      ensures Steer(from, toward, stepSize, d)[i] - from[i] == (toward[i] - from[i]) * Ratio(stepSize, d)
    {
      ScaleIsProduct(toward[i] - from[i], d, stepSize);
    }
  }

  /** A squared length `sq` times `(stepSize / d)^2`, where `d` is the root of
      `sq`, is the square of `|stepSize|`. */
  lemma RootOfScaled(sq: real, scaled: real, d: real, stepSize: real, r: real)
    requires d != 0.0 && r == Ratio(stepSize, d)
    requires IsRoot(d, sq) && scaled == Times(sq, Sq(r))
    ensures IsRoot(Abs(stepSize), scaled)
  {
    SameFactor(sq, Sq(d), Sq(r));
    RatioSquare(d, stepSize);
  }

  /** The candidate of `_extend_sample` lies exactly `|stepSize|` away from
      `from` when `d` is the length of the direction towards `toward`. */
  lemma SteerDistance(from: State, toward: State, stepSize: real, d: real)
    requires |toward| <= |from| && d != 0.0 && IsRoot(d, SqDist(toward, from))
    ensures IsRoot(Abs(stepSize), SqDist(Steer(from, toward, stepSize, d), from))
  {
    SteerIsScaled(from, toward, stepSize, d);
    ScaledRoot(toward, Steer(from, toward, stepSize, d), from, d, stepSize);
  }

  /** Scaling the differences of a point at distance `d` by `stepSize / d`
      gives a point at distance `|stepSize|`. */
  lemma ScaledRoot(a: State, c: State, b: State, d: real, stepSize: real)
    requires |a| == |c| <= |b| && d != 0.0
    requires IsRoot(d, SqDist(a, b)) && ScaledFrom(a, c, b, Ratio(stepSize, d))
    ensures IsRoot(Abs(stepSize), SqDist(c, b))
  {
    var r := Ratio(stepSize, d);
    SqDistScaled(a, c, b, r);
    RootOfScaled(SqDist(a, b), SqDist(c, b), d, stepSize, r);
  }

  lemma SameFactor(a: real, b: real, f: real)
    requires a == b
    ensures a * f == b * f
  {
  }

  lemma RatioSquare(d: real, stepSize: real)
    requires d != 0.0
    ensures Sq(d) * Sq(Ratio(stepSize, d)) == Sq(Abs(stepSize))
  {
    var f := Ratio(stepSize, d);
    calc {
      Sq(d) * Sq(f);
      == (d * d) * (f * f);
      == (d * f) * (d * f);
      == { assert d * f == stepSize; }
         stepSize * stepSize;
      == Abs(stepSize) * Abs(stepSize);
    }
  }

  /** The first coordinate range is `[lo, hi]` written either way round: what
      `np.linspace(lo, hi, 1000)` draws from. */
  predicate InRange(range: (real, real), x: real)
  {
    (range.0 <= x <= range.1) || (range.1 <= x <= range.0)
  }

  /** A point `_get_random_sample` can return: one coordinate per range. */
  predicate Sampled(dimRanges: seq<(real, real)>, p: State)
  {
    |p| == |dimRanges| && forall i :: 0 <= i < |p| ==> InRange(dimRanges[i], p[i])
  }

  /** Every state has `n` coordinates. */
  predicate SameDims(states: seq<State>, n: nat)
  {
    forall x :: 0 <= x < |states| ==> |states[x]| == n
  }

  /** No state from index `lo` on collides with an obstacle. */
  predicate Clear(obstacles: seq<Obstacle>, states: seq<State>, n: nat, lo: nat)
    requires AllFit(obstacles, n) && SameDims(states, n)
  {
    forall x :: lo <= x < |states| ==> !CheckForCollision(obstacles, states[x])
  }

  /** No state with index in `[lo, hi)` completes. */
  predicate FarFromGoal(states: seq<State>, goal: State, stepSize: real, lo: nat, hi: nat)
    requires hi <= |states| && SameDims(states, |goal|)
  {
    forall x :: lo <= x < hi ==> !CheckForCompletion(states[x], goal, stepSize)
  }

  /** A new state clear of every obstacle keeps the tail clear. */
  lemma ClearSnoc(obstacles: seq<Obstacle>, states: seq<State>, s: State, n: nat, lo: nat)
    requires AllFit(obstacles, n) && SameDims(states, n) && |s| == n
    requires Clear(obstacles, states, n, lo) && !CheckForCollision(obstacles, s)
    ensures SameDims(states + [s], n) && Clear(obstacles, states + [s], n, lo)
  {
  }

  /** Appending a state keeps the earlier states far from the goal, and the
      new one too when it does not complete. */
  lemma FarSnoc(states: seq<State>, s: State, goal: State, stepSize: real, lo: nat)
    requires SameDims(states, |goal|) && |s| == |goal|
    requires FarFromGoal(states, goal, stepSize, lo, |states|)
    ensures SameDims(states + [s], |goal|)
    ensures FarFromGoal(states + [s], goal, stepSize, lo, |states|)
    ensures !CheckForCompletion(s, goal, stepSize) ==> FarFromGoal(states + [s], goal, stepSize, lo, |states| + 1)
  {
  }

  /** Sequence `s` back to front. */
  function Reversed(s: seq<State>): (r: seq<State>)
    ensures |r| == |s|
    ensures forall i :: 0 <= i < |s| ==> r[i] == s[|s| - 1 - i]
  {
    if s == [] then [] else [s[|s| - 1]] + Reversed(s[..|s| - 1])
  }

  lemma ReversedSnoc(s: seq<State>, x: State)
    ensures Reversed(s + [x]) == [x] + Reversed(s)
  {
    assert (s + [x])[..|s|] == s;
  }

  /** Lines 127-129 of `_get_nearest_neighbor`: the squared distance from
      `state` to `sample`, summed over the coordinates of the sample. */
  method SquaredDistance(state: State, sample: State) returns (d: real)
    requires |state| == |sample|
    ensures d == SqDist(state, sample)
    ensures d == 0.0 <==> state == sample
  {
    d := 0.0;
    var j := 0;
    while j < |sample|
      invariant 0 <= j <= |sample|
      invariant d == SqDist(state[..j], sample)
    {
      SqDistStep(state, sample, j);
      d := d + Sq(state[j] - sample[j]);
      j := j + 1;
    }
    assert state[..j] == state;
    SqDistZero(state, sample);
  }

  /** Lines 146-150 of `_extend_sample`: the vector from `from` to `sample`
      and its squared length, accumulated coordinate by coordinate. */
  method Difference(sample: State, from: State) returns (vector: array<real>, sq: real)
    requires |sample| <= |from|
    ensures fresh(vector) && vector.Length == |sample|
    ensures forall k :: 0 <= k < |sample| ==> vector[k] == sample[k] - from[k]
    ensures sq == SqDist(sample, from)
  {
    vector := new real[|sample|];
    sq := 0.0;
    var i := 0;
    while i < |sample|
      invariant 0 <= i <= |sample|
      invariant forall k :: 0 <= k < i ==> vector[k] == sample[k] - from[k]
      invariant sq == SqDist(sample[..i], from)
    {
      SqDistStep(sample, from, i);
      vector[i] := sample[i] - from[i];
      sq := sq + Sq(vector[i]);
      i := i + 1;
    }
    assert sample[..i] == sample;
  }

  /** The loop of `_get_nearest_neighbor` over the nodes in `order`: keep the
      first node with the smallest squared distance (`d < d_min`, with `d_min`
      initially infinite). */
  method Nearest(states: seq<State>, order: seq<nat>, sample: State) returns (nb: nat, rank: nat)
    requires |order| > 0 && SameDims(states, |sample|)
    requires forall j :: 0 <= j < |order| ==> order[j] < |states|
    ensures rank < |order| && order[rank] == nb
    ensures forall j :: 0 <= j < |order| ==> SqDist(states[nb], sample) <= SqDist(states[order[j]], sample)
    ensures forall j :: 0 <= j < rank ==> SqDist(states[order[j]], sample) > SqDist(states[nb], sample)
  {
    nb, rank := order[0], 0;
    var dMin := 0.0;
    var i := 0;
    while i < |order|
      invariant 0 <= i <= |order| && rank < |order| && order[rank] == nb
      invariant i > 0 ==> rank < i && dMin == SqDist(states[nb], sample)
      invariant forall j :: 0 <= j < i ==> dMin <= SqDist(states[order[j]], sample)
      invariant forall j :: 0 <= j < rank ==> SqDist(states[order[j]], sample) > dMin
    {
      var node := order[i];
      var d := SquaredDistance(states[node], sample);
      if i == 0 || d < dMin {
        dMin := d;
        nb, rank := node, i;
      }
      i := i + 1;
    }
  }

  /** The breadth-first order from the root lists every node of the tree. */
  lemma VisitedAt(parents: seq<int>, children: seq<seq<nat>>, order: seq<nat>, x: nat) returns (j: nat)
    requires WellFormed(parents, children) && x < |parents|
    requires BreadthFirst(parents, children, 0, order)
    ensures j < |order| && order[j] == x
  {
    RootReachesAll(parents, x);
    j :| 0 <= j < |order| && order[j] == x;
  }

  /** The states and parent links of the tree, together with the goal node,
      which hangs below a tree node once `build` has succeeded. */
  datatype Nodes = Nodes(states: seq<State>, parents: seq<int>, goalState: State, goalParent: Option<nat>)

  ghost predicate Linked(g: Nodes)
  {
    && ParentLinks(g.parents) && |g.states| == |g.parents|
    && (g.goalParent.Some? ==> g.goalParent.value < |g.parents|)
  }

  /** The node `node` refers to exists. */
  predicate Refers(g: Nodes, node: NodeRef)
  {
    node.TreeNode? ==> node.index < |g.states|
  }

  function StateOf(g: Nodes, node: NodeRef): State
    requires Linked(g) && Refers(g, node)
  {
    match node
    case GoalNode => g.goalState
    case TreeNode(i) => g.states[i]
  }

  /** The `parent` attribute of a node. */
  function ParentOf(g: Nodes, node: NodeRef): (r: Option<NodeRef>)
    requires Linked(g) && Refers(g, node)
    ensures r.Some? ==> r.value.TreeNode? && Refers(g, r.value)
    ensures node.TreeNode? && r.Some? ==> r.value.index < node.index
  {
    match node
    case GoalNode => if g.goalParent.Some? then Some(TreeNode(g.goalParent.value)) else None
    case TreeNode(i) => if g.parents[i] < 0 then None else Some(TreeNode(g.parents[i]))
  }

  /** Bound on the number of parent links above a node, for termination. */
  function Height(g: Nodes, node: Option<NodeRef>): nat
  {
    match node
    case None => 0
    case Some(GoalNode) => |g.states| + 1
    case Some(TreeNode(i)) => i + 1
  }

  /** The states from the start down to `node`, following parent links; for
      the goal node the path through its parent, or the goal alone while it
      has none. */
  ghost function PathFrom(g: Nodes, node: NodeRef): seq<State>
    requires Linked(g) && Refers(g, node)
  {
    match node
    case GoalNode =>
      (if g.goalParent.Some? then PathTo(g.parents, g.states, g.goalParent.value) else []) + [g.goalState]
    case TreeNode(i) => PathTo(g.parents, g.states, i)
  }

  ghost function Chain(g: Nodes, cur: Option<NodeRef>): seq<State>
    requires Linked(g) && (cur.Some? ==> Refers(g, cur.value))
  {
    if cur.None? then [] else PathFrom(g, cur.value)
  }

  /** One step up the parent links drops the last state of the path. */
  lemma ChainStep(g: Nodes, n: NodeRef)
    requires Linked(g) && Refers(g, n)
    ensures Chain(g, Some(n)) == Chain(g, ParentOf(g, n)) + [StateOf(g, n)]
  {
  }

  /** One turn of the loop of `_trace_path_from_start`: the state of `n` moves
      from the end of the unwalked part to the front of the reversed list. */
  lemma TraceStep(g: Nodes, n: NodeRef, rev: seq<State>)
    requires Linked(g) && Refers(g, n)
    ensures Chain(g, ParentOf(g, n)) + Reversed(rev + [StateOf(g, n)]) == Chain(g, Some(n)) + Reversed(rev)
  {
    ChainStep(g, n);
    ReversedSnoc(rev, StateOf(g, n));
    var c, s := Chain(g, ParentOf(g, n)), StateOf(g, n);
    assert c + ([s] + Reversed(rev)) == (c + [s]) + Reversed(rev);
  }

  /** The path ends at the node's own state and, once attached to the tree,
      starts at the start state. */
  lemma PathFromShape(g: Nodes, node: NodeRef)
    requires Linked(g) && Refers(g, node)
    ensures |PathFrom(g, node)| >= 1 && PathFrom(g, node)[|PathFrom(g, node)| - 1] == StateOf(g, node)
    ensures node.TreeNode? || g.goalParent.Some? ==> PathFrom(g, node)[0] == g.states[0]
  {
    match node
    case GoalNode =>
      if g.goalParent.Some? {
        PathToShape(g.parents, g.states, g.goalParent.value);
      }
    case TreeNode(i) =>
      PathToShape(g.parents, g.states, i);
  }

  /** When every node but the root is clear of the obstacles, so is every
      state of a path from the root, except its first. */
  lemma {:induction false} PathAvoidsObstacles(obstacles: seq<Obstacle>, parents: seq<int>, states: seq<State>,
                                               n: nat, x: nat)
    requires ParentLinks(parents) && |states| == |parents| && x < |parents|
    requires AllFit(obstacles, n) && SameDims(states, n) && Clear(obstacles, states, n, 1)
    ensures forall i :: 0 < i < |PathTo(parents, states, x)| ==>
              |PathTo(parents, states, x)[i]| == n && !CheckForCollision(obstacles, PathTo(parents, states, x)[i])
    decreases x
  {
    if parents[x] >= 0 {
      PathAvoidsObstacles(obstacles, parents, states, n, parents[x]);
      assert PathTo(parents, states, x) == PathTo(parents, states, parents[x]) + [states[x]];
    }
  }

  /** The loop of `_trace_path_from_start`: walk the parent links up from
      `node`, collecting states, then reverse, so that the path runs from the
      start to `node`. */
  method Trace(g: Nodes, node: NodeRef) returns (path: seq<State>)
    requires Linked(g) && Refers(g, node)
    ensures path == PathFrom(g, node)
  {
    var rev: seq<State> := [];
    var cur := Some(node);
    while cur.Some?
      invariant cur.Some? ==> Refers(g, cur.value)
      invariant Chain(g, cur) + Reversed(rev) == PathFrom(g, node)
      decreases Height(g, cur)
    {
      var n := cur.value;
      TraceStep(g, n, rev);
      rev := rev + [StateOf(g, n)];
      cur := ParentOf(g, n);
    }
    assert Chain(g, cur) == [];
    path := Reversed(rev);
    assert [] + path == path;
  }

  /** The tree as a value: the states, parent links and child lists of its
      nodes. */
  datatype Arena = Arena(states: seq<State>, parents: seq<int>, children: seq<seq<nat>>)

  /** A well-formed tree whose states all have `n` coordinates. */
  ghost predicate Shaped(t: Arena, n: nat)
  {
    |t.states| == |t.parents| && WellFormed(t.parents, t.children) && SameDims(t.states, n)
  }

  /** What `_get_nearest_neighbor` settles on: the node `nb`, the breadth-first
      order `visit` it scanned, and the position `rank` of `nb` in it. */
  datatype Pick = Pick(nb: nat, visit: seq<nat>, rank: nat)

  /** `p.nb` is the node `_get_nearest_neighbor` returns for `sample` in `t`:
      no node is closer to `sample`, and every node before it in breadth-first
      order is strictly farther. */
  ghost predicate NearestAt(t: Arena, sample: State, p: Pick)
    requires Shaped(t, |sample|)
  {
    && BreadthFirst(t.parents, t.children, 0, p.visit)
    && p.rank < |p.visit| && p.visit[p.rank] == p.nb
    && (forall x :: 0 <= x < |t.states| ==> SqDist(t.states[p.nb], sample) <= SqDist(t.states[x], sample))
    && (forall j :: 0 <= j < p.rank ==> SqDist(t.states[p.visit[j]], sample) > SqDist(t.states[p.nb], sample))
  }

  /** The tree `_extend_sample` leaves behind when it steps from node `nb`
      towards `sample`: unchanged when the direction has zero length or the
      candidate collides, otherwise with the candidate appended as the last
      child of `nb`. */
  ghost function Extend(t: Arena, nb: nat, sample: State, stepSize: real, obstacles: seq<Obstacle>,
                        sqrt: real -> real): Arena
    requires Shaped(t, |sample|) && nb < |t.states| && AllFit(obstacles, |sample|)
  {
    var from := t.states[nb];
    var d := sqrt(SqDist(sample, from));
    if d == 0.0 || CheckForCollision(obstacles, Steer(from, sample, stepSize, d)) then t
    else Arena(t.states + [Steer(from, sample, stepSize, d)], t.parents + [nb],
               t.children[nb := t.children[nb] + [|t.states|]] + [[]])
  }

  /** One round of `build` (lines 92-93): `t1` is `t0` extended from the
      nearest neighbour of `sample`. */
  ghost predicate Round(t0: Arena, t1: Arena, sample: State, p: Pick, stepSize: real,
                        obstacles: seq<Obstacle>, sqrt: real -> real)
    requires Shaped(t0, |sample|) && AllFit(obstacles, |sample|)
  {
    NearestAt(t0, sample, p) && t1 == Extend(t0, p.nb, sample, stepSize, obstacles, sqrt)
  }

  /** The rounds of `build` so far: round `i` draws `samples[i]`, picks
      `picks[i]` and turns the tree `history[i]` into `history[i + 1]`. */
  ghost predicate Rounds(history: seq<Arena>, picks: seq<Pick>, samples: seq<State>, n: nat,
                         stepSize: real, obstacles: seq<Obstacle>, sqrt: real -> real)
  {
    && |history| == |picks| + 1 && |picks| <= |samples| && AllFit(obstacles, n)
    && (forall i :: 0 <= i < |history| ==> Shaped(history[i], n))
    && (forall i :: 0 <= i < |picks| ==>
          |samples[i]| == n && Round(history[i], history[i + 1], samples[i], picks[i], stepSize, obstacles, sqrt))
  }

  /** Before the first round the history is the tree alone. */
  lemma RoundsStart(t: Arena, samples: seq<State>, n: nat, stepSize: real, obstacles: seq<Obstacle>,
                    sqrt: real -> real)
    requires Shaped(t, n) && AllFit(obstacles, n)
    ensures Rounds([t], [], samples, n, stepSize, obstacles, sqrt)
  {
  }

  /** One more round extends the history by its pick and its tree. */
  lemma RoundsSnoc(history: seq<Arena>, picks: seq<Pick>, samples: seq<State>, n: nat, stepSize: real,
                   obstacles: seq<Obstacle>, sqrt: real -> real, t: Arena, p: Pick)
    requires Rounds(history, picks, samples, n, stepSize, obstacles, sqrt)
    requires |picks| < |samples| && |samples[|picks|]| == n && Shaped(t, n)
    requires Round(history[|picks|], t, samples[|picks|], p, stepSize, obstacles, sqrt)
    ensures Rounds(history + [t], picks + [p], samples, n, stepSize, obstacles, sqrt)
  {
    var h, q := history + [t], picks + [p];
    forall i | 0 <= i < |q|
      ensures |samples[i]| == n && Round(h[i], h[i + 1], samples[i], q[i], stepSize, obstacles, sqrt)
    {
      if i < |picks| {
        assert h[i] == history[i] && h[i + 1] == history[i + 1] && q[i] == picks[i];
      }
    }
  }

  /** What the loop of `build` leaves behind when it starts from the tree `t0`
      and ends with the tree `t`: the rounds it ran (at most `maxIter`, all of
      them unless it stopped early), the nodes they added (all clear of the
      obstacles), and `last`, the node that completed, which is the one added
      in the final round, while no node added before it completes. */
  ghost predicate Explored(t0: Arena, t: Arena, last: Option<nat>, history: seq<Arena>, picks: seq<Pick>,
                           samples: seq<State>, goal: State, stepSize: real, maxIter: int,
                           obstacles: seq<Obstacle>, sqrt: real -> real)
  {
    && Rounds(history, picks, samples, |goal|, stepSize, obstacles, sqrt)
    && history[0] == t0 && history[|picks|] == t
    && |picks| <= (if maxIter < 0 then 0 else maxIter)
    && t0.states <= t.states && t0.parents <= t.parents
    && Clear(obstacles, t.states, |goal|, |t0.states|)
    && (last.None? ==>
          && |picks| == (if maxIter < 0 then 0 else maxIter)
          && FarFromGoal(t.states, goal, stepSize, |t0.states|, |t.states|))
    && (last.Some? ==>
          && 0 < |picks| && last.value == |history[|picks| - 1].states| == |t.states| - 1
          && CheckForCompletion(t.states[last.value], goal, stepSize)
          && FarFromGoal(t.states, goal, stepSize, |t0.states|, last.value))
  }

  /** The history without its last round. */
  lemma RoundsPrefix(history: seq<Arena>, picks: seq<Pick>, samples: seq<State>, n: nat, stepSize: real,
                     obstacles: seq<Obstacle>, sqrt: real -> real)
    requires Rounds(history, picks, samples, n, stepSize, obstacles, sqrt) && |picks| > 0
    ensures Rounds(history[..|picks|], picks[..|picks| - 1], samples, n, stepSize, obstacles, sqrt)
  {
    var h, q := history[..|picks|], picks[..|picks| - 1];
    forall i | 0 <= i < |q|
      ensures |samples[i]| == n && Round(h[i], h[i + 1], samples[i], q[i], stepSize, obstacles, sqrt)
    {
      assert h[i] == history[i] && h[i + 1] == history[i + 1] && q[i] == picks[i];
    }
  }

  /** A round keeps every node it finds and adds at most one. */
  lemma RoundGrows(t0: Arena, t1: Arena, sample: State, p: Pick, stepSize: real,
                   obstacles: seq<Obstacle>, sqrt: real -> real)
    requires Shaped(t0, |sample|) && AllFit(obstacles, |sample|)
    requires Round(t0, t1, sample, p, stepSize, obstacles, sqrt)
    ensures t0.states <= t1.states && t0.parents <= t1.parents
    ensures |t1.states| == |t0.states| || |t1.states| == |t0.states| + 1
  {
  }

  /** Each node the rounds of `build` add was added by one round `k`. The tree
      then held exactly the nodes before it. Its parent is the neighbour that
      round picked, the nearest of those nodes to `samples[k]`. Its state is
      the candidate steered from the parent towards `samples[k]`: the
      direction is not of zero length and the candidate is clear of the
      obstacles. */
  lemma {:induction false} NodeRound(history: seq<Arena>, picks: seq<Pick>, samples: seq<State>, n: nat,
                                     stepSize: real, obstacles: seq<Obstacle>, sqrt: real -> real, x: nat)
    returns (k: nat)
    requires Rounds(history, picks, samples, n, stepSize, obstacles, sqrt)
    requires |history[0].states| <= x < |history[|picks|].states|
    ensures k < |picks| && |history[k].states| == x
    ensures var t := history[|picks|];
      && 0 <= t.parents[x] < x && t.parents[x] == picks[k].nb
      && (forall y :: 0 <= y < x ==> SqDist(t.states[t.parents[x]], samples[k]) <= SqDist(t.states[y], samples[k]))
      && var d := sqrt(SqDist(samples[k], t.states[t.parents[x]]));
         && d != 0.0
         && t.states[x] == Steer(t.states[t.parents[x]], samples[k], stepSize, d)
         && !CheckForCollision(obstacles, t.states[x])
    decreases |picks|
  {
    var m := |picks|;
    var t0, t := history[m - 1], history[m];
    assert Round(t0, t, samples[m - 1], picks[m - 1], stepSize, obstacles, sqrt);
    RoundGrows(t0, t, samples[m - 1], picks[m - 1], stepSize, obstacles, sqrt);
    if x < |t0.states| {
      RoundsPrefix(history, picks, samples, n, stepSize, obstacles, sqrt);
      assert history[..m][0] == history[0] && history[..m][m - 1] == t0;
      k := NodeRound(history[..m], picks[..m - 1], samples, n, stepSize, obstacles, sqrt, x);
      assert history[..m][k] == history[k] && picks[..m - 1][k] == picks[k];
      assert t.parents[x] == t0.parents[x];
      assert forall y :: 0 <= y <= x ==> t.states[y] == t0.states[y];
    } else {
      k := m - 1;
    }
  }

  /** Every node from `lo` on hangs below a node `|stepSize|` away from it. */
  ghost predicate StepApart(parents: seq<int>, states: seq<State>, n: nat, lo: nat, stepSize: real)
    requires |states| == |parents| && SameDims(states, n)
  {
    forall x :: lo <= x < |states| ==>
      0 <= parents[x] < |states| && IsRoot(Abs(stepSize), SqDist(states[x], states[parents[x]]))
  }

  /** When `sqrt` returns the true root, each node the rounds of `build` add
      lies exactly `|stepSize|` from its parent. */
  lemma NewNodesStepApart(history: seq<Arena>, picks: seq<Pick>, samples: seq<State>, n: nat,
                          stepSize: real, obstacles: seq<Obstacle>, sqrt: real -> real)
    requires Rounds(history, picks, samples, n, stepSize, obstacles, sqrt)
    requires forall sq :: 0.0 <= sq ==> IsRoot(sqrt(sq), sq)
    ensures StepApart(history[|picks|].parents, history[|picks|].states, n, |history[0].states|, stepSize)
  {
    var t := history[|picks|];
    forall x | |history[0].states| <= x < |t.states|
      ensures 0 <= t.parents[x] < |t.states| && IsRoot(Abs(stepSize), SqDist(t.states[x], t.states[t.parents[x]]))
    {
      var k := NodeRound(history, picks, samples, n, stepSize, obstacles, sqrt, x);
      var from := t.states[t.parents[x]];
      SteerDistance(from, samples[k], stepSize, sqrt(SqDist(samples[k], from)));
    }
  }

  /** State `i` of `path` lies `|stepSize|` from the state before it. */
  ghost predicate StepAt(path: seq<State>, n: nat, stepSize: real, i: nat)
    requires 0 < i < |path|
  {
    |path[i - 1]| == n && |path[i]| == n && IsRoot(Abs(stepSize), SqDist(path[i], path[i - 1]))
  }

  /** Consecutive states of `path` are `|stepSize|` apart. */
  ghost predicate StepsOf(path: seq<State>, n: nat, stepSize: real)
  {
    forall i :: 0 < i < |path| ==> StepAt(path, n, stepSize, i)
  }

  /** In a tree whose nodes after the root each lie `|stepSize|` from their
      parent, consecutive states of a path from the root are a step apart. */
  lemma {:induction false} PathStepsApart(parents: seq<int>, states: seq<State>, n: nat, stepSize: real, x: nat)
    requires ParentLinks(parents) && |states| == |parents| && x < |parents| && SameDims(states, n)
    requires StepApart(parents, states, n, 1, stepSize)
    ensures StepsOf(PathTo(parents, states, x), n, stepSize)
    decreases x
  {
    if parents[x] >= 0 {
      var p := parents[x];
      PathStepsApart(parents, states, n, stepSize, p);
      PathToShape(parents, states, p);
      var front := PathTo(parents, states, p);
      var path := front + [states[x]];
      assert PathTo(parents, states, x) == path;
      forall i | 0 < i < |path|
        ensures StepAt(path, n, stepSize, i)
      {
        if i < |front| {
          assert StepAt(front, n, stepSize, i);
          assert path[i - 1] == front[i - 1] && path[i] == front[i];
        } else {
          assert path[i - 1] == states[p] && path[i] == states[x];
        }
      }
      assert StepsOf(path, n, stepSize);
    }
  }

  /** The path `build` returns for a planner that started from its start node
      alone: when `sqrt` returns true roots, each state up to the last tree
      node lies `|stepSize|` from the one before it, and the last tree node is
      within one step of the goal. */
  lemma BuiltPathSteps(t0: Arena, t: Arena, last: nat, history: seq<Arena>, picks: seq<Pick>,
                       samples: seq<State>, goal: State, stepSize: real, maxIter: int,
                       obstacles: seq<Obstacle>, sqrt: real -> real, path: seq<State>)
    requires Explored(t0, t, Some(last), history, picks, samples, goal, stepSize, maxIter, obstacles, sqrt)
    requires |t0.states| == 1 && forall sq :: 0.0 <= sq ==> IsRoot(sqrt(sq), sq)
    requires path == PathTo(t.parents, t.states, last) + [goal]
    ensures |path| >= 2
    ensures forall i :: 0 < i < |path| - 1 ==> StepAt(path, |goal|, stepSize, i)
    ensures CheckForCompletion(path[|path| - 2], goal, stepSize)
  {
    var n := |goal|;
    NewNodesStepApart(history, picks, samples, n, stepSize, obstacles, sqrt);
    PathStepsApart(t.parents, t.states, n, stepSize, last);
    PathToShape(t.parents, t.states, last);
    var front := PathTo(t.parents, t.states, last);
    forall i | 0 < i < |path| - 1
      ensures StepAt(path, n, stepSize, i)
    {
      assert StepAt(front, n, stepSize, i);
      assert path[i - 1] == front[i - 1] && path[i] == front[i];
    }
  }

  class RRT {
    /** `start` and every node below it. */
    const tree: Tree
    const goalState: State
    /** The parent of the goal node: `None` until `build` succeeds. */
    var goalParent: Option<nat>
    const dimRanges: seq<(real, real)>
    const obstacles: seq<Obstacle>
    const stepSize: real
    const maxIter: int

    ghost predicate Valid()
      reads this, tree
    {
      && tree.Valid()
      && SameDims(tree.states, |goalState|)
      && (goalParent.Some? ==> goalParent.value < |tree.states|)
    }

    /** `__init__` once the dimension check has passed: the start node is the
        only node of the tree and the goal node has no parent. */
    constructor (startState: State, goal: State, dimRanges: seq<(real, real)>,
                 obstacles: seq<Obstacle> := [], stepSize: real := 0.05, maxIter: int := 1000)
      requires |startState| == |goal|
      ensures Valid() && fresh(tree)
      ensures tree.states == [startState] && tree.parents == [-1] && tree.children == [[]]
      ensures goalState == goal && goalParent == None
      ensures this.dimRanges == dimRanges && this.obstacles == obstacles
      ensures this.stepSize == stepSize && this.maxIter == maxIter
    {
      tree := new Tree(startState);
      goalState := goal;
      goalParent := None;
      this.dimRanges := dimRanges;
      this.obstacles := obstacles;
      this.stepSize := stepSize;
      this.maxIter := maxIter;
    }

    /** Squared distance from the sample to node `x`, as `_get_nearest_neighbor`
        accumulates it. */
    ghost function DistTo(sample: State, x: nat): real
      reads this, tree
      requires Valid() && x < |tree.states| && |sample| == |goalState|
    {
      SqDist(tree.states[x], sample)
    }

    /** `_get_nearest_neighbor`: scan the nodes in breadth-first order and keep
        the first one with the smallest squared distance (`d < d_min`, with
        `d_min` initially infinite). */
    method NearestNeighbor(sample: State) returns (nb: nat, ghost visit: seq<nat>, ghost rank: nat)
      requires Valid() && |sample| == |goalState|
      ensures nb < |tree.states|
      ensures BreadthFirst(tree.parents, tree.children, 0, visit)
      ensures rank < |visit| && visit[rank] == nb
      ensures forall x :: 0 <= x < |tree.states| ==> DistTo(sample, nb) <= DistTo(sample, x)
      ensures forall j :: 0 <= j < rank ==> DistTo(sample, visit[j]) > DistTo(sample, nb)
    {
      var order := tree.BreadthFirstOrder(0);
      visit := order;
      var states := tree.states;
      nb, rank := Nearest(states, order, sample);
      forall x | 0 <= x < |states|
        ensures SqDist(states[nb], sample) <= SqDist(states[x], sample)
      {
        var j := VisitedAt(tree.parents, tree.children, order, x);
      }
    }

    /** Lines 146-155 of `_extend_sample`: the difference vector from `from`
        to `sample` is divided by its length `d`, scaled by the step size and
        moved back onto `from`. A zero length gives no candidate. */
    method Candidate(sample: State, from: State, sqrt: real -> real) returns (c: Option<State>)
      requires |sample| <= |from|
      ensures var d := sqrt(SqDist(sample, from));
              c == if d == 0.0 then None else Some(Steer(from, sample, stepSize, d))
    {
      var vector, d := Difference(sample, from);
      d := sqrt(d);
      if d == 0.0 {
        return None;
      }
      forall k | 0 <= k < vector.Length {
        vector[k] := Scale(vector[k], d, stepSize);
      }
      var i := 0;
      while i < vector.Length
        invariant 0 <= i <= vector.Length
        invariant forall k :: 0 <= k < i ==> vector[k] == Scale(sample[k] - from[k], d, stepSize) + from[k]
        invariant forall k :: i <= k < vector.Length ==> vector[k] == Scale(sample[k] - from[k], d, stepSize)
      {
        vector[i] := vector[i] + from[i];
        i := i + 1;
      }
      var p := Steer(from, sample, stepSize, d);
      assert forall k :: 0 <= k < |p| ==> vector[..][k] == p[k];
      assert vector[..] == p;
      return Some(vector[..]);
    }

    /** The tree as a value. */
    ghost function Snap(): Arena
      reads tree
    {
      Arena(tree.states, tree.parents, tree.children)
    }

    /** `_extend_sample`: if the candidate collides nothing changes and `None`
        is returned; otherwise it becomes the last child of the neighbour. */
    method ExtendSample(sample: State, neighbor: nat, sqrt: real -> real) returns (newNode: Option<nat>)
      requires Valid() && |sample| == |goalState| && neighbor < |tree.states|
      requires AllFit(obstacles, |goalState|)
      modifies tree
      ensures Valid()
      ensures Snap() == Extend(old(Snap()), neighbor, sample, stepSize, obstacles, sqrt)
      ensures newNode.None? ==> unchanged(tree)
      ensures newNode.Some? ==> newNode.value == old(|tree.states|) < |tree.states|
      // What follows from the two clauses above, in the form callers use.
      ensures newNode.Some? ==>
        && tree.states == old(tree.states) + [tree.states[newNode.value]]
        && tree.parents == old(tree.parents) + [neighbor]
        && !CheckForCollision(obstacles, tree.states[newNode.value])
    {
      var candidate := Candidate(sample, tree.states[neighbor], sqrt);
      if candidate.None? || CheckForCollision(obstacles, candidate.value) {
        return None;
      }
      var c := tree.AddChild(neighbor, candidate.value);
      newNode := Some(c);
    }

    /** The nodes `_trace_path_from_start` can walk through. */
    function View(): Nodes
      reads this, tree
    {
      Nodes(tree.states, tree.parents, goalState, goalParent)
    }

    /** `_trace_path_from_start`: the path runs from the start to `node`. */
    method TracePathFromStart(node: NodeRef := GoalNode) returns (path: seq<State>)
      requires Valid() && Refers(View(), node)
      ensures path == PathFrom(View(), node)
      ensures |path| >= 1 && path[|path| - 1] == StateOf(View(), node)
      ensures node.TreeNode? || goalParent.Some? ==> path[0] == tree.states[0]
    {
      var g := View();
      assert Linked(g);
      path := Trace(g, node);
      PathFromShape(g, node);
    }

    /** Lines 92-93 of `build`: extend the tree from the nearest neighbour of
        `sample` towards it; `pick` is that neighbour and the scan that chose
        it. */
    method Grow(sample: State, sqrt: real -> real) returns (newNode: Option<nat>, ghost pick: Pick)
      requires Valid() && |sample| == |goalState| && AllFit(obstacles, |goalState|)
      modifies tree
      ensures Valid()
      ensures Round(old(Snap()), Snap(), sample, pick, stepSize, obstacles, sqrt)
      ensures newNode.None? ==> unchanged(tree)
      ensures newNode.Some? ==>
        && newNode.value == old(|tree.states|) < |tree.states|
        && tree.states == old(tree.states) + [tree.states[newNode.value]]
        && old(tree.parents) <= tree.parents
        && !CheckForCollision(obstacles, tree.states[newNode.value])
    {
      ghost var t0 := Snap();
      var neighbor, visit, rank := NearestNeighbor(sample);
      pick := Pick(neighbor, visit, rank);
      assert NearestAt(t0, sample, pick) by {
        assert forall x :: 0 <= x < |t0.states| ==> DistTo(sample, x) == SqDist(t0.states[x], sample);
      }
      newNode := ExtendSample(sample, neighbor, sqrt);
    }

    /** Lines 95-96 of `build`: hang the goal node below `last` and trace the
        path from the start to it. */
    method AttachGoal(last: nat) returns (path: seq<State>)
      requires Valid() && last < |tree.states|
      modifies this
      ensures Valid() && goalParent == Some(last)
      ensures path == PathTo(tree.parents, tree.states, last) + [goalState]
      ensures path[0] == tree.states[0] && path[|path| - 1] == goalState
    {
      goalParent := Some(last);
      path := TracePathFromStart(GoalNode);
    }

    /** Round `k` of `build`, with its bookkeeping: the history gains the new
        tree, and the nodes added since `n0` stay clear of the obstacles and,
        except perhaps the new one, far from the goal. */
    method Advance(samples: seq<State>, sqrt: real -> real, k: nat, ghost n0: nat,
                   ghost history: seq<Arena>, ghost picks: seq<Pick>)
      returns (newNode: Option<nat>, ghost history': seq<Arena>, ghost picks': seq<Pick>)
      requires Valid() && AllFit(obstacles, |goalState|) && k < |samples| && |samples[k]| == |goalState|
      requires Rounds(history, picks, samples, |goalState|, stepSize, obstacles, sqrt)
      requires |picks| == k && history[k] == Snap()
      requires n0 <= |tree.states| && Clear(obstacles, tree.states, |goalState|, n0)
      requires FarFromGoal(tree.states, goalState, stepSize, n0, |tree.states|)
      modifies tree
      ensures Valid()
      ensures Rounds(history', picks', samples, |goalState|, stepSize, obstacles, sqrt)
      ensures |picks'| == k + 1 && history' == history + [Snap()]
      ensures old(tree.states) <= tree.states && old(tree.parents) <= tree.parents
      ensures |tree.states| <= old(|tree.states|) + 1
      ensures Clear(obstacles, tree.states, |goalState|, n0)
      ensures newNode.None? ==> |tree.states| == old(|tree.states|)
      ensures newNode.Some? ==> newNode.value == old(|tree.states|) == |tree.states| - 1
      ensures FarFromGoal(tree.states, goalState, stepSize, n0, old(|tree.states|))
      ensures newNode.None? || !CheckForCompletion(tree.states[newNode.value], goalState, stepSize) ==>
                FarFromGoal(tree.states, goalState, stepSize, n0, |tree.states|)
    {
      ghost var before := tree.states;
      ghost var pick;
      newNode, pick := Grow(samples[k], sqrt);
      RoundsSnoc(history, picks, samples, |goalState|, stepSize, obstacles, sqrt, Snap(), pick);
      history', picks' := history + [Snap()], picks + [pick];
      if newNode.Some? {
        ClearSnoc(obstacles, before, tree.states[newNode.value], |goalState|, n0);
        FarSnoc(before, tree.states[newNode.value], goalState, stepSize, n0);
      }
    }

    /** The loop of `build` (lines 90-97): at most `maxIter` rounds of sample,
        nearest neighbour, extend and completion check, stopping at the first
        new node that completes, which is returned. Round `i` draws
        `samples[i]`; `history` holds the tree before each round and after the
        last one, and `picks` the nearest neighbour of each round. */
    method Explore(samples: seq<State>, sqrt: real -> real)
      returns (last: Option<nat>, ghost history: seq<Arena>, ghost picks: seq<Pick>)
      requires Valid() && AllFit(obstacles, |goalState|)
      requires |samples| >= maxIter && forall k :: 0 <= k < |samples| ==> |samples[k]| == |goalState|
      modifies tree
      ensures Valid()
      ensures Explored(old(Snap()), Snap(), last, history, picks, samples, goalState, stepSize, maxIter,
                       obstacles, sqrt)
    {
      ghost var n0 := |tree.states|;
      history, picks := [Snap()], [];
      RoundsStart(Snap(), samples, |goalState|, stepSize, obstacles, sqrt);
      var k := 0;
      while k < maxIter
        invariant Valid()
        invariant 0 <= k <= (if maxIter < 0 then 0 else maxIter)
        invariant Rounds(history, picks, samples, |goalState|, stepSize, obstacles, sqrt)
        invariant |picks| == k && history[0] == old(Snap()) && history[k] == Snap()
        invariant old(tree.states) <= tree.states && old(tree.parents) <= tree.parents
        invariant n0 <= |tree.states|
        invariant Clear(obstacles, tree.states, |goalState|, n0)
        invariant FarFromGoal(tree.states, goalState, stepSize, n0, |tree.states|)
      {
        var newNode;
        newNode, history, picks := Advance(samples, sqrt, k, n0, history, picks);
        if newNode.Some? && CheckForCompletion(tree.states[newNode.value], goalState, stepSize) {
          return newNode, history, picks;
        }
        k := k + 1;
      }
      return None, history, picks;
    }

    /** `build`: grow the tree until a new node completes or `maxIter` rounds
        have run. On success the goal node is hung below the node just added
        and the path to it is returned. */
    method Build(samples: seq<State>, sqrt: real -> real)
      returns (path: Option<seq<State>>, ghost history: seq<Arena>, ghost picks: seq<Pick>)
      requires Valid() && |dimRanges| == |goalState| && AllFit(obstacles, |goalState|)
      requires |samples| >= maxIter
      requires forall k :: 0 <= k < |samples| ==> Sampled(dimRanges, samples[k])
      modifies this, tree
      ensures Valid()
      ensures Explored(old(Snap()), Snap(), if path.Some? then Some(|tree.states| - 1) else None,
                       history, picks, samples, goalState, stepSize, maxIter, obstacles, sqrt)
      ensures path.None? ==> goalParent == old(goalParent)
      ensures path.Some? ==>
        && goalParent == Some(|tree.states| - 1)
        && path.value == PathTo(tree.parents, tree.states, |tree.states| - 1) + [goalState]
        && path.value[0] == tree.states[0] && path.value[|path.value| - 1] == goalState
    {
      var last;
      last, history, picks := Explore(samples, sqrt);
      if last.None? {
        return None, history, picks;
      }
      var trace := AttachGoal(last.value);
      return Some(trace), history, picks;
    }
  }

  /** `__init__`: the start and goal states must have the same dimension;
      otherwise construction fails. */
  method Create(startState: State, goal: State, dimRanges: seq<(real, real)>,
                obstacles: seq<Obstacle> := [], stepSize: real := 0.05, maxIter: int := 1000)
    returns (r: Result<RRT, PlannerError>)
    ensures r.Err? <==> |startState| != |goal|
    ensures r.Ok? ==> fresh(r.value) && fresh(r.value.tree) && r.value.Valid()
    ensures r.Ok? ==> r.value.tree.states == [startState] && r.value.goalState == goal
    ensures r.Ok? ==> r.value.goalParent == None
    ensures r.Ok? ==> r.value.obstacles == obstacles && r.value.dimRanges == dimRanges
    ensures r.Ok? ==> r.value.stepSize == stepSize && r.value.maxIter == maxIter
  {
    if |startState| != |goal| {
      return Err(DimensionMismatch);
    }
    var planner := new RRT(startState, goal, dimRanges, obstacles, stepSize, maxIter);
    return Ok(planner);
  }
}
