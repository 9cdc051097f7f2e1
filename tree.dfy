/** The planner's tree (`RRT.Node`), held as an arena: node i has the state
    `states[i]`, the parent index `parents[i]` (-1 for none) and the ordered
    list of child indices `children[i]`. Node 0 is the root. A child is always
    created after its parent, so its index is larger: that is what makes the
    parent links acyclic. */
module NodeTree {
  import opened Collision

  /** Node 0 is the root; every other node has an earlier node as parent. */
  ghost predicate ParentLinks(parents: seq<int>)
  {
    && |parents| >= 1
    && parents[0] == -1
    && forall i :: 0 < i < |parents| ==> 0 <= parents[i] < i
  }

  /** The parent links and the child lists describe the same tree, and each
      child list is in insertion (= index) order. */
  ghost predicate WellFormed(parents: seq<int>, children: seq<seq<nat>>)
  {
    && ParentLinks(parents)
    && |children| == |parents|
    && (forall p, k :: 0 <= p < |children| && 0 <= k < |children[p]| ==>
          0 < children[p][k] < |parents| && parents[children[p][k]] == p)
    && (forall p, k, l :: 0 <= p < |children| && 0 <= k < l < |children[p]| ==>
          children[p][k] < children[p][l])
    && (forall c :: 0 < c < |parents| ==> c in children[parents[c]])
  }

  /** Node `r` is reached from node `x` by following parent links (zero or
      more times), i.e. `x` lies in the subtree of `r`. */
  ghost predicate Descends(parents: seq<int>, x: nat, r: nat)
    requires ParentLinks(parents)
    decreases x
  {
    x == r || (x < |parents| && parents[x] >= 0 && Descends(parents, parents[x], r))
  }

  /** Acyclicity: a node descends only from nodes that are not younger. */
  lemma {:induction false} DescendsOnlyFromOlder(parents: seq<int>, x: nat, r: nat)
    requires ParentLinks(parents) && Descends(parents, x, r)
    ensures r <= x
    decreases x
  {
    if x != r {
      DescendsOnlyFromOlder(parents, parents[x], r);
    }
  }

  /** No node is its own proper ancestor. */
  lemma NoCycle(parents: seq<int>, x: nat)
    requires ParentLinks(parents) && 0 < x < |parents|
    ensures !Descends(parents, parents[x], x)
  {
    if Descends(parents, parents[x], x) {
      DescendsOnlyFromOlder(parents, parents[x], x);
    }
  }

  /** Every node is reachable from the root. */
  lemma {:induction false} RootReachesAll(parents: seq<int>, x: nat)
    requires ParentLinks(parents) && x < |parents|
    ensures Descends(parents, x, 0)
    decreases x
  {
    if x != 0 {
      RootReachesAll(parents, parents[x]);
    }
  }

  /** Number of parent links from `x` up to the root. */
  function Depth(parents: seq<int>, x: nat): nat
    requires ParentLinks(parents) && x < |parents|
    decreases x
  {
    if parents[x] < 0 then 0 else Depth(parents, parents[x]) + 1
  }

  /** The states along the parent chain, from the root down to `x`. */
  ghost function PathTo(parents: seq<int>, states: seq<State>, x: nat): seq<State>
    requires ParentLinks(parents) && |states| == |parents| && x < |parents|
    decreases x
  {
    if parents[x] < 0 then [states[x]] else PathTo(parents, states, parents[x]) + [states[x]]
  }

  /** The path to `x` starts at the root state, ends at the state of `x`, and
      has one state per level. */
  lemma {:induction false} PathToShape(parents: seq<int>, states: seq<State>, x: nat)
    requires ParentLinks(parents) && |states| == |parents| && x < |parents|
    ensures |PathTo(parents, states, x)| == Depth(parents, x) + 1
    ensures PathTo(parents, states, x)[0] == states[0]
    ensures PathTo(parents, states, x)[Depth(parents, x)] == states[x]
    decreases x
  {
    if parents[x] >= 0 {
      PathToShape(parents, states, parents[x]);
    }
  }

  /** A sequence without repetitions. */
  ghost predicate Distinct(s: seq<nat>)
  {
    forall i, j :: 0 <= i < j < |s| ==> s[i] != s[j]
  }

  /** Pigeonhole: a repetition-free sequence of indices below n has at most n
      elements. */
  lemma {:induction false} DistinctBound(s: seq<nat>, n: nat)
    requires Distinct(s)
    requires forall i :: 0 <= i < |s| ==> s[i] < n
    ensures |s| <= n
    decreases n
  {
    if s != [] {
      assert s[0] < n;
      if n - 1 in s {
        var k :| 0 <= k < |s| && s[k] == n - 1;
        var t := s[..k] + s[k + 1..];
        assert forall i :: 0 <= i < |t| ==> t[i] == (if i < k then s[i] else s[i + 1]);
        DistinctBound(t, n - 1);
      } else {
        DistinctBound(s, n - 1);
      }
    }
  }

  /** The child lists of the first `n` nodes of `s`, concatenated in the order
      of `s`. */
  function Expand(children: seq<seq<nat>>, s: seq<nat>, n: nat): seq<nat>
    requires n <= |s| && forall i :: 0 <= i < n ==> s[i] < |children|
    decreases n
  {
    if n == 0 then [] else Expand(children, s, n - 1) + children[s[n - 1]]
  }

  lemma {:induction false} ExpandContains(children: seq<seq<nat>>, s: seq<nat>, n: nat, k: nat, c: nat)
    requires n <= |s| && forall i :: 0 <= i < n ==> s[i] < |children|
    requires k < n && c in children[s[k]]
    ensures c in Expand(children, s, n)
    decreases n
  {
    if k < n - 1 {
      ExpandContains(children, s, n - 1, k, c);
    }
  }

  /** The expansion of a prefix ignores what follows it. */
  lemma {:induction false} ExpandPrefix(children: seq<seq<nat>>, s: seq<nat>, t: seq<nat>, n: nat)
    requires n <= |s| && forall i :: 0 <= i < n ==> s[i] < |children|
    ensures Expand(children, s + t, n) == Expand(children, s, n)
    decreases n
  {
    if n > 0 {
      ExpandPrefix(children, s, t, n - 1);
      assert (s + t)[n - 1] == s[n - 1];
    }
  }

  /** A sequence that starts with `r` and is followed by the children of its
      own elements, in order, holds every node of the subtree of `r`. */
  lemma {:induction false} ExpansionHoldsSubtree(
    parents: seq<int>, children: seq<seq<nat>>, r: nat, order: seq<nat>, x: nat)
    requires WellFormed(parents, children) && r < |parents|
    requires forall i :: 0 <= i < |order| ==> order[i] < |parents|
    requires order == [r] + Expand(children, order, |order|)
    requires x < |parents| && Descends(parents, x, r)
    ensures x in order
    decreases x
  {
    if x != r {
      var p := parents[x];
      ExpansionHoldsSubtree(parents, children, r, order, p);
      var k :| 0 <= k < |order| && order[k] == p;
      ExpandContains(children, order, |order|, k, x);
    }
  }

  /** Every parent in `s` is listed before its children. */
  ghost predicate ParentsFirst(parents: seq<int>, s: seq<nat>)
    requires forall i :: 0 <= i < |s| ==> s[i] < |parents|
  {
    forall i, j :: 0 <= i < |s| && 0 <= j < |s| && s[i] == parents[s[j]] ==> i < j
  }

  /** Children of one parent are listed in insertion (= index) order. */
  ghost predicate SiblingsInOrder(parents: seq<int>, s: seq<nat>)
    requires forall i :: 0 <= i < |s| ==> s[i] < |parents|
  {
    forall i, j ::
      (0 < i < |s| && 0 < j < |s| && parents[s[i]] == parents[s[j]] && s[i] < s[j]) ==> i < j
  }

  /** `order` is the breadth-first order of the subtree of `r`: it starts at
      `r` and continues with the child lists of its own elements, one block
      after the other, in the order those elements are listed; it holds each
      node of the subtree exactly once and nothing else; parents come before
      children, and siblings come in insertion order. */
  ghost predicate BreadthFirst(parents: seq<int>, children: seq<seq<nat>>, r: nat, order: seq<nat>)
    requires WellFormed(parents, children) && r < |parents|
  {
    && (forall i :: 0 <= i < |order| ==> order[i] < |parents|)
    && order == [r] + Expand(children, order, |order|)
    && Distinct(order)
    && (forall x :: 0 <= x < |parents| ==> (x in order <==> Descends(parents, x, r)))
    && ParentsFirst(parents, order)
    && SiblingsInOrder(parents, order)
  }

  /** The state of the queue loop of `__iter__`: `seen` is everything ever put
      in the queue, in order; its first `k` nodes have been yielded and taken
      out of the queue. */
  ghost predicate Frontier(parents: seq<int>, children: seq<seq<nat>>, r: nat,
                           seen: seq<nat>, k: nat)
    requires WellFormed(parents, children) && r < |parents|
  {
    && k <= |seen| && |seen| >= 1 && seen[0] == r
    && (forall i :: 0 <= i < |seen| ==> r <= seen[i] < |parents|)
    && seen == [r] + Expand(children, seen, k)
    && Distinct(seen)
    && ParentsFirst(parents, seen)
    && SiblingsInOrder(parents, seen)
  }

  /** The arena. */
  class Tree {
    var states: seq<State>
    var parents: seq<int>
    var children: seq<seq<nat>>

    ghost predicate Valid()
      reads this
    {
      |states| == |parents| && WellFormed(parents, children)
    }

    /** A tree made of its root alone (`Node(state, None)`). */
    constructor (state: State)
      ensures Valid()
      ensures states == [state] && parents == [-1] && children == [[]]
    {
      states := [state];
      parents := [-1];
      children := [[]];
    }

    /** `add_child`: a new node holding `state`, whose parent is `p`, appended
        at the end of `p`'s children; the new node's index is returned. */
    method AddChild(p: nat, state: State) returns (c: nat)
      requires Valid() && p < |states|
      modifies this
      ensures Valid()
      ensures c == old(|states|)
      ensures states == old(states) + [state]
      ensures parents == old(parents) + [p]
      ensures children == old(children)[p := old(children)[p] + [c]] + [[]]
    {
      c := |states|;
      AddChildKeepsWellFormed(parents, children, p);
      states := states + [state];
      parents := parents + [p];
      children := children[p := children[p] + [c]] + [[]];
    }

    /** `__iter__`: breadth-first traversal from `r`, driven by a FIFO queue. */
    method BreadthFirstOrder(r: nat) returns (order: seq<nat>)
      requires Valid() && r < |states|
      ensures BreadthFirst(parents, children, r, order)
    {
      var queue: seq<nat> := [r];
      order := [];
      FrontierInit(parents, children, r);
      while queue != []
        invariant Frontier(parents, children, r, order + queue, |order|)
        decreases |parents| - |order|
      {
        var node := queue[0];
        BfsStep(parents, children, r, order, queue);
        queue := queue[1..] + children[node];
        order := order + [node];
      }
      assert order + queue == order;
      BfsDone(parents, children, r, order);
    }
  }

  lemma AddChildKeepsWellFormed(parents: seq<int>, children: seq<seq<nat>>, p: nat)
    requires WellFormed(parents, children) && p < |parents|
    ensures WellFormed(parents + [p], children[p := children[p] + [|parents|]] + [[]])
  {
    var n := |parents|;
    var parents' := parents + [p];
    var children' := children[p := children[p] + [n]] + [[]];
    forall c | 0 < c < |parents'|
      ensures c in children'[parents'[c]]
    {
      if c < n {
        assert c in children[parents[c]];
      } else {
        assert children'[p][|children[p]|] == c;
      }
    }
  }

  /** A node listed in the expansion of `s` is a child of a node of `s`. */
  lemma {:induction false} ExpandParent(parents: seq<int>, children: seq<seq<nat>>,
                                        s: seq<nat>, n: nat, c: nat) returns (m: nat)
    requires WellFormed(parents, children)
    requires n <= |s| && forall i :: 0 <= i < n ==> s[i] < |children|
    requires c in Expand(children, s, n)
    ensures 0 < c < |parents| && m < n && s[m] == parents[c]
    decreases n
  {
    if c in Expand(children, s, n - 1) {
      m := ExpandParent(parents, children, s, n - 1, c);
    } else {
      var j :| 0 <= j < |children[s[n - 1]]| && children[s[n - 1]][j] == c;
      m := n - 1;
    }
  }

  /** In the queue loop, the parent of every node but the first has already
      been yielded. */
  lemma ParentYielded(parents: seq<int>, children: seq<seq<nat>>, r: nat,
                      seen: seq<nat>, k: nat, i: nat) returns (m: nat)
    requires WellFormed(parents, children)
    requires k <= |seen| && forall j :: 0 <= j < |seen| ==> seen[j] < |parents|
    requires seen == [r] + Expand(children, seen, k)
    requires 0 < i < |seen|
    ensures 0 < seen[i] && m < k && seen[m] == parents[seen[i]]
  {
    assert seen[i] == Expand(children, seen, k)[i - 1];
    m := ExpandParent(parents, children, seen, k, seen[i]);
  }

  /** `kids` are children of `node`, younger than it. */
  ghost predicate ChildrenOf(parents: seq<int>, node: nat, kids: seq<nat>)
  {
    forall a :: 0 <= a < |kids| ==> kids[a] < |parents| && parents[kids[a]] == node && node < kids[a]
  }

  /** The children of the node at the head of the queue have not been seen. */
  lemma NewChildren(parents: seq<int>, children: seq<seq<nat>>, r: nat, seen: seq<nat>, k: nat)
    requires WellFormed(parents, children) && r < |parents|
    requires k < |seen| && seen[0] == r
    requires forall i :: 0 <= i < |seen| ==> r <= seen[i] < |parents|
    requires seen == [r] + Expand(children, seen, k)
    requires Distinct(seen)
    ensures ChildrenOf(parents, seen[k], children[seen[k]])
    ensures forall a, i :: 0 <= a < |children[seen[k]]| && 0 <= i < |seen| ==>
              seen[i] != children[seen[k]][a]
  {
    var kids := children[seen[k]];
    forall a, i | 0 <= a < |kids| && 0 <= i < |seen|
      ensures seen[i] != kids[a]
    {
      if i > 0 {
        var m := ParentYielded(parents, children, r, seen, k, i);
        assert seen[m] != seen[k];
      }
    }
  }

  lemma DistinctAppend(s: seq<nat>, t: seq<nat>)
    requires Distinct(s) && Distinct(t)
    requires forall a, i :: 0 <= a < |t| && 0 <= i < |s| ==> s[i] != t[a]
    ensures Distinct(s + t)
  {
    assert forall i :: 0 <= i < |s| ==> (s + t)[i] == s[i];
    assert forall i :: |s| <= i < |s + t| ==> (s + t)[i] == t[i - |s|];
  }

  /** A strictly increasing child list has no repetitions. */
  lemma ChildListDistinct(parents: seq<int>, children: seq<seq<nat>>, p: nat)
    requires WellFormed(parents, children) && p < |children|
    ensures Distinct(children[p])
  {
  }

  /** No node of `seen` but the first has a parent outside `seen[..k]`; with
      `kids` unseen, none of them is the parent of a node of `seen`. */
  lemma KidsParentNothing(parents: seq<int>, children: seq<seq<nat>>, r: nat,
                          seen: seq<nat>, k: nat, kids: seq<nat>)
    requires WellFormed(parents, children) && r < |parents|
    requires k < |seen| && seen[0] == r
    requires forall i :: 0 <= i < |seen| ==> r <= seen[i] < |parents|
    requires seen == [r] + Expand(children, seen, k)
    requires Distinct(seen) && ChildrenOf(parents, seen[k], kids)
    requires forall a, i :: 0 <= a < |kids| && 0 <= i < |seen| ==> seen[i] != kids[a]
    ensures forall a, j :: 0 <= a < |kids| && 0 <= j < |seen| ==> parents[seen[j]] != kids[a]
    ensures forall j :: 0 < j < |seen| ==> parents[seen[j]] != seen[k]
  {
    forall a, j | 0 <= a < |kids| && 0 <= j < |seen|
      ensures parents[seen[j]] != kids[a]
    {
      if j > 0 {
        var m := ParentYielded(parents, children, r, seen, k, j);
        assert seen[m] != kids[a];
      } else {
        assert seen[k] < kids[a];
      }
    }
    forall j | 0 < j < |seen|
      ensures parents[seen[j]] != seen[k]
    {
      var m := ParentYielded(parents, children, r, seen, k, j);
      assert seen[m] != seen[k];
    }
  }

  /** Appending the children of the head node keeps parents before children. */
  lemma StepParentsFirst(parents: seq<int>, seen: seq<nat>, k: nat, kids: seq<nat>)
    requires k < |seen|
    requires forall i :: 0 <= i < |seen| ==> seen[i] < |parents|
    requires ChildrenOf(parents, seen[k], kids)
    requires forall a, j :: 0 <= a < |kids| && 0 <= j < |seen| ==> parents[seen[j]] != kids[a]
    requires ParentsFirst(parents, seen)
    ensures forall i :: 0 <= i < |seen + kids| ==> (seen + kids)[i] < |parents|
    ensures ParentsFirst(parents, seen + kids)
  {
    var seen' := seen + kids;
    var n := |seen|;
    assert forall i :: 0 <= i < n ==> seen'[i] == seen[i];
    assert forall i :: n <= i < |seen'| ==> seen'[i] == kids[i - n];
  }

  /** Appending the children of the head node keeps siblings in order. */
  lemma StepSiblingsInOrder(parents: seq<int>, seen: seq<nat>, k: nat, kids: seq<nat>)
    requires k < |seen|
    requires forall i :: 0 <= i < |seen| ==> seen[i] < |parents|
    requires forall a, b :: 0 <= a < b < |kids| ==> kids[a] < kids[b]
    requires ChildrenOf(parents, seen[k], kids)
    requires forall j :: 0 < j < |seen| ==> parents[seen[j]] != seen[k]
    requires SiblingsInOrder(parents, seen)
    ensures forall i :: 0 <= i < |seen + kids| ==> (seen + kids)[i] < |parents|
    ensures SiblingsInOrder(parents, seen + kids)
  {
    var seen' := seen + kids;
    var n := |seen|;
    assert forall i :: 0 <= i < n ==> seen'[i] == seen[i];
    assert forall i :: n <= i < |seen'| ==> seen'[i] == kids[i - n];
  }

  /** Yielding the head node appends its child list to the expansion. */
  lemma StepExpand(children: seq<seq<nat>>, r: nat, seen: seq<nat>, k: nat)
    requires k < |seen| && forall i :: 0 <= i < |seen| ==> seen[i] < |children|
    requires seen == [r] + Expand(children, seen, k)
    ensures seen + children[seen[k]] == [r] + Expand(children, seen + children[seen[k]], k + 1)
  {
    ExpandPrefix(children, seen, children[seen[k]], k + 1);
  }

  /** Before the loop, the queue holds `r` alone. */
  lemma FrontierInit(parents: seq<int>, children: seq<seq<nat>>, r: nat)
    requires WellFormed(parents, children) && r < |parents|
    ensures Frontier(parents, children, r, [] + [r], 0)
  {
    assert [] + [r] == [r];
  }

  /** Moving the head of the queue to the yielded nodes and appending `kids`
      to the queue appends `kids` to their concatenation. */
  lemma QueueShift(order: seq<nat>, queue: seq<nat>, kids: seq<nat>)
    requires queue != []
    ensures (order + queue)[|order|] == queue[0]
    ensures (order + [queue[0]]) + (queue[1..] + kids) == (order + queue) + kids
  {
    assert queue == [queue[0]] + queue[1..];
  }

  /** One turn of the queue loop of `__iter__`: the head node is yielded and
      its children join the end of the queue. */
  lemma BfsStep(parents: seq<int>, children: seq<seq<nat>>, r: nat, order: seq<nat>, queue: seq<nat>)
    requires WellFormed(parents, children) && r < |parents|
    requires queue != [] && Frontier(parents, children, r, order + queue, |order|)
    ensures |order| < |parents| && queue[0] < |children|
    ensures Frontier(parents, children, r,
                     (order + [queue[0]]) + (queue[1..] + children[queue[0]]), |order| + 1)
  {
    var seen, k := order + queue, |order|;
    DistinctBound(seen, |parents|);
    assert seen[k] == queue[0];
    QueueShift(order, queue, children[queue[0]]);
    FrontierStep(parents, children, r, seen, k);
  }

  lemma FrontierStep(parents: seq<int>, children: seq<seq<nat>>, r: nat, seen: seq<nat>, k: nat)
    requires WellFormed(parents, children) && r < |parents|
    requires Frontier(parents, children, r, seen, k) && k < |seen|
    ensures Frontier(parents, children, r, seen + children[seen[k]], k + 1)
  {
    var kids := children[seen[k]];
    NewChildren(parents, children, r, seen, k);
    ChildListDistinct(parents, children, seen[k]);
    DistinctAppend(seen, kids);
    KidsParentNothing(parents, children, r, seen, k, kids);
    StepParentsFirst(parents, seen, k, kids);
    StepSiblingsInOrder(parents, seen, k, kids);
    StepExpand(children, r, seen, k);
    StepBounds(parents, r, seen, k, kids);
  }

  lemma StepBounds(parents: seq<int>, r: nat, seen: seq<nat>, k: nat, kids: seq<nat>)
    requires k < |seen| && forall i :: 0 <= i < |seen| ==> r <= seen[i] < |parents|
    requires ChildrenOf(parents, seen[k], kids)
    ensures forall i :: 0 <= i < |seen + kids| ==> r <= (seen + kids)[i] < |parents|
  {
    assert forall i :: |seen| <= i < |seen + kids| ==> (seen + kids)[i] == kids[i - |seen|];
  }

  /** Every node that the queue loop has seen lies in the subtree of `r`. */
  lemma {:induction false} SeenDescends(parents: seq<int>, children: seq<seq<nat>>, r: nat,
                                        seen: seq<nat>, k: nat, i: nat)
    requires WellFormed(parents, children)
    requires k <= |seen| && 0 < |seen| && seen[0] == r
    requires forall j :: 0 <= j < |seen| ==> seen[j] < |parents|
    requires seen == [r] + Expand(children, seen, k)
    requires ParentsFirst(parents, seen)
    requires i < |seen|
    ensures Descends(parents, seen[i], r)
    decreases i
  {
    if i > 0 {
      var m := ParentYielded(parents, children, r, seen, k, i);
      SeenDescends(parents, children, r, seen, k, m);
    }
  }

  /** When the queue is empty, the yielded nodes are the breadth-first order. */
  lemma BfsDone(parents: seq<int>, children: seq<seq<nat>>, r: nat, order: seq<nat>)
    requires WellFormed(parents, children) && r < |parents|
    requires Frontier(parents, children, r, order, |order|)
    ensures BreadthFirst(parents, children, r, order)
  {
    forall x | 0 <= x < |parents|
      ensures x in order <==> Descends(parents, x, r)
    {
      if Descends(parents, x, r) {
        ExpansionHoldsSubtree(parents, children, r, order, x);
      }
      if x in order {
        var i :| 0 <= i < |order| && order[i] == x;
        SeenDescends(parents, children, r, order, |order|, i);
      }
    }
  }
}
