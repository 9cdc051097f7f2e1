/** Obstacle tests consulted by the planner: an n-dimensional axis-aligned box
    and an n-dimensional sphere. A point on the boundary of an obstacle is in
    collision. Coordinates are exact reals; every square root of the source is
    replaced by a comparison of squares. */
module Collision {

  /** A point of the search space. */
  type State = seq<real>

  /** The two kinds of obstacle (`CollisionBox`, `CollisionSphere`). */
  datatype Obstacle =
    | Box(location: State, halfLengths: State)
    | Sphere(location: State, radius: real)

  function Abs(x: real): (r: real)
    ensures r >= 0.0 && (r == x || r == -x)
  {
    if x < 0.0 then -x else x
  }

  /** The square of a coordinate difference. */
  function Sq(x: real): real
  {
    x * x
  }

  lemma SqPositive(x: real)
    ensures Sq(x) >= 0.0
    ensures x != 0.0 ==> Sq(x) > 0.0
  {
    if x < 0.0 {
      var y := -x;
      calc { Sq(x); == x * x; == y * y; > 0.0; }
    } else if x > 0.0 {
      calc { Sq(x); == x * x; > 0.0; }
    } else {
      calc { Sq(x); == 0.0 * 0.0; == 0.0; }
    }
  }

  /** Squaring is strictly increasing on the non-negative reals. */
  lemma SqIncreasing(u: real, v: real)
    requires 0.0 <= u < v
    ensures Sq(u) < Sq(v)
  {
    var e := v - u;
    calc {
      Sq(v);
      == (u + e) * (u + e);
      == u * u + 2.0 * u * e + e * e;
      >= { assert u * e >= 0.0; } u * u + e * e;
      > { assert e * e > 0.0; } u * u;
      == Sq(u);
    }
  }

  /** Sum of (a[i] - b[i])^2 over the coordinates of `a`, accumulated from the
      first coordinate on: the squared Euclidean distance before `sqrt`. */
  function SqDist(a: State, b: State): (r: real)
    requires |a| <= |b|
    ensures r >= 0.0
    decreases |a|
  {
    if |a| == 0 then 0.0
    else
      var k := |a| - 1;
      SqPositive(a[k] - b[k]);
      SqDist(a[..k], b) + Sq(a[k] - b[k])
  }

  /** The squared distance vanishes exactly when the points agree on every
      coordinate of `a`. */
  lemma {:induction false} SqDistZero(a: State, b: State)
    requires |a| <= |b|
    ensures SqDist(a, b) == 0.0 <==> a == b[..|a|]
    decreases |a|
  {
    if |a| > 0 {
      var k := |a| - 1;
      SqPositive(a[k] - b[k]);
      SqDistZero(a[..k], b);
      assert a == b[..|a|] <==> a[..k] == b[..k] && a[k] == b[k] by {
        if a[..k] == b[..k] && a[k] == b[k] {
          assert forall i :: 0 <= i < |a| ==> a[i] == b[..|a|][i];
        }
      }
    }
  }

  /** One more coordinate adds its squared difference. */
  lemma SqDistStep(a: State, b: State, j: nat)
    requires j < |a| <= |b|
    ensures SqDist(a[..j + 1], b) == SqDist(a[..j], b) + Sq(a[j] - b[j])
  {
    assert a[..j + 1][..j] == a[..j];
  }

  /** `d` is the Euclidean length whose square is `sq`: what `np.sqrt(sq)`
      stands for. */
  ghost predicate IsRoot(d: real, sq: real)
  {
    d >= 0.0 && Sq(d) == sq
  }

  lemma RootCompare(d: real, sq: real, bound: real)
    requires IsRoot(d, sq)
    ensures d <= bound <==> bound >= 0.0 && sq <= Sq(bound)
  {
    if d < bound {
      SqIncreasing(d, bound);
    } else if d > bound && bound >= 0.0 {
      SqIncreasing(bound, d);
    }
  }

  /** The test `sqrt(sq) <= bound`, stated without the square root. */
  function WithinBound(sq: real, bound: real): (r: bool)
    requires sq >= 0.0
    ensures r ==> bound >= 0.0
    ensures forall d {:trigger IsRoot(d, sq)} :: IsRoot(d, sq) ==> (r <==> d <= bound)
  {
    RootCompareAll(sq, bound);
    bound >= 0.0 && sq <= Sq(bound)
  }

  lemma RootCompareAll(sq: real, bound: real)
    ensures forall d {:trigger IsRoot(d, sq)} :: IsRoot(d, sq) ==> (d <= bound <==> bound >= 0.0 && sq <= Sq(bound))
  {
    forall d | IsRoot(d, sq)
      ensures d <= bound <==> bound >= 0.0 && sq <= Sq(bound)
    {
      RootCompare(d, sq, bound);
    }
  }

  /** The loop of `CollisionBox.in_collision` from axis `i` on: false as soon as
      one axis is farther from the centre than its half-length. */
  function BoxScan(location: State, halfLengths: State, target: State, i: nat): (r: bool)
    requires i <= |location| <= |halfLengths| && |location| <= |target|
    ensures r <==> forall j :: i <= j < |location| ==> Abs(location[j] - target[j]) <= halfLengths[j]
    decreases |location| - i
  {
    if i == |location| then true
    else if Abs(location[i] - target[i]) - halfLengths[i] > 0.0 then false
    else BoxScan(location, halfLengths, target, i + 1)
  }

  /** The indices the test reads exist for a target of `n` coordinates: both
      loops run over the coordinates of `location`. */
  predicate Fits(o: Obstacle, n: nat)
  {
    match o
    case Box(location, halfLengths) => |location| <= |halfLengths| && |location| <= n
    case Sphere(location, _) => |location| <= n
  }

  /** `in_collision` of either obstacle; the boundary counts as collision. */
  function InCollision(o: Obstacle, target: State): (r: bool)
    requires Fits(o, |target|)
    ensures o.Box? ==>
      (r <==> forall j :: 0 <= j < |o.location| ==> Abs(o.location[j] - target[j]) <= o.halfLengths[j])
    ensures o.Sphere? ==>
      forall d {:trigger IsRoot(d, SqDist(o.location, target))} ::
        IsRoot(d, SqDist(o.location, target)) ==> (r <==> d <= o.radius)
  {
    match o
    case Box(location, halfLengths) => BoxScan(location, halfLengths, target, 0)
    case Sphere(location, radius) => WithinBound(SqDist(location, target), radius)
  }

  /** A point on the surface of the box along every axis is in collision. */
  lemma BoxSurfaceCollides(location: State, halfLengths: State, target: State)
    requires Fits(Box(location, halfLengths), |target|)
    requires forall j :: 0 <= j < |location| ==> Abs(location[j] - target[j]) == halfLengths[j]
    ensures InCollision(Box(location, halfLengths), target)
  {
  }

  /** One axis beyond its half-length is enough to leave the box, whatever the
      other axes are. */
  lemma BoxAxisOutside(location: State, halfLengths: State, target: State, j: nat)
    requires Fits(Box(location, halfLengths), |target|)
    requires j < |location| && Abs(location[j] - target[j]) > halfLengths[j]
    ensures !InCollision(Box(location, halfLengths), target)
  {
  }

  /** With non-negative half-lengths the centre of a box is in collision. */
  lemma BoxCentreCollides(location: State, halfLengths: State)
    requires |location| <= |halfLengths|
    requires forall j :: 0 <= j < |location| ==> halfLengths[j] >= 0.0
    ensures InCollision(Box(location, halfLengths), location)
  {
    forall j | 0 <= j < |location|
      ensures Abs(location[j] - location[j]) <= halfLengths[j]
    {
      assert location[j] - location[j] == 0.0;
    }
  }

  /** A point exactly `radius` away from the centre is in collision; a point
      farther away is not. */
  lemma SphereSurface(location: State, radius: real, target: State, d: real)
    requires |location| <= |target|
    requires IsRoot(d, SqDist(location, target))
    ensures d == radius ==> InCollision(Sphere(location, radius), target)
    ensures d > radius ==> !InCollision(Sphere(location, radius), target)
  {
  }

  /** For a non-negative radius the sphere test compares squares: collision
      exactly when the squared distance is at most the squared radius. */
  lemma SphereBySquares(location: State, radius: real, target: State)
    requires |location| <= |target| && radius >= 0.0
    ensures InCollision(Sphere(location, radius), target) <==> SqDist(location, target) <= Sq(radius)
  {
  }

  /** The computed distance is never negative, so a sphere of negative radius
      never collides. */
  lemma NegativeRadiusNeverCollides(location: State, radius: real, target: State)
    requires |location| <= |target| && radius < 0.0
    ensures !InCollision(Sphere(location, radius), target)
  {
  }
}
