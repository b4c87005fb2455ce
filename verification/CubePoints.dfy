/**
 What boxes mean (contrib/cube/cube.c): a box is a set of points, whose coordinates beyond its dimensions are
 zero.  The tests, distances and searches of the other modules are said here of points alone.
 */
module CubePoints {
  import opened Roots
  import opened CubeBox
  import opened CubeOrder
  import opened CubeGist
  import opened CubeDistance
  import opened CubeSplit
  import opened CubeTree

  type Point = nat -> real

  ghost predicate In(p: Point, b: Box)
    requires b.Valid()
  {
    forall i: nat :: InAt(p, b, i)
  }

  /** Between the two corners in dimension `i`, in whatever order they are stored; zero where the box has no such dimension. */
  ghost predicate InAt(p: Point, b: Box, i: nat)
    requires b.Valid()
  {
    if i < b.dim then b.LL(i) <= p(i) <= b.UR(i) || b.UR(i) <= p(i) <= b.LL(i) else p(i) == 0.0
  }

  lemma InAtExactly(p: Point, b: Box, i: nat)
    requires b.Valid()
    ensures InAt(p, b, i) <==> b.Lo(i) <= p(i) <= b.Hi(i)
  {}

  ghost function Low(b: Box): Point
    requires b.Valid()
  {
    (i: nat) => b.Lo(i)
  }

  ghost function High(b: Box): Point
    requires b.Valid()
  {
    (i: nat) => b.Hi(i)
  }

  lemma CornersIn(b: Box)
    requires b.Valid()
    ensures In(Low(b), b) && In(High(b), b)
  {
    forall i: nat ensures InAt(Low(b), b, i) && InAt(High(b), b, i) {}
  }

  // ----- the operators -----

  /** The boxes have a point in common. */
  ghost predicate ShareAPoint(a: Box, b: Box)
    requires a.Valid() && b.Valid()
  {
    exists p :: In(p, a) && In(p, b)
  }

  /** In the dimensions of `b` every point of `b` lies in `a`. */
  ghost predicate Covers(a: Box, b: Box)
    requires a.Valid() && b.Valid()
  {
    forall p, i: nat :: In(p, b) && i < b.dim ==> InAt(p, a, i)
  }

  /** The same points, in the same number of dimensions. */
  ghost predicate SamePoints(a: Box, b: Box)
    requires a.Valid() && b.Valid()
  {
    a.dim == b.dim && forall p :: In(p, a) <==> In(p, b)
  }

  ghost function Common(a: Box, b: Box): Point
    requires a.Valid() && b.Valid()
  {
    (i: nat) => Max(a.Lo(i), b.Lo(i))
  }

  lemma OverlapExactly(a: Box, b: Box)
    requires a.Valid() && b.Valid()
    ensures Overlap(a, b) <==> ShareAPoint(a, b)
  {
    if Overlap(a, b) {
      var p := Common(a, b);
      forall i: nat ensures InAt(p, a, i) && InAt(p, b, i) {
        assert Meet(a, b, i);
        InAtExactly(p, a, i);
        InAtExactly(p, b, i);
      }
      assert In(p, a) && In(p, b);
    }
    if p :| In(p, a) && In(p, b) {
      forall i: nat ensures Meet(a, b, i) {
        assert InAt(p, a, i) && InAt(p, b, i);
        InAtExactly(p, a, i);
        InAtExactly(p, b, i);
      }
    }
  }

  lemma ContainsExactly(a: Box, b: Box)
    requires a.Valid() && b.Valid()
    ensures Contains(a, b) <==> Covers(a, b)
  {
    if Contains(a, b) {
      forall p, i: nat | In(p, b) && i < b.dim ensures InAt(p, a, i) {
        assert InAt(p, b, i) && Inside(b, i, a.Lo(i), a.Hi(i));
        InAtExactly(p, b, i);
        InAtExactly(p, a, i);
      }
    }
    if Covers(a, b) {
      CornersIn(b);
      forall i: nat | i < b.dim ensures Inside(b, i, a.Lo(i), a.Hi(i)) {
        assert InAt(Low(b), a, i) && InAt(High(b), a, i);
        InAtExactly(Low(b), a, i);
        InAtExactly(High(b), a, i);
      }
    }
  }

  /** Boxes with the same points have the same intervals. */
  lemma SameIntervals(a: Box, b: Box, i: nat)
    requires a.Valid() && b.Valid() && forall p :: In(p, a) ==> In(p, b)
    ensures b.Lo(i) <= a.Lo(i) && a.Hi(i) <= b.Hi(i)
  {
    CornersIn(a);
    assert InAt(Low(a), b, i) && InAt(High(a), b, i);
    InAtExactly(Low(a), b, i);
    InAtExactly(High(a), b, i);
  }

  lemma EqualExactly(a: Box, b: Box)
    requires a.Valid() && b.Valid()
    ensures Cmp(a, b) == 0 <==> SamePoints(a, b)
  {
    hide Cmp;
    CmpEqual(a, b);
    if Cmp(a, b) == 0 {
      forall p ensures In(p, a) <==> In(p, b) {
        forall i: nat ensures InAt(p, a, i) <==> InAt(p, b, i) {
          InAtExactly(p, a, i);
          InAtExactly(p, b, i);
        }
      }
    }
    if SamePoints(a, b) {
      forall i: nat ensures a.Lo(i) == b.Lo(i) && a.Hi(i) == b.Hi(i) {
        SameIntervals(a, b, i);
        SameIntervals(b, a, i);
      }
    }
  }

  /** What the operator of a strategy says of an entry and a query. */
  ghost predicate Satisfies(x: Box, q: Box, strategy: Strategy)
    requires x.Valid() && q.Valid()
  {
    match strategy
    case Overlaps => ShareAPoint(x, q)
    case Same => SamePoints(x, q)
    case ContainsQuery => Covers(x, q)
    case ContainedBy => Covers(q, x)
  }

  lemma LeafIsExact(x: Box, q: Box, strategy: Strategy)
    requires x.Valid() && q.Valid()
    ensures LeafConsistent(x, q, strategy) <==> Satisfies(x, q, strategy)
  {
    match strategy
    case Overlaps => OverlapExactly(x, q);
    case Same => EqualExactly(x, q);
    case ContainsQuery => ContainsExactly(x, q);
    case ContainedBy => ContainsExactly(q, x);
  }

  // ----- searches -----

  lemma {:induction false} FoundIsExact(t: Tree, x: Box, q: Box, strategy: Strategy)
    requires WellFormed(t) && q.Valid() && Finds(t, x, q, strategy)
    ensures Holds(t, x) && x.Valid() && Satisfies(x, q, strategy)
    decreases t
  {
    hide Satisfies, LeafConsistent, InternalConsistent;
    if t.Leaf? {
      LeafIsExact(x, q, strategy);
    } else {
      var i :| 0 <= i < |t.children| && Finds(t.children[i], x, q, strategy);
      FoundIsExact(t.children[i], x, q, strategy);
    }
  }

  /**
   After every history a search finds only boxes that are there and satisfy its operator, and it finds all of those;
   for ContainedBy, all for which the query reaches zero in the dimensions the box lacks.
   */
  lemma {:induction false} SearchFindsExactly(t: Tree, n: nat, x: Box, q: Box, strategy: Strategy)
    requires Grown(t, n) && q.Valid()
    ensures WellFormed(t)
    ensures Finds(t, x, q, strategy) ==> Holds(t, x) && x.Valid() && Satisfies(x, q, strategy)
    ensures Holds(t, x) ==> x.Valid()
    ensures Holds(t, x) && Satisfies(x, q, strategy) && (strategy != ContainedBy || StraddlesZero(q, x.dim)) ==> Finds(t, x, q, strategy)
  {
    hide Satisfies, LeafConsistent, Grown, Finds, Holds;
    GrownIsWellFormed(t, n);
    if Finds(t, x, q, strategy) { FoundIsExact(t, x, q, strategy); }
    if Holds(t, x) {
      HeldIsValid(t, x);
      LeafIsExact(x, q, strategy);
      if Satisfies(x, q, strategy) && (strategy != ContainedBy || StraddlesZero(q, x.dim)) {
        WellFormedFinds(t, x, q, strategy);
      }
    }
  }

  lemma {:induction false} HeldIsValid(t: Tree, x: Box)
    requires WellFormed(t) && Holds(t, x)
    ensures x.Valid()
  {
    TreeEncloses(t, x);
  }

  // ----- unions and intersections -----

  /** A union has the points of both boxes. */
  lemma UnionPoints(r: Box, a: Box, b: Box, p: Point)
    requires a.Valid() && b.Valid() && IsUnion(r, a, b) && (In(p, a) || In(p, b))
    ensures In(p, r)
  {
    forall i: nat ensures InAt(p, r, i) {
      assert (In(p, a) ==> InAt(p, a, i)) && (In(p, b) ==> InAt(p, b, i));
      UnionSpans(r, a, b, i);
      InAtExactly(p, a, i);
      InAtExactly(p, b, i);
      InAtExactly(p, r, i);
    }
  }

  /** The intersection of boxes that meet has exactly their common points. */
  lemma InterPoints(a: Box, b: Box, p: Point)
    requires a.Valid() && b.Valid() && Overlap(a, b)
    ensures In(p, Inter(a, b)) <==> In(p, a) && In(p, b)
  {
    var r := Inter(a, b);
    forall i: nat ensures InAt(p, r, i) <==> InAt(p, a, i) && InAt(p, b, i) {
      assert Meet(a, b, i);
      InterAt(a, b, i);
      InAtExactly(p, a, i);
      InAtExactly(p, b, i);
      InAtExactly(p, r, i);
    }
  }

  lemma InterAt(a: Box, b: Box, i: nat)
    requires a.Valid() && b.Valid() && Meet(a, b, i)
    ensures Inter(a, b).Lo(i) == Max(a.Lo(i), b.Lo(i)) && Inter(a, b).Hi(i) == Min(a.Hi(i), b.Hi(i))
  {
    var r := Inter(a, b);
    if i < r.dim {
      assert r.x[i] == Max(a.Lo(i), b.Lo(i)) && r.x[i + r.dim] == Min(a.Hi(i), b.Hi(i));
    }
  }

  // ----- distances -----

  /** The distances between two points over the first `n` dimensions. */
  ghost function PointTaxicab(p: Point, q: Point, n: nat): real {
    if n == 0 then 0.0 else PointTaxicab(p, q, n - 1) + Abs(p(n - 1) - q(n - 1))
  }

  function Sq(x: real): real { x * x }

  ghost function PointSquared(p: Point, q: Point, n: nat): real {
    if n == 0 then 0.0 else PointSquared(p, q, n - 1) + Sq(p(n - 1) - q(n - 1))
  }

  ghost function PointChebyshev(p: Point, q: Point, n: nat): real {
    if n == 0 then 0.0 else Max(PointChebyshev(p, q, n - 1), Abs(p(n - 1) - q(n - 1)))
  }

  /** The point of `a` nearest to `b`. */
  ghost function Nearest(a: Box, b: Box): Point
    requires a.Valid() && b.Valid()
  {
    (i: nat) => if a.Hi(i) <= b.Lo(i) then a.Hi(i) else Max(a.Lo(i), b.Lo(i))
  }

  ghost function Facing(a: Box, b: Box): Point
    requires a.Valid() && b.Valid()
  {
    (i: nat) => if a.Hi(i) <= b.Lo(i) then b.Lo(i) else Min(b.Hi(i), Nearest(a, b)(i))
  }

  lemma NearestIn(a: Box, b: Box)
    requires a.Valid() && b.Valid()
    ensures In(Nearest(a, b), a) && In(Facing(a, b), b)
    ensures forall i: nat :: Abs(Nearest(a, b)(i) - Facing(a, b)(i)) == Gap(a, b, i)
  {
    forall i: nat ensures InAt(Nearest(a, b), a, i) && InAt(Facing(a, b), b, i) {
      InAtExactly(Nearest(a, b), a, i);
      InAtExactly(Facing(a, b), b, i);
    }
  }

  lemma GapBelow(a: Box, b: Box, p: Point, q: Point, i: nat)
    requires a.Valid() && b.Valid() && In(p, a) && In(q, b)
    ensures Gap(a, b, i) <= Abs(p(i) - q(i))
  {
    assert InAt(p, a, i) && InAt(q, b, i);
    InAtExactly(p, a, i);
    InAtExactly(q, b, i);
  }

  lemma SquareMonotone(x: real, y: real)
    requires 0.0 <= x <= Abs(y)
    ensures x * x <= Sq(y)
  {
    var z := Abs(y);
    assert x * x <= x * z <= z * z == y * y;
  }

  lemma SquaredStep(a: Box, b: Box, n: nat)
    requires a.Valid() && b.Valid() && n > 0
    ensures Squared(a, b, n) == Squared(a, b, n - 1) + Gap(a, b, n - 1) * Gap(a, b, n - 1)
  {}

  /** No two points of the boxes are nearer than the boxes. */
  lemma {:induction false} SumsBelow(a: Box, b: Box, p: Point, q: Point, n: nat)
    requires a.Valid() && b.Valid() && In(p, a) && In(q, b)
    ensures Taxicab(a, b, n) <= PointTaxicab(p, q, n) && Chebyshev(a, b, n) <= PointChebyshev(p, q, n)
  {
    hide In, Gap;
    if n > 0 {
      SumsBelow(a, b, p, q, n - 1);
      GapBelow(a, b, p, q, n - 1);
    }
  }

  lemma {:induction false} SquaresBelow(a: Box, b: Box, p: Point, q: Point, n: nat)
    requires a.Valid() && b.Valid() && In(p, a) && In(q, b)
    ensures Squared(a, b, n) <= PointSquared(p, q, n)
  {
    hide In, Gap, Sq, Squared;
    if n > 0 {
      SquaresBelow(a, b, p, q, n - 1);
      SquaredStep(a, b, n);
      GapBelow(a, b, p, q, n - 1);
      SquareMonotone(Gap(a, b, n - 1), p(n - 1) - q(n - 1));
    } else {
      NothingSquared(a, b);
    }
  }

  lemma NothingSquared(a: Box, b: Box)
    requires a.Valid() && b.Valid()
    ensures Squared(a, b, 0) == 0.0
  {}

  lemma SquareOfAbs(x: real, y: real)
    requires Abs(x) == y
    ensures Sq(x) == y * y
  {}

  /** And two points are as near. */
  lemma {:induction false} DistancesReached(a: Box, b: Box, p: Point, q: Point, n: nat)
    requires a.Valid() && b.Valid() && forall i: nat :: Abs(p(i) - q(i)) == Gap(a, b, i)
    ensures Taxicab(a, b, n) == PointTaxicab(p, q, n) && Squared(a, b, n) == PointSquared(p, q, n) && Chebyshev(a, b, n) == PointChebyshev(p, q, n)
  {
    hide Gap, Sq, Squared;
    if n > 0 {
      DistancesReached(a, b, p, q, n - 1);
      SquaredStep(a, b, n);
      SquareOfAbs(p(n - 1) - q(n - 1), Gap(a, b, n - 1));
    } else {
      NothingSquared(a, b);
    }
  }

  /** The three distances between boxes are the least distances between their points. */
  lemma DistanceIsLeast(a: Box, b: Box) returns (p: Point, q: Point)
    requires a.Valid() && b.Valid()
    ensures In(p, a) && In(q, b)
    ensures var n := Dims(a, b);
      && Taxicab(a, b, n) == PointTaxicab(p, q, n) && Squared(a, b, n) == PointSquared(p, q, n) && Chebyshev(a, b, n) == PointChebyshev(p, q, n)
      && forall p', q' :: In(p', a) && In(q', b) ==>
        && Taxicab(a, b, n) <= PointTaxicab(p', q', n) && Squared(a, b, n) <= PointSquared(p', q', n)
        && Chebyshev(a, b, n) <= PointChebyshev(p', q', n)
  {
    hide Gap, In, Taxicab, Squared, Chebyshev, PointTaxicab, PointSquared, PointChebyshev;
    p, q := Nearest(a, b), Facing(a, b);
    NearestIn(a, b);
    DistancesReached(a, b, p, q, Dims(a, b));
    forall p', q' | In(p', a) && In(q', b) ensures Taxicab(a, b, Dims(a, b)) <= PointTaxicab(p', q', Dims(a, b))
      && Squared(a, b, Dims(a, b)) <= PointSquared(p', q', Dims(a, b)) && Chebyshev(a, b, Dims(a, b)) <= PointChebyshev(p', q', Dims(a, b))
    {
      SumsBelow(a, b, p', q', Dims(a, b));
      SquaresBelow(a, b, p', q', Dims(a, b));
    }
  }
}
