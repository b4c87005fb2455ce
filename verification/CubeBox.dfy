/**
 N-dimensional boxes (contrib/cube: cubedata.h, cube.c).

 A box stores two corners in no particular order, or one when it is a point; a dimension it
 does not have counts as the interval [0, 0].  Coordinates are real numbers.
 */
module CubeBox {

  datatype Box = Box(dim: nat, point: bool, x: seq<real>) {
    predicate Valid() { |x| >= if point then dim else 2 * dim }

    /** `LL_COORD` and `UR_COORD`. */
    function LL(i: nat): real
      requires Valid() && i < dim
    {
      x[i]
    }

    function UR(i: nat): real
      requires Valid() && i < dim
    {
      if point then x[i] else x[i + dim]
    }

    /** The interval of the box in any dimension. */
    function Lo(i: nat): real
      requires Valid()
    {
      if i < dim then Min(LL(i), UR(i)) else 0.0
    }

    function Hi(i: nat): (h: real)
      requires Valid()
      ensures Lo(i) <= h
    {
      if i < dim then Max(LL(i), UR(i)) else 0.0
    }
  }

  function Min(a: real, b: real): real { if a <= b then a else b }

  function Max(a: real, b: real): real { if a <= b then b else a }

  /** In dimension `i` the box lies between `lo` and `hi`. */
  ghost predicate Inside(b: Box, i: nat, lo: real, hi: real)
    requires b.Valid()
  {
    lo <= b.Lo(i) && b.Hi(i) <= hi
  }

  /** `a` has every dimension of `b` and its intervals enclose those of `b`, zero padding included. */
  ghost predicate Encloses(a: Box, b: Box) {
    a.Valid() && b.Valid() && b.dim <= a.dim && forall i: nat :: Inside(b, i, a.Lo(i), a.Hi(i))
  }

  lemma EnclosesTransitive(a: Box, b: Box, c: Box)
    requires Encloses(a, b) && Encloses(b, c)
    ensures Encloses(a, c)
  {
    forall i: nat ensures Inside(c, i, a.Lo(i), a.Hi(i)) {
      assert Inside(b, i, a.Lo(i), a.Hi(i)) && Inside(c, i, b.Lo(i), b.Hi(i));
    }
  }

  lemma EnclosesSelf(a: Box)
    requires a.Valid()
    ensures Encloses(a, a)
  {}

  // ----- cube_union_v0 -----

  /** The dimensions either box has. */
  function Dims(a: Box, b: Box): nat { if a.dim < b.dim then b.dim else a.dim }

  /** `r` is the box around `a` and `b`, dimension by dimension. */
  ghost predicate IsUnion(r: Box, a: Box, b: Box)
    requires a.Valid() && b.Valid()
  {
    && r.Valid() && r.dim == Dims(a, b)
    && forall i: nat :: i < r.dim ==> SpansAt(r, a, b, i)
  }

  ghost predicate SpansAt(r: Box, a: Box, b: Box, i: nat)
    requires r.Valid() && a.Valid() && b.Valid()
  {
    r.Lo(i) == Min(a.Lo(i), b.Lo(i)) && r.Hi(i) == Max(a.Hi(i), b.Hi(i))
  }

  lemma UnionSpans(r: Box, a: Box, b: Box, i: nat)
    requires a.Valid() && b.Valid() && IsUnion(r, a, b)
    ensures SpansAt(r, a, b, i)
  {}

  /** A union encloses both and is enclosed by whatever encloses both. */
  lemma UnionIsLeast(r: Box, a: Box, b: Box)
    requires a.Valid() && b.Valid() && IsUnion(r, a, b)
    ensures Encloses(r, a) && Encloses(r, b)
    ensures forall e: Box :: Encloses(e, a) && Encloses(e, b) ==> Encloses(e, r)
  {
    forall i: nat ensures Inside(a, i, r.Lo(i), r.Hi(i)) && Inside(b, i, r.Lo(i), r.Hi(i)) { UnionSpans(r, a, b, i); }
    forall e: Box | Encloses(e, a) && Encloses(e, b) ensures Encloses(e, r) {
      forall i: nat ensures Inside(r, i, e.Lo(i), e.Hi(i)) {
        UnionSpans(r, a, b, i);
        assert Inside(a, i, e.Lo(i), e.Hi(i)) && Inside(b, i, e.Lo(i), e.Hi(i));
      }
    }
  }

  /** `cube_is_point_internal`. */
  method IsPoint(b: Box) returns (p: bool)
    requires b.Valid()
    ensures p == (b.point || forall i :: 0 <= i < b.dim ==> b.LL(i) == b.UR(i))
  {
    if b.point {
      return true;
    }
    for i := 0 to b.dim
      invariant forall k :: 0 <= k < i ==> b.LL(k) == b.UR(k)
    {
      if b.LL(i) != b.UR(i) {
        return false;
      }
    }
    p := true;
  }

  /** `same` says that both arguments are one object, which is then returned as it is. */
  method Union(a: Box, b: Box, same: bool) returns (r: Box)
    requires a.Valid() && b.Valid() && (same ==> a == b)
    ensures IsUnion(r, a, b)
  {
    if same {
      return a;
    }
    if a.dim < b.dim {
      r := UnionOrdered(b, a);
      UnionSymmetric(r, b, a);
    } else {
      r := UnionOrdered(a, b);
    }
  }

  /** `cube_union_v0`, after the swap. */
  method UnionOrdered(a: Box, b: Box) returns (r: Box)
    requires a.Valid() && b.Valid() && b.dim <= a.dim
    ensures IsUnion(r, a, b)
  {
    hide IsUnion, Filled;
    var x := FillUnion(a, b);
    r := Box(a.dim, false, x[..]);
    FilledIsUnion(a, b, x[..]);
    var p := IsPoint(r);
    if p {
      PointFlag(r, a, b);
      r := Box(a.dim, true, x[..]);
    }
  }

  /** The first `n` dimensions of `x` span both boxes. */
  ghost predicate Filled(x: seq<real>, a: Box, b: Box, n: nat)
    requires a.Valid() && b.Valid() && n <= a.dim && |x| == 2 * a.dim
  {
    forall k :: 0 <= k < n ==> x[k] == Min(a.Lo(k), b.Lo(k)) && x[k + a.dim] == Max(a.Hi(k), b.Hi(k))
  }

  /** The two loops: dimensions of both boxes, then those of the first only. */
  method FillUnion(a: Box, b: Box) returns (x: array<real>)
    requires a.Valid() && b.Valid() && b.dim <= a.dim
    ensures fresh(x) && x.Length == 2 * a.dim && Filled(x[..], a, b, a.dim)
  {
    var dim := a.dim;
    x := new real[2 * dim](_ => 0.0);
    var i := 0;
    while i < b.dim
      invariant 0 <= i <= b.dim && Filled(x[..], a, b, i)
    {
      x[i] := Min(Min(a.LL(i), a.UR(i)), Min(b.LL(i), b.UR(i)));
      x[i + dim] := Max(Max(a.LL(i), a.UR(i)), Max(b.LL(i), b.UR(i)));
      i := i + 1;
    }
    while i < dim
      invariant b.dim <= i <= dim && Filled(x[..], a, b, i)
    {
      x[i] := Min(0.0, Min(a.LL(i), a.UR(i)));
      x[i + dim] := Max(0.0, Max(a.LL(i), a.UR(i)));
      i := i + 1;
    }
  }

  lemma FilledIsUnion(a: Box, b: Box, x: seq<real>)
    requires a.Valid() && b.Valid() && b.dim <= a.dim && |x| == 2 * a.dim && Filled(x, a, b, a.dim)
    ensures IsUnion(Box(a.dim, false, x), a, b)
  {
    var r := Box(a.dim, false, x);
    forall k: nat | k < a.dim ensures SpansAt(r, a, b, k) {
      assert x[k] == Min(a.Lo(k), b.Lo(k)) && x[k + a.dim] == Max(a.Hi(k), b.Hi(k));
    }
  }

  lemma UnionSymmetric(r: Box, a: Box, b: Box)
    requires a.Valid() && b.Valid() && IsUnion(r, a, b)
    ensures IsUnion(r, b, a)
  {
    forall i: nat | i < r.dim ensures SpansAt(r, b, a, i) { assert SpansAt(r, a, b, i); }
  }

  /** Setting the point flag of a box whose corners coincide changes no interval. */
  lemma PointFlag(r: Box, a: Box, b: Box)
    requires a.Valid() && b.Valid() && IsUnion(r, a, b) && !r.point
    requires forall i :: 0 <= i < r.dim ==> r.LL(i) == r.UR(i)
    ensures IsUnion(Box(r.dim, true, r.x), a, b)
  {
    var p := Box(r.dim, true, r.x);
    forall i: nat | i < r.dim ensures SpansAt(p, a, b, i) {
      assert SpansAt(r, a, b, i) && r.LL(i) == r.UR(i);
    }
  }

  // ----- comparisons -----

  /** `cube_contains_v0`. */
  ghost predicate Contains(a: Box, b: Box)
    requires a.Valid() && b.Valid()
  {
    forall i: nat :: i < b.dim ==> Inside(b, i, a.Lo(i), a.Hi(i))
  }

  method ContainsV0(a: Box, b: Box) returns (r: bool)
    requires a.Valid() && b.Valid()
    ensures r == Contains(a, b)
  {
    if a.dim < b.dim {
      for i := a.dim to b.dim
        invariant forall k: nat :: a.dim <= k < i ==> Inside(b, k, a.Lo(k), a.Hi(k))
      {
        assert Inside(b, i, a.Lo(i), a.Hi(i)) <==> b.LL(i) == 0.0 && b.UR(i) == 0.0;
        if b.LL(i) != 0.0 {
          return false;
        }
        if b.UR(i) != 0.0 {
          return false;
        }
      }
    }
    var m := if a.dim < b.dim then a.dim else b.dim;
    for i := 0 to m
      invariant forall k: nat :: k < i ==> Inside(b, k, a.Lo(k), a.Hi(k))
    {
      assert Inside(b, i, a.Lo(i), a.Hi(i)) <==> a.Lo(i) <= b.Lo(i) && b.Hi(i) <= a.Hi(i);
      if Min(a.LL(i), a.UR(i)) > Min(b.LL(i), b.UR(i)) {
        return false;
      }
      if Max(a.LL(i), a.UR(i)) < Max(b.LL(i), b.UR(i)) {
        return false;
      }
    }
    r := true;
  }

  ghost predicate Meet(a: Box, b: Box, i: nat)
    requires a.Valid() && b.Valid()
  {
    a.Lo(i) <= b.Hi(i) && b.Lo(i) <= a.Hi(i)
  }

  /** `cube_overlap_v0`: the boxes share a point, zero padding included. */
  ghost predicate Overlap(a: Box, b: Box)
    requires a.Valid() && b.Valid()
  {
    forall i: nat :: Meet(a, b, i)
  }

  method OverlapV0(a0: Box, b0: Box) returns (r: bool)
    requires a0.Valid() && b0.Valid()
    ensures r == Overlap(a0, b0)
  {
    var (a, b) := if a0.dim < b0.dim then (b0, a0) else (a0, b0);
    assert forall i: nat :: Meet(a, b, i) <==> Meet(a0, b0, i);
    for i := 0 to b.dim
      invariant forall k: nat :: k < i ==> Meet(a, b, k)
    {
      assert Meet(a, b, i) <==> a.Lo(i) <= b.Hi(i) && b.Lo(i) <= a.Hi(i);
      if Min(a.LL(i), a.UR(i)) > Max(b.LL(i), b.UR(i)) {
        return false;
      }
      if Max(a.LL(i), a.UR(i)) < Min(b.LL(i), b.UR(i)) {
        return false;
      }
    }
    for i := b.dim to a.dim
      invariant forall k: nat :: k < i ==> Meet(a, b, k)
    {
      assert Meet(a, b, i) <==> a.Lo(i) <= 0.0 && 0.0 <= a.Hi(i);
      if Min(a.LL(i), a.UR(i)) > 0.0 {
        return false;
      }
      if Max(a.LL(i), a.UR(i)) < 0.0 {
        return false;
      }
    }
    assert forall i: nat :: i >= a.dim ==> Meet(a, b, i);
    r := true;
  }
}
