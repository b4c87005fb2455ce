/**
 The order of boxes (contrib/cube/cube.c: `cube_cmp_v0`), and for which dimensions it is one.
 */
module CubeOrder {
  import opened CubeBox

  // ----- cube_cmp_v0 -----

  function Sign(x: real, y: real): int { if x > y then 1 else if x < y then -1 else 0 }

  /** The first difference of the lower, then of the upper ends over dimensions `i..n`. */
  function CmpLo(a: Box, b: Box, i: nat, n: nat): int
    requires a.Valid() && b.Valid() && i <= n
    decreases n - i
  {
    if i == n then 0 else if a.Lo(i) != b.Lo(i) then Sign(a.Lo(i), b.Lo(i)) else CmpLo(a, b, i + 1, n)
  }

  function CmpHi(a: Box, b: Box, i: nat, n: nat): int
    requires a.Valid() && b.Valid() && i <= n
    decreases n - i
  {
    if i == n then 0 else if a.Hi(i) != b.Hi(i) then Sign(a.Hi(i), b.Hi(i)) else CmpHi(a, b, i + 1, n)
  }

  function FirstNonZero(p: int, q: int): int { if p != 0 then p else q }

  function Cmp(a: Box, b: Box): int
    requires a.Valid() && b.Valid()
  {
    var (d, e) := if a.dim < b.dim then (a.dim, b.dim) else (b.dim, a.dim);
    FirstNonZero(CmpLo(a, b, 0, d), FirstNonZero(CmpHi(a, b, 0, d),
      FirstNonZero(CmpLo(a, b, d, e), FirstNonZero(CmpHi(a, b, d, e),
        if a.dim > b.dim then 1 else if a.dim < b.dim then -1 else 0))))
  }

  method LoopLo(a: Box, b: Box, i0: nat, n: nat) returns (r: int)
    requires a.Valid() && b.Valid() && i0 <= n
    ensures r == CmpLo(a, b, i0, n)
  {
    var i := i0;
    while i < n
      invariant i0 <= i <= n && CmpLo(a, b, i0, n) == CmpLo(a, b, i, n)
    {
      if a.Lo(i) > b.Lo(i) {
        return 1;
      }
      if a.Lo(i) < b.Lo(i) {
        return -1;
      }
      i := i + 1;
    }
    r := 0;
  }

  method LoopHi(a: Box, b: Box, i0: nat, n: nat) returns (r: int)
    requires a.Valid() && b.Valid() && i0 <= n
    ensures r == CmpHi(a, b, i0, n)
  {
    var i := i0;
    while i < n
      invariant i0 <= i <= n && CmpHi(a, b, i0, n) == CmpHi(a, b, i, n)
    {
      if a.Hi(i) > b.Hi(i) {
        return 1;
      }
      if a.Hi(i) < b.Hi(i) {
        return -1;
      }
      i := i + 1;
    }
    r := 0;
  }

  /** `cube_cmp_v0`: the loops over common and extra dimensions. */
  method CmpV0(a: Box, b: Box) returns (r: int)
    requires a.Valid() && b.Valid()
    ensures r == Cmp(a, b)
  {
    var d := if a.dim < b.dim then a.dim else b.dim;
    r := LoopLo(a, b, 0, d);
    if r != 0 { return; }
    r := LoopHi(a, b, 0, d);
    if r != 0 { return; }
    var e := if a.dim < b.dim then b.dim else a.dim;
    r := LoopLo(a, b, d, e);
    if r != 0 { return; }
    r := LoopHi(a, b, d, e);
    if r != 0 { return; }
    r := if a.dim > b.dim then 1 else if a.dim < b.dim then -1 else 0;
  }

  lemma {:induction false} CmpLoZero(a: Box, b: Box, i: nat, n: nat)
    requires a.Valid() && b.Valid() && i <= n
    ensures CmpLo(a, b, i, n) == 0 <==> forall k: nat :: i <= k < n ==> a.Lo(k) == b.Lo(k)
    ensures CmpHi(a, b, i, n) == 0 <==> forall k: nat :: i <= k < n ==> a.Hi(k) == b.Hi(k)
    decreases n - i
  {
    if i < n { CmpLoZero(a, b, i + 1, n); }
  }

  /** Boxes compare equal exactly when they have the same dimensions and the same intervals. */
  lemma CmpEqual(a: Box, b: Box)
    requires a.Valid() && b.Valid()
    ensures Cmp(a, b) == 0 <==> a.dim == b.dim && forall i: nat :: i < a.dim ==> a.Lo(i) == b.Lo(i) && a.Hi(i) == b.Hi(i)
  {
    var (d, e) := if a.dim < b.dim then (a.dim, b.dim) else (b.dim, a.dim);
    CmpLoZero(a, b, 0, d);
    CmpLoZero(a, b, d, e);
  }

  lemma {:induction false} CmpAntisymmetricParts(a: Box, b: Box, i: nat, n: nat)
    requires a.Valid() && b.Valid() && i <= n
    ensures CmpLo(a, b, i, n) == -CmpLo(b, a, i, n) && CmpHi(a, b, i, n) == -CmpHi(b, a, i, n)
    decreases n - i
  {
    if i < n { CmpAntisymmetricParts(a, b, i + 1, n); }
  }

  lemma CmpAntisymmetric(a: Box, b: Box)
    requires a.Valid() && b.Valid()
    ensures Cmp(a, b) == -Cmp(b, a)
  {
    var (d, e) := if a.dim < b.dim then (a.dim, b.dim) else (b.dim, a.dim);
    CmpAntisymmetricParts(a, b, 0, d);
    CmpAntisymmetricParts(a, b, d, e);
  }

  lemma {:induction false} CmpTransitiveParts(a: Box, b: Box, c: Box, i: nat, n: nat)
    requires a.Valid() && b.Valid() && c.Valid() && i <= n
    ensures CmpLo(a, b, i, n) <= 0 && CmpLo(b, c, i, n) <= 0 ==>
      CmpLo(a, c, i, n) <= 0 && (CmpLo(a, c, i, n) == 0 ==> CmpLo(a, b, i, n) == 0 && CmpLo(b, c, i, n) == 0)
    ensures CmpHi(a, b, i, n) <= 0 && CmpHi(b, c, i, n) <= 0 ==>
      CmpHi(a, c, i, n) <= 0 && (CmpHi(a, c, i, n) == 0 ==> CmpHi(a, b, i, n) == 0 && CmpHi(b, c, i, n) == 0)
    decreases n - i
  {
    if i < n { CmpTransitiveParts(a, b, c, i + 1, n); }
  }

  // ----- transitivity -----

  /** The comparison that splits dimensions at `m`, up to dimension `n`. */
  function CmpBy(a: Box, b: Box, m: nat, n: nat): int
    requires a.Valid() && b.Valid() && m <= n
  {
    FirstNonZero(CmpLo(a, b, 0, m), FirstNonZero(CmpHi(a, b, 0, m),
      FirstNonZero(CmpLo(a, b, m, n), FirstNonZero(CmpHi(a, b, m, n),
        if a.dim > b.dim then 1 else if a.dim < b.dim then -1 else 0))))
  }

  /** With a fixed split it is transitive. */
  lemma CmpByTransitive(a: Box, b: Box, c: Box, m: nat, n: nat)
    requires a.Valid() && b.Valid() && c.Valid() && m <= n
    requires CmpBy(a, b, m, n) <= 0 && CmpBy(b, c, m, n) <= 0
    ensures CmpBy(a, c, m, n) <= 0
  {
    CmpTransitiveParts(a, b, c, 0, m);
    CmpTransitiveParts(a, b, c, m, n);
  }

  lemma {:induction false} PaddingIsEqual(a: Box, b: Box, i: nat, e: nat, n: nat)
    requires a.Valid() && b.Valid() && a.dim <= e && b.dim <= e && i <= e <= n
    ensures CmpLo(a, b, i, e) == CmpLo(a, b, i, n) && CmpHi(a, b, i, e) == CmpHi(a, b, i, n)
    decreases e - i
  {
    if i < e {
      PaddingIsEqual(a, b, i + 1, e, n);
    } else {
      CmpLoZero(a, b, e, n);
    }
  }

  /** The code splits at the smaller dimension. */
  lemma CmpIsCmpBy(a: Box, b: Box, n: nat)
    requires a.Valid() && b.Valid() && a.dim <= n && b.dim <= n
    ensures Cmp(a, b) == CmpBy(a, b, if a.dim < b.dim then a.dim else b.dim, n)
  {
    var (d, e) := if a.dim < b.dim then (a.dim, b.dim) else (b.dim, a.dim);
    PaddingIsEqual(a, b, d, e, n);
  }

  /** Boxes of one dimension compare alike however they are split at either end. */
  lemma SplitAtZero(a: Box, b: Box)
    requires a.Valid() && b.Valid() && a.dim == b.dim
    ensures Cmp(a, b) == CmpBy(a, b, 0, a.dim)
  {}

  /** Two boxes share the least dimension. */
  lemma LeastTwice(a: Box, b: Box, c: Box, m: nat)
    requires a.Valid() && b.Valid() && c.Valid() && m <= a.dim && m <= b.dim && m <= c.dim
    requires (a.dim == m || b.dim == m) && (b.dim == m || c.dim == m) && (a.dim == m || c.dim == m)
    requires Cmp(a, b) <= 0 && Cmp(b, c) <= 0
    ensures Cmp(a, c) <= 0
  {
    var n := a.dim + b.dim + c.dim;
    CmpIsCmpBy(a, b, n);
    CmpIsCmpBy(b, c, n);
    CmpIsCmpBy(a, c, n);
    CmpByTransitive(a, b, c, m, n);
  }

  lemma ZeroSplit(a: Box, b: Box, d: nat)
    requires a.Valid() && b.Valid() && (a.dim == 0 || a.dim == d) && (b.dim == 0 || b.dim == d)
    ensures Cmp(a, b) == CmpBy(a, b, 0, d)
  {
    if a.dim == 0 || b.dim == 0 { CmpIsCmpBy(a, b, d); } else { SplitAtZero(a, b); }
  }

  /** All boxes have dimension 0 or `d`. */
  lemma ZeroAndOne(a: Box, b: Box, c: Box, d: nat)
    requires a.Valid() && b.Valid() && c.Valid()
    requires (a.dim == 0 || a.dim == d) && (b.dim == 0 || b.dim == d) && (c.dim == 0 || c.dim == d)
    requires Cmp(a, b) <= 0 && Cmp(b, c) <= 0
    ensures Cmp(a, c) <= 0
  {
    ZeroSplit(a, b, d);
    ZeroSplit(b, c, d);
    ZeroSplit(a, c, d);
    CmpByTransitive(a, b, c, 0, d);
  }

  lemma {:induction false} EarlyDifference(a: Box, b: Box, i: nat, m: nat, n: nat)
    requires a.Valid() && b.Valid() && i <= m <= n && CmpLo(a, b, i, m) != 0
    ensures CmpLo(a, b, i, n) == CmpLo(a, b, i, m)
    decreases m - i
  {
    if a.Lo(i) == b.Lo(i) { EarlyDifference(a, b, i + 1, m, n); }
  }

  /** Below the box without dimensions are only boxes that begin with a negative lower end. */
  lemma {:induction false} BelowZero(z: Box, x: Box)
    requires z.Valid() && x.Valid() && z.dim == 0 < x.dim && Cmp(x, z) <= 0
    ensures CmpLo(x, z, 0, x.dim) < 0
  {
    CmpLoZero(x, z, 0, x.dim);
    if CmpLo(x, z, 0, x.dim) == 0 { HiNotNegative(x, z, 0); }
  }

  lemma {:induction false} HiNotNegative(x: Box, z: Box, i: nat)
    requires z.Valid() && x.Valid() && z.dim == 0 && i <= x.dim && forall k: nat :: k < x.dim ==> x.Lo(k) == 0.0
    ensures CmpHi(x, z, i, x.dim) >= 0
    decreases x.dim - i
  {
    if i < x.dim {
      assert x.Lo(i) <= x.Hi(i);
      HiNotNegative(x, z, i + 1);
    }
  }

  /** Around the box without dimensions there is no cycle in this direction. */
  lemma NoCycleBack(z: Box, x: Box, y: Box)
    requires z.Valid() && x.Valid() && y.Valid() && z.dim == 0 < x.dim < y.dim
    requires Cmp(x, z) <= 0 && Cmp(y, x) <= 0
    ensures Cmp(y, z) < 0
  {
    BelowZero(z, x);
    CmpTransitiveParts(y, x, z, 0, x.dim);
    EarlyDifference(y, z, 0, x.dim, y.dim);
  }

  // ----- the dimensions -----

  /** Read from the least dimension on, in the order of the chain. */
  predicate Breaks(x: nat, y: nat, z: nat) { x < y && x < z && (x > 0 || y < z) }

  predicate Unsafe(p: nat, q: nat, r: nat) { Breaks(p, q, r) || Breaks(q, r, p) || Breaks(r, p, q) }

  predicate Chain(a: Box, b: Box, c: Box) { a.Valid() && b.Valid() && c.Valid() && Cmp(a, b) <= 0 && Cmp(b, c) <= 0 }

  /** The comparison is transitive on boxes of dimensions `p`, `q` and `r`, in that order. */
  ghost predicate Transitive(p: nat, q: nat, r: nat) {
    forall a, b, c :: Chain(a, b, c) && a.dim == p && b.dim == q && c.dim == r ==> Cmp(a, c) <= 0
  }

  /** On safe dimensions a chain is closed. */
  lemma CmpTransitive(a: Box, b: Box, c: Box)
    requires Chain(a, b, c) && !Unsafe(a.dim, b.dim, c.dim)
    ensures Cmp(a, c) <= 0
  {
    var (p, q, r) := (a.dim, b.dim, c.dim);
    if p == q <= r || p == r <= q {
      LeastTwice(a, b, c, p);
    } else if q == r <= p {
      LeastTwice(a, b, c, q);
    } else if p == 0 && q == r {
      ZeroAndOne(a, b, c, q);
    } else if (q == 0 && p == r) || (r == 0 && p == q) {
      ZeroAndOne(a, b, c, p);
    } else {
      SafeAroundZero(a, b, c);
    }
  }

  /** One of the three has no dimensions, and the other two come after it in falling dimension. */
  lemma SafeAroundZero(a: Box, b: Box, c: Box)
    requires Chain(a, b, c)
    requires var (p, q, r) := (a.dim, b.dim, c.dim); (p == 0 < r < q) || (q == 0 < p < r) || (r == 0 < q < p)
    ensures Cmp(a, c) <= 0
  {
    CmpAntisymmetric(a, b);
    CmpAntisymmetric(b, c);
    CmpAntisymmetric(a, c);
    CmpEqual(a, b);
    CmpEqual(b, c);
    if Cmp(c, a) < 0 {
      if a.dim == 0 {
        NoCycleBack(a, c, b);
      } else if b.dim == 0 {
        NoCycleBack(b, a, c);
      } else {
        NoCycleBack(c, b, a);
      }
    }
  }

  // ----- cycles -----

  /** A box that is zero but for its first upper end and its lower end in dimension `k`. */
  function Spike(dim: nat, hi: real, k: nat, lo: real): (r: Box)
    ensures r.Valid() && r.dim == dim
  {
    Box(dim, false, seq(dim, i => if i == k then lo else 0.0) + seq(dim, i => if i == 0 then hi else 0.0))
  }

  lemma SpikeAt(dim: nat, hi: real, k: nat, lo: real, i: nat)
    requires hi >= 0.0 >= lo && k > 0
    ensures var b := Spike(dim, hi, k, lo);
      && b.Lo(i) == (if i == k < dim then lo else 0.0) && b.Hi(i) == (if i == 0 < dim then hi else 0.0)
  {}

  lemma SpikeIs(dim: nat, hi: real, k: nat, lo: real)
    requires hi >= 0.0 >= lo && k > 0
    ensures var b := Spike(dim, hi, k, lo); forall i: nat ::
      && b.Lo(i) == (if i == k < dim then lo else 0.0) && b.Hi(i) == (if i == 0 < dim then hi else 0.0)
  {
    forall i: nat ensures var b := Spike(dim, hi, k, lo);
      && b.Lo(i) == (if i == k < dim then lo else 0.0) && b.Hi(i) == (if i == 0 < dim then hi else 0.0)
    {
      SpikeAt(dim, hi, k, lo, i);
    }
  }

  lemma {:induction false} FirstLo(a: Box, b: Box, i: nat, k: nat, n: nat)
    requires a.Valid() && b.Valid() && i <= k < n && a.Lo(k) != b.Lo(k) && forall j: nat :: i <= j < k ==> a.Lo(j) == b.Lo(j)
    ensures CmpLo(a, b, i, n) == Sign(a.Lo(k), b.Lo(k))
    decreases k - i
  {
    if i < k { FirstLo(a, b, i + 1, k, n); }
  }

  lemma {:induction false} FirstHi(a: Box, b: Box, n: nat)
    requires a.Valid() && b.Valid() && 0 < n && a.Hi(0) != b.Hi(0)
    ensures CmpHi(a, b, 0, n) == Sign(a.Hi(0), b.Hi(0))
  {}

  ghost predicate Cycle(a: Box, b: Box, c: Box) {
    a.Valid() && b.Valid() && c.Valid() && Cmp(a, b) < 0 && Cmp(b, c) < 0 && Cmp(c, a) < 0
  }

  /** The least box decides by an upper end what the others decide by a lower end beyond it. */
  lemma CycleAbove(x: nat, y: nat, z: nat) returns (a: Box, b: Box, c: Box)
    requires 0 < x < y && x < z
    ensures a.dim == x && b.dim == y && c.dim == z && Cycle(a, b, c)
  {
    a, b, c := Spike(x, 1.0, x, 0.0), Spike(y, 2.0, x, -1.0), Spike(z, 0.0, x, 0.0);
    SpikeIs(x, 1.0, x, 0.0);
    SpikeIs(y, 2.0, x, -1.0);
    SpikeIs(z, 0.0, x, 0.0);
    CmpLoZero(a, b, 0, x);
    FirstHi(a, b, x);
    FirstLo(b, c, 0, x, if y < z then y else z);
    CmpLoZero(c, a, 0, x);
    FirstHi(c, a, x);
  }

  lemma CycleZero(y: nat, z: nat) returns (a: Box, b: Box, c: Box)
    requires 0 < y < z
    ensures a.dim == 0 && b.dim == y && c.dim == z && Cycle(a, b, c)
  {
    a, b, c := Spike(0, 0.0, y, 0.0), Spike(y, 1.0, y, 0.0), Spike(z, 2.0, y, -1.0);
    SpikeIs(0, 0.0, y, 0.0);
    SpikeIs(y, 1.0, y, 0.0);
    SpikeIs(z, 2.0, y, -1.0);
    CmpLoZero(a, b, 0, y);
    FirstHi(a, b, y);
    CmpLoZero(b, c, 0, y);
    FirstHi(b, c, y);
    FirstLo(c, a, 0, y, z);
  }

  lemma BreaksInCycle(x: nat, y: nat, z: nat) returns (a: Box, b: Box, c: Box)
    requires Breaks(x, y, z)
    ensures a.dim == x && b.dim == y && c.dim == z && Cycle(a, b, c)
  {
    if x > 0 { a, b, c := CycleAbove(x, y, z); } else { a, b, c := CycleZero(y, z); }
  }

  lemma CycleIsChain(a: Box, b: Box, c: Box)
    requires Cycle(a, b, c)
    ensures Chain(a, b, c) && Cmp(a, c) > 0 && Cycle(b, c, a)
  {
    CmpAntisymmetric(a, c);
  }

  lemma UnsafeFails(p: nat, q: nat, r: nat)
    requires Unsafe(p, q, r)
    ensures !Transitive(p, q, r)
  {
    var a, b, c;
    if Breaks(p, q, r) {
      a, b, c := BreaksInCycle(p, q, r);
    } else if Breaks(q, r, p) {
      b, c, a := BreaksInCycle(q, r, p);
      CycleIsChain(b, c, a);
      CycleIsChain(c, a, b);
    } else {
      c, a, b := BreaksInCycle(r, p, q);
      CycleIsChain(c, a, b);
    }
    CycleIsChain(a, b, c);
  }

  /** The comparison is transitive on boxes of three dimensions exactly when they are safe: two share the
      least one, or the least is 0 and the other two do not rise. */
  lemma TransitiveExactly(p: nat, q: nat, r: nat)
    ensures Transitive(p, q, r) <==> !Unsafe(p, q, r)
  {
    if Unsafe(p, q, r) {
      UnsafeFails(p, q, r);
    } else {
      forall a, b, c | Chain(a, b, c) && a.dim == p && b.dim == q && c.dim == r ensures Cmp(a, c) <= 0 {
        CmpTransitive(a, b, c);
      }
    }
  }

  /** In whichever order the boxes come: exactly when the two least dimensions agree, or 0 meets one other dimension. */
  lemma TransitiveInAnyOrder(d: nat, e: nat, f: nat)
    requires d <= e <= f
    ensures Transitive(d, e, f) && Transitive(d, f, e) && Transitive(e, d, f) && Transitive(e, f, d) && Transitive(f, d, e) && Transitive(f, e, d)
      <==> d == e || (d == 0 && e == f)
  {
    TransitiveExactly(d, e, f);
    TransitiveExactly(d, f, e);
    TransitiveExactly(e, d, f);
    TransitiveExactly(e, f, d);
    TransitiveExactly(f, d, e);
    TransitiveExactly(f, e, d);
  }

  /** For instance a < b < c < a. */
  lemma CmpNotTransitive()
    ensures var a := Box(1, false, [-1.0, 0.0]);
      var b := Box(2, false, [-1.0, 0.0, 0.0, 0.0]);
      var c := Box(2, false, [-1.0, 1.0, -1.0, 1.0]);
      Cmp(a, b) < 0 && Cmp(b, c) < 0 && Cmp(c, a) < 0
  {
    var a := Box(1, false, [-1.0, 0.0]);
    var b := Box(2, false, [-1.0, 0.0, 0.0, 0.0]);
    var c := Box(2, false, [-1.0, 1.0, -1.0, 1.0]);
    assert CmpLo(a, b, 0, 1) == 0 && CmpHi(a, b, 0, 1) == 0 && CmpLo(a, b, 1, 2) == 0 && CmpHi(a, b, 1, 2) == 0;
    assert CmpLo(b, c, 1, 2) == -1 && CmpLo(b, c, 0, 2) == -1;
    assert CmpLo(c, a, 0, 1) == 0 && CmpHi(c, a, 0, 1) == -1;
  }

  // ----- the order, said of coordinates -----

  type Coords = nat -> real

  /** The numbers two boxes are compared by, in this order: the lower ends of the `d` common dimensions, their upper
      ends, the lower and the upper ends of the dimensions up to `e`, and the number of dimensions. */
  function CoordsOf(a: Box, d: nat, e: nat): Coords
    requires a.Valid() && d <= e
  {
    (k: nat) =>
      if k < d then a.Lo(k) else if k < 2 * d then a.Hi(k - d)
      else if k < d + e then a.Lo(k - d) else if k < 2 * e then a.Hi(k - e) else a.dim as real
  }

  function Lex(x: Coords, y: Coords, k: nat, n: nat): int
    requires k <= n
    decreases n - k
  {
    if k == n then 0 else if x(k) != y(k) then Sign(x(k), y(k)) else Lex(x, y, k + 1, n)
  }

  lemma {:induction false} LexParts(x: Coords, y: Coords, k: nat, m: nat, n: nat)
    requires k <= m <= n
    ensures Lex(x, y, k, n) == FirstNonZero(Lex(x, y, k, m), Lex(x, y, m, n))
    decreases m - k
  {
    if k < m { LexParts(x, y, k + 1, m, n); }
  }

  /** A run of coordinates that are lower ends, or upper ends, from dimension `i` on. */
  lemma {:induction false} LexLo(a: Box, b: Box, x: Coords, y: Coords, k: nat, i: nat, n: nat)
    requires a.Valid() && b.Valid() && i <= n && forall j: nat :: i <= j < n ==> x(k + j - i) == a.Lo(j) && y(k + j - i) == b.Lo(j)
    ensures Lex(x, y, k, k + n - i) == CmpLo(a, b, i, n)
    decreases n - i
  {
    if i < n {
      assert x(k + i - i) == a.Lo(i) && y(k + i - i) == b.Lo(i);
      forall j: nat | i + 1 <= j < n ensures x((k + 1) + j - (i + 1)) == a.Lo(j) && y((k + 1) + j - (i + 1)) == b.Lo(j) {
        assert x(k + j - i) == a.Lo(j) && y(k + j - i) == b.Lo(j);
      }
      LexLo(a, b, x, y, k + 1, i + 1, n);
    }
  }

  lemma {:induction false} LexHi(a: Box, b: Box, x: Coords, y: Coords, k: nat, i: nat, n: nat)
    requires a.Valid() && b.Valid() && i <= n && forall j: nat :: i <= j < n ==> x(k + j - i) == a.Hi(j) && y(k + j - i) == b.Hi(j)
    ensures Lex(x, y, k, k + n - i) == CmpHi(a, b, i, n)
    decreases n - i
  {
    if i < n {
      assert x(k + i - i) == a.Hi(i) && y(k + i - i) == b.Hi(i);
      forall j: nat | i + 1 <= j < n ensures x((k + 1) + j - (i + 1)) == a.Hi(j) && y((k + 1) + j - (i + 1)) == b.Hi(j) {
        assert x(k + j - i) == a.Hi(j) && y(k + j - i) == b.Hi(j);
      }
      LexHi(a, b, x, y, k + 1, i + 1, n);
    }
  }

  lemma {:induction false} LowerRuns(a: Box, b: Box, x: Coords, y: Coords, d: nat, e: nat)
    requires a.Valid() && b.Valid() && d <= e && x == CoordsOf(a, d, e) && y == CoordsOf(b, d, e)
    ensures Lex(x, y, 0, d) == CmpLo(a, b, 0, d) && Lex(x, y, 2 * d, d + e) == CmpLo(a, b, d, e)
  {
    hide CmpLo, Lex;
    LexLo(a, b, x, y, 0, 0, d);
    LexLo(a, b, x, y, 2 * d, d, e);
    assert 2 * d + e - d == d + e;
  }

  lemma {:induction false} UpperRuns(a: Box, b: Box, x: Coords, y: Coords, d: nat, e: nat)
    requires a.Valid() && b.Valid() && d <= e && x == CoordsOf(a, d, e) && y == CoordsOf(b, d, e)
    ensures Lex(x, y, d, 2 * d) == CmpHi(a, b, 0, d) && Lex(x, y, d + e, 2 * e) == CmpHi(a, b, d, e)
  {
    hide CmpHi, Lex;
    LexHi(a, b, x, y, d, 0, d);
    LexHi(a, b, x, y, d + e, d, e);
    assert d + e + e - d == 2 * e;
  }

  lemma {:induction false} CmpIsLex(a: Box, b: Box, d: nat, e: nat)
    requires a.Valid() && b.Valid() && d == (if a.dim < b.dim then a.dim else b.dim) && e == Dims(a, b)
    ensures Cmp(a, b) == Lex(CoordsOf(a, d, e), CoordsOf(b, d, e), 0, 2 * e + 1)
  {
    hide CmpLo, CmpHi, Lex, CoordsOf;
    var (x, y) := (CoordsOf(a, d, e), CoordsOf(b, d, e));
    LowerRuns(a, b, x, y, d, e);
    UpperRuns(a, b, x, y, d, e);
    LexParts(x, y, 0, d, 2 * e + 1);
    LexParts(x, y, d, 2 * d, 2 * e + 1);
    LexParts(x, y, 2 * d, d + e, 2 * e + 1);
    LexParts(x, y, d + e, 2 * e, 2 * e + 1);
    LastCoordinate(a, b, x, y, d, e);
  }

  lemma {:induction false} LastCoordinate(a: Box, b: Box, x: Coords, y: Coords, d: nat, e: nat)
    requires a.Valid() && b.Valid() && d <= e && x == CoordsOf(a, d, e) && y == CoordsOf(b, d, e)
    ensures Lex(x, y, 2 * e, 2 * e + 1) == if a.dim > b.dim then 1 else if a.dim < b.dim then -1 else 0
  {
    assert x(2 * e) == a.dim as real && y(2 * e) == b.dim as real;
  }

  /** `x` is less than `y` where they first differ, at `k`. */
  ghost predicate LessAt(x: Coords, y: Coords, k: nat) { x(k) < y(k) && forall j: nat :: j < k ==> x(j) == y(j) }

  lemma {:induction false} LexLess(x: Coords, y: Coords, k: nat, n: nat)
    requires k <= n && forall j: nat :: j < k ==> x(j) == y(j)
    ensures Lex(x, y, k, n) < 0 <==> exists m :: k <= m < n && LessAt(x, y, m)
    decreases n - k
  {
    if k < n {
      if x(k) == y(k) { LexLess(x, y, k + 1, n); }
      if m :| k <= m < n && LessAt(x, y, m) { assert m > k ==> x(k) == y(k); }
      if x(k) < y(k) { assert LessAt(x, y, k); }
    }
  }

  /** A box comes before another exactly when it is less in the first coordinate in which they differ. */
  lemma CmpLessExactly(a: Box, b: Box)
    requires a.Valid() && b.Valid()
    ensures var (d, e) := (if a.dim < b.dim then a.dim else b.dim, Dims(a, b));
      Cmp(a, b) < 0 <==> exists m :: 0 <= m < 2 * e + 1 && LessAt(CoordsOf(a, d, e), CoordsOf(b, d, e), m)
  {
    hide Cmp, Lex, CoordsOf, LessAt;
    var (d, e) := (if a.dim < b.dim then a.dim else b.dim, Dims(a, b));
    CmpIsLex(a, b, d, e);
    LexLess(CoordsOf(a, d, e), CoordsOf(b, d, e), 0, 2 * e + 1);
  }
}
