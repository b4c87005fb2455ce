/**
 Distances between boxes (contrib/cube/cube.c) and why nearest-neighbour search may prune by
 union keys: a key is never farther from the query than the entries below it.

 The square root at the end of the Euclidean distance is the function `root`.
 */
module CubeDistance {
  import opened Roots
  import opened CubeBox
  import opened CubeGist

  /** `distance_1D` on four numbers. */
  function Distance1D(a1: real, a2: real, b1: real, b2: real): real {
    if a1 <= b1 && a2 <= b1 && a1 <= b2 && a2 <= b2 then Min(b1, b2) - Max(a1, a2)
    else if a1 > b1 && a2 > b1 && a1 > b2 && a2 > b2 then Min(a1, a2) - Max(b1, b2)
    else 0.0
  }

  /** The gap between the intervals of two boxes in a dimension. */
  function Gap(a: Box, b: Box, i: nat): (g: real)
    requires a.Valid() && b.Valid()
    ensures g >= 0.0
  {
    if a.Hi(i) <= b.Lo(i) then b.Lo(i) - a.Hi(i) else if b.Hi(i) <= a.Lo(i) then a.Lo(i) - b.Hi(i) else 0.0
  }

  lemma GapIsDistance1D(a1: real, a2: real, b1: real, b2: real)
    ensures Distance1D(a1, a2, b1, b2) ==
      var (al, ah, bl, bh) := (Min(a1, a2), Max(a1, a2), Min(b1, b2), Max(b1, b2));
      if ah <= bl then bl - ah else if bh <= al then al - bh else 0.0
  {}

  lemma GapSymmetric(a: Box, b: Box, i: nat)
    requires a.Valid() && b.Valid()
    ensures Gap(a, b, i) == Gap(b, a, i)
  {}

  /** A larger box is nearer, in every dimension. */
  lemma GapShrinks(key: Box, x: Box, q: Box, i: nat)
    requires Encloses(key, x) && q.Valid()
    ensures Gap(key, q, i) <= Gap(x, q, i)
  {
    assert Inside(x, i, key.Lo(i), key.Hi(i));
  }

  /** Sum of gaps, sum of squared gaps and greatest gap over the first `n` dimensions. */
  function Taxicab(a: Box, b: Box, n: nat): real
    requires a.Valid() && b.Valid()
  {
    if n == 0 then 0.0 else Taxicab(a, b, n - 1) + Gap(a, b, n - 1)
  }

  function Squared(a: Box, b: Box, n: nat): real
    requires a.Valid() && b.Valid()
  {
    SumOf(SquaredGap(a, b), n)
  }

  function SquaredGap(a: Box, b: Box): nat -> real
    requires a.Valid() && b.Valid()
  {
    (i: nat) => Gap(a, b, i) * Gap(a, b, i)
  }

  function SumOf(f: nat -> real, n: nat): real { if n == 0 then 0.0 else SumOf(f, n - 1) + f(n - 1) }

  lemma {:induction false} SumMonotone(f: nat -> real, g: nat -> real, n: nat)
    requires forall i: nat :: f(i) <= g(i)
    ensures SumOf(f, n) <= SumOf(g, n)
  {
    if n > 0 { SumMonotone(f, g, n - 1); }
  }

  lemma {:induction false} SumZeros(f: nat -> real, m: nat, n: nat)
    requires m <= n && forall i: nat :: i >= m ==> f(i) == 0.0
    ensures SumOf(f, n) == SumOf(f, m)
  {
    if n > m { SumZeros(f, m, n - 1); }
  }

  lemma {:induction false} SumCongruent(f: nat -> real, g: nat -> real, n: nat)
    requires forall i: nat :: f(i) == g(i)
    ensures SumOf(f, n) == SumOf(g, n)
  {
    SumMonotone(f, g, n);
    SumMonotone(g, f, n);
  }

  function Chebyshev(a: Box, b: Box, n: nat): real
    requires a.Valid() && b.Valid()
  {
    if n == 0 then 0.0 else Max(Chebyshev(a, b, n - 1), Gap(a, b, n - 1))
  }

  lemma {:induction false} Symmetric(a: Box, b: Box, n: nat)
    requires a.Valid() && b.Valid()
    ensures Taxicab(a, b, n) == Taxicab(b, a, n) && Chebyshev(a, b, n) == Chebyshev(b, a, n)
  {
    if n > 0 {
      Symmetric(a, b, n - 1);
      GapSymmetric(a, b, n - 1);
    }
  }

  lemma SquaredSymmetric(a: Box, b: Box, n: nat)
    requires a.Valid() && b.Valid()
    ensures Squared(a, b, n) == Squared(b, a, n)
  {
    forall i: nat ensures SquaredGap(a, b)(i) == SquaredGap(b, a)(i) { GapSymmetric(a, b, i); }
    SumCongruent(SquaredGap(a, b), SquaredGap(b, a), n);
  }

  // ----- the three methods -----

  method Distance1DOf(a: Box, b: Box, i: nat) returns (d: real)
    requires a.Valid() && b.Valid() && b.dim <= a.dim && i < a.dim
    ensures d == Gap(a, b, i)
  {
    if i < b.dim {
      GapIsDistance1D(a.LL(i), a.UR(i), b.LL(i), b.UR(i));
      d := Distance1D(a.LL(i), a.UR(i), b.LL(i), b.UR(i));
    } else {
      GapIsDistance1D(a.LL(i), a.UR(i), 0.0, 0.0);
      d := Distance1D(a.LL(i), a.UR(i), 0.0, 0.0);
    }
  }

  method DistanceTaxicab(a0: Box, b0: Box) returns (distance: real)
    requires a0.Valid() && b0.Valid()
    ensures distance == Taxicab(a0, b0, Dims(a0, b0))
  {
    var (a, b) := if a0.dim < b0.dim then (b0, a0) else (a0, b0);
    distance := 0.0;
    for i := 0 to a.dim
      invariant distance == Taxicab(a, b, i)
    {
      var d := Distance1DOf(a, b, i);
      distance := distance + Abs(d);
    }
    Symmetric(a, b, a.dim);
  }

  /** The Euclidean distance. */
  function Euclid(root: real -> real, a: Box, b: Box): real
    requires a.Valid() && b.Valid()
  {
    root(Squared(a, b, Dims(a, b)))
  }

  method DistanceEuclid(root: real -> real, a0: Box, b0: Box) returns (distance: real)
    requires a0.Valid() && b0.Valid()
    ensures distance == Euclid(root, a0, b0)
  {
    var (a, b) := if a0.dim < b0.dim then (b0, a0) else (a0, b0);
    distance := 0.0;
    for i := 0 to a.dim
      invariant distance == Squared(a, b, i)
    {
      var d := Distance1DOf(a, b, i);
      distance := distance + d * d;
    }
    SquaredSymmetric(a, b, a.dim);
    distance := root(distance);
  }

  method DistanceChebyshev(a0: Box, b0: Box) returns (distance: real)
    requires a0.Valid() && b0.Valid()
    ensures distance == Chebyshev(a0, b0, Dims(a0, b0))
  {
    var (a, b) := if a0.dim < b0.dim then (b0, a0) else (a0, b0);
    distance := 0.0;
    for i := 0 to a.dim
      invariant distance == Chebyshev(a, b, i)
    {
      var d := Distance1DOf(a, b, i);
      if Abs(d) > distance {
        distance := Abs(d);
      }
    }
    Symmetric(a, b, a.dim);
  }

  // ----- keys are never farther -----

  lemma {:induction false} SumNotNegative(f: nat -> real, n: nat)
    requires forall i: nat :: f(i) >= 0.0
    ensures SumOf(f, n) >= 0.0
  {
    if n > 0 { SumNotNegative(f, n - 1); }
  }

  lemma SquaredNotNegative(a: Box, b: Box, n: nat)
    requires a.Valid() && b.Valid()
    ensures Squared(a, b, n) >= 0.0
  {
    forall i: nat ensures SquaredGap(a, b)(i) >= 0.0 { assert Gap(a, b, i) * Gap(a, b, i) >= 0.0; }
    SumNotNegative(SquaredGap(a, b), n);
  }

  lemma {:induction false} PrefixShrinks(key: Box, x: Box, q: Box, n: nat)
    requires Encloses(key, x) && q.Valid()
    ensures Taxicab(key, q, n) <= Taxicab(x, q, n) && Chebyshev(key, q, n) <= Chebyshev(x, q, n)
  {
    if n > 0 {
      PrefixShrinks(key, x, q, n - 1);
      GapShrinks(key, x, q, n - 1);
    }
  }

  lemma SquaredTerm(key: Box, x: Box, q: Box, i: nat)
    requires Encloses(key, x) && q.Valid()
    ensures Gap(key, q, i) * Gap(key, q, i) <= Gap(x, q, i) * Gap(x, q, i)
  {
    var (g, h) := (Gap(key, q, i), Gap(x, q, i));
    assert g <= h by { GapShrinks(key, x, q, i); }
    if g < h { SquaresGrow(h, g, h * h, g * g); }
  }

  lemma SquaredShrinks(key: Box, x: Box, q: Box, n: nat)
    requires Encloses(key, x) && q.Valid()
    ensures Squared(key, q, n) <= Squared(x, q, n)
  {
    forall i: nat ensures SquaredGap(key, q)(i) <= SquaredGap(x, q)(i) { SquaredTerm(key, x, q, i); }
    SumMonotone(SquaredGap(key, q), SquaredGap(x, q), n);
  }

  lemma {:induction false} NonNegative(a: Box, b: Box, n: nat)
    requires a.Valid() && b.Valid()
    ensures Chebyshev(a, b, n) >= 0.0
  {
    if n > 0 { NonNegative(a, b, n - 1); }
  }

  /** Dimensions neither box has add nothing. */
  lemma {:induction false} PaddingAddsNothing(a: Box, b: Box, n: nat)
    requires a.Valid() && b.Valid() && n >= Dims(a, b)
    ensures Taxicab(a, b, n) == Taxicab(a, b, Dims(a, b)) && Chebyshev(a, b, n) == Chebyshev(a, b, Dims(a, b))
  {
    if n > Dims(a, b) {
      PaddingAddsNothing(a, b, n - 1);
      NonNegative(a, b, n - 1);
      assert Gap(a, b, n - 1) == 0.0;
    }
  }

  lemma PaddingAddsNoSquare(a: Box, b: Box, n: nat)
    requires a.Valid() && b.Valid() && n >= Dims(a, b)
    ensures Squared(a, b, n) == Squared(a, b, Dims(a, b))
  {
    forall i: nat ensures i >= Dims(a, b) ==> SquaredGap(a, b)(i) == 0.0 {
      if i >= Dims(a, b) { assert Gap(a, b, i) == 0.0; }
    }
    SumZeros(SquaredGap(a, b), Dims(a, b), n);
  }

  /** Whatever dimensions key, entry and query have, the key is at most as far as the entry. */
  lemma {:induction false} KeyIsNoFarther(key: Box, x: Box, q: Box)
    requires Encloses(key, x) && q.Valid()
    ensures Taxicab(key, q, Dims(key, q)) <= Taxicab(x, q, Dims(x, q))
    ensures Squared(key, q, Dims(key, q)) <= Squared(x, q, Dims(x, q))
    ensures forall root :: IsRoot(root) ==> Euclid(root, key, q) <= Euclid(root, x, q)
    ensures Chebyshev(key, q, Dims(key, q)) <= Chebyshev(x, q, Dims(x, q))
  {
    PaddingAddsNothing(x, q, Dims(key, q));
    PaddingAddsNoSquare(x, q, Dims(key, q));
    PrefixShrinks(key, x, q, Dims(key, q));
    SquaredShrinks(key, x, q, Dims(key, q));
    SquaredNotNegative(key, q, Dims(key, q));
    forall root | IsRoot(root) ensures Euclid(root, key, q) <= Euclid(root, x, q) {
      RootMonotone(root, Squared(key, q, Dims(key, q)), Squared(x, q, Dims(x, q)));
    }
  }

  // ----- the coordinate strategy -----

  /** `g_cube_distance` with strategy `CubeKNNDistanceCoord`; coordinates count from 1. */
  function CoordDistance(b: Box, coord: nat): real
    requires b.Valid() && coord >= 1
  {
    if b.dim == 0 then 0.0
    else
      var i := (coord - 1) % b.dim;
      if b.point then b.x[i] else Min(b.x[i], b.x[i + b.dim])
  }

  lemma CoordIsLo(b: Box, coord: nat)
    requires b.Valid() && coord >= 1
    ensures CoordDistance(b, coord) == if b.dim == 0 then 0.0 else b.Lo((coord - 1) % b.dim)
  {}

  /** Boxes of the two dimensions read the same coordinate; a box without dimensions reads zero. */
  predicate SameCoordinate(dim: nat, keyDim: nat, coord: nat)
    requires dim <= keyDim && coord >= 1
  {
    dim == 0 || (coord - 1) % dim == (coord - 1) % keyDim
  }

  lemma CoordNoFarther(key: Box, x: Box, coord: nat)
    requires Encloses(key, x) && coord >= 1 && SameCoordinate(x.dim, key.dim, coord)
    ensures CoordDistance(key, coord) <= CoordDistance(x, coord)
  {
    CoordIsLo(key, coord);
    CoordIsLo(x, coord);
    if key.dim > 0 {
      var i := (coord - 1) % key.dim;
      assert Inside(x, i, key.Lo(i), key.Hi(i));
    }
  }

  /** A box that is zero but for -5 as lower end in dimension `i`. */
  function Dip(dim: nat, i: nat): (b: Box)
    ensures b.Valid() && b.dim == dim
  {
    Box(dim, false, seq(dim, k => if k == i then -5.0 else 0.0) + seq(dim, _ => 0.0))
  }

  lemma DipIs(dim: nat, i: nat, k: nat)
    ensures Dip(dim, i).Lo(k) == (if k == i < dim then -5.0 else 0.0) && Dip(dim, i).Hi(k) == 0.0
  {}

  /** Keys that read another coordinate than the entry may rank it behind what it precedes. */
  lemma CoordFarther(dim: nat, keyDim: nat, coord: nat) returns (key: Box, x: Box)
    requires dim <= keyDim && coord >= 1 && !SameCoordinate(dim, keyDim, coord)
    ensures key.dim == keyDim && x.dim == dim && Encloses(key, x) && CoordDistance(key, coord) > CoordDistance(x, coord)
  {
    var i := (coord - 1) % dim;
    key, x := Dip(keyDim, i), Dip(dim, i);
    forall k: nat ensures Inside(x, k, key.Lo(k), key.Hi(k)) {
      DipIs(keyDim, i, k);
      DipIs(dim, i, k);
    }
    CoordIsLo(key, coord);
    CoordIsLo(x, coord);
    DipIs(keyDim, i, (coord - 1) % keyDim);
    DipIs(dim, i, i);
  }

  /** No entry of dimension `dim` precedes a key of dimension `keyDim` that encloses it. */
  ghost predicate NeverFarther(dim: nat, keyDim: nat, coord: nat)
    requires coord >= 1
  {
    forall key, x :: Encloses(key, x) && key.dim == keyDim && x.dim == dim ==> CoordDistance(key, coord) <= CoordDistance(x, coord)
  }

  /** By coordinate a key is at most as far as its entries exactly when both read the same coordinate. */
  lemma CoordNoFartherExactly(dim: nat, keyDim: nat, coord: nat)
    requires dim <= keyDim && coord >= 1
    ensures NeverFarther(dim, keyDim, coord) <==> SameCoordinate(dim, keyDim, coord)
  {
    if SameCoordinate(dim, keyDim, coord) {
      forall key, x | Encloses(key, x) && key.dim == keyDim && x.dim == dim ensures CoordDistance(key, coord) <= CoordDistance(x, coord) {
        CoordNoFarther(key, x, coord);
      }
    } else {
      var key, x := CoordFarther(dim, keyDim, coord);
    }
  }

  /** They do for coordinates the entry has. */
  lemma OwnCoordinate(dim: nat, keyDim: nat, coord: nat)
    requires 1 <= coord <= dim <= keyDim
    ensures SameCoordinate(dim, keyDim, coord)
  {
    SmallRemainder(coord - 1, dim);
    SmallRemainder(coord - 1, keyDim);
  }

  lemma SmallRemainder(a: nat, m: nat)
    requires a < m
    ensures a % m == a
  {}

  /** For instance the one-dimensional point -5 under a two-dimensional key, by the second coordinate. */
  lemma CoordMisranks()
    ensures var (x, key) := (Box(1, true, [-5.0]), Box(2, false, [-5.0, 0.0, 0.0, 0.0]));
      Encloses(key, x) && CoordDistance(x, 2) == -5.0 && CoordDistance(key, 2) == 0.0
  {
    var (x, key) := (Box(1, true, [-5.0]), Box(2, false, [-5.0, 0.0, 0.0, 0.0]));
    forall k: nat ensures Inside(x, k, key.Lo(k), key.Hi(k)) {}
  }

  /** So in a tree no entry is nearer than any key above it. */
  lemma {:induction false} TreeIsNoFarther(t: Tree, x: Box, q: Box)
    requires WellFormed(t) && Holds(t, x) && q.Valid()
    ensures x.Valid()
    ensures Taxicab(KeyOf(t), q, Dims(KeyOf(t), q)) <= Taxicab(x, q, Dims(x, q))
    ensures forall root :: IsRoot(root) ==> Euclid(root, KeyOf(t), q) <= Euclid(root, x, q)
    ensures Chebyshev(KeyOf(t), q, Dims(KeyOf(t), q)) <= Chebyshev(x, q, Dims(x, q))
    ensures forall coord: nat :: 1 <= coord <= x.dim ==> CoordDistance(KeyOf(t), coord) <= CoordDistance(x, coord)
  {
    TreeEncloses(t, x);
    KeyIsNoFarther(KeyOf(t), x, q);
    forall coord: nat | 1 <= coord <= x.dim ensures CoordDistance(KeyOf(t), coord) <= CoordDistance(x, coord) {
      OwnCoordinate(x.dim, KeyOf(t).dim, coord);
      CoordNoFarther(KeyOf(t), x, coord);
    }
  }
}
