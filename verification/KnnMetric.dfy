/**
 What `fs_distance` measures, and what the weighted mean is (contrib/aqo: machine_learning.c).
 */
module KnnMetric {
  import opened Roots
  import opened KnnSelect
  import opened KnnPredict

  // ----- the distance -----

  /** The squared distance, times the number of features, is the sum of the squared gaps. */
  lemma {:induction false} DistanceSquared(root: real -> real, a: seq<real>, b: seq<real>)
    requires IsRoot(root) && |a| == |b|
    ensures IsMeanSquare(|a|, Distance(root, a, b), SquaredGaps(a, b, |a|))
  {
    hide SquaredGaps;
    if |a| > 0 {
      ShareTimes(SquaredGaps(a, b, |a|), |a| as real);
    } else {
      assert SquaredGaps(a, b, 0) == 0.0 by { NoFeatures(a, b); }
    }
  }

  /** `d` is the root of the mean of `n` squares that sum up to `sum`. */
  ghost predicate IsMeanSquare(n: nat, d: real, sum: real) { d >= 0.0 && n as real * (d * d) == sum }

  lemma {:induction false} NoFeatures(a: seq<real>, b: seq<real>)
    ensures SquaredGaps(a, b, 0) == 0.0
  {}

  lemma ShareTimes(x: real, n: real)
    requires x >= 0.0 && n > 0.0
    ensures x / n >= 0.0 && n * (x / n) == x
  {}

  lemma {:induction false} GapsJoin(a: seq<real>, b: seq<real>, c: seq<real>, d: seq<real>, n: nat)
    requires |a| == |b| && n <= |c| == |d|
    ensures SquaredGaps(a + c, b + d, |a| + n) == SquaredGaps(a, b, |a|) + SquaredGaps(c, d, n)
  {
    if n == 0 {
      GapsOfPrefix(a, b, c, d, |a|);
    } else {
      GapsJoin(a, b, c, d, n - 1);
    }
  }

  lemma {:induction false} GapsOfPrefix(a: seq<real>, b: seq<real>, c: seq<real>, d: seq<real>, n: nat)
    requires n <= |a| == |b| && |c| == |d|
    ensures SquaredGaps(a + c, b + d, n) == SquaredGaps(a, b, n)
  {
    if n > 0 { GapsOfPrefix(a, b, c, d, n - 1); }
  }

  /** Of one feature the distance is the gap. */
  lemma DistanceOfOne(root: real -> real, x: real, y: real)
    requires IsRoot(root)
    ensures Distance(root, [x], [y]) == Abs(x - y)
  {
    var g := Abs(x - y);
    assert SquaredGaps([x], [y], 1) == Square(x - y) == g * g by { assert SquaredGaps([x], [y], 0) == 0.0; }
    assert SquaredGaps([x], [y], 1) / 1.0 == g * g;
    RootUnique(root, g * g, g);
  }

  /** Squared distances average over features: with `DistanceOfOne` this is the root of the mean square and nothing else. */
  lemma DistancesAverage(root: real -> real, a: seq<real>, b: seq<real>, c: seq<real>, d: seq<real>)
    requires IsRoot(root) && |a| == |b| && |c| == |d|
    ensures var (u, v, w) := (Distance(root, a, b), Distance(root, c, d), Distance(root, a + c, b + d));
      (|a| + |c|) as real * (w * w) == |a| as real * (u * u) + |c| as real * (v * v)
  {
    hide Distance, SquaredGaps, IsMeanSquare;
    DistanceSquared(root, a, b);
    DistanceSquared(root, c, d);
    DistanceSquared(root, a + c, b + d);
    GapsJoin(a, b, c, d, |c|);
    SquaresAdd(|a|, Distance(root, a, b), SquaredGaps(a, b, |a|), |c|, Distance(root, c, d), SquaredGaps(c, d, |c|),
               Distance(root, a + c, b + d));
  }

  lemma SquaresAdd(m: nat, u: real, a: real, n: nat, v: real, b: real, w: real)
    requires IsMeanSquare(m, u, a) && IsMeanSquare(n, v, b) && IsMeanSquare(m + n, w, a + b)
    ensures (m + n) as real * (w * w) == m as real * (u * u) + n as real * (v * v)
  {}

  // ----- the triangle inequality -----

  function Gaps(a: seq<real>, b: seq<real>, c: seq<real>, n: nat): real
    requires n <= |a| == |b| == |c|
  {
    if n == 0 then 0.0 else Gaps(a, b, c, n - 1) + Product(a[n - 1] - b[n - 1], b[n - 1] - c[n - 1])
  }

  function Product(x: real, y: real): real { x * y }

  lemma ProductOfSquares(p: real, x: real, y: real, v: real)
    requires v == p * x * y
    ensures v * v == (p * p) * ((x * x) * (y * y))
  {}

  lemma TwiceProduct(u: real, v: real)
    ensures 4.0 * (u * v) <= (u + v) * (u + v)
  {
    assert (u + v) * (u + v) - 4.0 * (u * v) == (u - v) * (u - v);
    if u < v { assert (u - v) * (u - v) == (v - u) * (v - u); }
  }

  lemma LessTimes(a: real, b: real, c: real)
    requires a <= b && c >= 0.0
    ensures a * c <= b * c
  {}

  lemma SquareIsNotNegative(x: real)
    ensures x * x >= 0.0
  {
    if x < 0.0 { assert x * x == (-x) * (-x); }
  }

  /** `2pxy <= ayy + bxx` where `pp <= ab`. */
  lemma CrossTerm(p: real, a: real, b: real, x: real, y: real)
    requires a >= 0.0 && b >= 0.0 && p * p <= a * b
    ensures 2.0 * (p * x * y) <= a * (y * y) + b * (x * x)
  {
    var (xx, yy, v) := (x * x, y * y, p * x * y);
    SquareIsNotNegative(x);
    SquareIsNotNegative(y);
    ProductOfSquares(p, x, y, v);
    var (s, t) := (a * yy, b * xx);
    assert xx * yy >= 0.0;
    LessTimes(p * p, a * b, xx * yy);
    assert (a * b) * (xx * yy) == s * t;
    TwiceProduct(s, t);
    assert (2.0 * v) * (2.0 * v) == 4.0 * (v * v);
    assert s >= 0.0 && t >= 0.0;
    SquareNotLess(s + t, 2.0 * v, (s + t) * (s + t), (2.0 * v) * (2.0 * v));
  }

  lemma CauchyStep(p: real, a: real, b: real, x: real, y: real)
    requires InProduct(p, a, b)
    ensures InProduct(p + Product(x, y), a + Square(x), b + Square(y))
  {
    CrossTerm(p, a, b, x, y);
    var q := x * y;
    assert (p + q) * (p + q) == p * p + 2.0 * (p * q) + q * q;
    assert p * q == p * x * y;
    assert q * q == (x * x) * (y * y);
    assert (a + x * x) * (b + y * y) == a * b + a * (y * y) + (x * x) * b + (x * x) * (y * y);
  }

  ghost predicate InProduct(p: real, a: real, b: real) { a >= 0.0 && b >= 0.0 && p * p <= a * b }

  lemma {:induction false} Cauchy(a: seq<real>, b: seq<real>, c: seq<real>, n: nat)
    requires n <= |a| == |b| == |c|
    ensures InProduct(Gaps(a, b, c, n), SquaredGaps(a, b, n), SquaredGaps(b, c, n))
  {
    if n > 0 {
      hide InProduct, Square, Product;
      Cauchy(a, b, c, n - 1);
      CauchyStep(Gaps(a, b, c, n - 1), SquaredGaps(a, b, n - 1), SquaredGaps(b, c, n - 1),
                 a[n - 1] - b[n - 1], b[n - 1] - c[n - 1]);
    }
  }

  lemma SquareOfSum(x: real, y: real)
    ensures Square(x + y) == Square(x) + 2.0 * (x * y) + Square(y)
  {}

  lemma {:induction false} GapsExpand(a: seq<real>, b: seq<real>, c: seq<real>, n: nat)
    requires n <= |a| == |b| == |c|
    ensures SquaredGaps(a, c, n) == SquaredGaps(a, b, n) + 2.0 * Gaps(a, b, c, n) + SquaredGaps(b, c, n)
  {
    if n > 0 {
      GapsExpand(a, b, c, n - 1);
      var (x, y) := (a[n - 1] - b[n - 1], b[n - 1] - c[n - 1]);
      assert a[n - 1] - c[n - 1] == x + y;
      SquareOfSum(x, y);
    }
  }

  /** The last step, for `n` features with squared distances `uu`, `vv` and `ww`. */
  lemma Minkowski(n: nat, u: real, v: real, w: real, p: real, a: real, b: real)
    requires n > 0 && IsMeanSquare(n, u, a) && IsMeanSquare(n, v, b) && IsMeanSquare(n, w, a + 2.0 * p + b)
    requires InProduct(p, a, b)
    ensures w <= u + v
  {
    CrossBound(n as real, u, v, p, a, b);
    SumBound(n as real, u, v, w, p);
    SquareNotLess(u + v, w, (u + v) * (u + v), w * w);
  }

  lemma CrossBound(n: real, u: real, v: real, p: real, a: real, b: real)
    requires n > 0.0 && u >= 0.0 && v >= 0.0 && a == n * (u * u) && b == n * (v * v) && p * p <= a * b
    ensures p <= n * (u * v)
  {
    var m := n * (u * v);
    assert u * v >= 0.0;
    assert m >= 0.0;
    assert m * m == a * b;
    SquareNotLess(m, p, m * m, p * p);
  }

  lemma SumBound(n: real, u: real, v: real, w: real, p: real)
    requires n > 0.0 && p <= n * (u * v) && n * (w * w) == n * (u * u) + 2.0 * p + n * (v * v)
    ensures w * w <= (u + v) * (u + v)
  {
    var (a, b, c) := (u * u, u * v, v * v);
    assert (u + v) * (u + v) == a + 2.0 * b + c;
    SpreadThree(n, a, b, c);
    CancelFactor(n, w * w, a + 2.0 * b + c);
  }

  lemma SpreadThree(n: real, a: real, b: real, c: real)
    ensures n * (a + 2.0 * b + c) == n * a + 2.0 * (n * b) + n * c
  {}

  lemma CancelFactor(n: real, x: real, y: real)
    requires n > 0.0 && n * x <= n * y
    ensures x <= y
  {
    if x > y { ProductPositive(n, x - y, n * (x - y)); }
  }

  lemma {:induction false} GapsSymmetric(a: seq<real>, b: seq<real>, n: nat)
    requires n <= |a| == |b|
    ensures SquaredGaps(a, b, n) == SquaredGaps(b, a, n)
  {
    if n > 0 {
      GapsSymmetric(a, b, n - 1);
      assert a[n - 1] - b[n - 1] == -(b[n - 1] - a[n - 1]);
    }
  }

  /** The distance is a metric. */
  lemma DistanceIsMetric(root: real -> real, a: seq<real>, b: seq<real>, c: seq<real>)
    requires IsRoot(root) && |a| == |b| == |c|
    ensures Distance(root, a, b) == Distance(root, b, a) >= 0.0
    ensures Distance(root, a, c) <= Distance(root, a, b) + Distance(root, b, c)
  {
    GapsSymmetric(a, b, |a|);
    hide SquaredGaps, Gaps, IsMeanSquare, InProduct;
    DistanceNotNegative(root, a, b);
    if |a| > 0 {
      DistanceSquared(root, a, b);
      DistanceSquared(root, b, c);
      DistanceSquared(root, a, c);
      hide Distance;
      Cauchy(a, b, c, |a|);
      GapsExpand(a, b, c, |a|);
      Minkowski(|a|, Distance(root, a, b), Distance(root, b, c), Distance(root, a, c), Gaps(a, b, c, |a|),
                SquaredGaps(a, b, |a|), SquaredGaps(b, c, |a|));
    }
  }

  // ----- the mean -----

  /** How far the targets of the first `m` listed rows are from `x`, squared, and divided by distance plus a thousandth. */
  ghost function Loss(d: seq<real>, targets: seq<real>, s: seq<int>, x: real, m: nat): real
    requires NotNegative(d) && m <= |s| && forall i :: 0 <= i < |s| ==> 0 <= s[i] < |d| && s[i] < |targets|
  {
    if m == 0 then 0.0
    else Loss(d, targets, s, x, m - 1) + Penalty(targets[s[m - 1]], x, d[s[m - 1]])
  }

  function Penalty(t: real, x: real, dist: real): real
    requires dist >= 0.0
  {
    (t - x) * (t - x) / (0.001 + dist)
  }

  /** The sum of the weighted gaps between targets and `x`. */
  ghost function Pull(d: seq<real>, targets: seq<real>, s: seq<int>, x: real, m: nat): real
    requires m <= |s| && forall i :: 0 <= i < |s| ==> 0 <= s[i] < |targets|
  {
    if m == 0 then 0.0 else Pull(d, targets, s, x, m - 1) + Tug(targets[s[m - 1]], x, Weight(d, s[m - 1]))
  }

  function Tug(t: real, x: real, w: real): real { (t - x) * w }

  lemma DividedIsWeighted(x: real, dist: real)
    requires dist >= 0.0
    ensures x / (0.001 + dist) == x * Similarity(dist)
  {}

  /** The loss at `x` from what is known at `p`. */
  ghost predicate Expands(lossX: real, lossP: real, pull: real, sum: real, x: real, p: real) {
    lossX == lossP + 2.0 * (p - x) * pull + (p - x) * (p - x) * sum
  }

  lemma TermExpands(t: real, x: real, p: real, dist: real)
    requires dist >= 0.0
    ensures Expands(Penalty(t, x, dist), Penalty(t, p, dist), Tug(t, p, Similarity(dist)), Similarity(dist), x, p)
  {
    DividedIsWeighted((t - x) * (t - x), dist);
    DividedIsWeighted((t - p) * (t - p), dist);
    hide Similarity;
    ProductExpands(t, x, p, Similarity(dist));
  }

  lemma ProductExpands(t: real, x: real, p: real, w: real)
    ensures Expands((t - x) * (t - x) * w, (t - p) * (t - p) * w, (t - p) * w, w, x, p)
  {
    assert (t - x) * (t - x) == (t - p) * (t - p) + 2.0 * (p - x) * (t - p) + (p - x) * (p - x);
  }

  lemma ExpandsSum(a: real, b: real, c: real, e: real, a': real, b': real, c': real, e': real, x: real, p: real)
    requires Expands(a, b, c, e, x, p) && Expands(a', b', c', e', x, p)
    ensures Expands(a + a', b + b', c + c', e + e', x, p)
  {
    Spread(2.0 * (p - x), c, c');
    Spread((p - x) * (p - x), e, e');
  }

  lemma Spread(k: real, a: real, b: real)
    ensures k * (a + b) == k * a + k * b
  {}

  lemma {:induction false} LossExpands(d: seq<real>, targets: seq<real>, s: seq<int>, x: real, p: real, m: nat)
    requires NotNegative(d) && m <= |s| && forall i :: 0 <= i < |s| ==> 0 <= s[i] < |d| && s[i] < |targets|
    ensures Expands(Loss(d, targets, s, x, m), Loss(d, targets, s, p, m), Pull(d, targets, s, p, m), WeightSum(d, s, m), x, p)
  {
    if m > 0 {
      hide Expands, Similarity, Penalty, Tug;
      LossExpands(d, targets, s, x, p, m - 1);
      var (t, dist) := (targets[s[m - 1]], d[s[m - 1]]);
      TermExpands(t, x, p, dist);
      ExpandsSum(Loss(d, targets, s, x, m - 1), Loss(d, targets, s, p, m - 1), Pull(d, targets, s, p, m - 1), WeightSum(d, s, m - 1),
                 Penalty(t, x, dist), Penalty(t, p, dist), Tug(t, p, Similarity(dist)), Similarity(dist), x, p);
    }
  }

  /** A sum of weighted gaps from the mean and the sum of the weights. */
  ghost predicate Balanced(pull: real, blend: real, sum: real, x: real, total: real) { pull == blend * total - x * sum }

  lemma BalancedTerm(t: real, x: real, w: real, total: real)
    requires total > 0.0
    ensures Balanced(Tug(t, x, w), Part(t, w, total), w, x, total)
  {}

  lemma BalancedSum(a: real, b: real, c: real, a': real, b': real, c': real, x: real, total: real)
    requires Balanced(a, b, c, x, total) && Balanced(a', b', c', x, total)
    ensures Balanced(a + a', b + b', c + c', x, total)
  {
    Spread(total, b, b');
    Spread(x, c, c');
  }

  lemma {:induction false} PullIs(d: seq<real>, targets: seq<real>, s: seq<int>, x: real, total: real, m: nat)
    requires m <= |s| && total > 0.0 && forall i :: 0 <= i < |s| ==> 0 <= s[i] < |targets|
    ensures Balanced(Pull(d, targets, s, x, m), Blend(TargetsOf(targets, s), WeightsOf(d, s), total, m),
                     Sum(WeightsOf(d, s), m), x, total)
  {
    if m > 0 {
      hide Balanced, Weight, Tug, Part;
      PullIs(d, targets, s, x, total, m - 1);
      var (ts, ws) := (TargetsOf(targets, s), WeightsOf(d, s));
      BalancedTerm(ts[m - 1], x, ws[m - 1], total);
      BalancedSum(Pull(d, targets, s, x, m - 1), Blend(ts, ws, total, m - 1), Sum(ws, m - 1),
                  Tug(ts[m - 1], x, ws[m - 1]), Part(ts[m - 1], ws[m - 1], total), ws[m - 1], x, total);
    }
  }

  /** At the mean the weighted gaps cancel, and at no other number. */
  lemma {:induction false} MeanBalances(d: seq<real>, targets: seq<real>, s: seq<int>, x: real)
    requires NotNegative(d) && |s| > 0 && forall i :: 0 <= i < |s| ==> 0 <= s[i] < |targets|
    ensures WeightSum(d, s, |s|) > 0.0
    ensures Pull(d, targets, s, x, |s|) == Product(MeanOf(d, targets, s) - x, WeightSum(d, s, |s|))
  {
    hide Blend, Weight, WeightSum, Pull, Sum, WeightsOf, Balanced;
    var ws := WeightsOf(d, s);
    SumPositive(ws, |ws|);
    assert MeanOf(d, targets, s) == Blend(TargetsOf(targets, s), ws, Sum(ws, |ws|), |ws|);
    hide MeanOf;
    PullIs(d, targets, s, x, Sum(ws, |ws|), |s|);
    assert WeightSum(d, s, |s|) == Sum(ws, |s|) by {
      WeightSumIsSum(d, s, |s|, |s|);
      assert s[..|s|] == s;
    }
    AtMean(Pull(d, targets, s, x, |s|), MeanOf(d, targets, s), x, Sum(ws, |ws|));
  }

  lemma AtMean(pull: real, mean: real, x: real, total: real)
    requires Balanced(pull, mean, total, x, total)
    ensures pull == Product(mean - x, total)
  {}

  /** The prediction before clamping is the one number with the least loss. */
  lemma PredictionIsLeastLoss(d: seq<real>, targets: seq<real>, k: nat, x: real)
    requires |targets| >= |d| > 0 && k > 0 && NotNegative(d)
    ensures var (s, p) := (Neighbours(d, k), Mean(d, targets, k));
      && Loss(d, targets, s, p, |s|) <= Loss(d, targets, s, x, |s|)
      && (Loss(d, targets, s, p, |s|) == Loss(d, targets, s, x, |s|) ==> x == p)
  {
    var (s, p) := (Neighbours(d, k), Mean(d, targets, k));
    hide Loss, Pull, WeightSum, MeanOf, Neighbours, Expands;
    MeanBalances(d, targets, s, p);
    assert Pull(d, targets, s, p, |s|) == 0.0;
    LossExpands(d, targets, s, x, p, |s|);
    LeastAt(Loss(d, targets, s, x, |s|), Loss(d, targets, s, p, |s|), WeightSum(d, s, |s|), x, p);
  }

  lemma LeastAt(lossX: real, lossP: real, sum: real, x: real, p: real)
    requires Expands(lossX, lossP, 0.0, sum, x, p) && sum > 0.0
    ensures lossP <= lossX && (lossP == lossX ==> x == p)
  {
    var sq := (p - x) * (p - x);
    SquareIsNotNegative(p - x);
    SquareIsZero(p - x, sq);
    if sq > 0.0 { ProductPositive(sq, sum, sq * sum); }
  }
}
