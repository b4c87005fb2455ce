/**
 Running means of a receptive field (contrib/aqo: machine_learning_lwpr.c), against the batch sums.

 `weight` is `sum_w[0]`; `lambda` is 1 throughout (see LwprField).
 */
module LwprMeans {

  const PRIOR: real := 0.0000000001

  datatype Sample = Sample(x: seq<real>, y: real, w: real)

  datatype Means = Means(meanX: seq<real>, varX: seq<real>, beta0: real)

  // ----- lwpr_aux_update_means -----

  function Pull(swl: real, mean: real, w: real, x: real): real
    requires swl > 0.0 && w > 0.0
  {
    (swl * mean + w * x) * (1.0 / (swl + w))
  }

  function Sq(x: real): real { x * x }

  function NextMean(m: Means, swl: real, s: Sample, i: nat): real
    requires swl > 0.0 && s.w > 0.0 && i < |m.meanX| == |s.x|
  {
    Pull(swl, m.meanX[i], s.w, s.x[i])
  }

  function NextVar(m: Means, swl: real, s: Sample, i: nat): real
    requires swl > 0.0 && s.w > 0.0 && i < |m.meanX| == |s.x| == |m.varX|
  {
    Pull(swl, m.varX[i], s.w, Sq(s.x[i] - NextMean(m, swl, s, i)))
  }

  function NextMeans(m: Means, swl: real, s: Sample): (r: Means)
    requires swl > 0.0 && s.w > 0.0 && |m.meanX| == |s.x| == |m.varX|
    ensures |r.meanX| == |r.varX| == |s.x|
  {
    Means(seq(|s.x|, i requires 0 <= i < |s.x| => NextMean(m, swl, s, i)),
          seq(|s.x|, i requires 0 <= i < |s.x| => NextVar(m, swl, s, i)),
          Pull(swl, m.beta0, s.w, s.y))
  }

  /** The loop; `gaps` is `xmz` and the last result is what the C function returns. */
  method UpdateMeans(m: Means, swl: real, s: Sample) returns (r: Means, gaps: seq<real>, gap: real)
    requires swl > 0.0 && s.w > 0.0 && |m.meanX| == |s.x| == |m.varX|
    ensures r == NextMeans(m, swl, s)
    ensures |gaps| == |s.x| && forall i :: 0 <= i < |gaps| ==> gaps[i] == s.x[i] - r.meanX[i]
    ensures gap == s.y - r.beta0
  {
    var invFac := 1.0 / (swl + s.w);
    var meanX, varX := m.meanX, m.varX;
    gaps := [];
    ghost var next := NextMeans(m, swl, s);
    for i := 0 to |s.x|
      invariant |meanX| == |varX| == |s.x| && |gaps| == i
      invariant meanX[..i] == next.meanX[..i] && meanX[i..] == m.meanX[i..]
      invariant varX[..i] == next.varX[..i] && varX[i..] == m.varX[i..]
      invariant forall l :: 0 <= l < i ==> gaps[l] == s.x[l] - next.meanX[l]
    {
      assert meanX[i] == m.meanX[i] && varX[i] == m.varX[i];
      var mx := (swl * meanX[i] + s.w * s.x[i]) * invFac;
      assert mx == next.meanX[i];
      meanX := meanX[i := mx];
      mx := s.x[i] - mx;
      gaps := gaps + [mx];
      var vx := (swl * varX[i] + s.w * (mx * mx)) * invFac;
      assert vx == next.varX[i];
      varX := varX[i := vx];
    }
    var beta0 := Pull(swl, m.beta0, s.w, s.y);
    r := Means(meanX, varX, beta0);
    gap := s.y - beta0;
  }

  // ----- batch sums -----

  ghost predicate Samples(ss: seq<Sample>, nIn: nat) {
    forall i :: 0 <= i < |ss| ==> |ss[i].x| == nIn && ss[i].w > 0.0
  }

  /** Sum of `w * g` over the first `n` samples. */
  ghost function Batch(ss: seq<Sample>, g: Sample -> real, n: nat): real
    requires n <= |ss|
  {
    if n == 0 then 0.0 else Batch(ss, g, n - 1) + ss[n - 1].w * g(ss[n - 1])
  }

  ghost function One(): Sample -> real { (s: Sample) => 1.0 }

  ghost function Coord(i: nat): Sample -> real { (s: Sample) => if i < |s.x| then s.x[i] else 0.0 }

  ghost function Output(): Sample -> real { (s: Sample) => s.y }

  ghost function SquareOf(i: nat): Sample -> real { (s: Sample) => Sq(Coord(i)(s)) }

  ghost function GapTo(i: nat, c: real): Sample -> real { (s: Sample) => Sq(Coord(i)(s) - c) }

  ghost function TotalWeight(ss: seq<Sample>, n: nat): real
    requires n <= |ss|
  {
    PRIOR + Batch(ss, One(), n)
  }

  lemma {:induction false} WeightPositive(ss: seq<Sample>, nIn: nat, n: nat)
    requires Samples(ss, nIn) && n <= |ss|
    ensures TotalWeight(ss, n) >= PRIOR && Batch(ss, One(), n) >= 0.0
  {
    if n > 0 { WeightPositive(ss, nIn, n - 1); }
  }

  /** The means after the first `n` samples. */
  ghost function RunMeans(m0: Means, ss: seq<Sample>, n: nat): (m: Means)
    requires Samples(ss, |m0.meanX|) && |m0.varX| == |m0.meanX| && n <= |ss|
    ensures |m.meanX| == |m.varX| == |m0.meanX|
  {
    if n == 0 then m0
    else
      WeightPositive(ss, |m0.meanX|, n - 1);
      NextMeans(RunMeans(m0, ss, n - 1), TotalWeight(ss, n - 1), ss[n - 1])
  }

  lemma PullTimes(swl: real, mean: real, w: real, x: real)
    requires swl > 0.0 && w > 0.0
    ensures Pull(swl, mean, w, x) * (swl + w) == swl * mean + w * x
  {
    var (a, b) := (swl * mean + w * x, swl + w);
    assert a * (1.0 / b) * b == a * ((1.0 / b) * b);
  }

  /** A zeroed field, as `lwpr_mem_alloc_rf` leaves it. */
  ghost predicate Zeroed(m: Means) {
    |m.varX| == |m.meanX| && forall i :: 0 <= i < |m.meanX| ==> m.meanX[i] == 0.0 && m.varX[i] == 0.0
  }

  /** `m`, at weight `total`, accounts for the sum `a`. */
  predicate IsMean(m: real, total: real, a: real) { m * total == a }

  lemma IsMeanStep(swl: real, m: real, w: real, x: real, a: real, m': real, total: real, a': real)
    requires swl > 0.0 && w > 0.0 && IsMean(m, swl, a)
    requires m' == Pull(swl, m, w, x) && total == swl + w && Adds(a', a, w, x)
    ensures IsMean(m', total, a')
  {
    PullTimes(swl, m, w, x);
  }

  /** `sum'` is `sum` with `w * x` added. */
  predicate Adds(sum': real, sum: real, w: real, x: real) { sum' == sum + w * x }

  lemma BatchStep(ss: seq<Sample>, g: Sample -> real, n: nat)
    requires 0 < n <= |ss|
    ensures Adds(Batch(ss, g, n), Batch(ss, g, n - 1), ss[n - 1].w, g(ss[n - 1]))
    ensures TotalWeight(ss, n) == TotalWeight(ss, n - 1) + ss[n - 1].w
  {}

  /** The running mean is the batch mean with a prior of weight 1e-10 at zero. */
  lemma {:induction false} MeanIsBatchMean(m0: Means, ss: seq<Sample>, n: nat, i: nat)
    requires Zeroed(m0) && Samples(ss, |m0.meanX|) && n <= |ss| && i < |m0.meanX|
    ensures IsMean(RunMeans(m0, ss, n).meanX[i], TotalWeight(ss, n), Batch(ss, Coord(i), n))
  {
    if n > 0 {
      MeanIsBatchMean(m0, ss, n - 1, i);
      WeightPositive(ss, |m0.meanX|, n - 1);
      var (m, s, swl) := (RunMeans(m0, ss, n - 1), ss[n - 1], TotalWeight(ss, n - 1));
      BatchStep(ss, Coord(i), n);
      IsMeanStep(swl, m.meanX[i], s.w, Coord(i)(s), Batch(ss, Coord(i), n - 1),
                 RunMeans(m0, ss, n).meanX[i], TotalWeight(ss, n), Batch(ss, Coord(i), n));
    }
  }

  /** The running intercept is the batch mean of the outputs with the initial intercept as prior. */
  lemma {:induction false} InterceptIsBatchMean(m0: Means, ss: seq<Sample>, n: nat)
    requires |m0.varX| == |m0.meanX| && Samples(ss, |m0.meanX|) && n <= |ss|
    ensures IsMean(RunMeans(m0, ss, n).beta0, TotalWeight(ss, n), PRIOR * m0.beta0 + Batch(ss, Output(), n))
  {
    if n > 0 {
      InterceptIsBatchMean(m0, ss, n - 1);
      WeightPositive(ss, |m0.meanX|, n - 1);
      var (m, s, swl) := (RunMeans(m0, ss, n - 1), ss[n - 1], TotalWeight(ss, n - 1));
      BatchStep(ss, Output(), n);
      IsMeanStep(swl, m.beta0, s.w, Output()(s), PRIOR * m0.beta0 + Batch(ss, Output(), n - 1),
                 RunMeans(m0, ss, n).beta0, TotalWeight(ss, n), PRIOR * m0.beta0 + Batch(ss, Output(), n));
    }
  }

  // ----- the running variance -----

  /** One step of the scatter inequality. */
  lemma ScatterStep(s: real, m: real, v: real, q: real, w: real, x: real, m': real, v': real)
    requires s > 0.0 && w > 0.0
    requires m' * (s + w) == s * m + w * x
    requires v' * (s + w) == s * v + w * ((x - m') * (x - m'))
    requires s * v + s * m * m <= q
    ensures (s + w) * v' + (s + w) * m' * m' <= q + w * (x * x)
  {
    var gap := m' - m;
    assert s * (gap * gap) >= 0.0 by { assert gap * gap >= 0.0; }
    calc {
      (s + w) * v' + (s + w) * m' * m';
      s * v + w * ((x - m') * (x - m')) + (s + w) * m' * m';
      s * v + w * (x * x) - 2.0 * (w * x) * m' + w * m' * m' + (s + w) * m' * m';
      { assert w * x == m' * (s + w) - s * m; }
      s * v + w * (x * x) - 2.0 * (m' * (s + w) - s * m) * m' + w * m' * m' + (s + w) * m' * m';
      s * v + s * m * m + w * (x * x) - s * (gap * gap);
    }
  }

  lemma SquareNotNegative(x: real)
    ensures x * x >= 0.0
  {}

  lemma PullNotNegative(swl: real, v: real, w: real, x: real)
    requires swl > 0.0 && w > 0.0 && v >= 0.0 && x >= 0.0
    ensures Pull(swl, v, w, x) >= 0.0
  {
    assert swl * v + w * x >= 0.0;
  }

  /** Mean and variance `m`, `v` of weight `total` fit in the sum of squares `q`. */
  predicate Fits(total: real, m: real, v: real, q: real) { v >= 0.0 && total * v + total * m * m <= q }

  lemma FitsStep(swl: real, m: real, v: real, q: real, w: real, x: real, sq: real, m': real, v': real, total: real, q': real)
    requires swl > 0.0 && w > 0.0 && Fits(swl, m, v, q) && sq == Sq(x)
    requires m' == Pull(swl, m, w, x) && v' == Pull(swl, v, w, Sq(x - m')) && total == swl + w && Adds(q', q, w, sq)
    ensures Fits(total, m', v', q')
  {
    var gap := Sq(x - m');
    SquareNotNegative(x - m');
    PullNotNegative(swl, v, w, gap);
    PulledTo(swl, m, w, x, m', total);
    PulledTo(swl, v, w, gap, v', total);
    FitsOn(swl, m, v, q, w, x, m', v', total, gap, q');
  }

  lemma PulledTo(swl: real, mean: real, w: real, x: real, r: real, total: real)
    requires swl > 0.0 && w > 0.0 && r == Pull(swl, mean, w, x) && total == swl + w
    ensures r * total == swl * mean + w * x
  {
    PullTimes(swl, mean, w, x);
  }

  lemma FitsOn(swl: real, m: real, v: real, q: real, w: real, x: real, m': real, v': real, total: real, gap: real, q': real)
    requires swl > 0.0 && w > 0.0 && v' >= 0.0 && total == swl + w && gap == Sq(x - m') && Fits(swl, m, v, q)
    requires m' * total == swl * m + w * x && v' * total == swl * v + w * gap && Adds(q', q, w, Sq(x))
    ensures Fits(total, m', v', q')
  {
    ScatterStep(swl, m, v, q, w, x, m', v');
  }

  /** One coordinate of one step. */
  lemma CoordStep(m: Means, swl: real, s: Sample, i: nat)
    requires swl > 0.0 && s.w > 0.0 && i < |m.meanX| == |s.x| == |m.varX|
    ensures var (r, x) := (NextMeans(m, swl, s), Coord(i)(s));
      && r.meanX[i] == Pull(swl, m.meanX[i], s.w, x)
      && r.varX[i] == Pull(swl, m.varX[i], s.w, Sq(x - r.meanX[i]))
  {}

  lemma {:induction false} VarianceFits(m0: Means, ss: seq<Sample>, n: nat, i: nat)
    requires Zeroed(m0) && Samples(ss, |m0.meanX|) && n <= |ss| && i < |m0.meanX|
    ensures Fits(TotalWeight(ss, n), RunMeans(m0, ss, n).meanX[i], RunMeans(m0, ss, n).varX[i], Batch(ss, SquareOf(i), n))
  {
    if n > 0 {
      VarianceFits(m0, ss, n - 1, i);
      WeightPositive(ss, |m0.meanX|, n - 1);
      VarianceFitsStep(RunMeans(m0, ss, n - 1), ss, n, i);
    }
  }

  lemma VarianceFitsStep(m: Means, ss: seq<Sample>, n: nat, i: nat)
    requires 0 < n <= |ss| && i < |m.meanX| == |m.varX| == |ss[n - 1].x| && TotalWeight(ss, n - 1) > 0.0 && ss[n - 1].w > 0.0
    requires Fits(TotalWeight(ss, n - 1), m.meanX[i], m.varX[i], Batch(ss, SquareOf(i), n - 1))
    ensures var r := NextMeans(m, TotalWeight(ss, n - 1), ss[n - 1]);
      Fits(TotalWeight(ss, n), r.meanX[i], r.varX[i], Batch(ss, SquareOf(i), n))
  {
    var (s, swl) := (ss[n - 1], TotalWeight(ss, n - 1));
    var r := NextMeans(m, swl, s);
    CoordStep(m, swl, s, i);
    BatchStep(ss, SquareOf(i), n);
    FitsStep(swl, m.meanX[i], m.varX[i], Batch(ss, SquareOf(i), n - 1), s.w, Coord(i)(s), SquareOf(i)(s),
             r.meanX[i], r.varX[i], TotalWeight(ss, n), Batch(ss, SquareOf(i), n));
  }

  /** The expansion of a sum of squared gaps to `c`. */
  predicate Expands(g: real, q: real, a: real, b: real, c: real) { g == q - 2.0 * c * a + c * c * b }

  lemma GapTerm(w: real, x: real, c: real)
    ensures w * Sq(x - c) == w * Sq(x) - 2.0 * c * (w * x) + c * c * w
  {}

  lemma Spread(k: real, a: real, b: real, sum: real)
    requires sum == a + b
    ensures k * sum == k * a + k * b
  {}

  lemma ExpandsStep(g: real, q: real, a: real, b: real, c: real, w: real, x: real, gap: real, sq: real, g': real, q': real, a': real, b': real)
    requires Expands(g, q, a, b, c) && gap == Sq(x - c) && sq == Sq(x)
    requires Adds(g', g, w, gap) && Adds(q', q, w, sq) && Adds(a', a, w, x) && Adds(b', b, w, 1.0)
    ensures Expands(g', q', a', b', c)
  {
    GapTerm(w, x, c);
    Spread(2.0 * c, a, w * x, a');
    Spread(c * c, b, w, b');
  }

  lemma {:induction false} ScatterExpands(ss: seq<Sample>, i: nat, c: real, n: nat)
    requires n <= |ss|
    ensures Expands(Batch(ss, GapTo(i, c), n), Batch(ss, SquareOf(i), n), Batch(ss, Coord(i), n), Batch(ss, One(), n), c)
  {
    if n > 0 {
      ScatterExpands(ss, i, c, n - 1);
      ScatterExpandsStep(ss, i, c, n);
    }
  }

  lemma ScatterExpandsStep(ss: seq<Sample>, i: nat, c: real, n: nat)
    requires 0 < n <= |ss|
    requires Expands(Batch(ss, GapTo(i, c), n - 1), Batch(ss, SquareOf(i), n - 1), Batch(ss, Coord(i), n - 1), Batch(ss, One(), n - 1), c)
    ensures Expands(Batch(ss, GapTo(i, c), n), Batch(ss, SquareOf(i), n), Batch(ss, Coord(i), n), Batch(ss, One(), n), c)
  {
    BatchStep(ss, GapTo(i, c), n);
    BatchStep(ss, SquareOf(i), n);
    BatchStep(ss, Coord(i), n);
    BatchStep(ss, One(), n);
    var s := ss[n - 1];
    ExpandsStep(Batch(ss, GapTo(i, c), n - 1), Batch(ss, SquareOf(i), n - 1), Batch(ss, Coord(i), n - 1), Batch(ss, One(), n - 1),
                c, s.w, Coord(i)(s), GapTo(i, c)(s), SquareOf(i)(s),
                Batch(ss, GapTo(i, c), n), Batch(ss, SquareOf(i), n), Batch(ss, Coord(i), n), Batch(ss, One(), n));
  }

  /** Variance `v` of weight `total` about `m` is within the scatter `g` and the prior's share. */
  predicate WithinScatter(total: real, m: real, v: real, g: real) { v >= 0.0 && total * v <= g + PRIOR * (m * m) }

  lemma AboutMean(total: real, m: real, v: real, g: real, q: real, a: real, b: real)
    requires IsMean(m, total, a) && total == PRIOR + b && Fits(total, m, v, q) && Expands(g, q, a, b, m)
    ensures WithinScatter(total, m, v, g)
  {
    assert m * a == m * m * total;
    assert m * m * total == m * m * b + PRIOR * (m * m);
  }

  /** The running variance is never negative and never exceeds the weighted scatter about the mean. */
  lemma {:induction false} VarianceWithinScatter(m0: Means, ss: seq<Sample>, n: nat, i: nat)
    requires Zeroed(m0) && Samples(ss, |m0.meanX|) && n <= |ss| && i < |m0.meanX|
    ensures var (m, v) := (RunMeans(m0, ss, n).meanX[i], RunMeans(m0, ss, n).varX[i]);
      WithinScatter(TotalWeight(ss, n), m, v, Batch(ss, GapTo(i, m), n))
  {
    var (m, v) := (RunMeans(m0, ss, n).meanX[i], RunMeans(m0, ss, n).varX[i]);
    VarianceFits(m0, ss, n, i);
    MeanIsBatchMean(m0, ss, n, i);
    ScatterExpands(ss, i, m, n);
    AboutMean(TotalWeight(ss, n), m, v, Batch(ss, GapTo(i, m), n), Batch(ss, SquareOf(i), n), Batch(ss, Coord(i), n), Batch(ss, One(), n));
  }
}
