/**
 The prediction is a weighted mean of the nearest rows' targets (contrib/aqo: machine_learning.c).
 */
module KnnPredict {
  import opened Roots
  import opened KnnSelect

  // ----- weighted means -----

  /** The first `n` terms of the sum of `ts[i] * ws[i] / total`. */
  function Blend(ts: seq<real>, ws: seq<real>, total: real, n: nat): real
    requires n <= |ts| && n <= |ws| && total > 0.0
  {
    if n == 0 then 0.0 else Blend(ts, ws, total, n - 1) + Part(ts[n - 1], ws[n - 1], total)
  }

  function Part(t: real, w: real, total: real): real
    requires total > 0.0
  {
    t * w / total
  }

  function Sum(ws: seq<real>, n: nat): real
    requires n <= |ws|
  {
    if n == 0 then 0.0 else Sum(ws, n - 1) + ws[n - 1]
  }

  ghost predicate Positive(ws: seq<real>) { forall i :: 0 <= i < |ws| ==> ws[i] > 0.0 }

  ghost predicate Within(ts: seq<real>, lo: real, hi: real) { forall i :: 0 <= i < |ts| ==> lo <= ts[i] <= hi }

  lemma ScaleLess(a: real, b: real, w: real, total: real)
    requires a <= b && w >= 0.0 && total > 0.0
    ensures a * w / total <= b * w / total
  {
    assert a * w <= b * w;
  }

  lemma Distribute(lo: real, a: real, b: real, total: real)
    requires total > 0.0
    ensures lo * (a + b) / total == lo * a / total + lo * b / total
  {
    assert lo * (a + b) == lo * a + lo * b;
  }

  lemma {:induction false} BlendOrdered(a: seq<real>, b: seq<real>, ws: seq<real>, total: real, n: nat)
    requires n <= |ws| == |a| == |b| && total > 0.0 && Positive(ws)
    requires forall i :: 0 <= i < |a| ==> a[i] <= b[i]
    ensures Blend(a, ws, total, n) <= Blend(b, ws, total, n)
  {
    if n > 0 {
      BlendOrdered(a, b, ws, total, n - 1);
      ScaleLess(a[n - 1], b[n - 1], ws[n - 1], total);
    }
  }

  lemma {:induction false} BlendConstant(x: real, ts: seq<real>, ws: seq<real>, total: real, n: nat)
    requires n <= |ws| == |ts| && total > 0.0
    requires forall i :: 0 <= i < |ts| ==> ts[i] == x
    ensures Blend(ts, ws, total, n) == x * Sum(ws, n) / total
  {
    if n > 0 {
      BlendConstant(x, ts, ws, total, n - 1);
      Distribute(x, Sum(ws, n - 1), ws[n - 1], total);
      assert Sum(ws, n - 1) + ws[n - 1] == Sum(ws, n);
    }
  }

  lemma {:induction false} SumPositive(ws: seq<real>, n: nat)
    requires n <= |ws| && Positive(ws)
    ensures Sum(ws, n) >= 0.0 && (n > 0 ==> Sum(ws, n) > 0.0)
  {
    if n > 0 { SumPositive(ws, n - 1); }
  }

  lemma WholeShare(x: real, total: real)
    requires total > 0.0
    ensures x * total / total == x
  {}

  lemma {:induction false} ConstantMean(x: real, ts: seq<real>, ws: seq<real>)
    requires |ts| == |ws| && Sum(ws, |ws|) > 0.0
    requires forall i :: 0 <= i < |ts| ==> ts[i] == x
    ensures Blend(ts, ws, Sum(ws, |ws|), |ws|) == x
  {
    BlendConstant(x, ts, ws, Sum(ws, |ws|), |ws|);
    WholeShare(x, Sum(ws, |ws|));
  }

  /** A mean with positive weights lies between the least and the greatest target. */
  lemma {:induction false} MeanWithin(ts: seq<real>, ws: seq<real>, lo: real, hi: real)
    requires |ts| == |ws| > 0 && Positive(ws) && Within(ts, lo, hi) && Sum(ws, |ws|) > 0.0
    ensures lo <= Blend(ts, ws, Sum(ws, |ws|), |ws|) <= hi
  {
    var (least, greatest) := (seq(|ts|, _ => lo), seq(|ts|, _ => hi));
    ConstantMean(lo, least, ws);
    ConstantMean(hi, greatest, ws);
    BlendOrdered(least, ts, ws, Sum(ws, |ws|), |ws|);
    BlendOrdered(ts, greatest, ws, Sum(ws, |ws|), |ws|);
  }

  // ----- the selected rows -----

  function Distances(root: real -> real, matrix: seq<seq<real>>, f: seq<real>): (d: seq<real>)
    requires forall i :: 0 <= i < |matrix| ==> |matrix[i]| == |f|
    ensures |d| == |matrix|
  {
    seq(|matrix|, i requires 0 <= i < |matrix| => Distance(root, matrix[i], f))
  }

  lemma DistancesNotNegative(root: real -> real, matrix: seq<seq<real>>, f: seq<real>)
    requires IsRoot(root) && forall i :: 0 <= i < |matrix| ==> |matrix[i]| == |f|
    ensures NotNegative(Distances(root, matrix, f))
  {
    forall i | 0 <= i < |matrix| ensures Distances(root, matrix, f)[i] >= 0.0 { DistanceNotNegative(root, matrix[i], f); }
  }

  method ComputeDistances(root: real -> real, matrix: seq<seq<real>>, f: seq<real>) returns (d: seq<real>)
    requires forall i :: 0 <= i < |matrix| ==> |matrix[i]| == |f|
    ensures d == Distances(root, matrix, f)
  {
    d := [];
    for i := 0 to |matrix|
      invariant d == Distances(root, matrix, f)[..i]
    {
      var x := FsDistance(root, matrix[i], f);
      d := d + [x];
    }
  }

  /** The nearest rows, without the fill. */
  ghost function Neighbours(d: seq<real>, k: nat): (s: seq<int>)
    ensures |s| == Min(|d|, k)
    ensures forall i :: 0 <= i < |s| ==> 0 <= s[i] < |d|
  {
    ChosenAreNearest(d, |d|, k);
    Chosen(d, |d|, k)[..Min(|d|, k)]
  }

  ghost function TargetsOf(targets: seq<real>, s: seq<int>): (r: seq<real>)
    requires forall i :: 0 <= i < |s| ==> 0 <= s[i] < |targets|
    ensures |r| == |s|
  {
    seq(|s|, i requires 0 <= i < |s| => targets[s[i]])
  }

  ghost function WeightsOf(d: seq<real>, s: seq<int>): (r: seq<real>)
    ensures |r| == |s|
    ensures NotNegative(d) ==> Positive(r)
  {
    seq(|s|, i requires 0 <= i < |s| => Weight(d, s[i]))
  }

  lemma {:induction false} WeightSumIsSum(d: seq<real>, s: seq<int>, m: nat, n: nat)
    requires n <= m <= |s|
    ensures WeightSum(d, s, n) == Sum(WeightsOf(d, s[..m]), n)
  {
    if n > 0 { WeightSumIsSum(d, s, m, n - 1); }
  }

  /** The mean of the listed rows' targets, weighted by nearness. */
  ghost function MeanOf(d: seq<real>, targets: seq<real>, s: seq<int>): real
    requires NotNegative(d) && |s| > 0 && forall i :: 0 <= i < |s| ==> 0 <= s[i] < |targets|
  {
    var ws := WeightsOf(d, s);
    SumPositive(ws, |ws|);
    Blend(TargetsOf(targets, s), ws, Sum(ws, |ws|), |ws|)
  }

  /** What is predicted before clamping: the mean over the neighbours. */
  ghost function Mean(d: seq<real>, targets: seq<real>, k: nat): real
    requires |targets| >= |d| > 0 && k > 0 && NotNegative(d)
  {
    MeanOf(d, targets, Neighbours(d, k))
  }

  ghost function MeanAt(root: real -> real, matrix: seq<seq<real>>, targets: seq<real>, f: seq<real>, k: nat): real
    requires IsRoot(root) && |targets| == |matrix| > 0 && k > 0
    requires forall i :: 0 <= i < |matrix| ==> |matrix[i]| == |f|
  {
    DistancesNotNegative(root, matrix, f);
    Mean(Distances(root, matrix, f), targets, k)
  }

  /** Before clamping the prediction lies between the least and greatest target of the nearest rows. */
  lemma PredictionIsBetween(d: seq<real>, targets: seq<real>, k: nat, lo: real, hi: real)
    requires |targets| >= |d| > 0 && k > 0 && NotNegative(d)
    requires Within(TargetsOf(targets, Neighbours(d, k)), lo, hi)
    ensures lo <= Mean(d, targets, k) <= hi
  {
    var ws := WeightsOf(d, Neighbours(d, k));
    SumPositive(ws, |ws|);
    MeanWithin(TargetsOf(targets, Neighbours(d, k)), ws, lo, hi);
  }

  /** The neighbours are distinct, in order of distance with ties by row, and no other row is nearer. */
  lemma NeighboursAreNearest(d: seq<real>, k: nat)
    ensures var s := Neighbours(d, k);
      && (forall i, j :: 0 <= i < j < |s| ==> Before(d, s[i], s[j]) && s[i] != s[j])
      && (forall r, j :: 0 <= r < |d| && r !in s && 0 <= j < |s| ==> Before(d, s[j], r))
      && (|s| < k ==> forall r :: 0 <= r < |d| ==> r in s)
  {
    ChosenAreNearest(d, |d|, k);
    var (c, s) := (Chosen(d, |d|, k), Neighbours(d, k));
    forall i, j | 0 <= i < j < |s| ensures Before(d, s[i], s[j]) && s[i] != s[j] { ListedPair(d, k, c, s, i, j); }
    forall r, j | 0 <= r < |d| && r !in s && 0 <= j < |s| ensures Before(d, s[j], r) { UnlistedRow(d, k, c, s, r, j); }
    if |s| < k {
      forall r | 0 <= r < |d| ensures r in s {
        if r !in s { UnlistedRow(d, k, c, s, r, k - 1); }
      }
    }
  }

  lemma ListedPair(d: seq<real>, k: nat, c: seq<int>, s: seq<int>, i: nat, j: nat)
    requires Nearest(d, |d|, k, c) && s == c[..Min(|d|, k)] && i < j < |s|
    ensures Before(d, s[i], s[j]) && s[i] != s[j]
  {
    assert Before(d, c[i], c[j]);
  }

  /** A row left out is farther than every row listed, and then the list is full. */
  lemma UnlistedRow(d: seq<real>, k: nat, c: seq<int>, s: seq<int>, r: int, j: nat)
    requires Nearest(d, |d|, k, c) && s == c[..Min(|d|, k)] && 0 <= r < |d| && r !in s && j < k
    ensures |s| == k && Before(d, c[j], r)
  {
    forall i | 0 <= i < k ensures c[i] != r {
      if i < |s| { assert s[i] == c[i]; }
    }
    assert r !in c;
    assert c[k - 1] != -1;
  }

  // ----- OkNNr_predict -----

  method BlendLoop(targets: seq<real>, idx: seq<int>, w: seq<real>, wSum: real, ghost m: nat) returns (result: real)
    requires |idx| == |w| && m <= |idx| && (m > 0 ==> wSum > 0.0)
    requires forall i :: 0 <= i < |idx| ==> (if i < m then 0 <= idx[i] < |targets| else idx[i] == -1)
    ensures m > 0 ==> result == Blend(TargetsOf(targets, idx[..m]), w, wSum, m)
    ensures m == 0 ==> result == 0.0
  {
    result := 0.0;
    ghost var ts := TargetsOf(targets, idx[..m]);
    for i := 0 to |idx|
      invariant m > 0 ==> result == Blend(ts, w, wSum, Min(i, m))
      invariant m == 0 ==> result == 0.0
    {
      if idx[i] != -1 {
        var t, v := targets[idx[i]], w[i];
        assert Min(i, m) == i && Min(i + 1, m) == i + 1 && ts[i] == t;
        result := result + t * v / wSum;
      } else {
        assert Min(i + 1, m) == Min(i, m);
      }
    }
  }

  method Predict(root: real -> real, matrix: seq<seq<real>>, targets: seq<real>, f: seq<real>, k: nat) returns (result: real)
    requires IsRoot(root) && |targets| == |matrix| && k > 0
    requires forall i :: 0 <= i < |matrix| ==> |matrix[i]| == |f|
    ensures result < 0.0 <==> |matrix| == 0
    ensures |matrix| > 0 ==>
      result == if MeanAt(root, matrix, targets, f, k) < 0.0 then 0.0 else MeanAt(root, matrix, targets, f, k)
  {
    var d := ComputeDistances(root, matrix, f);
    DistancesNotNegative(root, matrix, f);
    var idx, w, wSum := ComputeWeights(d, k);
    ghost var m := Min(|d|, k);
    ChosenAreNearest(d, |d|, k);
    WeightSumIsSum(d, idx[..], m, m);
    result := BlendLoop(targets, idx[..], w[..], wSum, m);
    if m > 0 {
      SameBlend(TargetsOf(targets, Neighbours(d, k)), w[..], WeightsOf(d, Neighbours(d, k)), wSum, m);
    }
    if result < 0.0 {
      result := 0.0;
    }
    if idx[0] == -1 {
      result := -1.0;
    }
  }

  lemma {:induction false} SameBlend(ts: seq<real>, a: seq<real>, b: seq<real>, total: real, n: nat)
    requires n <= |ts| && n <= |a| && n <= |b| && total > 0.0
    requires forall i :: 0 <= i < n ==> a[i] == b[i]
    ensures Blend(ts, a, total, n) == Blend(ts, b, total, n)
  {
    if n > 0 { SameBlend(ts, a, b, total, n - 1); }
  }
}
