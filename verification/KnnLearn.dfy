/**
 Learning one object (contrib/aqo: machine_learning.c, `OkNNr_learn`).

 A row is a value that the method replaces in `matrix`.
 */
module KnnLearn {
  import opened Sorting
  import opened Roots
  import opened KnnSelect
  import opened KnnPredict

  const LEARNING_RATE: real := 0.1
  const OBJECT_THRESHOLD: real := 0.1

  // ----- the nearest row -----

  /** The nearest of the first `n` rows, the first one on ties. */
  function FirstMin(d: seq<real>, n: nat): (m: nat)
    requires n <= |d|
    ensures n > 0 ==> m < n
    ensures forall i :: 0 <= i < n ==> At(d, m) <= At(d, i) && (i < m ==> At(d, m) < At(d, i))
  {
    if n == 0 then 0
    else var m := FirstMin(d, n - 1); if d[n - 1] < d[m] then n - 1 else m
  }

  method NearestRow(root: real -> real, matrix: seq<seq<real>>, f: seq<real>) returns (d: seq<real>, m: nat)
    requires forall i :: 0 <= i < |matrix| ==> |matrix[i]| == |f|
    ensures d == Distances(root, matrix, f) && m == FirstMin(d, |d|)
  {
    d, m := [], 0;
    ghost var all := Distances(root, matrix, f);
    for i := 0 to |matrix|
      invariant d == all[..i] && m == FirstMin(all, i)
    {
      var x := FsDistance(root, matrix[i], f);
      d := d + [x];
      if d[i] < d[m] {
        m := i;
      }
    }
    assert d == all;
  }

  // ----- moving a row and its target -----

  function Toward(x: real, y: real): real { x + LEARNING_RATE * (y - x) }

  function TowardAll(row: seq<real>, f: seq<real>): (r: seq<real>)
    requires |row| == |f|
    ensures |r| == |row|
  {
    seq(|row|, j requires 0 <= j < |row| => Toward(row[j], f[j]))
  }

  method MoveToward(row: seq<real>, f: seq<real>) returns (r: seq<real>)
    requires |row| == |f|
    ensures r == TowardAll(row, f)
  {
    r := row;
    for j := 0 to |row|
      invariant |r| == |row| && r[..j] == TowardAll(row, f)[..j] && r[j..] == row[j..]
    {
      r := r[j := r[j] + LEARNING_RATE * (f[j] - r[j])];
    }
  }

  // ----- the step on a full table -----

  /** Targets after the first `n` neighbours were corrected by `c` times their share. */
  function Corrected(targets: seq<real>, s: seq<int>, ws: seq<real>, total: real, c: real, n: nat): (r: seq<real>)
    requires n <= |s| && n <= |ws| && total > 0.0 && forall i :: 0 <= i < |s| ==> 0 <= s[i] < |targets|
    ensures |r| == |targets|
  {
    if n == 0 then targets
    else
      var r := Corrected(targets, s, ws, total, c, n - 1);
      r[s[n - 1] := Correct(r[s[n - 1]], c, ws[n - 1], total)]
  }

  lemma {:induction false} CorrectedAt(targets: seq<real>, s: seq<int>, ws: seq<real>, total: real, c: real, n: nat, i: nat)
    requires n <= |s| && n <= |ws| && total > 0.0 && forall j :: 0 <= j < |s| ==> 0 <= s[j] < |targets|
    requires Distinct(s) && i < |s|
    ensures Corrected(targets, s, ws, total, c, n)[s[i]] 
      == if i < n then Correct(targets[s[i]], c, ws[i], total) else targets[s[i]]
  {
    if n > 0 { CorrectedAt(targets, s, ws, total, c, n - 1, i); }
  }

  lemma {:induction false} CorrectedElsewhere(targets: seq<real>, s: seq<int>, ws: seq<real>, total: real, c: real, n: nat, r: nat)
    requires n <= |s| && n <= |ws| && total > 0.0 && forall j :: 0 <= j < |s| ==> 0 <= s[j] < |targets|
    requires r < |targets| && r !in s
    ensures Corrected(targets, s, ws, total, c, n)[r] == targets[r]
  {
    if n > 0 { CorrectedElsewhere(targets, s, ws, total, c, n - 1, r); }
  }

  function Shares(ws: seq<real>, total: real, n: nat): real
    requires n <= |ws| && total > 0.0
  {
    if n == 0 then 0.0 else Shares(ws, total, n - 1) + (ws[n - 1] / total) * (ws[n - 1] / total)
  }

  /** One target after the correction. */
  function Correct(t: real, c: real, w: real, total: real): real
    requires total > 0.0
  {
    t - c * w / total
  }

  lemma CorrectedTerm(t: real, u: real, c: real, w: real, total: real)
    requires total > 0.0 && u == Correct(t, c, w, total)
    ensures u * w / total == t * w / total - c * ((w / total) * (w / total))
  {
    var v := w / total;
    assert w == v * total;
    assert c * w / total == c * v by { assert c * w == c * v * total; }
    assert t * w / total == t * v by { assert t * w == t * v * total; }
    assert u * w / total == u * v by { assert u * w == u * v * total; }
    assert (t - c * v) * v == t * v - c * (v * v);
  }

  lemma {:induction false} CorrectedBlend(ts: seq<real>, us: seq<real>, ws: seq<real>, total: real, c: real, n: nat)
    requires n <= |ws| == |ts| == |us| && total > 0.0
    requires forall i :: 0 <= i < |ts| ==> us[i] == Correct(ts[i], c, ws[i], total)
    ensures Blend(us, ws, total, n) == Blend(ts, ws, total, n) - c * Shares(ws, total, n)
  {
    if n > 0 {
      CorrectedBlend(ts, us, ws, total, c, n - 1);
      CorrectedTerm(ts[n - 1], us[n - 1], c, ws[n - 1], total);
      AddScaled(c, Shares(ws, total, n - 1), (ws[n - 1] / total) * (ws[n - 1] / total), Shares(ws, total, n));
    }
  }

  lemma AddScaled(c: real, a: real, b: real, sum: real)
    requires sum == a + b
    ensures c * sum == c * a + c * b
  {}

  lemma SquareShare(w: real, total: real)
    requires 0.0 < w <= total
    ensures 0.0 < (w / total) * (w / total) <= w / total
  {
    var v := w / total;
    assert 0.0 < v <= 1.0;
    assert v * v <= v;
  }

  lemma AddShares(a: real, b: real, total: real)
    requires total > 0.0
    ensures a / total + b / total == (a + b) / total
  {}

  lemma {:induction false} SharesBounded(ws: seq<real>, total: real, n: nat)
    requires n <= |ws| && Positive(ws) && total > 0.0 && Sum(ws, n) <= total
    ensures 0.0 <= Shares(ws, total, n) <= Sum(ws, n) / total && (n > 0 ==> Shares(ws, total, n) > 0.0)
  {
    if n > 0 {
      SumPositive(ws, n - 1);
      SharesBounded(ws, total, n - 1);
      SquareShare(ws[n - 1], total);
      AddShares(Sum(ws, n - 1), ws[n - 1], total);
    }
  }

  lemma Factor(e: real, share: real)
    ensures (1.0 - LEARNING_RATE * share) * e == e - LEARNING_RATE * e * share
  {}

  /** The correction draws the prediction toward the new target and never past it: with the weights
      as they were, the error keeps its sign and shrinks, by at most a tenth. */
  lemma CorrectionShrinksError(ts: seq<real>, us: seq<real>, ws: seq<real>, p: real, q: real, y: real) returns (factor: real)
    requires |ts| == |us| == |ws| > 0 && Positive(ws) && Sum(ws, |ws|) > 0.0
    requires p == Blend(ts, ws, Sum(ws, |ws|), |ws|) && q == Blend(us, ws, Sum(ws, |ws|), |ws|)
    requires forall i :: 0 <= i < |ts| ==> us[i] == Correct(ts[i], LEARNING_RATE * (p - y), ws[i], Sum(ws, |ws|))
    ensures 0.9 <= factor < 1.0 && q - y == factor * (p - y)
  {
    var (total, n) := (Sum(ws, |ws|), |ws|);
    var share := Shares(ws, total, n);
    CorrectedBlend(ts, us, ws, total, LEARNING_RATE * (p - y), n);
    SharesBounded(ws, total, n);
    WholeShare(1.0, total);
    factor := 1.0 - LEARNING_RATE * share;
    Factor(p - y, share);
  }

  lemma NeighboursDistinct(d: seq<real>, k: nat)
    ensures Distinct(Neighbours(d, k))
  {
    NeighboursAreNearest(d, k);
  }

  /** What the full branch makes of the targets. */
  ghost function FullTargets(d: seq<real>, targets: seq<real>, y: real, k: nat): (r: seq<real>)
    requires |targets| >= |d| > 0 && k > 0 && NotNegative(d)
    ensures |r| == |targets|
  {
    var (s, ws) := (Neighbours(d, k), WeightsOf(d, Neighbours(d, k)));
    SumPositive(ws, |ws|);
    Corrected(targets, s, ws, Sum(ws, |ws|), LEARNING_RATE * (Mean(d, targets, k) - y), |s|)
  }

  lemma FullTargetsAt(d: seq<real>, targets: seq<real>, y: real, k: nat, i: nat)
    requires |targets| >= |d| > 0 && k > 0 && NotNegative(d) && i < |Neighbours(d, k)|
    requires Sum(WeightsOf(d, Neighbours(d, k)), |Neighbours(d, k)|) > 0.0
    ensures var (s, ws) := (Neighbours(d, k), WeightsOf(d, Neighbours(d, k)));
      TargetsOf(FullTargets(d, targets, y, k), s)[i]
      == Correct(TargetsOf(targets, s)[i], LEARNING_RATE * (Mean(d, targets, k) - y), ws[i], Sum(ws, |ws|))
  {
    var (s, ws) := (Neighbours(d, k), WeightsOf(d, Neighbours(d, k)));
    NeighboursDistinct(d, k);
    CorrectedAt(targets, s, ws, Sum(ws, |ws|), LEARNING_RATE * (Mean(d, targets, k) - y), |s|, i);
  }

  /** The full branch touches the targets of the neighbours only. */
  lemma FullTargetsElsewhere(d: seq<real>, targets: seq<real>, y: real, k: nat, r: nat)
    requires |targets| >= |d| > 0 && k > 0 && NotNegative(d) && r < |d| && r !in Neighbours(d, k)
    ensures FullTargets(d, targets, y, k)[r] == targets[r]
  {
    var (s, ws) := (Neighbours(d, k), WeightsOf(d, Neighbours(d, k)));
    SumPositive(ws, |ws|);
    CorrectedElsewhere(targets, s, ws, Sum(ws, |ws|), LEARNING_RATE * (Mean(d, targets, k) - y), |s|, r);
  }

  lemma MeanIsBlend(d: seq<real>, targets: seq<real>, k: nat)
    requires |targets| >= |d| > 0 && k > 0 && NotNegative(d)
    ensures var (s, ws) := (Neighbours(d, k), WeightsOf(d, Neighbours(d, k)));
      Sum(ws, |ws|) > 0.0 && Mean(d, targets, k) == Blend(TargetsOf(targets, s), ws, Sum(ws, |ws|), |ws|)
  {
    SumPositive(WeightsOf(d, Neighbours(d, k)), |Neighbours(d, k)|);
  }

  /** Learning on a full table moves its prediction for the same distances toward the new target
      and never past it. */
  lemma FullStepShrinksError(d: seq<real>, targets: seq<real>, y: real, k: nat) returns (factor: real)
    requires |targets| >= |d| > 0 && k > 0 && NotNegative(d)
    ensures 0.9 <= factor < 1.0
    ensures Mean(d, FullTargets(d, targets, y, k), k) - y == factor * (Mean(d, targets, k) - y)
  {
    hide Blend, Sum, Correct, Mean, FullTargets, WeightsOf, TargetsOf, Neighbours;
    var after := FullTargets(d, targets, y, k);
    MeanIsBlend(d, targets, k);
    MeanIsBlend(d, after, k);
    var (s, ws) := (Neighbours(d, k), WeightsOf(d, Neighbours(d, k)));
    var (ts, us, c) := (TargetsOf(targets, s), TargetsOf(after, s), LEARNING_RATE * (Mean(d, targets, k) - y));
    forall i | 0 <= i < |ts| ensures us[i] == Correct(ts[i], c, ws[i], Sum(ws, |ws|)) {
      FullTargetsAt(d, targets, y, k, i);
    }
    factor := CorrectionShrinksError(ts, us, ws, Mean(d, targets, k), Mean(d, after, k), y);
  }

  // ----- the step while there is room -----

  /** The row an object goes to: the nearest one if it is near enough, else a new one. */
  function RoutedTo(d: seq<real>): (r: nat)
    ensures r <= |d|
  {
    var m := FirstMin(d, |d|);
    if |d| != 0 && d[m] < OBJECT_THRESHOLD then m else |d|
  }

  function LearnedRow(rows: seq<seq<real>>, d: seq<real>, f: seq<real>): (r: seq<real>)
    requires |d| <= |rows| && forall i :: 0 <= i < |rows| ==> |rows[i]| == |f|
    ensures |r| == |f|
  {
    if RoutedTo(d) < |d| then TowardAll(rows[RoutedTo(d)], f) else f
  }

  function LearnedTarget(targets: seq<real>, d: seq<real>, y: real): real
    requires |d| <= |targets|
  {
    if RoutedTo(d) < |d| then Toward(targets[RoutedTo(d)], y) else y
  }

  /** A learned row lies between the row it replaces and the object, in every feature; so does its target. */
  lemma LearnedIsBetween(rows: seq<seq<real>>, targets: seq<real>, d: seq<real>, f: seq<real>, y: real, j: nat)
    requires |d| <= |rows| == |targets| && (forall i :: 0 <= i < |rows| ==> |rows[i]| == |f|) && j < |f|
    ensures RoutedTo(d) == |d| ==> LearnedRow(rows, d, f) == f && LearnedTarget(targets, d, y) == y
    ensures RoutedTo(d) < |d| ==>
      var r := RoutedTo(d);
      && At(d, r) < OBJECT_THRESHOLD && (forall i :: 0 <= i < |d| ==> At(d, r) <= At(d, i))
      && Between(rows[r][j], LearnedRow(rows, d, f)[j], f[j]) && Between(targets[r], LearnedTarget(targets, d, y), y)
  {}

  predicate Between(a: real, x: real, b: real) { a <= x <= b || b <= x <= a }

  // ----- rows on a full table -----

  function Push(x: real, y: real, coef: real, dist: real): real
    requires dist != 0.0
  {
    x - coef * (y - x) / dist
  }

  function Pushed(row: seq<real>, f: seq<real>, coef: real, dist: real): (r: seq<real>)
    requires |row| == |f| && dist != 0.0
    ensures |r| == |row|
  {
    seq(|row|, j requires 0 <= j < |row| => Push(row[j], f[j], coef, dist))
  }

  method PushRow(row: seq<real>, f: seq<real>, coef: real, dist: real) returns (r: seq<real>)
    requires |row| == |f| && dist != 0.0
    ensures r == Pushed(row, f, coef, dist)
  {
    r := row;
    for j := 0 to |row|
      invariant |r| == |row| && r[..j] == Pushed(row, f, coef, dist)[..j] && r[j..] == row[j..]
    {
      r := r[j := Push(r[j], f[j], coef, dist)];
    }
  }

  /** The second coefficient, for a neighbour with target `t` and weight `w`. */
  function Coef2(rootCols: real, t: real, w: real, total: real, p: real, c: real): real
    requires total > 0.0 && rootCols > 0.0
  {
    c * (t - p) * w * w / rootCols / total
  }

  /** Rows after the first `n` neighbours were moved; a row at distance zero cannot be. */
  function Moved(rows: seq<seq<real>>, s: seq<int>, f: seq<real>, d: seq<real>, coefs: seq<real>, n: nat): (r: seq<seq<real>>)
    requires n <= |s| && n <= |coefs| && |d| <= |rows|
    requires forall i :: 0 <= i < |s| ==> 0 <= s[i] < |d|
    requires forall i :: 0 <= i < |rows| ==> |rows[i]| == |f|
    ensures |r| == |rows| && forall i :: 0 <= i < |r| ==> |r[i]| == |f|
  {
    if n == 0 then rows
    else
      var r := Moved(rows, s, f, d, coefs, n - 1);
      if |f| == 0 || d[s[n - 1]] == 0.0 then r else r[s[n - 1] := Pushed(r[s[n - 1]], f, coefs[n - 1], d[s[n - 1]])]
  }

  ghost function Coefs(rootCols: real, d: seq<real>, targets: seq<real>, y: real, k: nat): (r: seq<real>)
    requires |targets| >= |d| > 0 && k > 0 && NotNegative(d) && rootCols > 0.0
    ensures |r| == |Neighbours(d, k)|
  {
    var (s, ws) := (Neighbours(d, k), WeightsOf(d, Neighbours(d, k)));
    SumPositive(ws, |ws|);
    var (p, total) := (Mean(d, targets, k), Sum(ws, |ws|));
    seq(|s|, i requires 0 <= i < |s| => Coef2(rootCols, targets[s[i]], ws[i], total, p, LEARNING_RATE * (p - y)))
  }

  ghost function FullRows(rootCols: real, d: seq<real>, rows: seq<seq<real>>, targets: seq<real>, f: seq<real>, y: real, k: nat): (r: seq<seq<real>>)
    requires |rows| == |targets| >= |d| > 0 && k > 0 && NotNegative(d)
    requires (forall i :: 0 <= i < |rows| ==> |rows[i]| == |f|) && (|f| > 0 ==> rootCols > 0.0)
    ensures |r| == |rows| && forall i :: 0 <= i < |r| ==> |r[i]| == |f|
  {
    var s := Neighbours(d, k);
    Moved(rows, s, f, d, if |f| == 0 then seq(|s|, _ => 0.0) else Coefs(rootCols, d, targets, y, k), |s|)
  }

  /** The neighbours, their weights and the prediction, for the full branch. */
  method Appraise(d: seq<real>, targets: seq<real>, k: nat) returns (s: seq<int>, ws: seq<real>, total: real, p: real)
    requires 0 < k <= |d| <= |targets| && NotNegative(d)
    ensures s == Neighbours(d, k) && ws == WeightsOf(d, s) && total == Sum(ws, k) > 0.0 && p == Mean(d, targets, k)
  {
    var idx, w, wSum := ComputeWeights(d, k);
    ChosenAreNearest(d, |d|, k);
    MeanIsBlend(d, targets, k);
    s, ws, total := idx[..], w[..], wSum;
    assert s == Neighbours(d, k);
    assert ws == WeightsOf(d, s);
    assert total == Sum(ws, k) by {
      WeightSumIsSum(d, s, k, k);
      assert s[..k] == s;
    }
    p := BlendLoop(targets, s, ws, total, k);
    assert s[..k] == s;
  }

  /** One neighbour's target and features. */
  method LearnNeighbour(matrix: array<seq<real>>, targets: array<real>, r: nat, f: seq<real>, dist: real, rootCols: real,
                        w: real, total: real, p: real, c: real)
    requires matrix.Length == targets.Length > r && |matrix[r]| == |f| && total > 0.0 && (|f| > 0 ==> rootCols > 0.0)
    modifies matrix, targets
    ensures targets[..] == old(targets[..])[r := Correct(old(targets[r]), c, w, total)]
    ensures matrix[..] == if |f| == 0 || dist == 0.0 then old(matrix[..])
      else old(matrix[..])[r := Pushed(old(matrix[r]), f, Coef2(rootCols, old(targets[r]), w, total, p, c), dist)]
  {
    var t := targets[r];
    targets[r] := t - c * w / total;
    if |f| > 0 && dist != 0.0 {
      matrix[r] := PushRow(matrix[r], f, Coef2(rootCols, t, w, total, p, c), dist);
    }
  }

  /** No listed row with features is at distance zero. */
  ghost predicate NoneAtZero(f: seq<real>, d: seq<real>, s: seq<int>) {
    |f| == 0 || forall i :: 0 <= i < |s| ==> At(d, s[i]) != 0.0
  }

  /** Learning on a full table divides by zero exactly when the table already holds the object. */
  ghost predicate Finite(rows: seq<seq<real>>, f: seq<real>, k: nat) { |rows| < k || |f| == 0 || f !in rows }

  lemma {:induction false} NoGaps(a: seq<real>, b: seq<real>, n: nat)
    requires n <= |a| && n <= |b|
    ensures SquaredGaps(a, b, n) == 0.0 <==> a[..n] == b[..n]
  {
    if n > 0 {
      NoGaps(a, b, n - 1);
      SquareIsZero(a[n - 1] - b[n - 1], Square(a[n - 1] - b[n - 1]));
      assert a[..n] == a[..n - 1] + [a[n - 1]] && b[..n] == b[..n - 1] + [b[n - 1]];
    }
  }

  lemma ShareIsZero(x: real, n: real)
    requires x >= 0.0 && n > 0.0
    ensures x / n >= 0.0 && (x / n == 0.0 <==> x == 0.0)
  {}

  /** Only an equal row is at distance zero. */
  lemma DistanceZero(root: real -> real, a: seq<real>, b: seq<real>)
    requires IsRoot(root) && |a| == |b|
    ensures Distance(root, a, b) == 0.0 <==> a == b
  {
    if |a| > 0 {
      NoGaps(a, b, |a|);
      assert a[..|a|] == a && b[..|b|] == b;
      ShareIsZero(SquaredGaps(a, b, |a|), |a| as real);
      RootIsZero(root, SquaredGaps(a, b, |a|) / |a| as real);
    }
  }

  /** A row at distance zero is among the neighbours, or neighbours at distance zero crowd it out. */
  lemma ZeroIsNear(d: seq<real>, k: nat, r: nat)
    requires NotNegative(d) && 0 < k && r < |d| && d[r] == 0.0
    ensures exists i :: 0 <= i < |Neighbours(d, k)| && At(d, Neighbours(d, k)[i]) == 0.0
  {
    NeighboursAreNearest(d, k);
    var s := Neighbours(d, k);
    if r in s {
      var i :| 0 <= i < |s| && s[i] == r;
      assert At(d, s[i]) == 0.0;
    } else {
      assert Before(d, s[0], r);
      assert At(d, s[0]) == 0.0;
    }
  }

  lemma FiniteExactly(root: real -> real, rows: seq<seq<real>>, f: seq<real>, k: nat)
    requires IsRoot(root) && 0 < k <= |rows| && forall i :: 0 <= i < |rows| ==> |rows[i]| == |f|
    ensures var d := Distances(root, rows, f); Finite(rows, f, k) <==> NoneAtZero(f, d, Neighbours(d, k))
  {
    var d := Distances(root, rows, f);
    DistancesNotNegative(root, rows, f);
    forall i | 0 <= i < |rows| ensures d[i] == 0.0 <==> rows[i] == f { DistanceZero(root, rows[i], f); }
    if f in rows {
      var r :| 0 <= r < |rows| && rows[r] == f;
      ZeroIsNear(d, k, r);
    }
  }

  /** For instance a table of one row that is shown its own row again. */
  lemma SameRowAgain(root: real -> real)
    requires IsRoot(root)
    ensures !Finite([[1.0]], [1.0], 1)
    ensures var d := Distances(root, [[1.0]], [1.0]); Neighbours(d, 1) == [0] && d[0] == 0.0
  {
    var rows := [[1.0]];
    assert rows[0] == [1.0];
    var d := Distances(root, rows, [1.0]);
    DistanceZero(root, rows[0], [1.0]);
    var s := Neighbours(d, 1);
    assert |s| == 1 && 0 <= s[0] < 1;
  }

  lemma {:induction false} NextNeighbour(ms: seq<seq<real>>, ts: seq<real>, s: seq<int>, f: seq<real>, d: seq<real>, ws: seq<real>, coefs: seq<real>,
                      total: real, c: real, i: nat)
    requires |d| <= |ms| == |ts| && i < |s| == |ws| == |coefs| && total > 0.0
    requires (forall j :: 0 <= j < |s| ==> 0 <= s[j] < |d|) && forall j :: 0 <= j < |ms| ==> |ms[j]| == |f|
    ensures var u := Corrected(ts, s, ws, total, c, i); Corrected(ts, s, ws, total, c, i + 1) == u[s[i] := Correct(u[s[i]], c, ws[i], total)]
    ensures var m := Moved(ms, s, f, d, coefs, i);
      Moved(ms, s, f, d, coefs, i + 1) == if |f| == 0 || d[s[i]] == 0.0 then m else m[s[i] := Pushed(m[s[i]], f, coefs[i], d[s[i]])]
  {}

  /** The loop over the neighbours. */
  method LearnNeighbours(rootCols: real, matrix: array<seq<real>>, targets: array<real>, d: seq<real>, f: seq<real>,
                         s: seq<int>, ws: seq<real>, total: real, p: real, c: real, ghost coefs: seq<real>)
    returns (lst: seq<int>, finite: bool)
    requires |d| <= matrix.Length == targets.Length && |s| == |ws| == |coefs| && total > 0.0 && Distinct(s)
    requires forall i :: 0 <= i < |s| ==> 0 <= s[i] < |d|
    requires (forall i :: 0 <= i < matrix.Length ==> |matrix[i]| == |f|) && (|f| > 0 ==> rootCols > 0.0)
    requires |f| > 0 ==> forall i :: 0 <= i < |s| ==> coefs[i] == Coef2(rootCols, targets[s[i]], ws[i], total, p, c)
    modifies matrix, targets
    ensures lst == s
    ensures targets[..] == Corrected(old(targets[..]), s, ws, total, c, |s|)
    ensures matrix[..] == Moved(old(matrix[..]), s, f, d, coefs, |s|)
    ensures finite == NoneAtZero(f, d, s)
  {
    hide Correct, Coef2, Pushed;
    ghost var (ms, ts) := (matrix[..], targets[..]);
    assert forall i :: 0 <= i < |s| ==> ts[s[i]] == targets[s[i]];
    lst, finite := [], true;
    for i := 0 to |s|
      invariant lst == s[..i]
      invariant targets[..] == Corrected(ts, s, ws, total, c, i)
      invariant matrix[..] == Moved(ms, s, f, d, coefs, i)
      invariant finite <==> |f| == 0 || forall l :: 0 <= l < i ==> d[s[l]] != 0.0
    {
      CorrectedAt(ts, s, ws, total, c, i, i);
      NextNeighbour(ms, ts, s, f, d, ws, coefs, total, c, i);
      hide Corrected, Moved;
      assert targets[s[i]] == targets[..][s[i]] == ts[s[i]] && matrix[s[i]] == matrix[..][s[i]];
      LearnNeighbour(matrix, targets, s[i], f, d[s[i]], rootCols, ws[i], total, p, c);
      if |f| > 0 && d[s[i]] == 0.0 {
        finite := false;
      }
      lst := lst + [s[i]];
    }
  }

  method LearnFull(rootCols: real, matrix: array<seq<real>>, targets: array<real>, d: seq<real>, f: seq<real>, y: real, k: nat)
    returns (lst: seq<int>, finite: bool)
    requires 0 < k <= |d| <= matrix.Length == targets.Length && NotNegative(d)
    requires (forall i :: 0 <= i < matrix.Length ==> |matrix[i]| == |f|) && (|f| > 0 ==> rootCols > 0.0)
    modifies matrix, targets
    ensures lst == Neighbours(d, k)
    ensures targets[..] == FullTargets(d, old(targets[..]), y, k)
    ensures matrix[..] == FullRows(rootCols, d, old(matrix[..]), old(targets[..]), f, y, k)
    ensures finite == NoneAtZero(f, d, lst)
  {
    hide FullTargets, FullRows, Corrected, Moved, NoneAtZero;
    var s, ws, total, p := Appraise(d, targets[..], k);
    NeighboursDistinct(d, k);
    ghost var coefs := FullBranch(rootCols, d, matrix[..], targets[..], f, y, k, s, ws, total, p);
    lst, finite := LearnNeighbours(rootCols, matrix, targets, d, f, s, ws, total, p, LEARNING_RATE * (p - y), coefs);
  }

  /** The full branch's results from what `Appraise` returns. */
  lemma FullBranch(rootCols: real, d: seq<real>, ms: seq<seq<real>>, ts: seq<real>, f: seq<real>, y: real, k: nat,
                   s: seq<int>, ws: seq<real>, total: real, p: real) returns (coefs: seq<real>)
    requires 0 < k <= |d| <= |ms| == |ts| && NotNegative(d)
    requires (forall i :: 0 <= i < |ms| ==> |ms[i]| == |f|) && (|f| > 0 ==> rootCols > 0.0)
    requires s == Neighbours(d, k) && ws == WeightsOf(d, s) && total == Sum(ws, k) > 0.0 && p == Mean(d, ts, k)
    ensures |coefs| == |s| == k
    ensures |f| > 0 ==> forall i :: 0 <= i < |s| ==> coefs[i] == Coef2(rootCols, ts[s[i]], ws[i], total, p, LEARNING_RATE * (p - y))
    ensures FullTargets(d, ts, y, k) == Corrected(ts, s, ws, total, LEARNING_RATE * (p - y), k)
    ensures FullRows(rootCols, d, ms, ts, f, y, k) == Moved(ms, s, f, d, coefs, k)
  {
    coefs := if |f| == 0 then seq(|s|, _ => 0.0) else Coefs(rootCols, d, ts, y, k);
    FullTargetsAre(d, ts, y, k, s, ws, total, p);
    if |f| > 0 {
      forall i | 0 <= i < |s| ensures coefs[i] == Coef2(rootCols, ts[s[i]], ws[i], total, p, LEARNING_RATE * (p - y)) {
        CoefIs(rootCols, d, ts, y, k, s, ws, total, p, i);
      }
    }
  }

  lemma FullTargetsAre(d: seq<real>, ts: seq<real>, y: real, k: nat, s: seq<int>, ws: seq<real>, total: real, p: real)
    requires 0 < k <= |d| <= |ts| && NotNegative(d)
    requires s == Neighbours(d, k) && ws == WeightsOf(d, s) && total == Sum(ws, k) > 0.0 && p == Mean(d, ts, k)
    ensures FullTargets(d, ts, y, k) == Corrected(ts, s, ws, total, LEARNING_RATE * (p - y), k)
  {
    assert |s| == |ws| == k;
  }

  lemma {:induction false} CoefIs(rootCols: real, d: seq<real>, ts: seq<real>, y: real, k: nat, s: seq<int>, ws: seq<real>, total: real, p: real, i: nat)
    requires 0 < k <= |d| <= |ts| && NotNegative(d) && rootCols > 0.0 && i < k
    requires s == Neighbours(d, k) && ws == WeightsOf(d, s) && total == Sum(ws, k) > 0.0 && p == Mean(d, ts, k)
    ensures Coefs(rootCols, d, ts, y, k)[i] == Coef2(rootCols, ts[s[i]], ws[i], total, p, LEARNING_RATE * (p - y))
  {
    assert |s| == |ws| == k;
  }

  /** Buffers and changed lines after learning `f` with target `y` while there is room. */
  ghost predicate AfterRoom(root: real -> real, rows: nat, ms: seq<seq<real>>, ts: seq<real>, f: seq<real>, y: real,
                            ms': seq<seq<real>>, ts': seq<real>, lst: seq<int>)
    requires |ms| == |ts| > rows && forall i :: 0 <= i < |ms| ==> |ms[i]| == |f|
  {
    var d := Distances(root, ms[..rows], f);
    && lst == [RoutedTo(d)]
    && ms' == ms[RoutedTo(d) := LearnedRow(ms, d, f)]
    && ts' == ts[RoutedTo(d) := LearnedTarget(ts, d, y)]
  }

  /** Buffers and changed lines after learning on a full table. */
  ghost predicate AfterFull(root: real -> real, rows: nat, ms: seq<seq<real>>, ts: seq<real>, f: seq<real>, y: real, k: nat,
                            ms': seq<seq<real>>, ts': seq<real>, lst: seq<int>)
    requires |ms| == |ts| >= rows >= k > 0 && forall i :: 0 <= i < |ms| ==> |ms[i]| == |f|
  {
    var d := Distances(root, ms[..rows], f);
    && NotNegative(d) && (|f| > 0 ==> root(|f| as real) > 0.0)
    && lst == Neighbours(d, k)
    && ts' == FullTargets(d, ts, y, k)
    && ms' == FullRows(root(|f| as real), d, ms, ts, f, y, k)
  }

  /** `OkNNr_learn`.  `finite` is false where the C code divides by a zero distance; the features of
      such a row are left alone here. */
  method Learn(root: real -> real, rows: nat, matrix: array<seq<real>>, targets: array<real>, f: seq<real>, y: real, k: nat)
    returns (lst: seq<int>, finite: bool)
    requires IsRoot(root) && k > 0
    requires matrix.Length == targets.Length && rows <= matrix.Length && (rows < k ==> rows < matrix.Length)
    requires forall i :: 0 <= i < matrix.Length ==> |matrix[i]| == |f|
    modifies matrix, targets
    ensures rows < k ==> AfterRoom(root, rows, old(matrix[..]), old(targets[..]), f, y, matrix[..], targets[..], lst)
    ensures rows >= k ==> AfterFull(root, rows, old(matrix[..]), old(targets[..]), f, y, k, matrix[..], targets[..], lst)
    ensures finite == Finite(old(matrix[..rows]), f, k)
  {
    var d, m := NearestRow(root, matrix[..rows], f);
    if rows < k {
      lst := LearnWithRoom(matrix, targets, d, m, f, y);
      finite := true;
    } else {
      DistancesNotNegative(root, matrix[..rows], f);
      RootPositive(root, |f|);
      FiniteExactly(root, matrix[..rows], f, k);
      lst, finite := LearnFull(root(|f| as real), matrix, targets, d, f, y, k);
    }
  }

  method LearnWithRoom(matrix: array<seq<real>>, targets: array<real>, d: seq<real>, m: nat, f: seq<real>, y: real) returns (lst: seq<int>)
    requires |d| < matrix.Length == targets.Length && m == FirstMin(d, |d|)
    requires forall i :: 0 <= i < matrix.Length ==> |matrix[i]| == |f|
    modifies matrix, targets
    ensures lst == [RoutedTo(d)]
    ensures matrix[..] == old(matrix[..])[RoutedTo(d) := LearnedRow(old(matrix[..]), d, f)]
    ensures targets[..] == old(targets[..])[RoutedTo(d) := LearnedTarget(old(targets[..]), d, y)]
  {
    if |d| != 0 && d[m] < OBJECT_THRESHOLD {
      matrix[m] := MoveToward(matrix[m], f);
      targets[m] := targets[m] + LEARNING_RATE * (y - targets[m]);
      lst := [m];
    } else {
      matrix[|d|] := f;
      targets[|d|] := y;
      lst := [|d|];
    }
  }
}
