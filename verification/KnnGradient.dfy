/**
 The step on a full table is a step down the slope of the squared error (contrib/aqo: machine_learning.c, `OkNNr_learn`).
 */
module KnnGradient {
  import opened Sorting
  import opened Roots
  import opened KnnSelect
  import opened KnnPredict
  import opened KnnMetric
  import opened KnnLearn
  import opened KnnMoves

  // ----- where the rows go -----

  lemma PushScales(x: real, y: real, coef: real, dist: real)
    requires dist > 0.0
    ensures Push(x, y, coef, dist) - y == Product(1.0 + coef / dist, x - y)
  {
    var q := coef / dist;
    assert coef == q * dist;
    assert coef * (y - x) / dist == q * (y - x) by { assert coef * (y - x) == q * (y - x) * dist; }
  }

  lemma FactorTimes(coef: real, dist: real)
    requires dist > 0.0
    ensures Product(Abs(1.0 + coef / dist), dist) == Abs(dist + coef)
  {
    var c := 1.0 + coef / dist;
    assert c * dist == dist + coef;
    if c >= 0.0 {
      assert c * dist >= 0.0;
    } else {
      assert (-c) * dist >= 0.0;
    }
  }

  /** A row that is moved by `coef` is `coef` farther away, or past the object by as much as `coef` is beyond the distance. */
  lemma PushedDistance(root: real -> real, row: seq<real>, f: seq<real>, coef: real)
    requires IsRoot(root) && |row| == |f| && Distance(root, row, f) > 0.0
    ensures Distance(root, Pushed(row, f, coef, Distance(root, row, f)), f) == Abs(Distance(root, row, f) + coef)
  {
    hide Distance, Push, Product;
    var dist := Distance(root, row, f);
    var moved := Pushed(row, f, coef, dist);
    forall j | 0 <= j < |f| ensures moved[j] - f[j] == Product(1.0 + coef / dist, row[j] - f[j]) {
      PushScales(row[j], f[j], coef, dist);
    }
    ScaledDistance(root, row, moved, f, 1.0 + coef / dist);
    FactorTimes(coef, dist);
  }

  lemma {:induction false} MovedAt(rows: seq<seq<real>>, s: seq<int>, f: seq<real>, d: seq<real>, coefs: seq<real>, n: nat, i: nat)
    requires n <= |s| == |coefs| && |d| <= |rows| && (forall j :: 0 <= j < |s| ==> 0 <= s[j] < |d|)
    requires (forall j :: 0 <= j < |rows| ==> |rows[j]| == |f|) && Distinct(s) && i < |s|
    ensures Moved(rows, s, f, d, coefs, n)[s[i]]
      == if i < n && |f| > 0 && d[s[i]] != 0.0 then Pushed(rows[s[i]], f, coefs[i], d[s[i]]) else rows[s[i]]
  {
    hide Pushed;
    if n > 0 { MovedAt(rows, s, f, d, coefs, n - 1, i); }
  }

  lemma {:induction false} MovedElsewhere(rows: seq<seq<real>>, s: seq<int>, f: seq<real>, d: seq<real>, coefs: seq<real>, n: nat, r: nat)
    requires n <= |s| == |coefs| && |d| <= |rows| && (forall j :: 0 <= j < |s| ==> 0 <= s[j] < |d|)
    requires (forall j :: 0 <= j < |rows| ==> |rows[j]| == |f|) && r < |rows| && r !in s
    ensures Moved(rows, s, f, d, coefs, n)[r] == rows[r]
  {
    hide Pushed;
    if n > 0 { MovedElsewhere(rows, s, f, d, coefs, n - 1, r); }
  }

  /** A table and an object to learn on it: the table is full, and no row is the object. */
  datatype Case = Case(root: real -> real, rows: seq<seq<real>>, targets: seq<real>, f: seq<real>, y: real, k: nat)

  ghost predicate IsFull(c: Case) {
    && IsRoot(c.root) && |c.targets| == |c.rows| >= c.k > 0 && |c.f| > 0 && c.f !in c.rows
    && forall i :: 0 <= i < |c.rows| ==> |c.rows[i]| == |c.f|
  }

  ghost function Away(c: Case): (d: seq<real>)
    requires IsFull(c)
    ensures |d| == |c.rows| && forall i :: 0 <= i < |d| ==> d[i] > 0.0
  {
    forall i | 0 <= i < |c.rows| ensures Distance(c.root, c.rows[i], c.f) > 0.0 { RowApart(c, i); }
    Distances(c.root, c.rows, c.f)
  }

  lemma RowApart(c: Case, i: nat)
    requires IsFull(c) && i < |c.rows|
    ensures Distance(c.root, c.rows[i], c.f) > 0.0
  {
    DistanceNotNegative(c.root, c.rows[i], c.f);
    DistanceZero(c.root, c.rows[i], c.f);
  }

  /** The rows that are moved. */
  ghost function Near(c: Case): (s: seq<int>)
    requires IsFull(c)
    ensures |s| == c.k && forall i :: 0 <= i < |s| ==> 0 <= s[i] < |c.rows|
  {
    Neighbours(Away(c), c.k)
  }

  ghost function Predicted(c: Case): real
    requires IsFull(c)
  {
    MeanOf(Away(c), c.targets, Near(c))
  }

  /** By how much each is moved. */
  ghost function Steps(c: Case): (r: seq<real>)
    requires IsFull(c)
    ensures |r| == c.k
  {
    RootPositive(c.root, |c.f|);
    Coefs(c.root(|c.f| as real), Away(c), c.targets, c.y, c.k)
  }

  ghost function RowsAfter(c: Case): (r: seq<seq<real>>)
    requires IsFull(c)
    ensures |r| == |c.rows| && forall i :: 0 <= i < |r| ==> |r[i]| == |c.f|
  {
    RootPositive(c.root, |c.f|);
    FullRows(c.root(|c.f| as real), Away(c), c.rows, c.targets, c.f, c.y, c.k)
  }

  ghost function TargetsAfter(c: Case): (r: seq<real>)
    requires IsFull(c)
    ensures |r| == |c.rows|
  {
    FullTargets(Away(c), c.targets, c.y, c.k)
  }

  lemma RowsAfterAt(c: Case, i: nat)
    requires IsFull(c) && i < c.k
    ensures RowsAfter(c)[Near(c)[i]] == Pushed(c.rows[Near(c)[i]], c.f, Steps(c)[i], Away(c)[Near(c)[i]])
  {
    NeighboursDistinct(Away(c), c.k);
    MovedAt(c.rows, Near(c), c.f, Away(c), Steps(c), c.k, i);
  }

  /** Distances of the rows after the step: each neighbour's has changed by its step, and no other's has. */
  lemma DistancesAfter(c: Case)
    requires IsFull(c)
    ensures forall i :: 0 <= i < c.k ==>
      Distance(c.root, RowsAfter(c)[Near(c)[i]], c.f) == Abs(Away(c)[Near(c)[i]] + Steps(c)[i])
    ensures forall r :: 0 <= r < |c.rows| && r !in Near(c) ==> RowsAfter(c)[r] == c.rows[r]
  {
    forall i | 0 <= i < c.k
      ensures Distance(c.root, RowsAfter(c)[Near(c)[i]], c.f) == Abs(Away(c)[Near(c)[i]] + Steps(c)[i])
    {
      RowsAfterAt(c, i);
      PushedDistance(c.root, c.rows[Near(c)[i]], c.f, Steps(c)[i]);
    }
    forall r | 0 <= r < |c.rows| && r !in Near(c) ensures RowsAfter(c)[r] == c.rows[r] {
      MovedElsewhere(c.rows, Near(c), c.f, Away(c), Steps(c), c.k, r);
    }
  }

  // ----- the slope -----

  lemma {:induction false} PullAtOne(d: seq<real>, d': seq<real>, targets: seq<real>, s: seq<int>, x: real, i: nat, m: nat)
    requires m <= |s| && (forall j :: 0 <= j < |s| ==> 0 <= s[j] < |d| && s[j] < |targets|) && Distinct(s) && i < |s|
    requires |d'| == |d| && d' == d[s[i] := d'[s[i]]]
    ensures Pull(d', targets, s, x, m) == Pull(d, targets, s, x, m)
      + if i < m then Tug(targets[s[i]], x, Weight(d', s[i])) - Tug(targets[s[i]], x, Weight(d, s[i])) else 0.0
  {
    hide Tug, Similarity;
    if m > 0 { PullAtOne(d, d', targets, s, x, i, m - 1); }
  }

  ghost function Dist(c: Case, i: nat): (r: real)
    requires IsFull(c) && i < c.k
    ensures r > 0.0
  {
    Away(c)[Near(c)[i]]
  }

  ghost function TargetOf(c: Case, i: nat): real
    requires IsFull(c) && i < c.k
  {
    c.targets[Near(c)[i]]
  }

  /** The distances if the `i`-th neighbour alone were `v` away. */
  ghost function AwayIf(c: Case, i: nat, v: real): (d: seq<real>)
    requires IsFull(c) && i < c.k && v >= 0.0
    ensures NotNegative(d) && |d| == |c.rows|
  {
    Away(c)[Near(c)[i] := v]
  }

  ghost function PredictedIf(c: Case, i: nat, v: real): real
    requires IsFull(c) && i < c.k && v >= 0.0
  {
    MeanOf(AwayIf(c, i, v), c.targets, Near(c))
  }

  /** How steeply the prediction rises between the `i`-th neighbour's distance and `v`. */
  ghost function Slope(c: Case, i: nat, v: real): real
    requires IsFull(c) && i < c.k && v >= 0.0
  {
    MeanBalances(AwayIf(c, i, v), c.targets, Near(c), 0.0);
    Steepness(TargetOf(c, i), Predicted(c), Dist(c, i), v, WeightSum(AwayIf(c, i, v), Near(c), c.k))
  }

  function Steepness(t: real, p: real, dist: real, v: real, total: real): real
    requires dist >= 0.0 && v >= 0.0 && total > 0.0
  {
    (p - t) * (Similarity(dist) * Similarity(v)) / total
  }

  lemma SimilarityGap(dist: real, v: real)
    requires dist >= 0.0 && v >= 0.0
    ensures Similarity(v) - Similarity(dist) == (dist - v) * (Similarity(dist) * Similarity(v))
  {
    var (a, b) := (0.001 + dist, 0.001 + v);
    var (u, w) := (1.0 / a, 1.0 / b);
    assert u * a == 1.0 && w * b == 1.0;
    assert (a - b) * (u * w) == (u * a) * w - (w * b) * u;
  }

  /** `q` is the mean after the change of one weight, `p` the mean before. */
  lemma RiseOver(t: real, p: real, q: real, dist: real, v: real, total: real)
    requires dist >= 0.0 && v >= 0.0 && total > 0.0
    requires Product(q - p, total) == Tug(t, p, Similarity(v)) - Tug(t, p, Similarity(dist))
    ensures q - p == (v - dist) * Steepness(t, p, dist, v, total)
  {
    hide Similarity;
    SimilarityGap(dist, v);
    var g := Similarity(dist) * Similarity(v);
    assert (q - p) * total == (t - p) * ((dist - v) * g);
    RiseIs(q - p, t - p, v - dist, g, total);
  }

  lemma RiseIs(rise: real, gap: real, run: real, g: real, total: real)
    requires total > 0.0 && rise * total == gap * (-run * g)
    ensures rise == run * (-gap * g / total)
  {
    var z := -gap * g / total;
    assert z * total == -gap * g;
    assert (run * z) * total == rise * total;
  }

  lemma SlopeIs(c: Case, i: nat, v: real)
    requires IsFull(c) && i < c.k && v >= 0.0
    ensures PredictedIf(c, i, v) - Predicted(c) == (v - Dist(c, i)) * Slope(c, i, v)
  {
    hide MeanOf, Neighbours, Pull, WeightSum, Tug, Similarity, Steepness, Distances, Product;
    var (s, p, q) := (Near(c), Predicted(c), PredictedIf(c, i, v));
    MeanShifts(c, i, v);
    MeanBalances(AwayIf(c, i, v), c.targets, s, 0.0);
    RiseOver(TargetOf(c, i), p, q, Dist(c, i), v, WeightSum(AwayIf(c, i, v), s, c.k));
  }

  lemma MeanShifts(c: Case, i: nat, v: real)
    requires IsFull(c) && i < c.k && v >= 0.0
    ensures Product(PredictedIf(c, i, v) - Predicted(c), WeightSum(AwayIf(c, i, v), Near(c), c.k))
      == Tug(TargetOf(c, i), Predicted(c), Similarity(v)) - Tug(TargetOf(c, i), Predicted(c), Similarity(Dist(c, i)))
  {
    hide MeanOf, Neighbours, Pull, WeightSum, Tug, Similarity, Distances;
    var (d, d', s, p) := (Away(c), AwayIf(c, i, v), Near(c), Predicted(c));
    MeanBalances(d, c.targets, s, p);
    assert Pull(d, c.targets, s, p, c.k) == 0.0;
    hide Product;
    NeighboursDistinct(d, c.k);
    PullAtOne(d, d', c.targets, s, p, i, c.k);
    MeanBalances(d', c.targets, s, p);
  }

  lemma CoefIsGradient(rootCols: real, t: real, dist: real, total: real, p: real, y: real)
    requires rootCols > 0.0 && total > 0.0 && dist >= 0.0
    ensures Coef2(rootCols, t, Similarity(dist), total, p, LEARNING_RATE * (p - y)) * rootCols
      == -(LEARNING_RATE * (p - y)) * Steepness(t, p, dist, dist, total)
  {
    hide Similarity;
    var (w, e) := (Similarity(dist), LEARNING_RATE * (p - y));
    var x := e * (t - p) * w * w;
    assert x / rootCols / total * rootCols == x / total by { QuotientTimes(x, rootCols, total); }
    var z := (p - t) * (w * w) / total;
    assert z * total == (p - t) * (w * w);
    assert (-e * z) * total == x;
  }

  lemma QuotientTimes(x: real, a: real, b: real)
    requires a > 0.0 && b > 0.0
    ensures x / a / b * a == x / b
  {
    var q := x / a;
    assert q * a == x;
    assert q / b * a == q * a / b;
  }

  lemma StepIs(c: Case, i: nat)
    requires IsFull(c) && i < c.k
    ensures c.root(|c.f| as real) > 0.0 && WeightSum(Away(c), Near(c), c.k) > 0.0
    ensures Steps(c)[i] == Coef2(c.root(|c.f| as real), TargetOf(c, i), Similarity(Dist(c, i)), WeightSum(Away(c), Near(c), c.k),
                                 Predicted(c), LEARNING_RATE * (Predicted(c) - c.y))
  {
    hide Similarity, Coef2, MeanOf, Pull, Product, Neighbours, Distances;
    var (d, s) := (Away(c), Near(c));
    assert Weight(d, s[i]) == Similarity(Dist(c, i));
    hide Weight;
    MeanBalances(d, c.targets, s, 0.0);
    assert Sum(WeightsOf(d, s), c.k) == WeightSum(d, s, c.k) by {
      WeightSumIsSum(d, s, c.k, c.k);
      assert s[..c.k] == s;
    }
    RootPositive(c.root, |c.f|);
  }

  /** Each neighbour's distance moves down the slope of half the squared error: by the learning rate times the error times
      the slope of the prediction, over the root of the number of features. */
  lemma StepIsGradient(c: Case, i: nat)
    requires IsFull(c) && i < c.k
    ensures Steps(c)[i] * c.root(|c.f| as real) == -(LEARNING_RATE * (Predicted(c) - c.y)) * Slope(c, i, Dist(c, i))
  {
    hide Similarity, Coef2, Steepness, MeanOf, WeightSum, Neighbours, Distances, Steps;
    assert AwayIf(c, i, Dist(c, i)) == Away(c);
    StepIs(c, i);
    CoefIsGradient(c.root(|c.f| as real), TargetOf(c, i), Dist(c, i), WeightSum(Away(c), Near(c), c.k), Predicted(c), c.y);
  }

  // ----- what the step does to the prediction -----

  /** No row is moved so far past the object that it ends up farther away than it was. */
  ghost predicate NoOvershoot(c: Case)
    requires IsFull(c)
  {
    forall i :: 0 <= i < c.k ==> Steps(c)[i] >= -2.0 * Dist(c, i)
  }

  lemma SimilarityFalls(a: real, b: real)
    requires 0.0 <= a <= b
    ensures Similarity(a) >= Similarity(b)
  {}

  /** The step of a neighbour has the sign of the error times its target's gap. */
  lemma CoefSign(rootCols: real, t: real, w: real, total: real, p: real, y: real, coef: real)
    requires rootCols > 0.0 && total > 0.0 && w > 0.0
    requires coef == Coef2(rootCols, t, w, total, p, LEARNING_RATE * (p - y))
    ensures coef < 0.0 <==> Product(y - p, t - p) > 0.0
    ensures coef > 0.0 <==> Product(y - p, t - p) < 0.0
  {
    var (g, q) := ((y - p) * (t - p), LEARNING_RATE * (w * w) / rootCols / total);
    ProductPositive(w, w, w * w);
    QuotientPositive(LEARNING_RATE * (w * w), rootCols);
    QuotientPositive(LEARNING_RATE * (w * w) / rootCols, total);
    assert coef == -g * q by { CoefFactor(rootCols, t, w, total, p, y); }
    if g > 0.0 {
      ProductPositive(g, q, g * q);
    } else if g < 0.0 {
      ProductPositive(-g, q, -g * q);
    }
  }

  lemma QuotientPositive(x: real, n: real)
    requires x > 0.0 && n > 0.0
    ensures x / n > 0.0
  {}

  lemma CoefFactor(rootCols: real, t: real, w: real, total: real, p: real, y: real)
    requires rootCols > 0.0 && total > 0.0
    ensures Coef2(rootCols, t, w, total, p, LEARNING_RATE * (p - y))
      == -((y - p) * (t - p)) * (LEARNING_RATE * (w * w) / rootCols / total)
  {
    var (g, x) := (-((y - p) * (t - p)), LEARNING_RATE * (w * w));
    assert LEARNING_RATE * (p - y) * (t - p) * w * w == g * x;
    assert g * x / rootCols == g * (x / rootCols);
  }

  /** A neighbour comes nearer if and only if its target and the object's lie on the same side of the prediction
      and the step is less than twice the distance. */
  lemma ComesNearerExactly(c: Case, i: nat)
    requires IsFull(c) && i < c.k
    ensures Distance(c.root, RowsAfter(c)[Near(c)[i]], c.f) < Dist(c, i)
      <==> Product(c.y - Predicted(c), TargetOf(c, i) - Predicted(c)) > 0.0 && Steps(c)[i] > -2.0 * Dist(c, i)
  {
    hide MeanOf, Near, WeightSum, Similarity, Steps, RowsAfter, Coef2, Product, Distance;
    DistancesAfter(c);
    StepIs(c, i);
    CoefSign(c.root(|c.f| as real), TargetOf(c, i), Similarity(Dist(c, i)), WeightSum(Away(c), Near(c), c.k), Predicted(c), c.y,
             Steps(c)[i]);
  }

  lemma NotPushed(row: seq<real>, f: seq<real>, dist: real)
    requires |row| == |f| && dist > 0.0
    ensures Pushed(row, f, 0.0, dist) == row
  {
    forall j | 0 <= j < |row| ensures Push(row[j], f[j], 0.0, dist) == row[j] {
      assert 0.0 * (f[j] - row[j]) == 0.0;
    }
  }

  /** The step changes nothing if and only if the prediction is the object's target. */
  lemma RestsExactly(c: Case)
    requires IsFull(c)
    ensures RowsAfter(c) == c.rows && TargetsAfter(c) == c.targets <==> Predicted(c) == c.y
  {
    hide MeanOf, Near, WeightSum, Similarity, RowsAfter, TargetsAfter, Weight, Product, Steps, Coef2;
    if Predicted(c) == c.y {
      forall r | 0 <= r < |c.rows| ensures RowsAfter(c)[r] == c.rows[r] && TargetsAfter(c)[r] == c.targets[r] { RowRests(c, r); }
      assert RowsAfter(c) == c.rows && TargetsAfter(c) == c.targets;
    } else {
      TargetAfterIs(c, 0);
      WeightAway(c, 0);
      CorrectMoves(TargetOf(c, 0), LEARNING_RATE * (Predicted(c) - c.y), Weight(Away(c), Near(c)[0]), WeightSum(Away(c), Near(c), c.k));
    }
  }

  lemma WeightAway(c: Case, i: nat)
    requires IsFull(c) && i < c.k
    ensures Weight(Away(c), Near(c)[i]) > 0.0
  {}

  lemma CorrectMoves(t: real, e: real, w: real, total: real)
    requires total > 0.0 && w > 0.0
    ensures Correct(t, e, w, total) == t <==> e == 0.0
  {
    var z := e * w / total;
    assert z * total == e * w;
    if e > 0.0 { ProductPositive(e, w, e * w); } else if e < 0.0 { ProductPositive(-e, w, -e * w); }
  }

  lemma RowRests(c: Case, r: nat)
    requires IsFull(c) && Predicted(c) == c.y && r < |c.rows|
    ensures RowsAfter(c)[r] == c.rows[r] && TargetsAfter(c)[r] == c.targets[r]
  {
    hide MeanOf, Neighbours, WeightSum, Similarity, Weight, Product, Coef2, Pushed, Correct;
    DistancesAfter(c);
    if r in Near(c) {
      var i :| 0 <= i < c.k && Near(c)[i] == r;
      RowsAfterAt(c, i);
      TargetAfterIs(c, i);
      WeightAway(c, i);
      CorrectMoves(TargetOf(c, i), 0.0, Weight(Away(c), r), WeightSum(Away(c), Near(c), c.k));
      StepIs(c, i);
      WeightAway(c, i);
      StepIsNone(c.root(|c.f| as real), TargetOf(c, i), Similarity(Dist(c, i)), WeightSum(Away(c), Near(c), c.k), c.y);
      NotPushed(c.rows[r], c.f, Dist(c, i));
    } else {
      FullTargetsElsewhere(Away(c), c.targets, c.y, c.k, r);
    }
  }

  lemma StepIsNone(rootCols: real, t: real, w: real, total: real, p: real)
    requires rootCols > 0.0 && total > 0.0
    ensures Coef2(rootCols, t, w, total, p, LEARNING_RATE * (p - p)) == 0.0
  {
    assert 0.0 * (t - p) * w * w == 0.0;
  }

  /** A neighbour whose target lies on the object's side of the prediction gains weight, any other does not. */
  lemma WeightDrawn(coef: real, dist: real, g: real)
    requires dist > 0.0 && coef >= -2.0 * dist && (coef < 0.0 <==> g > 0.0) && (coef > 0.0 <==> g < 0.0)
    ensures Product(g, Similarity(Abs(dist + coef)) - Similarity(dist)) >= 0.0
  {
    var v := Abs(dist + coef);
    if coef < 0.0 { SimilarityFalls(v, dist); } else { SimilarityFalls(dist, v); }
    hide Similarity;
    var h := Similarity(v) - Similarity(dist);
    if g < 0.0 { assert g * h == (-g) * (-h); }
  }

  /** One term of the pull, in the direction of the object's target. */
  lemma TermDrawn(t: real, u: real, w: real, w': real, p: real, y: real, total: real)
    requires w > 0.0 && w' > 0.0 && total > 0.0 && u == Correct(t, LEARNING_RATE * (p - y), w, total)
    requires Product(Product(y - p, t - p), w' - w) >= 0.0
    ensures Product(y - p, Tug(u, p, w')) >= Product(y - p, Tug(t, p, w))
    ensures y != p ==> Product(y - p, Tug(u, p, w')) > Product(y - p, Tug(t, p, w))
  {
    var (e, z) := (y - p, w / total);
    assert z > 0.0;
    assert u - p == (t - p) + LEARNING_RATE * e * z by { assert LEARNING_RATE * (p - y) * w / total == LEARNING_RATE * (p - y) * z; }
    assert e * ((u - p) * w') == e * ((t - p) * w') + LEARNING_RATE * (e * e) * (z * w');
    assert e * ((t - p) * w') == e * ((t - p) * w) + (e * (t - p)) * (w' - w);
    SquareIsZero(e, e * e);
    SquareIsNotNegative(e);
    ProductPositive(z, w', z * w');
    if e != 0.0 { ProductPositive(e * e, z * w', (e * e) * (z * w')); }
  }

  /** What term `i` needs for that. */
  ghost predicate Drawn(d: seq<real>, d': seq<real>, ts: seq<real>, us: seq<real>, r: int, p: real, y: real, total: real)
    requires 0 <= r < |ts| == |us|
  {
    && Weight(d, r) > 0.0 && Weight(d', r) > 0.0 && total > 0.0
    && us[r] == Correct(ts[r], LEARNING_RATE * (p - y), Weight(d, r), total)
    && Product(Product(y - p, ts[r] - p), Weight(d', r) - Weight(d, r)) >= 0.0
  }

  lemma {:induction false} PullDrawn(d: seq<real>, d': seq<real>, ts: seq<real>, us: seq<real>, s: seq<int>, p: real, y: real, total: real, m: nat)
    requires m <= |s| && |ts| == |us| && forall i :: 0 <= i < |s| ==> 0 <= s[i] < |ts| && Drawn(d, d', ts, us, s[i], p, y, total)
    ensures Product(y - p, Pull(d', us, s, p, m)) >= Product(y - p, Pull(d, ts, s, p, m))
    ensures y != p && m > 0 ==> Product(y - p, Pull(d', us, s, p, m)) > Product(y - p, Pull(d, ts, s, p, m))
  {
    if m > 0 {
      hide Tug, Weight, Correct, Product;
      var r := s[m - 1];
      PullDrawn(d, d', ts, us, s, p, y, total, m - 1);
      TermDrawn(ts[r], us[r], Weight(d, r), Weight(d', r), p, y, total);
      ProductSpreads(y - p, Pull(d', us, s, p, m - 1), Tug(us[r], p, Weight(d', r)));
      ProductSpreads(y - p, Pull(d, ts, s, p, m - 1), Tug(ts[r], p, Weight(d, r)));
    }
  }

  ghost function AwayAfter(c: Case): (d: seq<real>)
    requires IsFull(c)
    ensures |d| == |c.rows| && NotNegative(d)
  {
    DistancesNotNegative(c.root, RowsAfter(c), c.f);
    Distances(c.root, RowsAfter(c), c.f)
  }

  lemma DrawnAt(c: Case, i: nat)
    requires IsFull(c) && NoOvershoot(c) && i < c.k
    ensures Drawn(Away(c), AwayAfter(c), c.targets, TargetsAfter(c), Near(c)[i], Predicted(c), c.y, WeightSum(Away(c), Near(c), c.k))
  {
    hide MeanOf, Neighbours, WeightSum, Similarity, Steps, RowsAfter, Correct, Coef2, Product, FullTargets;
    var (p, coef, dist) := (Predicted(c), Steps(c)[i], Dist(c, i));
    DistancesAfter(c);
    StepIs(c, i);
    CoefSign(c.root(|c.f| as real), TargetOf(c, i), Similarity(dist), WeightSum(Away(c), Near(c), c.k), p, c.y, coef);
    WeightDrawn(coef, dist, Product(c.y - p, TargetOf(c, i) - p));
    TargetAfterIs(c, i);
  }

  lemma TargetAfterIs(c: Case, i: nat)
    requires IsFull(c) && i < c.k
    ensures WeightSum(Away(c), Near(c), c.k) > 0.0
    ensures TargetsAfter(c)[Near(c)[i]]
      == Correct(TargetOf(c, i), LEARNING_RATE * (Predicted(c) - c.y), Weight(Away(c), Near(c)[i]), WeightSum(Away(c), Near(c), c.k))
  {
    hide MeanOf, Neighbours, Similarity, Correct, FullTargets, Weight, Pull, Product;
    var (d, s) := (Away(c), Near(c));
    MeanBalances(d, c.targets, s, 0.0);
    assert Sum(WeightsOf(d, s), c.k) == WeightSum(d, s, c.k) by {
      WeightSumIsSum(d, s, c.k, c.k);
      assert s[..c.k] == s;
    }
    FullTargetsAt(d, c.targets, c.y, c.k, i);
    assert Mean(d, c.targets, c.k) == Predicted(c);
  }

  lemma SignOf(e: real, rise: real, total: real)
    requires total > 0.0 && Product(e, Product(rise, total)) > 0.0
    ensures Product(e, rise) > 0.0
  {
    assert e * (rise * total) == (e * rise) * total;
    CancelSign(e * rise, total);
  }

  lemma CancelSign(x: real, total: real)
    requires total > 0.0 && x * total > 0.0
    ensures x > 0.0
  {}

  /** Where all terms are drawn toward `y`, so is the mean. */
  lemma MeanDrawn(d: seq<real>, d': seq<real>, ts: seq<real>, us: seq<real>, s: seq<int>, y: real, total: real)
    requires NotNegative(d) && NotNegative(d') && |s| > 0 && |ts| == |us| && forall i :: 0 <= i < |s| ==> 0 <= s[i] < |ts|
    requires forall i :: 0 <= i < |s| ==> Drawn(d, d', ts, us, s[i], MeanOf(d, ts, s), y, total)
    requires MeanOf(d, ts, s) != y
    ensures Product(y - MeanOf(d, ts, s), MeanOf(d', us, s) - MeanOf(d, ts, s)) > 0.0
  {
    hide MeanOf, WeightSum, Pull, Drawn;
    var p := MeanOf(d, ts, s);
    MeanBalances(d, ts, s, p);
    assert Product(y - p, Pull(d, ts, s, p, |s|)) == 0.0;
    hide Product;
    PullDrawn(d, d', ts, us, s, p, y, total, |s|);
    MeanBalances(d', us, s, p);
    SignOf(y - p, MeanOf(d', us, s) - p, WeightSum(d', s, |s|));
  }

  /** One step on a full table moves the mean over the rows that it touches, at their new places and with their new targets,
      toward the object's target, unless it is there already. */
  lemma StepDrawsPrediction(c: Case)
    requires IsFull(c) && NoOvershoot(c) && Predicted(c) != c.y
    ensures Product(c.y - Predicted(c), MeanOf(AwayAfter(c), TargetsAfter(c), Near(c)) - Predicted(c)) > 0.0
  {
    hide MeanOf, WeightSum, TargetsAfter, Away, AwayAfter, Drawn, NoOvershoot, Near, Product;
    var total := WeightSum(Away(c), Near(c), c.k);
    forall i | 0 <= i < c.k ensures Drawn(Away(c), AwayAfter(c), c.targets, TargetsAfter(c), Near(c)[i], Predicted(c), c.y, total) {
      DrawnAt(c, i);
    }
    MeanDrawn(Away(c), AwayAfter(c), c.targets, TargetsAfter(c), Near(c), c.y, total);
  }

  // ----- a table of exactly k rows -----

  ghost function PullOfAll(d: seq<real>, targets: seq<real>, x: real, n: nat): real
    requires n <= |targets|
  {
    if n == 0 then 0.0 else PullOfAll(d, targets, x, n - 1) + Tug(targets[n - 1], x, Weight(d, n - 1))
  }

  lemma {:induction false} PullOfPrefix(d: seq<real>, targets: seq<real>, s: seq<int>, t: seq<int>, x: real, m: nat)
    requires m <= |s| && m <= |t| && s[..m] == t[..m]
    requires (forall i :: 0 <= i < |s| ==> 0 <= s[i] < |targets|) && forall i :: 0 <= i < |t| ==> 0 <= t[i] < |targets|
    ensures Pull(d, targets, s, x, m) == Pull(d, targets, t, x, m)
  {
    if m > 0 {
      hide Tug, Weight;
      assert s[m - 1] == s[..m][m - 1] == t[..m][m - 1] == t[m - 1];
      assert s[..m - 1] == s[..m][..m - 1] == t[..m][..m - 1] == t[..m - 1];
      PullOfPrefix(d, targets, s, t, x, m - 1);
    }
  }

  function Woven(s: seq<int>, j: nat, v: int): (r: seq<int>)
    requires j <= |s|
    ensures |r| == |s| + 1
  {
    s[..j] + [v] + s[j..]
  }

  lemma WovenShorter(s: seq<int>, j: nat, v: int)
    requires j < |s|
    ensures Woven(s[..|s| - 1], j, v) == Woven(s, j, v)[..|s|] && Woven(s, j, v)[|s|] == s[|s| - 1]
  {}

  lemma {:induction false} PullWoven(d: seq<real>, targets: seq<real>, s: seq<int>, j: nat, v: int, x: real)
    requires j <= |s| && 0 <= v < |targets| && forall i :: 0 <= i < |s| ==> 0 <= s[i] < |targets|
    requires forall i :: 0 <= i <= |s| ==> 0 <= Woven(s, j, v)[i] < |targets|
    ensures Pull(d, targets, Woven(s, j, v), x, |s| + 1) == Pull(d, targets, s, x, |s|) + Tug(targets[v], x, Weight(d, v))
    decreases |s|
  {
    hide Tug, Weight;
    var t := Woven(s, j, v);
    if j == |s| {
      PullOfPrefix(d, targets, t, s, x, |s|);
    } else {
      var s' := s[..|s| - 1];
      WovenShorter(s, j, v);
      PullWoven(d, targets, s', j, v, x);
      PullOfPrefix(d, targets, t, Woven(s', j, v), x, |s|);
      PullOfPrefix(d, targets, s, s', x, |s| - 1);
    }
  }

  /** The list without its fill while there are places for all. */
  ghost function Listed(order: seq<real>, n: nat, k: nat): (s: seq<int>)
    requires n <= k && n <= |order|
    ensures |s| == n && forall i :: 0 <= i < n ==> 0 <= s[i] < n
  {
    ChosenAreNearest(order, n, k);
    Chosen(order, n, k)[..n]
  }

  lemma WovenPrefix(all: seq<int>, n: nat, j: nat, v: int)
    requires j <= n < |all|
    ensures Shifted(all, j, v)[..n + 1] == Woven(all[..n], j, v)
  {}

  lemma {:induction false} ListGrows(order: seq<real>, n: nat, k: nat) returns (j: nat)
    requires n < k && n < |order|
    ensures j <= n && Listed(order, n + 1, k) == Woven(Listed(order, n, k), j, n)
  {
    hide Shifted, Woven, InOrder, OthersFarther, Place;
    ChosenAreNearest(order, n, k);
    var all := Chosen(order, n, k);
    j := Place(order, all, n, 0);
    assert all[n] == -1;
    assert Chosen(order, n + 1, k) == Shifted(all, j, n);
    WovenPrefix(all, n, j, n);
  }

  /** With places for all, the pull does not depend on the order in which the rows are listed. */
  lemma {:induction false} PullOfListed(order: seq<real>, d: seq<real>, targets: seq<real>, x: real, n: nat, k: nat)
    requires n <= k && n <= |order| && n <= |targets|
    ensures Pull(d, targets, Listed(order, n, k), x, n) == PullOfAll(d, targets, x, n)
  {
    if n > 0 {
      hide Tug, Weight, Pull, Listed, Woven;
      var j := ListGrows(order, n - 1, k);
      PullOfListed(order, d, targets, x, n - 1, k);
      PullWoven(d, targets, Listed(order, n - 1, k), j, n - 1, x);
    }
  }

  /** The mean over all rows does not depend on the distances they are ordered by. */
  lemma MeanOfAll(order: seq<real>, order': seq<real>, d: seq<real>, targets: seq<real>)
    requires |order| == |order'| == |targets| > 0 && NotNegative(d)
    ensures MeanOf(d, targets, Neighbours(order, |order|)) == MeanOf(d, targets, Neighbours(order', |order|))
  {
    hide MeanOf, Pull, PullOfAll, WeightSum, Chosen;
    var (n, s, t) := (|order|, Listed(order, |order|, |order|), Listed(order', |order|, |order|));
    assert s == Neighbours(order, n) && t == Neighbours(order', n);
    hide Neighbours, Listed;
    var x := MeanOf(d, targets, s);
    PullOfListed(order, d, targets, x, n, n);
    PullOfListed(order', d, targets, x, n, n);
    MeanBalances(d, targets, s, x);
    MeanBalances(d, targets, t, x);
    FactorIsZero(MeanOf(d, targets, t) - x, WeightSum(d, t, n));
  }

  lemma FactorIsZero(a: real, b: real)
    requires b > 0.0 && Product(a, b) == 0.0
    ensures a == 0.0
  {}

  /** On a full table of `k` rows the next prediction for a learned object lies nearer to, or beyond, its target. */
  lemma NextPredictionDrawn(c: Case)
    requires IsFull(c) && NoOvershoot(c) && |c.rows| == c.k
    requires MeanAt(c.root, c.rows, c.targets, c.f, c.k) != c.y
    ensures var (p, q) := (MeanAt(c.root, c.rows, c.targets, c.f, c.k), MeanAt(c.root, RowsAfter(c), TargetsAfter(c), c.f, c.k));
      if p < c.y then p < q else q < p
  {
    hide MeanOf, RowsAfter, TargetsAfter, MeanAt, Away, AwayAfter, NoOvershoot, Near, Product;
    MeansAre(c);
    StepDrawsPrediction(c);
    SameSign(c.y - Predicted(c), MeanOf(AwayAfter(c), TargetsAfter(c), Near(c)) - Predicted(c));
  }

  lemma MeansAre(c: Case)
    requires IsFull(c) && |c.rows| == c.k
    ensures MeanAt(c.root, c.rows, c.targets, c.f, c.k) == Predicted(c)
    ensures MeanAt(c.root, RowsAfter(c), TargetsAfter(c), c.f, c.k) == MeanOf(AwayAfter(c), TargetsAfter(c), Near(c))
  {
    hide Neighbours, MeanOf, RowsAfter, TargetsAfter;
    MeanOfAll(Away(c), AwayAfter(c), AwayAfter(c), TargetsAfter(c));
  }

  lemma SameSign(e: real, rise: real)
    requires Product(e, rise) > 0.0
    ensures (e > 0.0 && rise > 0.0) || (e < 0.0 && rise < 0.0)
  {}
}
