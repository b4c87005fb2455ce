/**
 Best costs per query (contrib/aqo: machine_learning.c, `OkNNr_learn2`), over whole runs.
 */
module KnnCosts {
  import opened Roots
  import opened KnnSelect
  import opened KnnPredict
  import opened KnnMetric
  import opened KnnLearn
  import opened KnnMoves

  const COMPARE: real := 1.01

  datatype Row = Row(features: seq<real>, est: real, time: real)

  // ----- one observation -----

  ghost predicate Shaped(st: seq<Row>, cols: nat) { forall i :: 0 <= i < |st| ==> |st[i].features| == cols }

  function Features(st: seq<Row>): (r: seq<seq<real>>)
    ensures |r| == |st|
  {
    seq(|st|, i requires 0 <= i < |st| => st[i].features)
  }

  function DistancesTo(root: real -> real, st: seq<Row>, f: seq<real>): (d: seq<real>)
    requires Shaped(st, |f|)
    ensures |d| == |st|
  {
    Distances(root, Features(st), f)
  }

  /** The row an observation goes to; on a full table always the nearest one. */
  function Target(root: real -> real, st: seq<Row>, f: seq<real>, k: nat): (r: nat)
    requires Shaped(st, |f|)
    ensures |st| < k ==> r <= |st|
    ensures |st| >= k > 0 ==> r < |st|
  {
    var d := DistancesTo(root, st, f);
    if |st| < k then RoutedTo(d) else FirstMin(d, |d|)
  }

  predicate NearlyEqual(time: real, hist: real) {
    time == hist || (time > hist && time < hist * COMPARE) || (time < hist && time * COMPARE > hist)
  }

  /** No branch takes the observation. */
  predicate Ignored(time: real, hist: real) {
    !NearlyEqual(time, hist) && !(time * COMPARE < hist) && !(hist * COMPARE < time)
  }

  /** Only times that are apart by exactly the comparison rate fall between the branches. */
  lemma IgnoredExactly(time: real, hist: real)
    requires time > 0.0 && hist > 0.0
    ensures Ignored(time, hist) <==> time * COMPARE == hist || hist * COMPARE == time
  {}

  function Updated(row: Row, o: Row): (r: Row)
    requires |row.features| == |o.features|
    ensures |r.features| == |row.features|
  {
    var moved := TowardAll(row.features, o.features);
    if NearlyEqual(o.time, row.time) then Row(moved, o.est, row.time)
    else if o.time * COMPARE < row.time then Row(moved, o.est, o.time)
    else if row.time * COMPARE < o.time && o.est < row.est then Row(moved, o.est, row.time)
    else row
  }

  /** A row comes nearer to the observation, by a tenth of the distance, unless the observation is ignored or is slower
      and no cheaper; then it stays as it is. */
  lemma UpdatedComesNearer(root: real -> real, row: Row, o: Row)
    requires IsRoot(root) && |row.features| == |o.features| && row.time > 0.0 && o.time > 0.0
    ensures var u := Updated(row, o);
      if Ignored(o.time, row.time) || (o.time > row.time * COMPARE && o.est >= row.est) then u == row
      else
        && ScaledFrom(row.features, u.features, o.features, KEPT) && u.est == o.est
        && Distance(root, u.features, o.features) == Product(KEPT, Distance(root, row.features, o.features))
  {
    hide Distance, Product;
    TowardScales(row.features, o.features);
    ScaledDistance(root, row.features, TowardAll(row.features, o.features), o.features, KEPT);
  }

  /** The table after observation `o` went to row `t`. */
  function Step(st: seq<Row>, o: Row, t: nat): (r: seq<Row>)
    requires Shaped(st, |o.features|) && t <= |st|
    ensures Shaped(r, |o.features|)
    ensures |r| == if t < |st| then |st| else |st| + 1
  {
    if t < |st| then st[t := Updated(st[t], o)] else st + [o]
  }

  // ----- the method -----

  function TableOf(matrix: seq<seq<real>>, est: seq<real>, time: seq<real>, n: nat): (r: seq<Row>)
    requires n <= |matrix| == |est| == |time|
    ensures |r| == n
  {
    seq(n, i requires 0 <= i < n => Row(matrix[i], est[i], time[i]))
  }

  /** The branches on an existing row. */
  method UpdateRow(matrix: array<seq<real>>, est: array<real>, time: array<real>, m: nat, o: Row) returns (lst: seq<nat>)
    requires m < matrix.Length == est.Length == time.Length && |matrix[m]| == |o.features| && est != time
    modifies matrix, est, time
    ensures var u := Updated(Row(old(matrix[m]), old(est[m]), old(time[m])), o);
      && matrix[..] == old(matrix[..])[m := u.features]
      && est[..] == old(est[..])[m := u.est]
      && time[..] == old(time[..])[m := u.time]
    ensures lst == if Ignored(o.time, old(time[m])) then [] else [m]
  {
    var hist := time[m];
    lst := [];
    if NearlyEqual(o.time, hist) {
      matrix[m] := MoveToward(matrix[m], o.features);
      est[m] := est[m] + 1.0 * (o.est - est[m]);
      lst := [m];
    } else if o.time * COMPARE < hist {
      matrix[m] := MoveToward(matrix[m], o.features);
      est[m] := est[m] + 1.0 * (o.est - est[m]);
      time[m] := time[m] + 1.0 * (o.time - hist);
      lst := [m];
    } else if hist * COMPARE < o.time {
      if o.est < est[m] {
        matrix[m] := MoveToward(matrix[m], o.features);
        est[m] := est[m] + 1.0 * (o.est - est[m]);
      }
      lst := [m];
    }
  }

  /** `OkNNr_learn2`: the three arrays hold the table after the step; a returned index that is the
      old row count is a new row, and nothing is returned exactly when nothing was learned. */
  method Learn2(root: real -> real, rows: nat, matrix: array<seq<real>>, est: array<real>, time: array<real>, o: Row, k: nat)
    returns (lst: seq<nat>)
    requires k > 0 && rows <= matrix.Length == est.Length == time.Length && est != time && (rows < k ==> rows < matrix.Length)
    requires forall i :: 0 <= i < rows ==> |matrix[i]| == |o.features|
    modifies matrix, est, time
    ensures var st := old(TableOf(matrix[..], est[..], time[..], rows));
      && Shaped(st, |o.features|)
      && var t := Target(root, st, o.features, k);
      && |Step(st, o, t)| <= matrix.Length && TableOf(matrix[..], est[..], time[..], |Step(st, o, t)|) == Step(st, o, t)
      && lst == if t < rows && Ignored(o.time, st[t].time) then [] else [t]
  {
    ghost var st := TableOf(matrix[..], est[..], time[..], rows);
    assert Features(st) == matrix[..rows];
    var d, m := NearestRow(root, matrix[..rows], o.features);
    if rows < k && !(rows != 0 && d[m] < OBJECT_THRESHOLD) {
      matrix[rows] := o.features;
      est[rows] := o.est;
      time[rows] := o.time;
      lst := [rows];
    } else {
      lst := UpdateRow(matrix, est, time, m, o);
    }
  }

  // ----- runs -----

  type Route = (seq<Row>, seq<real>) -> nat

  /** A routing that adds a row only while there is room. */
  ghost predicate Routes(route: Route, k: nat) {
    forall st, f :: route(st, f) <= |st| && (|st| >= k ==> route(st, f) < |st|)
  }

  ghost predicate Observations(os: seq<Row>, cols: nat) {
    forall i :: 0 <= i < |os| ==> |os[i].features| == cols && os[i].time > 0.0
  }

  /** The table after the first `n` observations, from an empty one. */
  ghost function Run(route: Route, os: seq<Row>, cols: nat, k: nat, n: nat): (st: seq<Row>)
    requires Observations(os, cols) && Routes(route, k) && n <= |os|
    ensures Shaped(st, cols)
    decreases n, 0
  {
    if n == 0 then [] else Step(Run(route, os, cols, k, n - 1), os[n - 1], RowOf(route, os, cols, k, n - 1))
  }

  ghost function RowOf(route: Route, os: seq<Row>, cols: nat, k: nat, i: nat): nat
    requires Observations(os, cols) && Routes(route, k) && i < |os|
    decreases i, 1
  {
    route(Run(route, os, cols, k, i), os[i].features)
  }

  /** The observations routed to row `r` among the first `n`. */
  ghost function History(route: Route, os: seq<Row>, cols: nat, k: nat, n: nat, r: nat): seq<Row>
    requires Observations(os, cols) && Routes(route, k) && n <= |os|
  {
    if n == 0 then []
    else if RowOf(route, os, cols, k, n - 1) == r then History(route, os, cols, k, n - 1, r) + [os[n - 1]]
    else History(route, os, cols, k, n - 1, r)
  }

  /** A row's best time is one of `h`, within the comparison rate of every one of `h`; so is its estimate one of `h`. */
  ghost predicate Best(row: Row, h: seq<Row>) {
    && row.time > 0.0
    && (exists i :: 0 <= i < |h| && h[i].time == row.time)
    && (exists i :: 0 <= i < |h| && h[i].est == row.est)
    && forall i :: 0 <= i < |h| ==> row.time <= COMPARE * h[i].time
  }

  lemma BestGrows(row: Row, h: seq<Row>, o: Row)
    requires Best(row, h) && |row.features| == |o.features| && o.time > 0.0
    ensures Best(Updated(row, o), h + [o]) && Updated(row, o).time <= row.time
  {
    var (u, g) := (Updated(row, o), h + [o]);
    assert g[|h|] == o;
    forall i | 0 <= i < |g| ensures u.time <= COMPARE * g[i].time {
      if i < |h| { assert g[i] == h[i]; }
    }
    var i :| 0 <= i < |h| && h[i].time == row.time;
    assert g[i].time == row.time;
    var j :| 0 <= j < |h| && h[j].est == row.est;
    assert g[j].est == row.est;
  }

  lemma FirstIsBest(o: Row)
    requires o.time > 0.0
    ensures Best(o, [o])
  {
    assert [o][0] == o;
  }

  /** One step as each row sees it. */
  lemma RunStep(route: Route, os: seq<Row>, cols: nat, k: nat, n: nat, r: nat)
    requires Observations(os, cols) && Routes(route, k) && n < |os|
    ensures var (st, u, t) := (Run(route, os, cols, k, n), Run(route, os, cols, k, n + 1), RowOf(route, os, cols, k, n));
      && |u| == (if t < |st| then |st| else |st| + 1) && t < |u| && (|st| <= k ==> |u| <= k)
      && (r < |u| && r != t ==> r < |st| && u[r] == st[r])
      && (r == t ==> u[r] == if r < |st| then Updated(st[r], os[n]) else os[n])
  {}

  lemma HistoryStep(route: Route, os: seq<Row>, cols: nat, k: nat, n: nat, r: nat)
    requires Observations(os, cols) && Routes(route, k) && n < |os|
    ensures History(route, os, cols, k, n + 1, r)
      == History(route, os, cols, k, n, r) + if RowOf(route, os, cols, k, n) == r then [os[n]] else []
  {}

  ghost predicate RowIsBest(route: Route, os: seq<Row>, cols: nat, k: nat, n: nat, r: nat)
    requires Observations(os, cols) && Routes(route, k) && n <= |os|
  {
    var (st, h) := (Run(route, os, cols, k, n), History(route, os, cols, k, n, r));
    if r < |st| then Best(st[r], h) else h == []
  }

  /** In every run every row holds the best of what was routed to it. */
  lemma {:induction false} RunKeepsBest(route: Route, os: seq<Row>, cols: nat, k: nat, n: nat, r: nat)
    requires Observations(os, cols) && Routes(route, k) && n <= |os|
    ensures |Run(route, os, cols, k, n)| <= k
    ensures RowIsBest(route, os, cols, k, n, r)
  {
    if n > 0 {
      RunKeepsBest(route, os, cols, k, n - 1, r);
      RunStep(route, os, cols, k, n - 1, r);
      HistoryStep(route, os, cols, k, n - 1, r);
      BestStep(route, os, cols, k, n, r);
    }
  }

  lemma BestStep(route: Route, os: seq<Row>, cols: nat, k: nat, n: nat, r: nat)
    requires Observations(os, cols) && Routes(route, k) && 0 < n <= |os| && RowIsBest(route, os, cols, k, n - 1, r)
    ensures RowIsBest(route, os, cols, k, n, r)
  {
    RunStep(route, os, cols, k, n - 1, r);
    HistoryStep(route, os, cols, k, n - 1, r);
    var (st, h, o) := (Run(route, os, cols, k, n - 1), History(route, os, cols, k, n - 1, r), os[n - 1]);
    if RowOf(route, os, cols, k, n - 1) == r {
      if r < |st| {
        BestGrows(st[r], h, o);
      } else {
        FirstIsBest(o);
        assert h + [o] == [o];
      }
    }
  }

  /** No row's best time ever rises, and no row is dropped. */
  lemma {:induction false} BestNeverRises(route: Route, os: seq<Row>, cols: nat, k: nat, m: nat, n: nat, r: nat)
    requires Observations(os, cols) && Routes(route, k) && m <= n <= |os| && r < |Run(route, os, cols, k, m)|
    ensures r < |Run(route, os, cols, k, n)|
    ensures Run(route, os, cols, k, n)[r].time <= Run(route, os, cols, k, m)[r].time
  {
    if m < n {
      BestNeverRises(route, os, cols, k, m, n - 1, r);
      RunStep(route, os, cols, k, n - 1, r);
      RunKeepsBest(route, os, cols, k, n - 1, r);
      var st := Run(route, os, cols, k, n - 1);
      if RowOf(route, os, cols, k, n - 1) == r {
        BestGrows(st[r], History(route, os, cols, k, n - 1, r), os[n - 1]);
      }
    }
  }

  // ----- what a row's estimate is -----

  /** Slower than the row's best time by more than the comparison rate. */
  predicate Slower(o: Row, time: real) { o.time > time * COMPARE }

  /**
   The best time is that of observation `b`, faster than all before it, than one of them by more than the comparison rate,
   and at most that rate slower than any after it.
   The estimate is the least among that of `e`, the last observation at the best time give or take the comparison rate,
   and those of the slower ones after it.
   */
  ghost predicate Explained(row: Row, h: seq<Row>, b: nat, e: nat) {
    && b <= e < |h| && row.time == h[b].time
    && (forall j :: 0 <= j < b ==> row.time < h[j].time)
    && (b == 0 || exists j :: 0 <= j < b && row.time * COMPARE < h[j].time)
    && (forall j :: b < j < |h| ==> row.time <= COMPARE * h[j].time)
    && (e == b || NearlyEqual(h[e].time, row.time))
    && (forall j :: e < j < |h| ==> !NearlyEqual(h[j].time, row.time))
    && row.est <= h[e].est && (forall j :: e < j < |h| && Slower(h[j], row.time) ==> row.est <= h[j].est)
    && (row.est == h[e].est || exists j :: e < j < |h| && Slower(h[j], row.time) && row.est == h[j].est)
  }

  lemma ExplainedGrows(row: Row, h: seq<Row>, o: Row, b: nat, e: nat) returns (b': nat, e': nat)
    requires Best(row, h) && Explained(row, h, b, e) && |row.features| == |o.features| && o.time > 0.0
    ensures Explained(Updated(row, o), h + [o], b', e')
  {
    var n := |h|;
    if NearlyEqual(o.time, row.time) {
      b', e' := b, n;
      NearGrows(row, h, o, b, e);
    } else if o.time * COMPARE < row.time {
      b', e' := n, n;
      FasterGrows(row, h, o, b, e);
    } else {
      b', e' := b, e;
      SlowerGrows(row, h, o, b, e);
    }
  }

  lemma NearGrows(row: Row, h: seq<Row>, o: Row, b: nat, e: nat)
    requires Best(row, h) && Explained(row, h, b, e) && |row.features| == |o.features| && o.time > 0.0
    requires NearlyEqual(o.time, row.time)
    ensures Explained(Updated(row, o), h + [o], b, |h|)
  {
    var g := h + [o];
    assert g[|h|] == o && forall j :: 0 <= j < |h| ==> g[j] == h[j];
  }

  lemma FasterGrows(row: Row, h: seq<Row>, o: Row, b: nat, e: nat)
    requires Best(row, h) && Explained(row, h, b, e) && |row.features| == |o.features| && o.time > 0.0
    requires !NearlyEqual(o.time, row.time) && o.time * COMPARE < row.time
    ensures Explained(Updated(row, o), h + [o], |h|, |h|)
  {
    var g := h + [o];
    assert g[|h|] == o && forall j :: 0 <= j < |h| ==> g[j] == h[j];
    assert o.time * COMPARE < g[b].time;
  }

  lemma SlowerGrows(row: Row, h: seq<Row>, o: Row, b: nat, e: nat)
    requires Best(row, h) && Explained(row, h, b, e) && |row.features| == |o.features| && o.time > 0.0
    requires !NearlyEqual(o.time, row.time) && !(o.time * COMPARE < row.time)
    ensures Explained(Updated(row, o), h + [o], b, e)
  {
    var g := h + [o];
    assert g[|h|] == o && forall j :: 0 <= j < |h| ==> g[j] == h[j];
    SlowerKept(row, h, o, Updated(row, o), g, e);
  }

  lemma SlowerKept(row: Row, h: seq<Row>, o: Row, u: Row, g: seq<Row>, e: nat)
    requires |row.features| == |o.features| && row.time > 0.0 && o.time > 0.0 && e < |h| && g == h + [o] && u == Updated(row, o)
    requires !NearlyEqual(o.time, row.time) && !(o.time * COMPARE < row.time)
    requires row.est == h[e].est || exists j :: e < j < |h| && Slower(h[j], row.time) && row.est == h[j].est
    ensures u.time == row.time
    ensures u.est == g[e].est || exists j :: e < j < |g| && Slower(g[j], row.time) && u.est == g[j].est
  {
    if u.est == row.est && row.est != h[e].est {
      var j :| e < j < |h| && Slower(h[j], row.time) && row.est == h[j].est;
      assert g[j] == h[j];
    } else if u.est != row.est {
      assert g[|h|] == o;
    }
  }

  /** In every run the time and the estimate of every row are explained by what was routed to it. */
  lemma {:induction false} RunExplained(route: Route, os: seq<Row>, cols: nat, k: nat, n: nat, r: nat) returns (b: nat, e: nat)
    requires Observations(os, cols) && Routes(route, k) && n <= |os| && r < |Run(route, os, cols, k, n)|
    ensures Explained(Run(route, os, cols, k, n)[r], History(route, os, cols, k, n, r), b, e)
  {
    RunStep(route, os, cols, k, n - 1, r);
    HistoryStep(route, os, cols, k, n - 1, r);
    RunKeepsBest(route, os, cols, k, n - 1, r);
    var (st, h, o) := (Run(route, os, cols, k, n - 1), History(route, os, cols, k, n - 1, r), os[n - 1]);
    hide Explained, Best, Updated;
    if r < |st| {
      b, e := RunExplained(route, os, cols, k, n - 1, r);
      if RowOf(route, os, cols, k, n - 1) == r { b, e := ExplainedGrows(st[r], h, o, b, e); }
    } else {
      assert h + [o] == [o];
      b, e := 0, 0;
      FirstExplained(o);
    }
  }

  lemma FirstExplained(o: Row)
    ensures Explained(o, [o], 0, 0)
  {}

  /** Every observation is in the history of the row it was routed to, and that row stays. */
  lemma {:induction false} EveryObservationRouted(route: Route, os: seq<Row>, cols: nat, k: nat, n: nat, i: nat)
    requires Observations(os, cols) && Routes(route, k) && i < n <= |os|
    ensures RowOf(route, os, cols, k, i) < |Run(route, os, cols, k, n)|
    ensures os[i] in History(route, os, cols, k, n, RowOf(route, os, cols, k, i))
  {
    var t := RowOf(route, os, cols, k, i);
    RunStep(route, os, cols, k, n - 1, t);
    HistoryStep(route, os, cols, k, n - 1, t);
    if i < n - 1 { EveryObservationRouted(route, os, cols, k, n - 1, i); }
  }

  /** The routing of `OkNNr_learn2`. */
  ghost function Nearby(root: real -> real, k: nat): Route {
    (st, f) => if Shaped(st, |f|) && k > 0 then Target(root, st, f, k) else 0
  }

  /** Every run of `OkNNr_learn2` keeps to its cap; every row's best time is one routed to it, within
      one percent of each of them, and never rises. */
  lemma {:induction false} Learn2Runs(root: real -> real, os: seq<Row>, cols: nat, k: nat, m: nat, n: nat, r: nat)
    requires Observations(os, cols) && k > 0 && m <= n <= |os|
    ensures Routes(Nearby(root, k), k)
    ensures |Run(Nearby(root, k), os, cols, k, n)| <= k && RowIsBest(Nearby(root, k), os, cols, k, n, r)
    ensures r < |Run(Nearby(root, k), os, cols, k, m)| ==>
      && r < |Run(Nearby(root, k), os, cols, k, n)|
      && Run(Nearby(root, k), os, cols, k, n)[r].time <= Run(Nearby(root, k), os, cols, k, m)[r].time
  {
    var route := Nearby(root, k);
    RunKeepsBest(route, os, cols, k, n, r);
    if r < |Run(route, os, cols, k, m)| { BestNeverRises(route, os, cols, k, m, n, r); }
  }
}
