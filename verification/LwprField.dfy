/**
 A receptive field over its whole life (contrib/aqo: machine_learning_lwpr.c): counters, trust,
 running means, error history, and the k-NN rows that stand in for it while it is not trusted.

 The partial-least-squares regression is not part of this model: an update is given the relative
 error it reports (`err`) and whether its last direction halved the error (`better`).
 */
module LwprField {
  import opened Roots
  import opened KnnSelect
  import opened KnnPredict
  import opened KnnLearn
  import opened LwprMeans

  const INIT_LAMBDA: real := 1.0
  const FINAL_LAMBDA: real := 1.0
  const TAU_LAMBDA: real := 1.0

  datatype Update = Update(s: Sample, err: real, better: bool)

  // ----- counters, one entry per regression direction -----

  datatype Counters = Counters(sumW: seq<real>, nData: seq<real>, lambda: seq<real>)

  ghost predicate Even(c: Counters) { |c.sumW| == |c.nData| == |c.lambda| > 0 }

  function Weighed(c: Counters, w: real): (r: seq<real>)
    requires |c.sumW| == |c.lambda|
    ensures |r| == |c.sumW|
  {
    seq(|c.sumW|, i requires 0 <= i < |c.sumW| => c.sumW[i] * c.lambda[i] + w)
  }

  predicate Adding(c: Counters, nIn: nat, better: bool)
    requires |c.nData| == |c.lambda| > 0
  {
    |c.lambda| < nIn && better && c.nData[|c.nData| - 1] > 0.99 * c.nData[0]
  }

  /** `lwpr_aux_check_add_projection`, as far as the counters go. */
  function Extended(c: Counters, nIn: nat, better: bool): (r: Counters)
    requires |c.nData| == |c.lambda| == |c.sumW| > 0
    ensures |r.nData| == |r.lambda| == |r.sumW| >= |c.lambda|
  {
    if Adding(c, nIn, better) then Counters(c.sumW + [PRIOR], c.nData + [0.0], c.lambda + [INIT_LAMBDA]) else c
  }

  function Ticked(c: Counters): (r: Counters)
    requires |c.nData| == |c.lambda| == |c.sumW|
    ensures |r.nData| == |r.lambda| == |r.sumW| == |c.lambda|
  {
    Counters(c.sumW,
             seq(|c.nData|, i requires 0 <= i < |c.nData| => c.nData[i] * c.lambda[i] + 1.0),
             seq(|c.lambda|, i requires 0 <= i < |c.lambda| => TAU_LAMBDA * c.lambda[i] + FINAL_LAMBDA * (1.0 - TAU_LAMBDA)))
  }

  function NextCounters(c: Counters, w: real, nIn: nat, better: bool): (r: Counters)
    requires |c.nData| == |c.lambda| == |c.sumW| > 0
    ensures |r.nData| == |r.lambda| == |r.sumW| >= |c.lambda|
  {
    Ticked(Extended(Counters(Weighed(c, w), c.nData, c.lambda), nIn, better))
  }

  ghost predicate AllOne(s: seq<real>) { forall i :: 0 <= i < |s| ==> s[i] == 1.0 }

  /** Nothing is ever forgotten: the factors stay 1, so the first entries count and add up. */
  lemma CountersStep(c: Counters, w: real, nIn: nat, better: bool)
    requires Even(c) && AllOne(c.lambda)
    ensures var r := NextCounters(c, w, nIn, better);
      && Even(r) && AllOne(r.lambda)
      && r.sumW[0] == c.sumW[0] + w && r.nData[0] == c.nData[0] + 1.0
      && |r.lambda| == if Adding(c, nIn, better) then |c.lambda| + 1 else |c.lambda|
  {}

  // ----- k-NN rows -----

  datatype Store = Store(rows: seq<seq<real>>, targets: seq<real>)

  ghost predicate Shaped(st: Store, nIn: nat) {
    |st.rows| == |st.targets| && forall i :: 0 <= i < |st.rows| ==> |st.rows[i]| == nIn
  }

  function Capacity(nIn: nat): nat { 2 * nIn + 1 }

  /** One call of `OkNNr_learn` with a cap of `k` rows, on the rows themselves. */
  ghost function Learned(root: real -> real, st: Store, f: seq<real>, y: real, k: nat): (r: Store)
    requires IsRoot(root) && Shaped(st, |f|) && k > 0
    ensures Shaped(r, |f|)
    ensures |st.rows| <= |r.rows| <= |st.rows| + 1 && (|st.rows| >= k ==> |r.rows| == |st.rows|)
  {
    var d := Distances(root, st.rows, f);
    if |st.rows| < k then
      if RoutedTo(d) < |d| then Store(st.rows[RoutedTo(d) := LearnedRow(st.rows, d, f)], st.targets[RoutedTo(d) := LearnedTarget(st.targets, d, y)])
      else Store(st.rows + [f], st.targets + [y])
    else
      DistancesNotNegative(root, st.rows, f);
      RootPositive(root, |f|);
      Store(FullRows(root(|f| as real), d, st.rows, st.targets, f, y, k), FullTargets(d, st.targets, y, k))
  }

  // ----- the field -----

  datatype Field = Field(counters: Counters, means: Means, errors: seq<real>, trustworthy: bool, store: Store)

  ghost predicate Sound(f: Field, nIn: nat) {
    && Even(f.counters) && |f.means.meanX| == |f.means.varX| == nIn && Shaped(f.store, nIn)
    && f.counters.sumW[0] > 0.0 && AllOne(f.counters.lambda)
  }

  /** An error history of at most `window` entries. */
  function Remembered(errors: seq<real>, err: real, window: nat): seq<real>
    requires window > 0
  {
    if |errors| < window then errors + [err] else errors[1..] + [err]
  }

  predicate Ready(c: Counters, nIn: nat)
    requires |c.nData| > 0
  {
    c.nData[0] > 2.0 * nIn as real
  }

  /** One pass of `lwpr_aux_update_one_T` over a field the sample activates. */
  ghost function Updated(root: real -> real, f: Field, u: Update, window: nat): (r: Field)
    requires IsRoot(root) && Sound(f, |u.s.x|) && u.s.w > 0.0 && window > 0
    ensures Sound(r, |u.s.x|)
  {
    var nIn := |u.s.x|;
    CountersStep(f.counters, u.s.w, nIn, u.better);
    Field(NextCounters(f.counters, u.s.w, nIn, u.better),
          NextMeans(f.means, f.counters.sumW[0] * f.counters.lambda[0], u.s),
          Remembered(f.errors, u.err, window),
          f.trustworthy || Ready(f.counters, nIn),
          if Ready(f.counters, nIn) then f.store else Learned(root, f.store, u.s.x, u.s.y, Capacity(nIn)))
  }

  /** The field `lwpr_aux_init_rf` builds around `xc`, from `nReg` directions, an intercept and an empty datahouse. */
  ghost function Initial(root: real -> real, xc: seq<real>, y: real, nReg: nat, beta0: real): (f: Field)
    requires IsRoot(root) && nReg > 0
    ensures Sound(f, |xc|)
  {
    Field(Counters(seq(nReg, _ => PRIOR), seq(nReg, _ => PRIOR), seq(nReg, _ => INIT_LAMBDA)),
          Means(seq(|xc|, _ => 0.0), seq(|xc|, _ => 0.0), beta0),
          [], false,
          Learned(root, Store([], []), xc, y, Capacity(|xc|)))
  }

  /** Directions a new field starts with, when it has no template. */
  function Directions(nIn: nat): nat { if nIn > 1 then 2 else 1 }

  // ----- the field in memory -----

  /** Appends to the error history, shifting out the oldest entry when it is full. */
  method Remember(errors: array<real>, num: nat, err: real) returns (r: nat)
    requires num <= errors.Length && errors.Length > 0
    modifies errors
    ensures r <= errors.Length && errors[..r] == Remembered(old(errors[..num]), err, errors.Length)
  {
    if num < errors.Length {
      errors[num] := err;
      r := num + 1;
    } else {
      ghost var was := errors[..];
      for j := 1 to errors.Length
        invariant errors[..j - 1] == was[1..j] && errors[j - 1..] == was[j - 1..]
      {
        errors[j - 1] := errors[j];
      }
      errors[errors.Length - 1] := err;
      r := num;
    }
  }

  /** Rows after a learning step that changed the lines `lst`. */
  method CountRows(rows: nat, lst: seq<int>) returns (n: nat)
    ensures Counted(rows, lst, n)
  {
    n := rows;
    for i := 0 to |lst|
      invariant n >= rows && (forall l :: 0 <= l < i ==> lst[l] < n) && (n == rows || n - 1 in lst)
    {
      if lst[i] >= n {
        n := lst[i] + 1;
      }
    }
  }

  method WeighCounters(c: Counters, w: real) returns (sumW: seq<real>)
    requires |c.sumW| == |c.lambda|
    ensures sumW == Weighed(c, w)
  {
    sumW := c.sumW;
    for i := 0 to |c.lambda|
      invariant |sumW| == |c.sumW| && sumW[..i] == Weighed(c, w)[..i] && sumW[i..] == c.sumW[i..]
    {
      var v := sumW[i] * c.lambda[i] + w;
      assert sumW[i] == c.sumW[i] && v == Weighed(c, w)[i];
      sumW := sumW[i := v];
    }
  }

  method TickCounters(c: Counters) returns (r: Counters)
    requires |c.nData| == |c.lambda| == |c.sumW|
    ensures r == Ticked(c)
  {
    var nData, lambda := c.nData, c.lambda;
    for i := 0 to |c.lambda|
      invariant |nData| == |lambda| == |c.lambda|
      invariant nData[..i] == Ticked(c).nData[..i] && nData[i..] == c.nData[i..]
      invariant lambda[..i] == Ticked(c).lambda[..i] && lambda[i..] == c.lambda[i..]
    {
      var v := nData[i] * lambda[i] + 1.0;
      assert nData[i] == c.nData[i] && lambda[i] == c.lambda[i] && v == Ticked(c).nData[i];
      nData := nData[i := v];
      lambda := lambda[i := TAU_LAMBDA * lambda[i] + FINAL_LAMBDA * (1.0 - TAU_LAMBDA)];
    }
    r := Counters(c.sumW, nData, lambda);
  }

  method CheckAddProjection(c: Counters, nIn: nat, better: bool) returns (r: Counters)
    requires |c.nData| == |c.lambda| == |c.sumW| > 0
    ensures r == Extended(c, nIn, better)
  {
    r := c;
    if |c.lambda| >= nIn { return; }
    if better && c.nData[|c.nData| - 1] > 0.99 * c.nData[0] {
      r := Counters(c.sumW + [PRIOR], c.nData + [0.0], c.lambda + [INIT_LAMBDA]);
    }
  }

  /** The datahouse of one field. */
  class Datahouse {
    const matrix: array<seq<real>>
    const targets: array<real>
    var rows: nat

    ghost predicate Valid(nIn: nat)
      reads this, matrix, targets
    {
      && matrix.Length == targets.Length == Capacity(nIn) && rows <= matrix.Length
      && forall i :: 0 <= i < matrix.Length ==> |matrix[i]| == nIn
    }

    ghost function Value(): (st: Store)
      requires rows <= matrix.Length == targets.Length
      reads this, matrix, targets
    {
      Store(matrix[..rows], targets[..rows])
    }

    constructor (nIn: nat)
      ensures Valid(nIn) && Value() == Store([], []) && fresh(matrix) && fresh(targets)
    {
      matrix := new seq<real>[Capacity(nIn)](_ => seq(nIn, _ => 0.0));
      targets := new real[Capacity(nIn)](_ => 0.0);
      rows := 0;
    }

    method LearnInto(root: real -> real, f: seq<real>, y: real)
      requires IsRoot(root) && Valid(|f|)
      modifies this, matrix, targets
      ensures Valid(|f|) && Value() == Learned(root, old(Value()), f, y, Capacity(|f|))
    {
      hide Learned;
      ghost var (st, ms, ts, n) := (Value(), matrix[..], targets[..], rows);
      assert st == Store(ms[..n], ts[..n]);
      if rows < matrix.Length {
        rows := LearnRowsWithRoom(root, rows, matrix, targets, f, y);
      } else {
        assert n == matrix.Length;
        rows := LearnRowsFull(root, matrix, targets, f, y);
      }
      assert LearnedTo(root, ms, ts, n, f, y, Capacity(|f|), matrix[..], targets[..], rows);
      assert Value() == Store(matrix[..][..rows], targets[..][..rows]);
    }
  }

  /** Load, learn, count the rows and save; first with room, then on full buffers. */
  method LearnRowsWithRoom(root: real -> real, rows: nat, matrix: array<seq<real>>, targets: array<real>, f: seq<real>, y: real) returns (n: nat)
    requires IsRoot(root) && rows < matrix.Length == targets.Length == Capacity(|f|)
    requires forall i :: 0 <= i < matrix.Length ==> |matrix[i]| == |f|
    modifies matrix, targets
    ensures LearnedTo(root, old(matrix[..]), old(targets[..]), rows, f, y, Capacity(|f|), matrix[..], targets[..], n)
  {
    hide AfterRoom, AfterFull, LearnedTo;
    ghost var (ms, ts) := (matrix[..], targets[..]);
    var lst, finite := Learn(root, rows, matrix, targets, f, y, Capacity(|f|));
    n := CountRows(rows, lst);
    RowsWithRoom(root, ms, ts, rows, f, y, Capacity(|f|), matrix[..], targets[..], lst, n);
  }

  method LearnRowsFull(root: real -> real, matrix: array<seq<real>>, targets: array<real>, f: seq<real>, y: real) returns (n: nat)
    requires IsRoot(root) && matrix.Length == targets.Length == Capacity(|f|)
    requires forall i :: 0 <= i < matrix.Length ==> |matrix[i]| == |f|
    modifies matrix, targets
    ensures LearnedTo(root, old(matrix[..]), old(targets[..]), matrix.Length, f, y, Capacity(|f|), matrix[..], targets[..], n)
  {
    hide AfterRoom, AfterFull, LearnedTo;
    ghost var (ms, ts) := (matrix[..], targets[..]);
    var lst, finite := Learn(root, matrix.Length, matrix, targets, f, y, Capacity(|f|));
    n := CountRows(matrix.Length, lst);
    RowsFull(root, ms, ts, matrix.Length, f, y, Capacity(|f|), matrix[..], targets[..], lst, n);
  }

  /** Buffers with `n` rows in use become buffers with `n'`, by one learning step. */
  ghost predicate LearnedTo(root: real -> real, ms: seq<seq<real>>, ts: seq<real>, n: nat, f: seq<real>, y: real, k: nat,
                            ms': seq<seq<real>>, ts': seq<real>, n': nat)
    requires IsRoot(root) && n <= |ms| == |ts| && k > 0 && forall i :: 0 <= i < |ms| ==> |ms[i]| == |f|
  {
    && n' <= |ms'| == |ts'| == |ms| && (forall i :: 0 <= i < |ms'| ==> |ms'[i]| == |f|)
    && Store(ms'[..n'], ts'[..n']) == Learned(root, Store(ms[..n], ts[..n]), f, y, k)
  }

  /** A row count that covers exactly the changed lines. */
  ghost predicate Counted(n: nat, lst: seq<int>, n': nat) {
    n' >= n && (forall i :: 0 <= i < |lst| ==> lst[i] < n') && (n' == n || n' - 1 in lst)
  }

  /** A learning step on buffers with room, seen on the rows in use. */
  lemma RowsWithRoom(root: real -> real, ms: seq<seq<real>>, ts: seq<real>, n: nat, f: seq<real>, y: real, k: nat,
                     ms': seq<seq<real>>, ts': seq<real>, lst: seq<int>, n': nat)
    requires IsRoot(root) && n < k == |ms| == |ts| && forall i :: 0 <= i < |ms| ==> |ms[i]| == |f|
    requires AfterRoom(root, n, ms, ts, f, y, ms', ts', lst) && Counted(n, lst, n')
    ensures LearnedTo(root, ms, ts, n, f, y, k, ms', ts', n')
  {
    var d := Distances(root, ms[..n], f);
    assert n' == (if RoutedTo(d) < n then n else n + 1) by { assert lst[0] == RoutedTo(d); }
    assert LearnedRow(ms, d, f) == LearnedRow(ms[..n], d, f) && LearnedTarget(ts, d, y) == LearnedTarget(ts[..n], d, y);
    if RoutedTo(d) == n {
      assert ms'[..n'] == ms[..n] + [f] && ts'[..n'] == ts[..n] + [y];
    } else {
      assert ms'[..n] == ms[..n][RoutedTo(d) := LearnedRow(ms, d, f)];
      assert ts'[..n] == ts[..n][RoutedTo(d) := LearnedTarget(ts, d, y)];
    }
  }

  /** A learning step on full buffers. */
  lemma RowsFull(root: real -> real, ms: seq<seq<real>>, ts: seq<real>, n: nat, f: seq<real>, y: real, k: nat,
                 ms': seq<seq<real>>, ts': seq<real>, lst: seq<int>, n': nat)
    requires IsRoot(root) && n == k == |ms| == |ts| && k > 0 && forall i :: 0 <= i < |ms| ==> |ms[i]| == |f|
    requires AfterFull(root, n, ms, ts, f, y, k, ms', ts', lst) && Counted(n, lst, n')
    ensures LearnedTo(root, ms, ts, n, f, y, k, ms', ts', n')
  {
    hide Learned, FullRows, FullTargets, Distances, Neighbours;
    assert ms[..n] == ms && ts[..n] == ts;
    LearnedFull(root, ms, ts, f, y, k, ms', ts');
    assert n' == n;
    assert ms'[..n'] == ms' && ts'[..n'] == ts';
  }

  lemma LearnedFull(root: real -> real, ms: seq<seq<real>>, ts: seq<real>, f: seq<real>, y: real, k: nat, ms': seq<seq<real>>, ts': seq<real>)
    requires IsRoot(root) && |ms| == |ts| >= k > 0 && forall i :: 0 <= i < |ms| ==> |ms[i]| == |f|
    requires var d := Distances(root, ms, f);
      && NotNegative(d) && (|f| > 0 ==> root(|f| as real) > 0.0)
      && ts' == FullTargets(d, ts, y, k) && ms' == FullRows(root(|f| as real), d, ms, ts, f, y, k)
    ensures |ms'| == |ts'| == |ms| && (forall i :: 0 <= i < |ms'| ==> |ms'[i]| == |f|)
    ensures Store(ms', ts') == Learned(root, Store(ms, ts), f, y, k)
  {}

  class ReceptiveField {
    const nIn: nat
    var counters: Counters
    var means: Means
    var trustworthy: bool
    const errors: array<real>
    var errorNum: nat
    const house: Datahouse

    ghost predicate Valid()
      reads this, errors, house, house.matrix, house.targets
    {
      && errors.Length > 0 && errorNum <= errors.Length && errors != house.targets
      && house.Valid(nIn) && Sound(Value(), nIn)
    }

    ghost function Value(): (f: Field)
      requires errorNum <= errors.Length && house.rows <= house.matrix.Length == house.targets.Length
      reads this, errors, house, house.matrix, house.targets
    {
      Field(counters, means, errors[..errorNum], trustworthy, house.Value())
    }

    /** `lwpr_aux_init_rf`, on an empty datahouse; the template, if any, gives `nReg` and `beta0`. */
    constructor (root: real -> real, xc: seq<real>, y: real, nReg: nat, beta0: real, window: nat)
      requires IsRoot(root) && nReg > 0 && window > 0
      ensures Valid() && nIn == |xc| && errors.Length == window && Value() == Initial(root, xc, y, nReg, beta0)
      ensures fresh(errors) && fresh(house) && fresh(house.matrix) && fresh(house.targets)
    {
      nIn, trustworthy, errorNum := |xc|, false, 0;
      counters := Counters(seq(nReg, _ => PRIOR), seq(nReg, _ => PRIOR), seq(nReg, _ => INIT_LAMBDA));
      means := Means(seq(|xc|, _ => 0.0), seq(|xc|, _ => 0.0), beta0);
      errors := new real[window](_ => 0.0);
      house := new Datahouse(|xc|);
      new;
      house.LearnInto(root, xc, y);
    }

    /** The end of `lwpr_aux_update_regression`: trust the field, or keep the sample in its datahouse. */
    method TrustOrLearn(root: real -> real, s: Sample)
      requires IsRoot(root) && house.Valid(nIn) && |s.x| == nIn && |counters.nData| > 0
      modifies this`trustworthy, house, house.matrix, house.targets
      ensures house.Valid(nIn) && trustworthy == (old(trustworthy) || Ready(counters, nIn))
      ensures house.Value() == if Ready(counters, nIn) then old(house.Value())
        else Learned(root, old(house.Value()), s.x, s.y, Capacity(nIn))
    {
      if counters.nData[0] > 2.0 * nIn as real {
        trustworthy := true;
      } else {
        house.LearnInto(root, s.x, s.y);
      }
    }

    /** `lwpr_aux_update_one_T` for a field that the sample activates. */
    method Update(root: real -> real, u: Update)
      requires IsRoot(root) && Valid() && |u.s.x| == nIn && u.s.w > 0.0
      modifies this, errors, house, house.matrix, house.targets
      ensures Valid() && Value() == Updated(root, old(Value()), u, errors.Length)
    {
      ghost var f := Value();
      var swl := counters.sumW[0] * counters.lambda[0];
      assert swl == counters.sumW[0];
      var gaps, gap;
      means, gaps, gap := UpdateMeans(means, swl, u.s);
      TrustOrLearn(root, u.s);
      ghost var store := house.Value();
      assert errors[..errorNum] == f.errors;
      errorNum := Remember(errors, errorNum, u.err);
      counters := UpdateCounters(counters, u.s.w, nIn, u.better);
      assert house.Value() == store;
      ghost var r := Value();
      assert r.counters == NextCounters(f.counters, u.s.w, nIn, u.better);
      assert r.means == NextMeans(f.means, swl, u.s);
      assert r.errors == Remembered(f.errors, u.err, errors.Length);
      assert r.trustworthy == (f.trustworthy || Ready(f.counters, nIn));
      assert r.store == if Ready(f.counters, nIn) then f.store else Learned(root, f.store, u.s.x, u.s.y, Capacity(nIn));
      Assembled(root, f, u, errors.Length, swl, r);
    }
  }

  /** An update, put together from its parts. */
  lemma Assembled(root: real -> real, f: Field, u: Update, window: nat, swl: real, r: Field)
    requires IsRoot(root) && Sound(f, |u.s.x|) && u.s.w > 0.0 && window > 0
    requires r.counters == NextCounters(f.counters, u.s.w, |u.s.x|, u.better)
    requires swl == f.counters.sumW[0] * f.counters.lambda[0] && r.means == NextMeans(f.means, swl, u.s)
    requires r.errors == Remembered(f.errors, u.err, window)
    requires r.trustworthy == (f.trustworthy || Ready(f.counters, |u.s.x|))
    requires r.store == if Ready(f.counters, |u.s.x|) then f.store else Learned(root, f.store, u.s.x, u.s.y, Capacity(|u.s.x|))
    ensures r == Updated(root, f, u, window)
  {}

  method UpdateCounters(c: Counters, w: real, nIn: nat, better: bool) returns (r: Counters)
    requires |c.nData| == |c.lambda| == |c.sumW| > 0
    ensures r == NextCounters(c, w, nIn, better)
  {
    var sumW := WeighCounters(c, w);
    r := CheckAddProjection(Counters(sumW, c.nData, c.lambda), nIn, better);
    r := TickCounters(r);
  }

  // ----- runs -----

  ghost function SamplesOf(us: seq<Update>): (ss: seq<Sample>)
    ensures |ss| == |us|
  {
    seq(|us|, i requires 0 <= i < |us| => us[i].s)
  }

  ghost predicate Updates(us: seq<Update>, nIn: nat) { forall i :: 0 <= i < |us| ==> |us[i].s.x| == nIn && us[i].s.w > 0.0 }

  /** What stays fixed in a run. */
  datatype Setting = Setting(root: real -> real, window: nat, nIn: nat)

  ghost predicate Proper(g: Setting, f0: Field, us: seq<Update>) {
    IsRoot(g.root) && g.window > 0 && Sound(f0, g.nIn) && Updates(us, g.nIn)
  }

  ghost predicate Fresh(f: Field) {
    && Even(f.counters) && f.counters.sumW[0] == PRIOR && AllOne(f.counters.lambda)
    && f.counters.nData[0] == f.counters.nData[|f.counters.nData| - 1] == PRIOR
    && Zeroed(f.means) && f.errors == [] && !f.trustworthy && |f.store.rows| <= 1
  }

  lemma InitialIsFresh(root: real -> real, xc: seq<real>, y: real, nReg: nat, beta0: real)
    requires IsRoot(root) && nReg > 0
    ensures Fresh(Initial(root, xc, y, nReg, beta0)) && Initial(root, xc, y, nReg, beta0).store == Store([xc], [y])
  {}

  /** What one update does, field by field; rows are added only while the field is not ready, one at most. */
  ghost predicate Follows(g: Setting, f: Field, r: Field, u: Update) {
    && Even(f.counters) && Even(r.counters) && f.counters.sumW[0] > 0.0 && u.s.w > 0.0 && g.window > 0
    && |f.means.meanX| == |f.means.varX| == |u.s.x| == g.nIn
    && AllOne(r.counters.lambda) && r.counters == NextCounters(f.counters, u.s.w, g.nIn, u.better)
    && r.counters.sumW[0] == f.counters.sumW[0] + u.s.w && r.counters.nData[0] == f.counters.nData[0] + 1.0
    && |r.counters.lambda| == (if Adding(f.counters, g.nIn, u.better) then |f.counters.lambda| + 1 else |f.counters.lambda|)
    && r.means == NextMeans(f.means, f.counters.sumW[0], u.s)
    && r.errors == Remembered(f.errors, u.err, g.window)
    && r.trustworthy == (f.trustworthy || Ready(f.counters, g.nIn))
    && |r.store.rows| <= |f.store.rows| + (if Ready(f.counters, g.nIn) then 0 else 1)
  }

  lemma UpdatedFollows(g: Setting, f: Field, u: Update)
    requires IsRoot(g.root) && Sound(f, g.nIn) && |u.s.x| == g.nIn && u.s.w > 0.0 && g.window > 0
    ensures Follows(g, f, Updated(g.root, f, u, g.window), u)
  {
    CountersStep(f.counters, u.s.w, g.nIn, u.better);
    assert f.counters.sumW[0] * f.counters.lambda[0] == f.counters.sumW[0];
  }

  ghost predicate StepAt(g: Setting, us: seq<Update>, fs: seq<Field>, i: nat) {
    i < |us| && i + 1 < |fs| && Follows(g, fs[i], fs[i + 1], us[i])
  }

  /** `fs` are the fields of a run: the field before the updates `us` and after each of them. */
  ghost predicate Trace(g: Setting, us: seq<Update>, fs: seq<Field>) {
    |fs| == |us| + 1 && forall i :: 0 <= i < |us| ==> StepAt(g, us, fs, i)
  }

  /** The fields that updating produces, one after the other. */
  ghost function Fields(g: Setting, f0: Field, us: seq<Update>): (fs: seq<Field>)
    requires Proper(g, f0, us)
    ensures |fs| == |us| + 1 && fs[0] == f0 && forall i :: 0 <= i < |fs| ==> Sound(fs[i], g.nIn)
  {
    if us == [] then [f0]
    else
      var (rest, last) := (us[..|us| - 1], us[|us| - 1]);
      var fs := Fields(g, f0, rest);
      fs + [Updated(g.root, fs[|rest|], last, g.window)]
  }

  lemma {:induction false} FieldsAreTrace(g: Setting, f0: Field, us: seq<Update>)
    requires Proper(g, f0, us)
    ensures Trace(g, us, Fields(g, f0, us))
  {
    if us != [] {
      var (n, rest) := (|us| - 1, us[..|us| - 1]);
      var (fs, whole) := (Fields(g, f0, rest), Fields(g, f0, us));
      FieldsAreTrace(g, f0, rest);
      UpdatedFollows(g, fs[n], us[n]);
      forall i | 0 <= i < |us| ensures StepAt(g, us, whole, i) {
        if i < n { assert StepAt(g, rest, fs, i); }
      }
    }
  }

  /** Every update is counted and its weight added: the forgetting factors stay 1. */
  lemma {:induction false} RunCounts(g: Setting, us: seq<Update>, fs: seq<Field>, n: nat)
    requires Trace(g, us, fs) && Fresh(fs[0]) && n <= |us|
    ensures Even(fs[n].counters) && AllOne(fs[n].counters.lambda)
    ensures fs[n].counters.nData[0] == PRIOR + n as real
    ensures fs[n].counters.sumW[0] == TotalWeight(SamplesOf(us), n)
  {
    if n > 0 {
      RunCounts(g, us, fs, n - 1);
      assert StepAt(g, us, fs, n - 1);
    }
  }

  lemma TraceSamples(g: Setting, us: seq<Update>, fs: seq<Field>)
    requires Trace(g, us, fs)
    ensures Samples(SamplesOf(us), g.nIn)
  {
    forall i | 0 <= i < |us| ensures |us[i].s.x| == g.nIn && us[i].s.w > 0.0 { assert StepAt(g, us, fs, i); }
  }

  /** The means follow the batch recurrence, so the theorems of LwprMeans hold of every run. */
  lemma {:induction false} RunMeansAgree(g: Setting, us: seq<Update>, fs: seq<Field>, n: nat)
    requires Trace(g, us, fs) && Fresh(fs[0]) && |fs[0].means.meanX| == g.nIn && n <= |us|
    ensures Samples(SamplesOf(us), g.nIn) && fs[n].means == RunMeans(fs[0].means, SamplesOf(us), n)
  {
    TraceSamples(g, us, fs);
    if n > 0 {
      RunMeansAgree(g, us, fs, n - 1);
      RunCounts(g, us, fs, n - 1);
      assert StepAt(g, us, fs, n - 1);
    }
  }

  /** In every run mean and intercept, times the summed weight, are the batch sums and the prior;
      the variance is within the scatter. */
  lemma {:induction false} RunStatistics(g: Setting, us: seq<Update>, fs: seq<Field>, n: nat, i: nat)
    requires Trace(g, us, fs) && Fresh(fs[0]) && |fs[0].means.meanX| == g.nIn && n <= |us| && i < g.nIn
    ensures Even(fs[n].counters) && |fs[n].means.meanX| == |fs[n].means.varX| == g.nIn
    ensures var (m, total, ss) := (fs[n].means, fs[n].counters.sumW[0], SamplesOf(us));
      && IsMean(m.meanX[i], total, Batch(ss, Coord(i), n))
      && IsMean(m.beta0, total, PRIOR * fs[0].means.beta0 + Batch(ss, Output(), n))
      && WithinScatter(total, m.meanX[i], m.varX[i], Batch(ss, GapTo(i, m.meanX[i]), n))
  {
    RunMeansAgree(g, us, fs, n);
    RunCounts(g, us, fs, n);
    var (m0, ss) := (fs[0].means, SamplesOf(us));
    MeanIsBatchMean(m0, ss, n, i);
    InterceptIsBatchMean(m0, ss, n);
    VarianceWithinScatter(m0, ss, n, i);
  }

  /** A field is trusted exactly from its (2 nIn + 1)-th update on; trust is never revoked. */
  lemma {:induction false} TrustedExactly(g: Setting, us: seq<Update>, fs: seq<Field>, n: nat)
    requires Trace(g, us, fs) && Fresh(fs[0]) && n <= |us|
    ensures fs[n].trustworthy <==> n > 2 * g.nIn
    ensures Even(fs[n].counters) && (Ready(fs[n].counters, g.nIn) <==> n >= 2 * g.nIn)
  {
    RunCounts(g, us, fs, n);
    if n > 0 {
      TrustedExactly(g, us, fs, n - 1);
      assert StepAt(g, us, fs, n - 1);
    }
  }

  /** The rows never outgrow their capacity, and while the field still learns rows there is room:
      `OkNNr_learn` is never called on a full table. */
  lemma {:induction false} StoreHasRoom(g: Setting, us: seq<Update>, fs: seq<Field>, n: nat)
    requires Trace(g, us, fs) && Fresh(fs[0]) && n <= |us|
    ensures |fs[n].store.rows| <= n + 1 && |fs[n].store.rows| <= Capacity(g.nIn)
    ensures Even(fs[n].counters) && (!Ready(fs[n].counters, g.nIn) ==> |fs[n].store.rows| < Capacity(g.nIn))
  {
    TrustedExactly(g, us, fs, n);
    if n > 0 {
      StoreHasRoom(g, us, fs, n - 1);
      TrustedExactly(g, us, fs, n - 1);
      assert StepAt(g, us, fs, n - 1);
    }
  }

  /** The error history holds the last `window` errors, oldest first. */
  lemma {:induction false} ErrorsAreLast(g: Setting, us: seq<Update>, fs: seq<Field>, n: nat)
    requires Trace(g, us, fs) && Fresh(fs[0]) && n <= |us| && g.window > 0
    ensures var e := fs[n].errors;
      |e| == Min(n, g.window) && forall i :: 0 <= i < |e| ==> e[i] == us[n - |e| + i].err
  {
    if n > 0 {
      ErrorsAreLast(g, us, fs, n - 1);
      assert StepAt(g, us, fs, n - 1);
    }
  }

  /** Two directions at least, or the one input's one, and no more than inputs. */
  ghost predicate DirectionsOk(c: Counters, nIn: nat) { 1 <= |c.lambda| <= nIn && (nIn >= 2 ==> |c.lambda| >= 2) }

  lemma InitialDirections(root: real -> real, xc: seq<real>, y: real, beta0: real)
    requires IsRoot(root) && |xc| > 0
    ensures DirectionsOk(Initial(root, xc, y, Directions(|xc|), beta0).counters, |xc|)
  {}

  /** Directions are only added one at a time up to one per input.  A field that starts with two, or
      with the one input's one, always has an entry before the last to compare with, and never needs
      more room than its `nIn` directions. */
  lemma {:induction false} DirectionsBounded(g: Setting, us: seq<Update>, fs: seq<Field>, n: nat)
    requires Trace(g, us, fs) && n <= |us| && DirectionsOk(fs[0].counters, g.nIn)
    ensures DirectionsOk(fs[n].counters, g.nIn)
  {
    if n > 0 {
      DirectionsBounded(g, us, fs, n - 1);
      assert StepAt(g, us, fs, n - 1);
    }
  }

  /** The last of the first `n` updates that added a direction, counted from 1, or 0. */
  ghost function LastAdded(fs: seq<Field>, n: nat): (m: nat)
    requires n < |fs|
    ensures m <= n
  {
    if n == 0 then 0
    else if |fs[n].counters.lambda| > |fs[n - 1].counters.lambda| then n
    else LastAdded(fs, n - 1)
  }

  /** The last direction counts the updates since it was added, that one included. */
  lemma {:induction false} LastCounts(g: Setting, us: seq<Update>, fs: seq<Field>, n: nat)
    requires Trace(g, us, fs) && Fresh(fs[0]) && n <= |us|
    ensures Even(fs[n].counters)
    ensures var (c, m) := (fs[n].counters, LastAdded(fs, n));
      c.nData[|c.nData| - 1] == if m == 0 then PRIOR + n as real else (n - m + 1) as real
  {
    RunCounts(g, us, fs, n);
    if n > 0 {
      RunCounts(g, us, fs, n - 1);
      LastCounts(g, us, fs, n - 1);
      assert StepAt(g, us, fs, n - 1);
    }
  }

  /**
   The next update adds a direction exactly when it asks for one, there are fewer than inputs, and the last one
   was there from the start or has seen more than 99 percent of the updates.
   */
  lemma {:induction false} AddedExactly(g: Setting, us: seq<Update>, fs: seq<Field>, n: nat)
    requires Trace(g, us, fs) && Fresh(fs[0]) && n < |us|
    ensures var m := LastAdded(fs, n);
      |fs[n + 1].counters.lambda| > |fs[n].counters.lambda| <==>
        && us[n].better && |fs[n].counters.lambda| < g.nIn
        && (m == 0 || (n - m + 1) as real > 0.99 * (PRIOR + n as real))
  {
    RunCounts(g, us, fs, n);
    LastCounts(g, us, fs, n);
    assert StepAt(g, us, fs, n);
  }

  /** So a direction after one that was added comes more than a hundred times as late. */
  lemma {:induction false} DirectionsFarApart(g: Setting, us: seq<Update>, fs: seq<Field>, n: nat)
    requires Trace(g, us, fs) && Fresh(fs[0]) && n < |us| && LastAdded(fs, n) > 0
    requires |fs[n + 1].counters.lambda| > |fs[n].counters.lambda|
    ensures n > 100 * (LastAdded(fs, n) - 1)
  {
    AddedExactly(g, us, fs, n);
  }
}
