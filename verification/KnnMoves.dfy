/**
 What learning does to the rows and to the next prediction (contrib/aqo: machine_learning.c, `OkNNr_learn`).
 */
module KnnMoves {
  import opened Sorting
  import opened Roots
  import opened KnnSelect
  import opened KnnPredict
  import opened KnnMetric
  import opened KnnLearn

  // ----- rows moved along the line to the object -----

  /** In every feature `b` is `c` times as far from `f` as `a` is. */
  ghost predicate ScaledFrom(a: seq<real>, b: seq<real>, f: seq<real>, c: real) {
    |a| == |b| == |f| && forall j :: 0 <= j < |f| ==> b[j] - f[j] == Product(c, a[j] - f[j])
  }

  lemma ScaledSquare(c: real, x: real, y: real)
    requires y == Product(c, x)
    ensures Square(y) == Product(Product(c, c), Square(x))
  {}

  lemma ProductSpreads(c: real, a: real, b: real)
    ensures Product(c, a + b) == Product(c, a) + Product(c, b)
  {}

  lemma {:induction false} ScaledGaps(a: seq<real>, b: seq<real>, f: seq<real>, c: real, n: nat)
    requires ScaledFrom(a, b, f, c) && n <= |f|
    ensures SquaredGaps(b, f, n) == Product(Product(c, c), SquaredGaps(a, f, n))
  {
    if n > 0 {
      hide Square, Product;
      ScaledGaps(a, b, f, c, n - 1);
      ScaledSquare(c, a[n - 1] - f[n - 1], b[n - 1] - f[n - 1]);
      ProductSpreads(Product(c, c), SquaredGaps(a, f, n - 1), Square(a[n - 1] - f[n - 1]));
    }
  }

  lemma ScaledDistance(root: real -> real, a: seq<real>, b: seq<real>, f: seq<real>, c: real)
    requires IsRoot(root) && ScaledFrom(a, b, f, c)
    ensures Distance(root, b, f) == Product(Abs(c), Distance(root, a, f))
  {
    if |f| > 0 {
      hide SquaredGaps, Product;
      ScaledGaps(a, b, f, c, |f|);
      ScaledRoot(root, SquaredGaps(a, f, |f|), SquaredGaps(b, f, |f|), |f| as real, c);
    }
  }

  lemma ScaledRoot(root: real -> real, x: real, y: real, n: real, c: real)
    requires IsRoot(root) && n > 0.0 && x >= 0.0 && y == Product(Product(c, c), x)
    ensures root(y / n) == Product(Abs(c), root(x / n))
  {
    var (r, q) := (root(x / n), x / n);
    ShareTimes(x, n);
    assert r >= 0.0 && r * r == q;
    assert y / n == (c * c) * q by { assert y == (c * c) * (n * q); }
    var z := Abs(c) * r;
    assert z * z == (c * c) * (r * r);
    RootUnique(root, y / n, z);
  }

  // ----- learning with room -----

  const KEPT: real := 0.9

  lemma TowardKeeps(x: real, y: real)
    ensures Toward(x, y) - y == KEPT * (x - y)
  {}

  lemma TowardScales(row: seq<real>, f: seq<real>)
    requires |row| == |f|
    ensures ScaledFrom(row, TowardAll(row, f), f, KEPT)
  {
    forall j | 0 <= j < |f| ensures TowardAll(row, f)[j] - f[j] == Product(KEPT, row[j] - f[j]) { TowardKeeps(row[j], f[j]); }
  }

  datatype Table = Table(rows: seq<seq<real>>, targets: seq<real>)

  ghost predicate IsTable(t: Table, cols: nat) {
    |t.rows| == |t.targets| && forall i :: 0 <= i < |t.rows| ==> |t.rows[i]| == cols
  }

  /** The row of `t` that an object goes to, or the number of rows for a new one. */
  function RowFor(root: real -> real, t: Table, f: seq<real>): (r: nat)
    requires IsTable(t, |f|)
    ensures r <= |t.rows|
  {
    RoutedTo(Distances(root, t.rows, f))
  }

  ghost function LearnedOnce(root: real -> real, t: Table, f: seq<real>, y: real): (u: Table)
    requires IsTable(t, |f|)
    ensures IsTable(u, |f|)
  {
    var r := RowFor(root, t, f);
    if r < |t.rows| then Table(t.rows[r := TowardAll(t.rows[r], f)], t.targets[r := Toward(t.targets[r], y)])
    else Table(t.rows + [f], t.targets + [y])
  }

  ghost function LearnedTimes(root: real -> real, t: Table, f: seq<real>, y: real, n: nat): (u: Table)
    requires IsTable(t, |f|)
    ensures IsTable(u, |f|)
  {
    if n == 0 then t else LearnedOnce(root, LearnedTimes(root, t, f, y, n - 1), f, y)
  }

  /** What `Learn` leaves in its buffers is the table learned once. */
  lemma RoomLearnsOnce(root: real -> real, rows: nat, ms: seq<seq<real>>, ts: seq<real>, f: seq<real>, y: real,
                       ms': seq<seq<real>>, ts': seq<real>, lst: seq<int>)
    requires |ms| == |ts| > rows && forall i :: 0 <= i < |ms| ==> |ms[i]| == |f|
    requires AfterRoom(root, rows, ms, ts, f, y, ms', ts', lst)
    ensures IsTable(Table(ms[..rows], ts[..rows]), |f|)
    ensures var u := LearnedOnce(root, Table(ms[..rows], ts[..rows]), f, y);
      |u.rows| <= |ms'| == |ts'| && u == Table(ms'[..|u.rows|], ts'[..|u.rows|])
  {
    var t := Table(ms[..rows], ts[..rows]);
    var (r, u) := (RowFor(root, t, f), LearnedOnce(root, t, f, y));
    if r < rows {
      assert u.rows == ms'[..rows] && u.targets == ts'[..rows];
    } else {
      assert u.rows == ms'[..rows + 1] && u.targets == ts'[..rows + 1];
    }
  }

  function Shrink(n: nat): (r: real)
    ensures 0.0 <= r <= 1.0
  {
    if n == 0 then 1.0 else KEPT * Shrink(n - 1)
  }

  /** Row `r` of `u` is `c` times as far from the object as in `t`, and all other rows are the same. */
  ghost predicate Nearer(root: real -> real, t: Table, u: Table, f: seq<real>, y: real, r: nat, c: real) {
    && IsTable(t, |f|) && IsTable(u, |f|) && r < |t.rows| == |u.rows|
    && ScaledFrom(t.rows[r], u.rows[r], f, c)
    && Distance(root, u.rows[r], f) == Product(c, Distance(root, t.rows[r], f))
    && u.targets[r] - y == Product(c, t.targets[r] - y)
    && forall i :: 0 <= i < |t.rows| && i != r ==> u.rows[i] == t.rows[i] && u.targets[i] == t.targets[i]
  }

  lemma ScaledTwice(a: seq<real>, b: seq<real>, g: seq<real>, f: seq<real>, c: real, e: real)
    requires ScaledFrom(a, b, f, c) && ScaledFrom(b, g, f, e)
    ensures ScaledFrom(a, g, f, e * c)
  {
    forall j | 0 <= j < |f| ensures g[j] - f[j] == Product(e * c, a[j] - f[j]) {
      ProductTwice(e, c, a[j] - f[j], b[j] - f[j]);
    }
  }

  lemma ProductTwice(e: real, c: real, x: real, y: real)
    requires y == Product(c, x)
    ensures Product(e, y) == Product(e * c, x)
  {}

  lemma NearerYet(root: real -> real, t: Table, u: Table, f: seq<real>, y: real, r: nat, c: real)
    requires IsRoot(root) && Nearer(root, t, u, f, y, r, c) && RowFor(root, u, f) == r && c >= 0.0
    ensures Nearer(root, t, LearnedOnce(root, u, f, y), f, y, r, KEPT * c)
  {
    hide Distance, Product, RowFor;
    var v := LearnedOnce(root, u, f, y);
    TowardScales(u.rows[r], f);
    ScaledTwice(t.rows[r], u.rows[r], v.rows[r], f, c, KEPT);
    assert Abs(KEPT * c) == KEPT * c;
    ScaledDistance(root, t.rows[r], v.rows[r], f, KEPT * c);
    TowardKeeps(u.targets[r], y);
    assert v.targets[r] - y == Product(KEPT, u.targets[r] - y) by { ProductIs(KEPT, u.targets[r] - y); }
    ProductTwice(KEPT, c, t.targets[r] - y, u.targets[r] - y);
  }

  lemma ProductIs(a: real, b: real)
    ensures Product(a, b) == a * b
  {}

  /** A row that came nearer is still the one the object goes to. */
  lemma StaysWithRow(root: real -> real, t: Table, u: Table, f: seq<real>, y: real, r: nat, c: real)
    requires IsRoot(root) && Nearer(root, t, u, f, y, r, c) && RowFor(root, t, f) == r && 0.0 <= c <= 1.0
    ensures RowFor(root, u, f) == r
  {
    var (d, d') := (Distances(root, t.rows, f), Distances(root, u.rows, f));
    DistancesNotNegative(root, t.rows, f);
    hide Distance;
    assert d'[r] <= d[r] by { ProductLess(c, d[r]); }
    assert forall i :: 0 <= i < |d| && i != r ==> d'[i] == d[i];
    StillFirst(d, d', r);
  }

  lemma ProductLess(c: real, x: real)
    requires 0.0 <= c <= 1.0 && x >= 0.0
    ensures Product(c, x) <= x
  {}

  lemma StillFirst(d: seq<real>, d': seq<real>, r: nat)
    requires |d| == |d'| > r && RoutedTo(d) == r && d'[r] <= d[r]
    requires forall i :: 0 <= i < |d| && i != r ==> d'[i] == d[i]
    ensures RoutedTo(d') == r
  {
    var (m, m') := (FirstMin(d, |d|), FirstMin(d', |d'|));
    assert m == r;
    assert At(d, r) <= At(d, m') && At(d', m') <= At(d', r);
    assert m' != r ==> At(d', m') == At(d, m');
  }

  /** An object shown again and again, with room, goes to the same row each time: after `n` times that row's gaps to the object,
      its distance and the error of its target are 0.9^n of what they were, and nothing else has changed. */
  lemma {:induction false} RepeatsConverge(root: real -> real, t: Table, f: seq<real>, y: real, n: nat)
    requires IsRoot(root) && IsTable(t, |f|) && RowFor(root, t, f) < |t.rows|
    ensures Nearer(root, t, LearnedTimes(root, t, f, y, n), f, y, RowFor(root, t, f), Shrink(n))
    ensures RowFor(root, LearnedTimes(root, t, f, y, n), f) == RowFor(root, t, f)
  {
    hide Nearer, RowFor, LearnedOnce, Distances;
    var r := RowFor(root, t, f);
    if n == 0 {
      NearerNone(root, t, f, y, r);
    } else {
      RepeatsConverge(root, t, f, y, n - 1);
      NearerYet(root, t, LearnedTimes(root, t, f, y, n - 1), f, y, r, Shrink(n - 1));
      StaysWithRow(root, t, LearnedTimes(root, t, f, y, n), f, y, r, Shrink(n));
    }
  }

  lemma NearerNone(root: real -> real, t: Table, f: seq<real>, y: real, r: nat)
    requires IsTable(t, |f|) && r < |t.rows|
    ensures Nearer(root, t, t, f, y, r, 1.0)
  {}

  lemma TowardItself(f: seq<real>)
    ensures TowardAll(f, f) == f
  {}

  /** A new row takes the object as it is, and keeps it. */
  lemma {:induction false} NewRowStays(root: real -> real, t: Table, f: seq<real>, y: real, n: nat)
    requires IsRoot(root) && IsTable(t, |f|) && RowFor(root, t, f) == |t.rows| && n > 0
    ensures LearnedTimes(root, t, f, y, n) == Table(t.rows + [f], t.targets + [y])
  {
    if n > 1 {
      NewRowStays(root, t, f, y, n - 1);
      var u := Table(t.rows + [f], t.targets + [y]);
      RoutedToNew(root, t, u, f);
      TowardItself(f);
      assert LearnedOnce(root, u, f, y) == u;
    } else {
      assert LearnedTimes(root, t, f, y, 0) == t;
    }
  }

  lemma RoutedToNew(root: real -> real, t: Table, u: Table, f: seq<real>)
    requires IsRoot(root) && IsTable(t, |f|) && RowFor(root, t, f) == |t.rows| && IsTable(u, |f|) && u.rows == t.rows + [f]
    ensures RowFor(root, u, f) == |t.rows|
  {
    var (d, d', n) := (Distances(root, t.rows, f), Distances(root, u.rows, f), |t.rows|);
    DistanceZero(root, f, f);
    hide Distance;
    assert d' == d + [0.0];
    OnlyNewIsNear(d, d');
  }

  lemma OnlyNewIsNear(d: seq<real>, d': seq<real>)
    requires RoutedTo(d) == |d| && d' == d + [0.0]
    ensures RoutedTo(d') == |d|
  {
    var (m, m') := (FirstMin(d, |d|), FirstMin(d', |d'|));
    assert At(d', m') <= At(d', |d|) == 0.0;
    assert m' < |d| ==> At(d, m) <= At(d, m') == At(d', m');
  }
}
