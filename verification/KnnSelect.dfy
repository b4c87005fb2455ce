/**
 Distances, the nearest rows and their weights (contrib/aqo: machine_learning.c).

 Doubles are reals; the square root is the function `root`.
 */
module KnnSelect {
  import opened Roots

  // ----- distances -----

  function SquaredGaps(a: seq<real>, b: seq<real>, n: nat): (r: real)
    requires n <= |a| && n <= |b|
    ensures r >= 0.0
  {
    if n == 0 then 0.0 else SquaredGaps(a, b, n - 1) + Square(a[n - 1] - b[n - 1])
  }

  function Square(x: real): (r: real)
    ensures r >= 0.0
  {
    if x < 0.0 then assert (-x) * (-x) >= 0.0; x * x else x * x
  }

  /** `fs_distance`. */
  function Distance(root: real -> real, a: seq<real>, b: seq<real>): real
    requires |a| == |b|
  {
    if |a| == 0 then 0.0 else root(SquaredGaps(a, b, |a|) / |a| as real)
  }

  method FsDistance(root: real -> real, a: seq<real>, b: seq<real>) returns (res: real)
    requires |a| == |b|
    ensures res == Distance(root, a, b)
  {
    res := 0.0;
    for i := 0 to |a|
      invariant res == SquaredGaps(a, b, i)
    {
      res := res + (a[i] - b[i]) * (a[i] - b[i]);
    }
    if |a| != 0 {
      res := root(res / |a| as real);
    }
  }

  lemma DistanceNotNegative(root: real -> real, a: seq<real>, b: seq<real>)
    requires IsRoot(root) && |a| == |b|
    ensures Distance(root, a, b) >= 0.0
  {
    if |a| > 0 {
      var sum, n := SquaredGaps(a, b, |a|), |a| as real;
      assert sum / n >= 0.0;
    }
  }

  // ----- the nearest rows -----

  function At(d: seq<real>, i: int): real { if 0 <= i < |d| then d[i] else 0.0 }

  /** Row `a` is nearer than row `b`; of two rows at the same distance the earlier one is. */
  predicate Before(d: seq<real>, a: int, b: int) { At(d, a) < At(d, b) || (At(d, a) == At(d, b) && a < b) }

  /** `s` lists as many of the first `n` rows as fit in `k` places, filled up with -1. */
  ghost predicate ListsRows(n: nat, k: nat, s: seq<int>) {
    |s| == k && forall j :: 0 <= j < k ==> -1 <= s[j] < n && (s[j] == -1 <==> j >= n)
  }

  ghost predicate InOrder(d: seq<real>, s: seq<int>) {
    forall i, j :: 0 <= i < j < |s| && s[j] != -1 ==> Before(d, s[i], s[j])
  }

  ghost predicate OthersFarther(d: seq<real>, n: nat, s: seq<int>) {
    forall r, j :: 0 <= r < n && r !in s && 0 <= j < |s| ==> s[j] != -1 && Before(d, s[j], r)
  }

  /** `s` lists the `k` nearest of the first `n` rows, nearest first, filled up with -1. */
  ghost predicate Nearest(d: seq<real>, n: nat, k: nat, s: seq<int>) {
    ListsRows(n, k, s) && InOrder(d, s) && OthersFarther(d, n, s)
  }

  /** Where row `i` goes: the first place that is free or holds a row farther away. */
  function Place(d: seq<real>, s: seq<int>, i: int, from: nat): (j: nat)
    requires from <= |s|
    ensures from <= j <= |s|
    ensures forall l :: from <= l < j ==> s[l] != -1 && At(d, s[l]) <= At(d, i)
    ensures j < |s| ==> s[j] == -1 || At(d, i) < At(d, s[j])
    decreases |s| - from
  {
    if from == |s| || s[from] == -1 || At(d, i) < At(d, s[from]) then from else Place(d, s, i, from + 1)
  }

  function Shifted(s: seq<int>, j: nat, x: int): (r: seq<int>)
    requires j <= |s|
    ensures |r| == |s|
  {
    if j == |s| then s else s[..j] + [x] + s[j..|s| - 1]
  }

  /** The list after row `i` is tried on it. */
  function Inserted(d: seq<real>, s: seq<int>, i: int): (r: seq<int>)
    ensures |r| == |s|
  {
    Shifted(s, Place(d, s, i, 0), i)
  }

  function Chosen(d: seq<real>, n: nat, k: nat): (s: seq<int>)
    ensures |s| == k
  {
    if n == 0 then seq(k, _ => -1) else Inserted(d, Chosen(d, n - 1, k), n - 1)
  }

  lemma {:induction false} ChosenAreNearest(d: seq<real>, n: nat, k: nat)
    requires n <= |d|
    ensures Nearest(d, n, k, Chosen(d, n, k))
  {
    hide Nearest;
    if n == 0 {
      NoneChosen(d, k);
    } else {
      ChosenAreNearest(d, n - 1, k);
      InsertNearest(d, n - 1, k, Chosen(d, n - 1, k));
      assert Chosen(d, n, k) == Inserted(d, Chosen(d, n - 1, k), n - 1);
    }
  }

  lemma {:induction false} NoneChosen(d: seq<real>, k: nat)
    ensures Nearest(d, 0, k, Chosen(d, 0, k))
  {}

  lemma InsertNearest(d: seq<real>, n: nat, k: nat, s: seq<int>)
    requires n < |d| && Nearest(d, n, k, s)
    ensures Nearest(d, n + 1, k, Inserted(d, s, n))
  {
    var j := Place(d, s, n, 0);
    var t := Shifted(s, j, n);
    if j < k {
      InsertedRows(d, n, k, s, j);
      InsertedOrder(d, n, k, s, j);
      forall r, l | 0 <= r < n + 1 && r !in t && 0 <= l < k ensures t[l] != -1 && Before(d, t[l], r) {
        InsertedRest(d, n, k, s, j, r, l);
      }
    } else {
      NothingInserted(d, n, k, s);
    }
  }

  /** A row that finds no place is farther than all that are listed. */
  lemma NothingInserted(d: seq<real>, n: nat, k: nat, s: seq<int>)
    requires n < |d| && Nearest(d, n, k, s) && Place(d, s, n, 0) == k
    ensures Nearest(d, n + 1, k, s)
  {
    assert k > 0 ==> s[k - 1] != -1;
    forall r, l | 0 <= r < n + 1 && r !in s && 0 <= l < k ensures s[l] != -1 && Before(d, s[l], r) {
      assert s[l] != -1 && At(d, s[l]) <= At(d, n);
    }
  }

  /** The list around the inserted row. */
  lemma {:induction false} InsertedOrder(d: seq<real>, n: nat, k: nat, s: seq<int>, j: nat)
    requires n < |d| && Nearest(d, n, k, s) && j == Place(d, s, n, 0) < k
    ensures InOrder(d, Shifted(s, j, n))
  {
    var t := Shifted(s, j, n);
    forall i, l | 0 <= i < l < k && t[l] != -1 ensures Before(d, t[i], t[l]) {
      InsertedPair(d, n, k, s, j, i, l);
    }
  }

  lemma {:induction false} InsertedRows(d: seq<real>, n: nat, k: nat, s: seq<int>, j: nat)
    requires ListsRows(n, k, s) && j == Place(d, s, n, 0) < k
    ensures ListsRows(n + 1, k, Shifted(s, j, n))
  {
    assert n < k ==> s[n] == -1;
    OneMoreListed(n, k, s, j);
  }

  lemma OneMoreListed(n: nat, k: nat, s: seq<int>, j: nat)
    requires ListsRows(n, k, s) && j < k && j <= n
    ensures ListsRows(n + 1, k, Shifted(s, j, n))
  {
    var t := Shifted(s, j, n);
    forall l | 0 <= l < k ensures -1 <= t[l] < n + 1 && (t[l] == -1 <==> l >= n + 1) {
      assert t[l] == if l < j then s[l] else if l == j then n else s[l - 1];
    }
  }

  lemma {:induction false} InsertedPair(d: seq<real>, n: nat, k: nat, s: seq<int>, j: nat, i: nat, l: nat)
    requires n < |d| && Nearest(d, n, k, s) && j == Place(d, s, n, 0) < k
    requires i < l < k && Shifted(s, j, n)[l] != -1
    ensures var t := Shifted(s, j, n); Before(d, t[i], t[l])
  {
    if l < j {
      assert Before(d, s[i], s[l]);
    } else if l == j {
      assert s[i] < n;
    } else if i > j {
      assert Before(d, s[i - 1], s[l - 1]);
    } else {
      BeforeRest(d, n, k, s, j, l - 1);
      if i < j { assert Before(d, s[i], s[l - 1]); }
    }
  }

  /** The new row is nearer than what it displaces. */
  lemma {:induction false} BeforeRest(d: seq<real>, n: nat, k: nat, s: seq<int>, j: nat, l: nat)
    requires n < |d| && Nearest(d, n, k, s) && j == Place(d, s, n, 0) <= l < k && s[l] != -1
    ensures Before(d, n, s[l])
  {
    if j < l { assert Before(d, s[j], s[l]); }
  }

  lemma {:induction false} InsertedRest(d: seq<real>, n: nat, k: nat, s: seq<int>, j: nat, r: int, l: nat)
    requires n < |d| && Nearest(d, n, k, s) && j == Place(d, s, n, 0) < k && l < k
    requires 0 <= r < n + 1 && r !in Shifted(s, j, n)
    ensures var t := Shifted(s, j, n); t[l] != -1 && Before(d, t[l], r)
  {
    var t := Shifted(s, j, n);
    assert t[j] == n && r != n;
    if r in s {
      assert r == s[k - 1] by { DroppedIsLast(s, j, n, r); }
      if l < j {
        assert Before(d, s[l], s[k - 1]);
      } else if l == j {
        BeforeRest(d, n, k, s, j, k - 1);
      } else {
        assert Before(d, s[l - 1], s[k - 1]);
      }
    } else {
      assert s[j] != -1 && Before(d, s[j], r);
      BeforeRest(d, n, k, s, j, j);
      if l < j {
        assert Before(d, s[l], r);
      } else if l > j {
        assert Before(d, s[l - 1], r);
      }
    }
  }

  lemma DroppedIsLast(s: seq<int>, j: nat, x: int, r: int)
    requires j < |s| && r in s && r !in Shifted(s, j, x)
    ensures r == s[|s| - 1]
  {
    var t := Shifted(s, j, x);
    forall i | 0 <= i < |s| - 1 ensures s[i] in t {
      assert s[i] == t[if i < j then i else i + 1];
    }
  }

  /** Nothing else lists the nearest rows. */
  lemma NearestUnique(d: seq<real>, n: nat, k: nat, s: seq<int>, t: seq<int>)
    requires Nearest(d, n, k, s) && Nearest(d, n, k, t)
    ensures s == t
  {
    forall j | 0 <= j < k ensures s[j] == t[j] { SameAt(d, n, k, s, t, j); }
  }

  lemma {:induction false} SameAt(d: seq<real>, n: nat, k: nat, s: seq<int>, t: seq<int>, j: nat)
    requires Nearest(d, n, k, s) && Nearest(d, n, k, t) && j < k
    ensures s[j] == t[j]
    decreases j
  {
    forall i | 0 <= i < j ensures s[i] == t[i] { SameAt(d, n, k, s, t, i); }
    if j < n && s[j] != t[j] {
      NotBeforeNext(d, n, k, s, t, j);
      NotBeforeNext(d, n, k, t, s, j);
    }
  }

  /** Where two lists first differ, the one's next row does not come after the other's. */
  lemma NotBeforeNext(d: seq<real>, n: nat, k: nat, s: seq<int>, t: seq<int>, j: nat)
    requires Nearest(d, n, k, s) && Nearest(d, n, k, t) && j < k && j < n
    requires forall i :: 0 <= i < j ==> s[i] == t[i]
    requires s[j] != t[j]
    ensures Before(d, s[j], t[j])
  {
    assert forall i :: 0 <= i < j ==> Before(d, t[i], t[j]);
    if t[j] in s {
      var i :| 0 <= i < k && s[i] == t[j];
    }
  }

  // ----- weights -----

  /** `fs_similarity`. */
  function Similarity(dist: real): (r: real)
    requires dist >= 0.0
    ensures r > 0.0
  {
    1.0 / (0.001 + dist)
  }

  function Weight(d: seq<real>, i: int): (r: real)
    ensures At(d, i) >= 0.0 ==> r > 0.0
  {
    if At(d, i) >= 0.0 then Similarity(At(d, i)) else 0.0
  }

  ghost predicate NotNegative(d: seq<real>) { forall i :: 0 <= i < |d| ==> d[i] >= 0.0 }

  function WeightSum(d: seq<real>, s: seq<int>, m: nat): (r: real)
    requires m <= |s|
    ensures NotNegative(d) ==> r >= 0.0 && (m > 0 ==> r > 0.0)
  {
    if m == 0 then 0.0 else WeightSum(d, s, m - 1) + Weight(d, s[m - 1])
  }

  function Min(a: nat, b: nat): nat { if a < b then a else b }

  /** One place of the inner shifting loop of `OkNNr_compute_weights`, for every place from `j`. */
  method Shift(idx: array<int>, j: nat, x: int)
    requires j <= idx.Length
    modifies idx
    ensures idx[..] == Shifted(old(idx[..]), j, x)
  {
    ghost var s := idx[..];
    var toInsert := x;
    for l := j to idx.Length
      invariant idx[..j] == s[..j] && idx[l..] == s[l..]
      invariant l == j ==> toInsert == x
      invariant l > j ==> toInsert == s[l - 1] && idx[j..l] == [x] + s[j..l - 1]
    {
      var tmp := idx[l];
      idx[l] := toInsert;
      toInsert := tmp;
    }
    if j < idx.Length {
      assert idx[..] == idx[..j] + idx[j..idx.Length];
    }
  }

  /** `OkNNr_compute_weights`. */
  method ComputeWeights(distances: seq<real>, k: nat) returns (idx: array<int>, w: array<real>, wSum: real)
    requires NotNegative(distances)
    ensures fresh(idx) && fresh(w) && idx.Length == w.Length == k
    ensures idx[..] == Chosen(distances, |distances|, k)
    ensures w[..] == Weights(distances, idx[..], Min(|distances|, k))
    ensures wSum == WeightSum(distances, idx[..], Min(|distances|, k))
  {
    idx := SelectNearest(distances, k);
    ChosenAreNearest(distances, |distances|, k);
    w, wSum := WeighRows(distances, idx[..]);
  }

  /** The weights of the first `m` listed rows, and zero for the rest. */
  function Weights(d: seq<real>, s: seq<int>, m: nat): (r: seq<real>)
    ensures |r| == |s|
  {
    seq(|s|, i requires 0 <= i < |s| => if i < m then Weight(d, s[i]) else 0.0)
  }

  method WeighRows(distances: seq<real>, idx: seq<int>) returns (w: array<real>, wSum: real)
    requires NotNegative(distances) && Nearest(distances, |distances|, |idx|, idx)
    ensures fresh(w) && w[..] == Weights(distances, idx, Min(|distances|, |idx|))
    ensures wSum == WeightSum(distances, idx, Min(|distances|, |idx|))
  {
    w := new real[|idx|](_ => 0.0);
    wSum := 0.0;
    var i := 0;
    while i < |idx| && idx[i] != -1
      invariant 0 <= i <= Min(|distances|, |idx|)
      invariant w[..] == Weights(distances, idx, i)
      invariant wSum == WeightSum(distances, idx, i)
      decreases |idx| - i
    {
      w[i] := Similarity(distances[idx[i]]);
      wSum := wSum + w[i];
      i := i + 1;
    }
  }

  method SelectNearest(distances: seq<real>, k: nat) returns (idx: array<int>)
    ensures fresh(idx) && idx.Length == k && idx[..] == Chosen(distances, |distances|, k)
  {
    idx := new int[k](_ => -1);
    assert idx[..] == Chosen(distances, 0, k);
    for i := 0 to |distances|
      invariant fresh(idx) && idx.Length == k && idx[..] == Chosen(distances, i, k)
    {
      ChosenAreNearest(distances, i, k);
      var j := FindPlace(distances, idx, i);
      Shift(idx, j, i);
    }
  }

  method FindPlace(distances: seq<real>, idx: array<int>, i: nat) returns (j: nat)
    requires i < |distances| && forall l :: 0 <= l < idx.Length ==> -1 <= idx[..][l] < i
    ensures j == Place(distances, idx[..], i, 0)
  {
    ghost var s := idx[..];
    j := 0;
    while j < idx.Length && !(idx[j] == -1 || distances[i] < distances[idx[j]])
      invariant 0 <= j <= idx.Length && Place(distances, s, i, j) == Place(distances, s, i, 0)
      invariant forall l :: j <= l < idx.Length ==> idx[l] == s[l]
    {
      j := j + 1;
    }
  }
}
