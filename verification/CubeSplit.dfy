/**
 `g_cube_picksplit` (contrib/cube/cube.c): Guttman's split of a page.
 */
module CubeSplit {
  import opened Sorting
  import opened CubeBox
  import opened CubeGist

  /** `rt_cube_size`: the volume, 0 for points and for boxes without dimensions. */
  function Size(b: Box): real
    requires b.Valid()
  {
    if b.point || b.dim == 0 then 0.0 else Volume(b, b.dim)
  }

  function Volume(b: Box, n: nat): real
    requires b.Valid() && n <= b.dim
  {
    if n == 0 then 1.0 else Times(Volume(b, n - 1), b.Hi(n - 1) - b.Lo(n - 1))
  }

  function Times(v: real, side: real): real { v * side }

  /** `cube_inter`; the corners cross when the boxes do not meet. */
  function Inter(a: Box, b: Box): (r: Box)
    requires a.Valid() && b.Valid()
    ensures r.Valid()
  {
    var d := Dims(a, b);
    var lo := seq(d, i requires 0 <= i => Max(a.Lo(i), b.Lo(i)));
    var hi := seq(d, i requires 0 <= i => Min(a.Hi(i), b.Hi(i)));
    Box(d, lo == hi, lo + hi)
  }

  // ----- sizes of unions -----

  function JoinVolume(a: Box, b: Box, n: nat): real
    requires a.Valid() && b.Valid()
  {
    if n == 0 then 1.0
    else Times(JoinVolume(a, b, n - 1), Max(a.Hi(n - 1), b.Hi(n - 1)) - Min(a.Lo(n - 1), b.Lo(n - 1)))
  }

  /** The size of the least box around two boxes. */
  function JoinSize(a: Box, b: Box): real
    requires a.Valid() && b.Valid()
  {
    if Dims(a, b) == 0 then 0.0 else JoinVolume(a, b, Dims(a, b))
  }

  lemma {:induction false} VolumeOfUnion(r: Box, a: Box, b: Box, n: nat)
    requires a.Valid() && b.Valid() && IsUnion(r, a, b) && n <= r.dim
    ensures Volume(r, n) == JoinVolume(a, b, n)
  {
    if n > 0 {
      VolumeOfUnion(r, a, b, n - 1);
      assert SpansAt(r, a, b, n - 1);
    }
  }

  lemma {:induction false} PointVolume(r: Box, n: nat)
    requires r.Valid() && r.point && 0 < n <= r.dim
    ensures Volume(r, n) == 0.0
  {
    assert r.Hi(n - 1) - r.Lo(n - 1) == 0.0;
  }

  lemma SizeOfUnion(r: Box, a: Box, b: Box)
    requires a.Valid() && b.Valid() && IsUnion(r, a, b)
    ensures Size(r) == JoinSize(a, b)
  {
    VolumeOfUnion(r, a, b, r.dim);
    if r.point && r.dim > 0 { PointVolume(r, r.dim); }
  }

  // ----- the seeds -----

  /** Space wasted by keeping entries `i` and `j` together. */
  function Waste(entries: seq<Box>, i: nat, j: nat): real
    requires i < |entries| && j < |entries| && entries[i].Valid() && entries[j].Valid()
  {
    JoinSize(entries[i], entries[j]) - Size(Inter(entries[i], entries[j]))
  }

  /** Pair (p, q) comes before pair (i, j) in the scan. */
  predicate Sooner(p: nat, q: nat, i: nat, j: nat) { p < i || (p == i && q < j) }

  type Pairing = (nat, nat) -> real

  ghost function WasteIn(entries: seq<Box>): Pairing
    requires forall k :: 0 <= k < |entries| ==> entries[k].Valid()
  {
    (i: nat, j: nat) => if i < |entries| && j < |entries| then Waste(entries, i, j) else 0.0
  }

  /** Of the pairs sooner than (i, j) the seeds weigh most, and are the first to do so. */
  ghost predicate WorstSoFar(w: Pairing, maxoff: nat, seed1: nat, seed2: nat, i: nat, j: nat) {
    1 <= seed1 < seed2 <= maxoff && Sooner(seed1, seed2, i, j)
    && forall p: nat, q: nat :: 1 <= p < q <= maxoff && Sooner(p, q, i, j) ==>
      w(p, q) <= w(seed1, seed2) && (Sooner(p, q, seed1, seed2) ==> w(p, q) < w(seed1, seed2))
  }

  lemma NextPair(w: Pairing, maxoff: nat, seed1: nat, seed2: nat, i: nat, j: nat)
    requires WorstSoFar(w, maxoff, seed1, seed2, i, j) && 1 <= i < j <= maxoff
    ensures if w(i, j) > w(seed1, seed2) then WorstSoFar(w, maxoff, i, j, i, j + 1)
      else WorstSoFar(w, maxoff, seed1, seed2, i, j + 1)
  {}

  lemma NextRow(w: Pairing, maxoff: nat, seed1: nat, seed2: nat, i: nat)
    requires WorstSoFar(w, maxoff, seed1, seed2, i, maxoff + 1) && 1 <= i
    ensures WorstSoFar(w, maxoff, seed1, seed2, i + 1, i + 2)
  {}

  /** The loop variables of the scan, before it looks at pair (i, j). */
  ghost predicate Scanned(w: Pairing, maxoff: nat, seed1: nat, seed2: nat, waste: real, firsttime: bool, i: nat, j: nat) {
    && firsttime == (i == 1 && j == 2)
    && (firsttime ==> seed1 == 1 && seed2 == 2)
    && (!firsttime ==> WorstSoFar(w, maxoff, seed1, seed2, i, j) && waste == w(seed1, seed2))
  }

  /** One pair of the scan. */
  method TryPair(entries: seq<Box>, maxoff: nat, i: nat, j: nat, seed1: nat, seed2: nat, waste: real, firsttime: bool)
    returns (s1: nat, s2: nat, w: real, first: bool)
    requires 1 <= i < j <= maxoff < |entries| && forall k :: 0 <= k < |entries| ==> entries[k].Valid()
    requires Scanned(WasteIn(entries), maxoff, seed1, seed2, waste, firsttime, i, j)
    ensures Scanned(WasteIn(entries), maxoff, s1, s2, w, first, i, j + 1)
  {
    var u := Union(entries[i], entries[j], false);
    SizeOfUnion(u, entries[i], entries[j]);
    var sizeWaste := Size(u) - Size(Inter(entries[i], entries[j]));
    assert sizeWaste == WasteIn(entries)(i, j);
    if !firsttime { NextPair(WasteIn(entries), maxoff, seed1, seed2, i, j); }
    if sizeWaste > waste || firsttime {
      return i, j, sizeWaste, false;
    }
    return seed1, seed2, waste, firsttime;
  }

  /** The pair that wastes most space together, among entries 1 to `maxoff`; 1 and 2 when there is no pair. */
  method PickSeeds(entries: seq<Box>, maxoff: nat) returns (seed1: nat, seed2: nat)
    requires 1 <= maxoff < |entries| - 1 && forall i :: 0 <= i < |entries| ==> entries[i].Valid()
    ensures if maxoff == 1 then seed1 == 1 && seed2 == 2 else WorstSoFar(WasteIn(entries), maxoff, seed1, seed2, maxoff, maxoff + 1)
  {
    seed1, seed2 := 1, 2;
    var firsttime, waste := true, 0.0;
    for i := 1 to maxoff
      invariant Scanned(WasteIn(entries), maxoff, seed1, seed2, waste, firsttime, i, i + 1)
    {
      for j := i + 1 to maxoff + 1
        invariant Scanned(WasteIn(entries), maxoff, seed1, seed2, waste, firsttime, i, j)
      {
        seed1, seed2, waste, firsttime := TryPair(entries, maxoff, i, j, seed1, seed2, waste, firsttime);
      }
      NextRow(WasteIn(entries), maxoff, seed1, seed2, i);
    }
  }

  datatype Split = Split(left: seq<nat>, right: seq<nat>, ldatum: Box, rdatum: Box)

  ghost predicate StrictlyIncreasing(s: seq<nat>) { forall i, j :: 0 <= i < j < |s| ==> s[i] < s[j] }

  lemma ElementsAppend(s: seq<nat>, m: nat)
    ensures Elements(s + [m]) == Elements(s) + {m}
  {}

  lemma IncreasingAppend(s: seq<nat>, m: nat)
    requires StrictlyIncreasing(s) && forall k :: k in s ==> k < m
    ensures StrictlyIncreasing(s + [m])
  {
    assert forall i :: 0 <= i < |s| ==> s[i] in s;
  }

  /** After placing entries 1 to `i - 1`: the two lists, and the seeds counted in from the start. */
  ghost predicate Placing(entries: seq<Box>, s: Split, seed1: nat, seed2: nat, i: nat) {
    && StrictlyIncreasing(s.left) && StrictlyIncreasing(s.right)
    && (forall m :: m in s.left ==> m < i) && (forall m :: m in s.right ==> m < i)
    && Elements(s.left) !! Elements(s.right)
    && Elements(s.left) + Elements(s.right) == Upto(i) - {0}
    && (seed1 < i <==> seed1 in s.left) && (seed2 < i <==> seed2 in s.right)
    && IsHull(s.ldatum, entries, Elements(s.left) + {seed1})
    && IsHull(s.rdatum, entries, Elements(s.right) + {seed2})
  }

  lemma GoLeft(entries: seq<Box>, s: Split, seed1: nat, seed2: nat, i: nat, datum: Box)
    requires Placing(entries, s, seed1, seed2, i) && 1 <= i != seed2
    requires IsHull(datum, entries, Elements(s.left) + {i} + {seed1})
    ensures Placing(entries, s.(left := s.left + [i], ldatum := datum), seed1, seed2, i + 1)
  {
    ElementsAppend(s.left, i);
    IncreasingAppend(s.left, i);
    assert Upto(i + 1) == Upto(i) + {i};
    assert i !in s.left && i !in s.right;
  }

  lemma GoRight(entries: seq<Box>, s: Split, seed1: nat, seed2: nat, i: nat, datum: Box)
    requires Placing(entries, s, seed1, seed2, i) && 1 <= i != seed1
    requires IsHull(datum, entries, Elements(s.right) + {i} + {seed2})
    ensures Placing(entries, s.(right := s.right + [i], rdatum := datum), seed1, seed2, i + 1)
  {
    ElementsAppend(s.right, i);
    IncreasingAppend(s.right, i);
    assert Upto(i + 1) == Upto(i) + {i};
    assert i !in s.left && i !in s.right;
  }

  /** One round of the placing loop. */
  method Place(entries: seq<Box>, s: Split, seed1: nat, seed2: nat, i: nat) returns (r: Split)
    requires 1 <= i < |entries| && seed1 != seed2 && forall k :: 0 <= k < |entries| ==> entries[k].Valid()
    requires Placing(entries, s, seed1, seed2, i)
    ensures Placing(entries, r, seed1, seed2, i + 1)
    ensures i != seed1 && i != seed2 ==> (r.left == s.left + [i] <==>
      JoinSize(s.ldatum, entries[i]) - Size(s.ldatum) < JoinSize(s.rdatum, entries[i]) - Size(s.rdatum))
  {
    if i == seed1 {
      assert Elements(s.left) + {i} + {seed1} == Elements(s.left) + {seed1};
      GoLeft(entries, s, seed1, seed2, i, s.ldatum);
      return s.(left := s.left + [i]);
    } else if i == seed2 {
      assert Elements(s.right) + {i} + {seed2} == Elements(s.right) + {seed2};
      GoRight(entries, s, seed1, seed2, i, s.rdatum);
      return s.(right := s.right + [i]);
    }
    var l := Union(s.ldatum, entries[i], false);
    var r' := Union(s.rdatum, entries[i], false);
    SizeOfUnion(l, s.ldatum, entries[i]);
    SizeOfUnion(r', s.rdatum, entries[i]);
    if Size(l) - Size(s.ldatum) < Size(r') - Size(s.rdatum) {
      HullGrows(s.ldatum, l, entries, Elements(s.left) + {seed1}, i);
      assert Elements(s.left) + {i} + {seed1} == Elements(s.left) + {seed1} + {i};
      GoLeft(entries, s, seed1, seed2, i, l);
      r := s.(left := s.left + [i], ldatum := l);
    } else {
      HullGrows(s.rdatum, r', entries, Elements(s.right) + {seed2}, i);
      assert Elements(s.right) + {i} + {seed2} == Elements(s.right) + {seed2} + {i};
      GoRight(entries, s, seed1, seed2, i, r');
      r := s.(right := s.right + [i], rdatum := r');
    }
  }

  /**
   Both lists are increasing, neither is empty, together they hold every offset once, and each
   datum is the least box around exactly the entries of its side.
   */
  ghost predicate IsSplit(entries: seq<Box>, s: Split) {
    && s.left != [] && s.right != [] && StrictlyIncreasing(s.left) && StrictlyIncreasing(s.right)
    && Elements(s.left) !! Elements(s.right)
    && Elements(s.left) + Elements(s.right) == Upto(|entries|) - {0}
    && IsHull(s.ldatum, entries, Elements(s.left)) && IsHull(s.rdatum, entries, Elements(s.right))
  }

  method PickSplit(entries: seq<Box>) returns (s: Split)
    requires |entries| >= 3 && forall i :: 0 <= i < |entries| ==> entries[i].Valid()
    ensures IsSplit(entries, s)
  {
    var maxoff := |entries| - 2;
    var seed1, seed2 := PickSeeds(entries, maxoff);
    var l := Union(entries[seed1], entries[seed1], true);
    var r := Union(entries[seed2], entries[seed2], true);
    HullOfOne(entries, seed1, l);
    HullOfOne(entries, seed2, r);
    s := Split([], [], l, r);
    assert Elements([]) + {seed1} == {seed1} && Elements([]) + {seed2} == {seed2};
    for i := 1 to |entries|
      invariant Placing(entries, s, seed1, seed2, i)
    {
      s := Place(entries, s, seed1, seed2, i);
    }
    assert seed1 in s.left && seed2 in s.right;
    assert Elements(s.left) + {seed1} == Elements(s.left);
    assert Elements(s.right) + {seed2} == Elements(s.right);
  }
}
