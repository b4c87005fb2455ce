/**
 The feature subspace of a set of clauses (get_fss_for_object in contrib/aqo/hash.c, argsort
 and inverse_permutation in contrib/aqo/utils.c).

 The in-place algorithm (argsort, scatter through the inverse permutation, compaction of
 each group of equal clause hashes, one qsort per group) is proved equal to a short
 specification: keep some of the (clause hash, feature) pairs and sort them.
 */
module AqoFeatures {
  import opened Sorting
  import opened AqoClauses

  // ----- specification -----

  /** An argument whose hash names an equivalence class is replaced by a Param for the class. */
  ghost function ReplaceArg(env: Env, cs: set<Node>, n: Node): Node {
    var h := NodeHash(env, n);
    if h in ArgSet(env, cs) && EclassHash(env, cs, h) != 0 then Param(EclassHash(env, cs, h)) else n
  }

  ghost function ReplaceArgs(env: Env, cs: set<Node>, args: seq<Node>): (r: seq<Node>)
    ensures |r| == |args|
  {
    if args == [] then []
    else ReplaceArgs(env, cs, args[..|args| - 1]) + [ReplaceArg(env, cs, args[|args| - 1])]
  }

  lemma {:induction false} ReplaceArgsAt(env: Env, cs: set<Node>, args: seq<Node>, i: nat)
    requires i < |args|
    ensures ReplaceArgs(env, cs, args)[i] == ReplaceArg(env, cs, args[i])
  {
    if i < |args| - 1 {
      ReplaceArgsAt(env, cs, args[..|args| - 1], i);
    }
  }

  ghost function ClauseHash(env: Env, cs: set<Node>, c: Node): int {
    if !HasArgs(c) then NodeHash(env, c)
    else
      var args := ReplaceArgs(env, cs, c.args);
      if !IsEqClause(c) || HasConsts(args) || args == [] then NodeHash(env, c.(args := args))
      else NodeHash(env, args[0])
  }

  predicate ClauseHasConsts(c: Node) { HasArgs(c) && HasConsts(c.args) }

  const LOG_SELECTIVITY_LOWER_BOUND := -30.0

  function Feature(env: Env, selectivity: real): real {
    if env.log(selectivity) < LOG_SELECTIVITY_LOWER_BOUND then LOG_SELECTIVITY_LOWER_BOUND else env.log(selectivity)
  }

  datatype Item = Item(hash: int, hasConst: bool, feature: real)

  ghost function ToItem(env: Env, cs: set<Node>): ((Node, real)) -> Option<Item> {
    (p: (Node, real)) => Some(Item(ClauseHash(env, cs, p.0), ClauseHasConsts(p.0), Feature(env, p.1)))
  }

  ghost function NonConstOf(h: int): Item -> Option<Item> {
    (x: Item) => if x.hash == h && !x.hasConst then Some(x) else None
  }

  ghost function NonConsts(items: seq<Item>, h: int): nat { |SelectMap(items, NonConstOf(h))| }

  /** A clause stays when it has constants, or when it alone of its hash has none. */
  ghost function KeptPair(items: seq<Item>): Item -> Option<(int, real)> {
    (x: Item) => if x.hasConst || NonConsts(items, x.hash) == 1 then Some((x.hash, x.feature)) else None
  }

  predicate PairLe(a: (int, real), b: (int, real)) { a.0 < b.0 || (a.0 == b.0 && a.1 <= b.1) }

  lemma PairLeIsTotal()
    ensures TotalOrder(PairLe) && TotalPreorder(PairLe)
  {}

  ghost function SortPairs(s: seq<(int, real)>): (r: seq<(int, real)>)
    ensures SortedBy(r, PairLe) && multiset(r) == multiset(s)
  {
    PairLeIsTotal();
    SortBy(s, PairLe)
  }

  lemma SortPairsUnique(s: seq<(int, real)>, t: seq<(int, real)>)
    requires SortedBy(t, PairLe) && multiset(s) == multiset(t)
    ensures SortPairs(s) == t
  {
    PairLeIsTotal();
    SortedUnique(SortPairs(s), t, PairLe);
  }

  /** The kept pairs in order: this is what the in-place algorithm must produce. */
  ghost function Canonical(items: seq<Item>): seq<(int, real)> {
    SortPairs(SelectMap(items, KeptPair(items)))
  }

  function Zip(a: seq<int>, b: seq<real>): (r: seq<(int, real)>)
    requires |a| == |b|
    ensures |r| == |a| && forall i :: 0 <= i < |a| ==> r[i] == (a[i], b[i])
  {
    seq(|a|, i requires 0 <= i < |a| => (a[i], b[i]))
  }

  // ----- the canonical form forgets the order -----

  lemma {:induction false} SelectMapCongruent<T, U>(s: seq<T>, f: T -> Option<U>, g: T -> Option<U>)
    requires forall i :: 0 <= i < |s| ==> f(s[i]) == g(s[i])
    ensures SelectMap(s, f) == SelectMap(s, g)
  {
    if s != [] {
      SelectMapCongruent(s[..|s| - 1], f, g);
    }
  }

  lemma CanonicalForgetsOrder(s: seq<Item>, t: seq<Item>)
    requires multiset(s) == multiset(t)
    ensures Canonical(s) == Canonical(t)
  {
    forall i | 0 <= i < |t| ensures KeptPair(s)(t[i]) == KeptPair(t)(t[i]) {
      NonConstsForgetOrder(s, t, t[i].hash);
    }
    SelectMapCongruent(t, KeptPair(s), KeptPair(t));
    SelectMapPermutes(s, t, KeptPair(s));
    SortPairsUnique(SelectMap(s, KeptPair(s)), Canonical(t));
  }

  lemma NonConstsForgetOrder(s: seq<Item>, t: seq<Item>, h: int)
    requires multiset(s) == multiset(t)
    ensures NonConsts(s, h) == NonConsts(t, h)
  {
    SelectMapPermutes(s, t, NonConstOf(h));
    assert |multiset(SelectMap(s, NonConstOf(h)))| == |multiset(SelectMap(t, NonConstOf(h)))|;
  }

  // ----- argsort and inverse_permutation -----

  function Key(keys: seq<int>, i: int): int { if 0 <= i < |keys| then keys[i] else 0 }

  /** `argsort_cmp`: indexes compare by the values they point at. */
  function KeyLe(keys: seq<int>): (int, int) -> bool { (a: int, b: int) => Key(keys, a) <= Key(keys, b) }

  function Identity(n: nat): (s: seq<int>)
    ensures |s| == n && forall i :: 0 <= i < n ==> s[i] == i
  {
    seq(n, i => i)
  }

  ghost predicate IsPermutation(idx: seq<int>, n: nat) { |idx| == n && multiset(idx) == multiset(Identity(n)) }

  lemma {:induction false} IdentityCounts(n: nat, v: int)
    ensures multiset(Identity(n))[v] == if 0 <= v < n then 1 else 0
  {
    if n > 0 {
      IdentityCounts(n - 1, v);
      assert Identity(n) == Identity(n - 1) + [n - 1];
    }
  }

  lemma PermutationRange(idx: seq<int>, n: nat, i: int)
    requires IsPermutation(idx, n) && 0 <= i < n
    ensures 0 <= idx[i] < n
  {
    assert idx[i] in multiset(idx);
    IdentityCounts(n, idx[i]);
  }

  lemma PermutationInjective(idx: seq<int>, n: nat, i: int, j: int)
    requires IsPermutation(idx, n) && 0 <= i < j < n
    ensures idx[i] != idx[j]
  {
    IdentityCounts(n, idx[j]);
    assert idx == idx[..j] + [idx[j]] + idx[j + 1..];
    assert multiset(idx)[idx[j]] == multiset(idx[..j])[idx[j]] + 1 + multiset(idx[j + 1..])[idx[j]];
    assert idx[..j][i] in multiset(idx[..j]);
  }

  lemma PermutationOnto(idx: seq<int>, n: nat, v: int)
    requires IsPermutation(idx, n) && 0 <= v < n
    ensures v in idx
  {
    IdentityCounts(n, v);
    assert v in multiset(idx);
  }

  method Argsort(keys: seq<int>) returns (idx: array<int>)
    ensures fresh(idx) && IsPermutation(idx[..], |keys|)
    ensures forall i, j :: 0 <= i < j < idx.Length ==> Key(keys, idx[i]) <= Key(keys, idx[j])
  {
    idx := new int[|keys|](i => i);
    assert idx[0..idx.Length] == Identity(|keys|);
    var le := KeyLe(keys);
    Qsort(idx, 0, idx.Length, le);
    assert idx[0..idx.Length] == idx[..];
    forall i, j | 0 <= i < j < idx.Length ensures Key(keys, idx[i]) <= Key(keys, idx[j]) {
      assert le(idx[..][i], idx[..][j]);
    }
  }

  /** The result inverts `idx` on both sides. */
  method InversePermutation(idx: array<int>) returns (inv: array<int>)
    requires IsPermutation(idx[..], idx.Length)
    ensures fresh(inv) && inv.Length == idx.Length
    ensures forall i :: 0 <= i < idx.Length ==> 0 <= idx[i] < idx.Length && inv[idx[i]] == i
    ensures forall v :: 0 <= v < idx.Length ==> 0 <= inv[v] < idx.Length && idx[inv[v]] == v
  {
    ghost var n, perm := idx.Length, idx[..];
    inv := new int[idx.Length](_ => 0);
    for i := 0 to idx.Length
      invariant idx[..] == perm
      invariant forall k :: 0 <= k < i ==> 0 <= perm[k] < n && inv[perm[k]] == k
    {
      PermutationRange(perm, n, i);
      forall k | 0 <= k < i ensures perm[k] != perm[i] { PermutationInjective(perm, n, k, i); }
      inv[idx[i]] := i;
    }
    forall v | 0 <= v < n ensures 0 <= inv[v] < n && perm[inv[v]] == v {
      PermutationOnto(perm, n, v);
    }
  }

  // ----- reading through a permutation only reorders -----

  ghost function ItemAt(items: seq<Item>): int -> Option<Item> {
    (i: int) => if 0 <= i < |items| then Some(items[i]) else None
  }

  lemma {:induction false} SelectItems(items: seq<Item>, idx: seq<int>, t: seq<Item>)
    requires |t| == |idx| && forall j :: 0 <= j < |idx| ==> 0 <= idx[j] < |items| && t[j] == items[idx[j]]
    ensures SelectMap(idx, ItemAt(items)) == t
  {
    if idx != [] {
      var n := |idx| - 1;
      SelectItems(items, idx[..n], t[..n]);
      assert t == t[..n] + [t[n]];
    }
  }

  lemma ReindexPermutes(items: seq<Item>, idx: seq<int>, t: seq<Item>)
    requires IsPermutation(idx, |items|)
    requires |t| == |idx| && forall j :: 0 <= j < |idx| ==> 0 <= idx[j] < |items| && t[j] == items[idx[j]]
    ensures multiset(t) == multiset(items)
  {
    SelectItems(items, idx, t);
    SelectItems(items, Identity(|items|), items);
    SelectMapPermutes(idx, Identity(|items|), ItemAt(items));
  }

  // ----- compaction of one group of equal hashes -----

  ghost predicate SortedByHash(t: seq<Item>) { forall i, j :: 0 <= i < j < |t| ==> t[i].hash <= t[j].hash }

  /** Positions `i..m` are a maximal run of hash `h`. */
  ghost predicate IsGroup(t: seq<Item>, i: nat, m: nat, h: int) {
    && i < m <= |t|
    && (forall j :: i <= j < m ==> t[j].hash == h)
    && (forall j :: 0 <= j < i ==> t[j].hash < h)
    && (forall j :: m <= j < |t| ==> h < t[j].hash)
  }

  lemma {:induction false} NoneOfHash(s: seq<Item>, h: int)
    requires forall j :: 0 <= j < |s| ==> s[j].hash != h
    ensures SelectMap(s, NonConstOf(h)) == []
  {
    if s != [] {
      NoneOfHash(s[..|s| - 1], h);
    }
  }

  /** Only the group matters for the count of constant-free clauses. */
  lemma NonConstsInGroup(t: seq<Item>, i: nat, m: nat, h: int)
    requires IsGroup(t, i, m, h)
    ensures NonConsts(t, h) == NonConsts(t[i..m], h)
  {
    var f := NonConstOf(h);
    assert t == t[..i] + (t[i..m] + t[m..]);
    SelectMapConcat(t[..i], t[i..m] + t[m..], f);
    SelectMapConcat(t[i..m], t[m..], f);
    NoneOfHash(t[..i], h);
    NoneOfHash(t[m..], h);
  }

  /** The first inner loop: the end of the group and the number of its clauses with constants. */
  method CountGroup(ghost t: seq<Item>, i: nat, sc: seq<int>, hasConsts: seq<bool>) returns (m: nat, k: nat)
    requires SortedByHash(t) && i < |t| == |sc| == |hasConsts| && (i > 0 ==> t[i - 1].hash < t[i].hash)
    requires forall j :: i <= j < |t| ==> sc[j] == t[j].hash && hasConsts[j] == t[j].hasConst
    ensures IsGroup(t, i, m, t[i].hash)
    ensures m - i - k == NonConsts(t, t[i].hash)
  {
    var h := sc[i];
    k, m := 0, i;
    while m < |sc| && sc[m] == h
      invariant i <= m <= |sc| && forall j :: i <= j < m ==> t[j].hash == h
      invariant m - i - k == NonConsts(t[i..m], h)
    {
      assert t[i..m + 1][..m - i] == t[i..m];
      if hasConsts[m] { k := k + 1; }
      m := m + 1;
    }
    NonConstsInGroup(t, i, m, h);
  }

  /** The pairs standing at positions `lo..hi` of the two arrays. */
  ghost function PairsAt(sc: seq<int>, feat: seq<real>, lo: nat, hi: nat): (r: seq<(int, real)>)
    requires lo <= hi <= |sc| == |feat|
    ensures |r| == hi - lo
  {
    Zip(sc[lo..hi], feat[lo..hi])
  }

  /** From position `j` on the arrays still hold the sorted clauses. */
  ghost predicate Unread(sc: seq<int>, feat: seq<real>, t: seq<Item>, j: nat) {
    |sc| == |feat| == |t| && forall l :: j <= l < |t| ==> feat[l] == t[l].feature && sc[l] == t[l].hash
  }

  ghost predicate Keep(t: seq<Item>, j: nat)
    requires j < |t|
  {
    t[j].hasConst || NonConsts(t, t[j].hash) == 1
  }

  /** The kept pairs among positions `i..j`. */
  ghost function KeptIn(t: seq<Item>, i: nat, j: nat): seq<(int, real)>
    requires i <= j <= |t|
  {
    if i == j then []
    else KeptIn(t, i, j - 1) + if Keep(t, j - 1) then [(t[j - 1].hash, t[j - 1].feature)] else []
  }

  lemma {:induction false} KeptInConcat(t: seq<Item>, i: nat, m: nat)
    requires i <= m <= |t|
    ensures KeptIn(t, 0, m) == KeptIn(t, 0, i) + KeptIn(t, i, m)
  {
    if i < m { KeptInConcat(t, i, m - 1); }
  }

  lemma {:induction false} KeptInSelects(t: seq<Item>, m: nat)
    requires m <= |t|
    ensures KeptIn(t, 0, m) == SelectMap(t[..m], KeptPair(t))
  {
    if m > 0 {
      KeptInSelects(t, m - 1);
      assert t[..m][..m - 1] == t[..m - 1];
    }
  }

  /**
   Entries `i..j` of the group have been read and the kept ones stand at `lo..w`, after the
   `lo` pairs placed before.
   */
  ghost predicate Moving(t: seq<Item>, placed: seq<(int, real)>, i: nat, j: nat, w: nat, sc: seq<int>, feat: seq<real>) {
    && Unread(sc, feat, t, j) && i <= j <= |t| && |placed| <= w <= j
    && PairsAt(sc, feat, 0, |placed|) == placed
    && PairsAt(sc, feat, |placed|, w) == KeptIn(t, i, j)
  }

  lemma MoveOne(t: seq<Item>, placed: seq<(int, real)>, i: nat, j: nat, w: nat, sc: seq<int>, feat: seq<real>)
    requires Moving(t, placed, i, j, w, sc, feat) && j < |t|
    requires Keep(t, j)
    ensures Moving(t, placed, i, j + 1, w + 1, sc[w := sc[j]], feat[w := feat[j]])
  {
    var (sc', feat') := (sc[w := sc[j]], feat[w := feat[j]]);
    var lo := |placed|;
    assert sc'[..lo] == sc[..lo] && feat'[..lo] == feat[..lo];
    assert PairsAt(sc', feat', lo, w + 1) == PairsAt(sc, feat, lo, w) + [(t[j].hash, t[j].feature)];
  }

  lemma DropOne(t: seq<Item>, placed: seq<(int, real)>, i: nat, j: nat, w: nat, sc: seq<int>, feat: seq<real>)
    requires Moving(t, placed, i, j, w, sc, feat) && j < |t|
    requires !Keep(t, j)
    ensures Moving(t, placed, i, j + 1, w, sc, feat)
  {
  }

  method MoveOrDrop(ghost t: seq<Item>, ghost placed: seq<(int, real)>, ghost i: nat, j: nat, sh: nat, keep: bool,
                    feat: array<real>, sc: array<int>)
    returns (sh': nat)
    requires sh <= j < |t| && Moving(t, placed, i, j, j - sh, sc[..], feat[..])
    requires keep == Keep(t, j)
    modifies feat, sc
    ensures sh' <= j + 1 && Moving(t, placed, i, j + 1, j + 1 - sh', sc[..], feat[..])
  {
    sh' := sh;
    ghost var (sc0, feat0) := (sc[..], feat[..]);
    if keep {
      MoveOne(t, placed, i, j, j - sh, sc0, feat0);
      feat[j - sh] := feat[j];
      sc[j - sh] := sc[j];
      assert sc[..] == sc0[j - sh := sc0[j]] && feat[..] == feat0[j - sh := feat0[j]];
    } else {
      DropOne(t, placed, i, j, j - sh, sc0, feat0);
      sh' := sh + 1;
    }
  }

  /** The second inner loop: move the kept entries of the group down over the dropped ones. */
  method MoveKept(ghost t: seq<Item>, ghost placed: seq<(int, real)>, i: nat, m: nat, all: bool, sh0: nat,
                  feat: array<real>, sc: array<int>, hasConsts: seq<bool>)
    returns (sh: nat)
    requires |t| == |hasConsts| == sc.Length == feat.Length && m <= |t| && sh0 <= i < m
    requires Decides(t, i, m, all, hasConsts)
    requires Moving(t, placed, i, i, i - sh0, sc[..], feat[..]) && |placed| == i - sh0
    modifies feat, sc
    ensures sh <= m && Moving(t, placed, i, m, m - sh, sc[..], feat[..])
  {
    hide Moving;
    sh := sh0;
    for j := i to m
      invariant sh <= j && Moving(t, placed, i, j, j - sh, sc[..], feat[..])
    {
      sh := MoveOrDrop(t, placed, i, j, sh, hasConsts[j] || all, feat, sc);
    }
  }

  ghost function TagWith(h: int): real -> Option<(int, real)> { (r: real) => Some((h, r)) }

  lemma {:induction false} ZipOfOneHash(a: seq<int>, b: seq<real>, h: int)
    requires |a| == |b| && forall i :: 0 <= i < |a| ==> a[i] == h
    ensures Zip(a, b) == SelectMap(b, TagWith(h))
  {
    if a != [] {
      var n := |a| - 1;
      ZipOfOneHash(a[..n], b[..n], h);
      assert Zip(a, b) == Zip(a[..n], b[..n]) + [(h, b[n])];
    }
  }

  /** Sorting the features of one group permutes its pairs and orders them. */
  lemma GroupSorted(a: seq<int>, b: seq<real>, c: seq<real>, h: int)
    requires |a| == |b| == |c| && forall i :: 0 <= i < |a| ==> a[i] == h
    requires multiset(b) == multiset(c) && SortedBy(c, RealLe)
    ensures multiset(Zip(a, c)) == multiset(Zip(a, b)) && SortedBy(Zip(a, c), PairLe)
  {
    ZipOfOneHash(a, b, h);
    ZipOfOneHash(a, c, h);
    SelectMapPermutes(b, c, TagWith(h));
  }

  lemma {:induction false} KeptHashes(t: seq<Item>, i: nat, m: nat, a: seq<int>, b: seq<real>)
    requires i <= m <= |t| && forall j :: i <= j < m ==> t[j].hash == t[i].hash
    requires |a| == |b| && Zip(a, b) == KeptIn(t, i, m)
    ensures forall l :: 0 <= l < |a| ==> a[l] == t[i].hash
    decreases m
  {
    if i < m {
      var k := |KeptIn(t, i, m - 1)|;
      assert Zip(a[..k], b[..k]) == Zip(a, b)[..k];
      KeptHashes(t, i, m - 1, a[..k], b[..k]);
      assert forall l :: k <= l < |a| ==> Zip(a, b)[l].0 == t[i].hash;
    }
  }

  /** Sorted pairs followed by sorted pairs of a greater hash. */
  lemma AppendGroup(out: seq<(int, real)>, group: seq<(int, real)>, h: int)
    requires SortedBy(out, PairLe) && SortedBy(group, PairLe)
    requires forall k :: 0 <= k < |out| ==> out[k].0 < h
    requires forall k :: 0 <= k < |group| ==> group[k].0 == h
    ensures SortedBy(out + group, PairLe)
    ensures forall k :: 0 <= k < |out + group| ==> (out + group)[k].0 <= h
  {}

  /** After the groups up to position `i` the first `w` pairs are the kept ones, in order. */
  ghost predicate Compacted(t: seq<Item>, i: nat, out: seq<(int, real)>)
    requires i <= |t|
  {
    && SortedBy(out, PairLe)
    && multiset(out) == multiset(KeptIn(t, 0, i))
    && (forall k :: 0 <= k < |out| ==> i > 0 && out[k].0 <= t[i - 1].hash)
  }

  lemma {:induction false} CompactedStep(t: seq<Item>, i: nat, m: nat, out: seq<(int, real)>, group: seq<(int, real)>)
    requires i < |t| && IsGroup(t, i, m, t[i].hash) && Compacted(t, i, out)
    requires SortedBy(group, PairLe) && multiset(group) == multiset(KeptIn(t, i, m))
    requires forall k :: 0 <= k < |group| ==> group[k].0 == t[i].hash
    ensures Compacted(t, m, out + group)
  {
    AppendGroup(out, group, t[i].hash);
    KeptInConcat(t, i, m);
  }

  /** Sorting the moved features completes the group. */
  lemma GroupPlaced(t: seq<Item>, placed: seq<(int, real)>, i: nat, m: nat, w: nat, sc: seq<int>, feat: seq<real>, feat': seq<real>)
    requires i < |t| && IsGroup(t, i, m, t[i].hash) && Compacted(t, i, placed)
    requires Moving(t, placed, i, m, w, sc, feat)
    requires |feat'| == |feat| && SortedRange(feat, feat', |placed|, w)
    ensures Unread(sc, feat', t, m) && Compacted(t, m, PairsAt(sc, feat', 0, w))
  {
    var lo := |placed|;
    var (a, b, c) := (sc[lo..w], feat[lo..w], feat'[lo..w]);
    KeptHashes(t, i, m, a, b);
    GroupSorted(a, b, c, t[i].hash);
    CompactedStep(t, i, m, placed, Zip(a, c));
    assert PairsAt(sc, feat', 0, w) == placed + Zip(a, c) by {
      assert PairsAt(sc, feat', 0, w) == Zip(sc[0..lo], feat'[0..lo]) + Zip(a, c);
      assert feat'[0..lo] == feat[0..lo];
    }
    assert Unread(sc, feat', t, m) by {
      assert forall l :: w <= l < |t| ==> feat'[l] == feat'[w..][l - w] == feat[w..][l - w] == feat[l];
    }
  }

  /** Between rounds: the first `w` entries are the compaction of the first `i`, the rest is unread. */
  ghost predicate Round(t: seq<Item>, i: nat, w: nat, sc: seq<int>, feat: seq<real>) {
    w <= i <= |t| && Unread(sc, feat, t, i) && Compacted(t, i, PairsAt(sc, feat, 0, w))
  }

  lemma StartMoving(t: seq<Item>, i: nat, w: nat, sc: seq<int>, feat: seq<real>) returns (placed: seq<(int, real)>)
    requires Round(t, i, w, sc, feat)
    ensures |placed| == w && Compacted(t, i, placed) && Moving(t, placed, i, i, w, sc, feat)
  {
    placed := PairsAt(sc, feat, 0, w);
    assert sc[w..w] == [] && feat[w..w] == [];
  }

  /** The flag `k + 1 == m - i` decides for the clauses of the group that have no constants. */
  ghost predicate Decides(t: seq<Item>, i: nat, m: nat, all: bool, hasConsts: seq<bool>)
    requires i < m <= |t| == |hasConsts|
  {
    forall j :: i <= j < m ==> (hasConsts[j] || all) == Keep(t, j)
  }

  /** The qsort that ends a round. */
  method SortGroup(ghost t: seq<Item>, ghost placed: seq<(int, real)>, ghost i: nat, ghost m: nat, lo: nat, w: nat,
                   feat: array<real>, sc: array<int>)
    requires i < |t| && IsGroup(t, i, m, t[i].hash) && Compacted(t, i, placed)
    requires Moving(t, placed, i, m, w, sc[..], feat[..]) && lo == |placed|
    modifies feat
    ensures Round(t, m, w, sc[..], feat[..])
  {
    ghost var feat0 := feat[..];
    QsortReals(feat, lo, w);
    GroupPlaced(t, placed, i, m, w, sc[..], feat0, feat[..]);
  }

  /** Move the kept entries of one group, then sort them. */
  method CompactGroup(ghost t: seq<Item>, ghost placed: seq<(int, real)>, i: nat, m: nat, all: bool, sh0: nat, feat: array<real>, sc: array<int>, hasConsts: seq<bool>)
    returns (sh: nat)
    requires |t| == |hasConsts| == sc.Length == feat.Length && m <= |t| && sh0 <= i < m
    requires IsGroup(t, i, m, t[i].hash) && Decides(t, i, m, all, hasConsts)
    requires |placed| == i - sh0 && Compacted(t, i, placed) && Moving(t, placed, i, i, i - sh0, sc[..], feat[..])
    modifies feat, sc
    ensures sh <= m && Round(t, m, m - sh, sc[..], feat[..])
  {
    sh := MoveKept(t, placed, i, m, all, sh0, feat, sc, hasConsts);
    SortGroup(t, placed, i, m, i - sh0, m - sh, feat, sc);
  }

  lemma RoundsDone(t: seq<Item>, n: nat, sc: seq<int>, feat: seq<real>)
    requires SortedByHash(t) && Round(t, |t|, n, sc, feat)
    ensures PairsAt(sc, feat, 0, n) == Canonical(t)
  {
    assert t[..|t|] == t;
    KeptInSelects(t, |t|);
    SortPairsUnique(SelectMap(t, KeptPair(t)), PairsAt(sc, feat, 0, n));
  }

  /** One round of the outer loop: find the group that starts at `i` and compact it. */
  method CompactNext(ghost t: seq<Item>, i: nat, sh0: nat, feat: array<real>, sc: array<int>, hasConsts: seq<bool>) returns (m: nat, sh: nat)
    requires |t| == |hasConsts| == sc.Length == feat.Length && SortedByHash(t) && sh0 <= i < |t|
    requires (0 < i ==> t[i - 1].hash < t[i].hash) && forall j :: 0 <= j < |t| ==> hasConsts[j] == t[j].hasConst
    requires Round(t, i, i - sh0, sc[..], feat[..])
    modifies feat, sc
    ensures i < m <= |t| && (m < |t| ==> t[m - 1].hash < t[m].hash) && sh <= m && Round(t, m, m - sh, sc[..], feat[..])
  {
    ghost var placed := StartMoving(t, i, i - sh0, sc[..], feat[..]);
    var k;
    m, k := CountGroup(t, i, sc[..], hasConsts);
    sh := CompactGroup(t, placed, i, m, k + 1 == m - i, sh0, feat, sc, hasConsts);
  }

  method CompactRounds(ghost t: seq<Item>, feat: array<real>, sc: array<int>, hasConsts: seq<bool>) returns (n: nat)
    requires |t| == |hasConsts| == sc.Length == feat.Length && SortedByHash(t)
    requires Round(t, 0, 0, sc[..], feat[..]) && forall j :: 0 <= j < |t| ==> hasConsts[j] == t[j].hasConst
    modifies feat, sc
    ensures Round(t, |t|, n, sc[..], feat[..])
  {
    hide Round;
    var i: nat, sh: nat := 0, 0;
    while i < sc.Length
      invariant sh <= i <= |t| && (0 < i < |t| ==> t[i - 1].hash < t[i].hash)
      invariant Round(t, i, i - sh, sc[..], feat[..])
    {
      i, sh := CompactNext(t, i, sh, feat, sc, hasConsts);
    }
    n := sc.Length - sh;
  }

  /** The compaction loop computes the canonical form in place. */
  method Compact(ghost t: seq<Item>, feat: array<real>, sc: array<int>, hasConsts: seq<bool>) returns (n: nat)
    requires |t| == |hasConsts| == sc.Length == feat.Length && SortedByHash(t)
    requires Unread(sc[..], feat[..], t, 0) && forall j :: 0 <= j < |t| ==> hasConsts[j] == t[j].hasConst
    modifies feat, sc
    ensures n <= sc.Length && PairsAt(sc[..], feat[..], 0, n) == Canonical(t)
  {
    n := CompactRounds(t, feat, sc, hasConsts);
    RoundsDone(t, n, sc[..], feat[..]);
  }
}
