/**
 `gbt_var_picksplit` (contrib/btree_gist/btree_utils_var.c), and when the common cut it makes is
 safe on an internal page: exactly when no entry's cut-off upper bound can be outgrown.
 */
module GistVarSplit {
  import opened Sorting
  import opened GistVarKey

  // ----- keys that a split has cut further -----

  /** What a stored key stands for: if its lower bound is a prefix of its upper bound, nothing beyond the union's cut counts. */
  function Effective(k: Key): Key {
    if IsPrefix(k.lower, k.upper) then Key(k.lower, Take(k.upper, UnionCut(k))) else k
  }

  /** The invariant of stored keys. */
  ghost predicate Passes(k: Key, v: Bytes) { Admits(Effective(k), v) }

  lemma {:induction false} PrefixLength(p: Bytes, a: Bytes)
    requires IsPrefix(p, a)
    ensures CommonPrefix(p, a) == |p|
  {
    if p != [] {
      assert a[1..][..|p| - 1] == a[..|p|][1..] == p[1..];
      PrefixLength(p[1..], a[1..]);
    }
  }

  lemma EffectiveCut(k: Key)
    requires IsPrefix(k.lower, k.upper)
    ensures UnionCut(Effective(k)) == UnionCut(k) == Cut(Effective(k)) == |k.lower| + 2
  {
    var u := Take(k.upper, UnionCut(k));
    PrefixLength(k.lower, k.upper);
    assert u[..|k.lower|] == k.upper[..|k.lower|];
    PrefixLength(k.lower, u);
  }

  lemma EffectiveOrdered(k: Key)
    requires Ordered(k)
    ensures Ordered(Effective(k)) && Le(Effective(k).upper, k.upper)
  {
    if IsPrefix(k.lower, k.upper) {
      PrefixLength(k.lower, k.upper);
      TakeLe(k.upper, UnionCut(k));
      TakeMonotone(k.lower, k.upper, UnionCut(k));
      assert Take(k.lower, UnionCut(k)) == k.lower;
    } else {
      LeReflexive(k.upper);
    }
  }

  /** On the bytes a union keeps, both invariants say the same. */
  lemma PassesShort(k: Key, v: Bytes)
    requires Passes(k, v)
    ensures AdmitsAt(k, v, UnionCut(k))
  {
    if IsPrefix(k.lower, k.upper) {
      EffectiveCut(k);
      TakeLe(k.upper, UnionCut(k));
      LeTransitive(Take(v, UnionCut(k)), Take(k.upper, UnionCut(k)), k.upper);
    } else {
      FewerBytes(k, v, Cut(k), UnionCut(k));
    }
  }

  lemma ShortPasses(k: Key, v: Bytes)
    requires AdmitsAt(k, v, UnionCut(k)) && IsPrefix(k.lower, k.upper)
    ensures Passes(k, v)
  {
    EffectiveCut(k);
    TakeMonotone(Take(v, UnionCut(k)), k.upper, UnionCut(k));
    TakeTake(v, UnionCut(k), UnionCut(k));
  }

  lemma LeafPasses(v: Bytes)
    ensures Passes(Key(v, v), v) && Ordered(Key(v, v)) && Effective(Key(v, v)) == Key(v, v)
  {
    LeafKeyAdmits(v);
    SelfPrefix(v);
  }

  // ----- comparisons decided early -----

  /** A difference within the first `m` bytes decides. */
  lemma {:induction false} DecidedEarly(x: Bytes, y: Bytes, m: nat)
    requires Le(Take(x, m), Take(y, m)) && Take(x, m) != Take(y, m)
    ensures Le(x, y)
  {
    if x != [] && m > 0 {
      assert Take(x, m)[1..] == Take(x[1..], m - 1);
      if y != [] {
        assert Take(y, m)[1..] == Take(y[1..], m - 1);
        if x[0] == y[0] {
          assert Take(x, m) == [x[0]] + Take(x[1..], m - 1) && Take(y, m) == [y[0]] + Take(y[1..], m - 1);
          DecidedEarly(x[1..], y[1..], m - 1);
        }
      }
    }
  }

  ghost predicate AllMax(a: Bytes, from: nat) { forall j :: from <= j < |a| ==> a[j] == 255 }

  /** Nothing of that length with the same beginning exceeds a tail of 255s. */
  lemma {:induction false} MaxTail(x: Bytes, y: Bytes, m: nat)
    requires |x| <= |y| && m <= |y| && Take(x, m) == Take(y, m) && AllMax(y, m)
    ensures Le(x, y)
    decreases |x|
  {
    if x != [] {
      if m > 0 {
        assert x[0] == Take(x, m)[0] == Take(y, m)[0] == y[0];
        assert Take(x, m)[1..] == Take(x[1..], m - 1) && Take(y, m)[1..] == Take(y[1..], m - 1);
        MaxTail(x[1..], y[1..], m - 1);
      } else {
        assert Take(x[1..], 0) == Take(y[1..], 0);
        MaxTail(x[1..], y[1..], 0);
      }
    }
  }

  /** Bytes beyond a short upper bound are not allowed for. */
  lemma {:induction false} ShortBoundIsTight(v: Bytes, u: Bytes, n: nat)
    requires Le(Take(v, n), u) && |u| < n
    ensures Le(v, u)
  {
    if v != [] {
      assert Take(v, n)[1..] == Take(v[1..], n - 1);
      if v[0] == u[0] { ShortBoundIsTight(v[1..], u[1..], n - 1); }
    }
  }

  // ----- the condition -----

  /** Values may extend the upper bound of `k`, and some that do exceed `u`. */
  ghost predicate Outgrows(k: Key, u: Bytes) {
    |k.upper| >= UnionCut(k) && |k.upper| < |u| && IsPrefix(k.upper, u) && !AllMax(u, |k.upper|)
  }

  /** The cut key of a page, and whether one of its entries outgrows it. */
  ghost predicate Outgrown(entries: seq<Key>, c: Key)
    requires entries != []
  {
    && !IsPrefix(c.lower, c.upper) && |c.upper| > UnionCut(Bounds(entries))
    && exists i :: 0 <= i < |entries| && Outgrows(Effective(entries[i]), c.upper)
  }

  ghost predicate AllOrdered(entries: seq<Key>) { forall j :: 0 <= j < |entries| ==> Ordered(entries[j]) }

  lemma {:induction false} AdmittedByBounds(entries: seq<Key>, i: nat, v: Bytes)
    requires i < |entries| && AllOrdered(entries) && Passes(entries[i], v)
    ensures AdmitsAt(Bounds(entries), v, UnionCut(Bounds(entries)))
  {
    BoundsCover(entries, i);
    PassesShort(entries[i], v);
    WiderAdmits(entries[i], Bounds(entries), v);
  }

  // ----- safe otherwise -----

  /** An entry that does not outgrow `u` keeps its values within `u`, on the length of `u`. */
  lemma {:induction false} StaysWithin(k: Key, b: Bytes, n: nat, v: Bytes)
    requires Le(k.upper, b) && Le(Take(v, Cut(k)), k.upper) && !Outgrows(k, Take(b, n))
    ensures Le(Take(v, |Take(b, n)|), Take(b, n))
  {
    var u := Take(b, n);
    var (t, m) := (|u|, |k.upper|);
    assert Take(b, t) == u;
    if m < UnionCut(k) {
      ShortBoundIsTight(v, k.upper, Cut(k));
      LeTransitive(v, k.upper, b);
      TakeMonotone(v, b, t);
    } else if m >= t {
      TakeMonotone(Take(v, m), k.upper, t);
      TakeTake(v, m, t);
      TakeMonotone(k.upper, b, t);
      LeTransitive(Take(v, t), Take(k.upper, t), u);
    } else {
      TakeMonotone(k.upper, b, t);
      assert Take(k.upper, t) == k.upper && Cut(k) == m;
      LongerCut(k.upper, u, v);
    }
  }

  /** A bound that is no prefix of `u`, or one that `u` only extends with 255s. */
  lemma {:induction false} LongerCut(k: Bytes, u: Bytes, v: Bytes)
    requires |k| < |u| && Le(Take(v, |k|), k) && Le(k, u) && (IsPrefix(k, u) ==> AllMax(u, |k|))
    ensures Le(Take(v, |u|), u)
  {
    var (m, x) := (|k|, Take(v, |u|));
    assert Take(x, m) == Take(v, m) by { TakeTake(v, |u|, m); }
    assert Le(k, Take(u, m)) by {
      TakeMonotone(k, u, m);
      assert Take(k, m) == k;
    }
    LeTransitive(Take(x, m), k, Take(u, m));
    if Take(x, m) == Take(u, m) {
      LeAntisymmetric(k, Take(u, m));
      MaxTail(x, u, m);
    } else {
      DecidedEarly(x, u, m);
    }
  }

  /** With a prefix of the upper bound as lower bound, values are recognised by that prefix. */
  lemma LowerIsPrefix(b: Key, n: nat, v: Bytes)
    requires AdmitsAt(b, v, UnionCut(b)) && n >= UnionCut(b)
    requires var c := Truncate(b, n - 1); IsPrefix(c.lower, c.upper)
    ensures IsPrefix(Truncate(b, n - 1).lower, v)
  {
    var (c, cut) := (Truncate(b, n - 1), UnionCut(b));
    CutKeepsPrefix(b.lower, b.upper, n);
    PrefixLength(c.lower, c.upper);
    assert c.lower == b.lower;
    var (x, y) := (Take(v, cut), Take(b.upper, cut));
    TakeMonotone(b.lower, v, cut);
    assert Take(b.lower, cut) == b.lower;
    TakeMonotone(x, b.upper, cut);
    TakeTake(v, cut, cut);
    assert IsPrefix(c.lower, y);
    PrefixSqueezed(c.lower, x, y);
  }

  /** A key cut no further than a union's. */
  lemma ShortCutAdmits(b: Key, n: nat, v: Bytes)
    requires AdmitsAt(b, v, UnionCut(b)) && Ordered(b) && n >= UnionCut(b)
    requires |Truncate(b, n - 1).upper| <= UnionCut(b)
    ensures Admits(Truncate(b, n - 1), v)
  {
    var (c, cut) := (Truncate(b, n - 1), UnionCut(b));
    CutKeepsPrefix(b.lower, b.upper, n);
    TakeLe(b.lower, n);
    LeTransitive(c.lower, b.lower, v);
    if c.upper != b.upper {
      assert n == cut;
      CutAdmits(b, v, n);
    }
  }

  /** A key cut further, on which the value still fits. */
  lemma {:induction false} LongCutAdmits(b: Key, n: nat, v: Bytes)
    requires Le(b.lower, v) && n >= UnionCut(b)
    requires var u := Truncate(b, n - 1).upper; |u| > UnionCut(b) && Le(Take(v, |u|), u)
    ensures Admits(Truncate(b, n - 1), v)
  {
    var c := Truncate(b, n - 1);
    CutKeepsPrefix(b.lower, b.upper, n);
    TakeLe(b.lower, n);
    LeTransitive(c.lower, b.lower, v);
  }

  /** Equal bounds are not cut and admit their one value only. */
  lemma EqualCut(b: Key, n: nat, v: Bytes)
    requires AdmitsAt(b, v, UnionCut(b)) && n >= UnionCut(b)
    requires var c := Truncate(b, n - 1); c.lower == c.upper
    ensures v == Truncate(b, n - 1).lower
  {
    var (c, cut) := (Truncate(b, n - 1), UnionCut(b));
    CutKeepsPrefix(b.lower, b.upper, n);
    SelfPrefix(c.lower);
    assert c.lower == b.lower && c.upper == b.upper;
    TakeMonotone(b.lower, v, cut);
    assert Take(b.lower, cut) == b.lower;
    LeAntisymmetric(b.lower, Take(v, cut));
  }

  /** The lower bound is a prefix of the value. */
  lemma {:induction false} PrefixIsFound(c: Key, v: Bytes, q: Bytes, strategy: Strategy)
    requires Ordered(c) && Le(c.lower, v) && IsPrefix(c.lower, v) && Satisfies(v, q, strategy)
    requires c.lower == c.upper ==> v == c.lower
    ensures Consistent(c, q, strategy, false)
  {
    match strategy
    case LessEqual => LeTransitive(c.lower, v, q);
    case Less => LeTransitive(c.lower, v, q);
    case Equal =>
    case Greater => BetweenIsFound(c, v, q);
    case GreaterEqual => BetweenIsFound(c, v, q);
    case NotEqual =>
  }

  lemma {:induction false} BetweenIsFound(c: Key, v: Bytes, q: Bytes)
    requires Ordered(c) && IsPrefix(c.lower, v) && Le(q, v)
    ensures Le(q, c.upper) || PfMatch(c, q)
  {
    if !Le(q, c.upper) {
      LeTotal(q, c.upper);
      LeTransitive(c.lower, c.upper, q);
      PrefixSqueezed(c.lower, q, v);
    }
  }

  /** A key whose lower bound is a prefix of its upper bound. */
  lemma PrefixKeyFinds(b: Key, n: nat, v: Bytes, q: Bytes, strategy: Strategy)
    requires AdmitsAt(b, v, UnionCut(b)) && Ordered(b) && n >= UnionCut(b) && Satisfies(v, q, strategy)
    requires var c := Truncate(b, n - 1); IsPrefix(c.lower, c.upper)
    ensures Consistent(Truncate(b, n - 1), q, strategy, false)
  {
    var c := Truncate(b, n - 1);
    LowerIsPrefix(b, n, v);
    TakeMonotone(b.lower, b.upper, n);
    TakeLe(b.lower, n);
    LeTransitive(c.lower, b.lower, v);
    if c.lower == c.upper { EqualCut(b, n, v); }
    PrefixIsFound(c, v, q, strategy);
  }

  /** No search that matches a value rejects a key that the value passes. */
  lemma PassedIsFound(k: Key, v: Bytes, q: Bytes, strategy: Strategy)
    requires Ordered(k) && Passes(k, v) && Satisfies(v, q, strategy)
    ensures Consistent(k, q, strategy, false)
  {
    if IsPrefix(k.lower, k.upper) {
      var n := Cut(k) + |k.lower|;
      assert Truncate(k, n - 1) == k;
      PassesShort(k, v);
      PrefixKeyFinds(k, n, v, q, strategy);
    } else {
      AdmittedIsFound(k, v, q, strategy);
    }
  }

  /** Unless the key is outgrown, whatever passes an entry passes the key, however far it is cut. */
  lemma {:induction false} NotOutgrownPasses(entries: seq<Key>, n: nat, i: nat, v: Bytes)
    requires i < |entries| && AllOrdered(entries) && Passes(entries[i], v) && n >= UnionCut(Bounds(entries))
    requires !Outgrown(entries, Truncate(Bounds(entries), n - 1))
    ensures Passes(Truncate(Bounds(entries), n - 1), v)
  {
    var b := Bounds(entries);
    var c := Truncate(b, n - 1);
    AdmittedByBounds(entries, i, v);
    BoundsCover(entries, i);
    if IsPrefix(c.lower, c.upper) {
      CutShort(b, n, v);
      ShortPasses(c, v);
    } else if |c.upper| <= UnionCut(b) {
      ShortCutAdmits(b, n, v);
    } else {
      var k := Effective(entries[i]);
      assert !Outgrows(k, c.upper);
      EffectiveOrdered(entries[i]);
      LeTransitive(k.upper, entries[i].upper, b.upper);
      StaysWithin(k, b.upper, n, v);
      LongCutAdmits(b, n, v);
    }
  }

  /** Cutting no shorter than a union does keeps what fits there. */
  lemma CutShort(b: Key, n: nat, v: Bytes)
    requires AdmitsAt(b, v, UnionCut(b)) && n >= UnionCut(b)
    ensures var c := Truncate(b, n - 1); AdmitsAt(c, v, UnionCut(c))
  {
    var (c, cut) := (Truncate(b, n - 1), UnionCut(b));
    CutKeepsPrefix(b.lower, b.upper, n);
    TakeLe(b.lower, n);
    LeTransitive(c.lower, b.lower, v);
    TakeMonotone(Take(v, cut), b.upper, n);
    TakeTake(v, cut, n);
  }

  lemma {:induction false} CutOrdered(entries: seq<Key>, n: nat)
    requires entries != [] && AllOrdered(entries) && n > 0
    ensures Ordered(Truncate(Bounds(entries), n - 1))
  {
    BoundsCover(entries, 0);
    TakeMonotone(Bounds(entries).lower, Bounds(entries).upper, n);
  }

  /** A union is never outgrown. */
  lemma UnionPasses(entries: seq<Key>, i: nat, v: Bytes)
    requires i < |entries| && AllOrdered(entries) && Passes(entries[i], v)
    ensures Passes(Union(entries), v)
  {
    NotOutgrownPasses(entries, UnionCut(Bounds(entries)), i, v);
  }

  /** Nor is any key over leaf entries. */
  lemma LeavesNeverOutgrow(entries: seq<Key>, c: Key)
    requires entries != [] && forall j :: 0 <= j < |entries| ==> entries[j].lower == entries[j].upper
    ensures !Outgrown(entries, c)
  {
    forall i | 0 <= i < |entries| ensures !Outgrows(Effective(entries[i]), c.upper) {
      LeafPasses(entries[i].lower);
      SelfPrefix(entries[i].lower);
    }
  }

  // ----- unsafe if outgrown -----

  function Extended(k: Bytes, n: nat): (r: Bytes)
    requires |k| <= n
    ensures |r| == n && r[..|k|] == k && AllMax(r, |k|)
  {
    k + seq(n - |k|, _ => 255)
  }

  lemma {:induction false} FirstBelowMax(u: Bytes, m: nat) returns (j: nat)
    requires m <= |u| && !AllMax(u, m)
    ensures m <= j < |u| && u[j] < 255 && forall i :: m <= i < j ==> u[i] == 255
    decreases |u| - m
  {
    if u[m] < 255 { j := m; } else { j := FirstBelowMax(u, m + 1); }
  }

  /** The longest extension of an outgrowing bound exceeds `u` and does not begin with it. */
  lemma {:induction false} ExtensionExceeds(k: Key, u: Bytes)
    requires Outgrows(k, u)
    ensures var v := Extended(k.upper, |u|); Le(u, v) && !Le(v, u) && !IsPrefix(u, v)
  {
    var (v, m) := (Extended(k.upper, |u|), |k.upper|);
    var j := FirstBelowMax(u, m);
    assert u[..j] == v[..j] by {
      assert forall i :: 0 <= i < m ==> u[i] == u[..m][i] == k.upper[i] == v[..m][i] == v[i];
    }
    Differ(u, v, j);
    assert v[..|u|] == v;
  }

  lemma ExtensionAdmitted(k: Key, n: nat)
    requires Ordered(k) && UnionCut(k) <= |k.upper| < n
    ensures Admits(k, Extended(k.upper, n))
  {
    var v := Extended(k.upper, n);
    assert Take(v, |k.upper|) == k.upper;
    LeReflexive(k.upper);
    Longer(k.upper, v);
    LeTransitive(k.lower, k.upper, v);
  }

  lemma OutgrownMisses(entries: seq<Key>, n: nat) returns (i: nat, v: Bytes)
    requires entries != [] && AllOrdered(entries) && n >= UnionCut(Bounds(entries))
    requires Outgrown(entries, Truncate(Bounds(entries), n - 1))
    ensures i < |entries| && Passes(entries[i], v) && !Consistent(Truncate(Bounds(entries), n - 1), v, Equal, false)
  {
    var b := Bounds(entries);
    var c := Truncate(b, n - 1);
    i :| 0 <= i < |entries| && Outgrows(Effective(entries[i]), c.upper);
    var k := Effective(entries[i]);
    v := Extended(k.upper, |c.upper|);
    EffectiveOrdered(entries[i]);
    ExtensionAdmitted(k, |c.upper|);
    ExtensionExceeds(k, c.upper);
    CutOrdered(entries, n);
    if IsPrefix(c.lower, v) { PrefixSqueezed(c.lower, c.upper, v); }
  }

  /** Every search that matches a value the entries pass also passes the key. */
  ghost predicate FindsAll(entries: seq<Key>, c: Key) {
    forall i, v, q, strategy :: 0 <= i < |entries| && Passes(entries[i], v) && Satisfies(v, q, strategy) ==>
      Consistent(c, q, strategy, false)
  }

  /** A page split with cut `n` still finds every value its entries pass, by all six strategies, exactly when
      no entry outgrows its key. */
  lemma {:induction false} SplitFindsExactly(entries: seq<Key>, n: nat)
    requires entries != [] && AllOrdered(entries) && n >= UnionCut(Bounds(entries))
    ensures FindsAll(entries, Truncate(Bounds(entries), n - 1)) <==> !Outgrown(entries, Truncate(Bounds(entries), n - 1))
  {
    var c := Truncate(Bounds(entries), n - 1);
    if Outgrown(entries, c) {
      var i, v := OutgrownMisses(entries, n);
      assert Satisfies(v, v, Equal);
    } else {
      CutOrdered(entries, n);
      forall i, v, q, strategy | 0 <= i < |entries| && Passes(entries[i], v) && Satisfies(v, q, strategy)
        ensures Consistent(c, q, strategy, false)
      {
        NotOutgrownPasses(entries, n, i, v);
        PassedIsFound(c, v, q, strategy);
      }
    }
  }

  // ----- gbt_var_picksplit -----

  /** What both halves are cut to: the longer common prefix and one byte. */
  function SplitCut(left: seq<Key>, right: seq<Key>): nat
    requires left != [] && right != []
  {
    var (l, r) := (Bounds(left), Bounds(right));
    var (ll, lr) := (CommonPrefix(l.lower, l.upper), CommonPrefix(r.lower, r.upper));
    (if ll < lr then lr else ll) + 1
  }

  function SplitKey(half: seq<Key>, other: seq<Key>): Key
    requires half != [] && other != []
  {
    Truncate(Bounds(half), SplitCut(half, other))
  }

  datatype Vsrt = Vsrt(key: Key, i: nat)

  /** `gbt_vsrt_cmp`: by lower bound, then by upper bound. */
  predicate VsrtLe(x: Vsrt, y: Vsrt) {
    if x.key.lower == y.key.lower then Le(x.key.upper, y.key.upper) else Le(x.key.lower, y.key.lower)
  }

  lemma VsrtIsTotal()
    ensures TotalPreorder(VsrtLe)
  {
    forall x: Vsrt, y: Vsrt ensures VsrtLe(x, y) || VsrtLe(y, x) {
      LeTotal(x.key.lower, y.key.lower);
      LeTotal(x.key.upper, y.key.upper);
    }
    forall x: Vsrt, y: Vsrt, z: Vsrt | VsrtLe(x, y) && VsrtLe(y, z) ensures VsrtLe(x, z) { VsrtTransitive(x, y, z); }
  }

  lemma VsrtTransitive(x: Vsrt, y: Vsrt, z: Vsrt)
    requires VsrtLe(x, y) && VsrtLe(y, z)
    ensures VsrtLe(x, z)
  {
    if x.key.lower == y.key.lower == z.key.lower {
      LeTransitive(x.key.upper, y.key.upper, z.key.upper);
    } else if x.key.lower == z.key.lower {
      LeAntisymmetric(x.key.lower, y.key.lower);
    } else if x.key.lower != y.key.lower && y.key.lower != z.key.lower {
      LeTransitive(x.key.lower, y.key.lower, z.key.lower);
    }
  }

  /** Offsets of the entries of each half, from 0, and their keys. */
  datatype Halves = Halves(left: seq<nat>, right: seq<nat>, lkey: Key, rkey: Key)

  /** All offsets below `n`, each once. */
  ghost predicate IsPermutation(offsets: seq<nat>, n: nat) {
    Distinct(offsets) && Elements(offsets) == Upto(n)
  }

  ghost predicate InSplitOrder(keys: seq<Key>) {
    forall i, j :: 0 <= i < j < |keys| ==> VsrtLe(Vsrt(keys[i], 0), Vsrt(keys[j], 0))
  }

  /** The sorted entries cut in the middle, and each half's bounds cut to the common length. */
  ghost predicate IsSplit(entries: seq<Key>, h: Halves) {
    && IsPermutation(h.left + h.right, |entries|)
    && (forall j :: 0 <= j < |h.left| ==> h.left[j] < |entries|) && (forall j :: 0 <= j < |h.right| ==> h.right[j] < |entries|)
    && |h.left| == |entries| / 2 && h.left != [] && h.right != []
    && InSplitOrder(Picked(entries, h.left) + Picked(entries, h.right))
    && h.lkey == SplitKey(Picked(entries, h.left), Picked(entries, h.right))
    && h.rkey == SplitKey(Picked(entries, h.right), Picked(entries, h.left))
  }

  ghost function KeysIn(ts: seq<Vsrt>): (r: seq<Key>)
    ensures |r| == |ts| && forall j :: 0 <= j < |r| ==> r[j] == ts[j].key
  {
    seq(|ts|, j requires 0 <= j < |ts| => ts[j].key)
  }

  ghost function OffsetsIn(ts: seq<Vsrt>): (r: seq<nat>)
    ensures |r| == |ts| && forall j :: 0 <= j < |r| ==> r[j] == ts[j].i
  {
    seq(|ts|, j requires 0 <= j < |ts| => ts[j].i)
  }

  /** One half after the entries `done`. */
  ghost predicate Gathered(done: seq<Vsrt>, offsets: seq<nat>, key: Key) {
    offsets == OffsetsIn(done) && (done != [] ==> key == Bounds(KeysIn(done)))
  }

  /** `gbt_var_bin_union` into a half's datum, which is NULL at first, and the entry's offset. */
  method Gather(ghost done: seq<Vsrt>, offsets: seq<nat>, key: Key, e: Vsrt) returns (offsets': seq<nat>, key': Key)
    requires Gathered(done, offsets, key)
    ensures Gathered(done + [e], offsets', key')
  {
    key' := if offsets == [] then e.key else BinUnion(key, e.key);
    offsets' := offsets + [e.i];
    assert KeysIn(done + [e]) == KeysIn(done) + [e.key];
    assert KeysIn(done + [e])[..|done|] == KeysIn(done);
  }

  /** The sorted entries are the entries, each at its offset. */
  lemma SortedPlaces(entries: seq<Key>, s: seq<Vsrt>, t: seq<Vsrt>)
    requires |s| == |entries| && multiset(s) == multiset(t) && forall i :: 0 <= i < |s| ==> s[i] == Vsrt(entries[i], i)
    ensures |t| == |entries| && IsPermutation(OffsetsIn(t), |entries|) && Placed(entries, t)
  {
    assert |t| == |multiset(t)| == |multiset(s)| == |s|;
    forall j | 0 <= j < |t| ensures t[j].i < |entries| && t[j].key == entries[t[j].i] {
      assert t[j] in multiset(s);
    }
    forall x: nat ensures x in Elements(OffsetsIn(t)) <==> x < |entries| {
      if x < |entries| {
        assert s[x] in multiset(t);
        var j :| 0 <= j < |t| && t[j] == s[x];
        assert OffsetsIn(t)[j] == x;
      }
    }
    assert Elements(OffsetsIn(t)) == Upto(|entries|);
    UptoCount(|entries|);
    ElementsCount(OffsetsIn(t));
  }

  method PickSplit(entries: seq<Key>) returns (h: Halves)
    requires |entries| >= 2
    ensures IsSplit(entries, h)
  {
    var (n, m) := (|entries|, |entries| / 2);
    var arr := new Vsrt[n](i requires 0 <= i < n => Vsrt(entries[i], i));
    ghost var s := arr[..];
    assert arr[0..n] == s;
    VsrtIsTotal();
    Qsort(arr, 0, n, VsrtLe);
    ghost var t := arr[..];
    assert arr[0..n] == t;
    var left, right, l, r := Distribute(arr, m);
    h := FinishSplit(entries, s, t, m, left, right, l, r);
  }

  /** The loop that puts each sorted entry in its half. */
  method Distribute(arr: array<Vsrt>, m: nat) returns (left: seq<nat>, right: seq<nat>, l: Key, r: Key)
    requires 0 < m < arr.Length
    ensures Gathered(arr[..m], left, l) && Gathered(arr[m..], right, r)
  {
    left, right, l, r := [], [], Key([], []), Key([], []);
    for i := 0 to arr.Length
      invariant Gathered(arr[..if i < m then i else m], left, l)
      invariant Gathered(arr[m..if i < m then m else i], right, r)
    {
      if i < m {
        left, l := Gather(arr[..i], left, l, arr[i]);
        assert arr[..i] + [arr[i]] == arr[..i + 1];
      } else {
        right, r := Gather(arr[m..i], right, r, arr[i]);
        assert arr[m..i] + [arr[i]] == arr[m..i + 1];
      }
    }
    assert arr[m..arr.Length] == arr[m..];
  }

  /** Both datums are cut alike. */
  method FinishSplit(entries: seq<Key>, ghost s: seq<Vsrt>, ghost t: seq<Vsrt>, ghost m: nat,
                     left: seq<nat>, right: seq<nat>, l: Key, r: Key)
    returns (h: Halves)
    requires |s| == |entries| && multiset(s) == multiset(t) && forall i :: 0 <= i < |s| ==> s[i] == Vsrt(entries[i], i)
    requires SortedBy(t, VsrtLe) && 0 < m == |entries| / 2 && m < |t|
    requires Gathered(t[..m], left, l) && Gathered(t[m..], right, r)
    ensures IsSplit(entries, h)
  {
    hide SortedBy, InSplitOrder, IsPermutation, Bounds, CommonPrefix;
    SortedPlaces(entries, s, t);
    HalvesAt(entries, t, m, left, right);
    SortedKeys(t);
    var ll := NodeCpLen(l.lower, l.upper);
    var lr := NodeCpLen(r.lower, r.upper);
    var cut := (if ll < lr then lr else ll) + 1;
    h := Halves(left, right, Truncate(l, cut), Truncate(r, cut));
  }

  /** Each entry stands for the key at its offset. */
  ghost predicate Placed(entries: seq<Key>, ts: seq<Vsrt>) {
    forall j :: 0 <= j < |ts| ==> ts[j].i < |entries| && ts[j].key == entries[ts[j].i]
  }

  lemma PlacedAt(entries: seq<Key>, ts: seq<Vsrt>)
    requires Placed(entries, ts)
    ensures forall j :: 0 <= j < |ts| ==> OffsetsIn(ts)[j] < |entries|
    ensures Picked(entries, OffsetsIn(ts)) == KeysIn(ts)
  {}

  lemma Joined(a: seq<Vsrt>, b: seq<Vsrt>)
    ensures OffsetsIn(a + b) == OffsetsIn(a) + OffsetsIn(b) && KeysIn(a + b) == KeysIn(a) + KeysIn(b)
  {}

  lemma HalvesAt(entries: seq<Key>, t: seq<Vsrt>, m: nat, left: seq<nat>, right: seq<nat>)
    requires m <= |t| && left == OffsetsIn(t[..m]) && right == OffsetsIn(t[m..]) && Placed(entries, t)
    ensures left + right == OffsetsIn(t)
    ensures (forall j :: 0 <= j < |left| ==> left[j] < |entries|) && (forall j :: 0 <= j < |right| ==> right[j] < |entries|)
    ensures Picked(entries, left) == KeysIn(t[..m]) && Picked(entries, right) == KeysIn(t[m..])
    ensures Picked(entries, left) + Picked(entries, right) == KeysIn(t)
  {
    hide OffsetsIn, KeysIn, Picked;
    assert t == t[..m] + t[m..];
    PlacedAt(entries, t[..m]);
    PlacedAt(entries, t[m..]);
    Joined(t[..m], t[m..]);
  }

  lemma SortedKeys(t: seq<Vsrt>)
    requires SortedBy(t, VsrtLe)
    ensures InSplitOrder(KeysIn(t))
  {
    forall i, j | 0 <= i < j < |t| ensures VsrtLe(Vsrt(KeysIn(t)[i], 0), Vsrt(KeysIn(t)[j], 0)) {
      assert VsrtLe(t[i], t[j]);
    }
  }

  // ----- an internal page whose split loses a value -----

  const AAC: Bytes := [97, 97, 99]
  const ABC: Bytes := [97, 98, 99]
  const ABCA: Bytes := [97, 98, 99, 97]
  const ABCD: Bytes := [97, 98, 99, 100]
  const ABCZ: Bytes := [97, 98, 99, 122]
  const BBBA: Bytes := [98, 98, 98, 97]
  const BBBC: Bytes := [98, 98, 98, 99]
  const BBBD: Bytes := [98, 98, 98, 100]
  const BBBF: Bytes := [98, 98, 98, 102]

  /** The keys of four pages; the first holds "aac" and "abcz". */
  function FourPages(): seq<Key> { [Key(AAC, ABC), Key(ABCA, ABCD), Key(BBBA, BBBC), Key(BBBD, BBBF)] }

  function FourSplit(): Halves { Halves([0, 1], [2, 3], Key(AAC, ABCD), Key(BBBA, BBBF)) }

  lemma {:induction false} PrefixIs(a: Bytes, b: Bytes, n: nat)
    requires n < |a| && n < |b| && a[..n] == b[..n] && a[n] != b[n]
    ensures CommonPrefix(a, b) == n
  {
    if n > 0 {
      assert a[0] == a[..n][0] == b[..n][0] == b[0];
      assert a[1..][..n - 1] == a[..n][1..] == b[..n][1..] == b[1..][..n - 1];
      PrefixIs(a[1..], b[1..], n - 1);
    }
  }

  lemma BoundsOfTwo(k: Key, e: Key)
    requires Le(k.lower, e.lower) && Le(k.upper, e.upper) && k.upper != e.upper
    ensures Bounds([k, e]) == Key(k.lower, e.upper)
  {
    assert [k, e][..1] == [k];
    if Le(e.upper, k.upper) { LeAntisymmetric(k.upper, e.upper); }
  }

  lemma FourOrdered()
    ensures InSplitOrder(FourPages())
  {
    Differ(AAC, ABCA, 1);
    Differ(AAC, BBBA, 0);
    Differ(AAC, BBBD, 0);
    Differ(ABCA, BBBA, 0);
    Differ(ABCA, BBBD, 0);
    Differ(BBBA, BBBD, 3);
  }

  lemma FourCut()
    ensures Bounds([Key(AAC, ABC), Key(ABCA, ABCD)]) == Key(AAC, ABCD)
    ensures Bounds([Key(BBBA, BBBC), Key(BBBD, BBBF)]) == Key(BBBA, BBBF)
    ensures CommonPrefix(AAC, ABCD) == 1 && CommonPrefix(BBBA, BBBF) == 3
  {
    Differ(AAC, ABCA, 1);
    Longer(ABC, ABCD);
    BoundsOfTwo(Key(AAC, ABC), Key(ABCA, ABCD));
    Differ(BBBA, BBBD, 3);
    Differ(BBBC, BBBF, 3);
    BoundsOfTwo(Key(BBBA, BBBC), Key(BBBD, BBBF));
    PrefixIs(AAC, ABCD, 1);
    PrefixIs(BBBA, BBBF, 3);
  }

  lemma FourOffsets()
    ensures IsPermutation([0, 1, 2, 3], 4)
  {
    assert Elements([0, 1, 2, 3]) == Upto(4);
  }

  lemma FourIsSplit()
    ensures IsSplit(FourPages(), FourSplit())
  {
    hide InSplitOrder, IsPermutation, Bounds, CommonPrefix;
    var (entries, h) := (FourPages(), FourSplit());
    assert h.left + h.right == [0, 1, 2, 3];
    FourOffsets();
    assert Picked(entries, h.left) == [Key(AAC, ABC), Key(ABCA, ABCD)] && Picked(entries, h.right) == [Key(BBBA, BBBC), Key(BBBD, BBBF)];
    assert Picked(entries, h.left) + Picked(entries, h.right) == entries;
    FourOrdered();
    FourCut();
  }

  /**
   On an internal page the common cut can be wrong.  The right half's common prefix of three bytes keeps
   five bytes of the left half's bounds, so "abcz" is neither below "abcd" nor has it as prefix.
   */
  lemma InternalSplitMisses()
    ensures IsSplit(FourPages(), FourSplit())
    ensures FourPages()[0] == Union([Key(AAC, AAC), Key(ABCZ, ABCZ)]) && Passes(FourPages()[0], ABCZ)
    ensures !Consistent(FourSplit().lkey, ABCZ, Equal, false)
  {
    hide IsSplit, Union, Passes;
    FourIsSplit();
    FirstPage();
    Differ(ABCD, ABCZ, 3);
  }

  lemma FirstPage()
    ensures Key(AAC, ABC) == Union([Key(AAC, AAC), Key(ABCZ, ABCZ)]) && Passes(Key(AAC, ABC), ABCZ)
  {
    hide Passes, Effective, CommonPrefix;
    var keys := [Key(AAC, AAC), Key(ABCZ, ABCZ)];
    Differ(AAC, ABCZ, 1);
    BoundsOfTwo(keys[0], keys[1]);
    PrefixIs(AAC, ABCZ, 1);
    LeafPasses(AAC);
    LeafPasses(ABCZ);
    UnionPasses(keys, 1, ABCZ);
  }
}
