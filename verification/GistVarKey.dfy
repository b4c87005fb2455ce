/**
 Variable-length keys of btree_gist, bytea instance (contrib/btree_gist/btree_utils_var.c and
 btree_bytea.c).

 Internal keys are a lower and an upper bound, both cut off two bytes after their common
 prefix, so an upper bound may be smaller than values below it.  What a key admits, unions
 admit, and no search strategy rejects.
 */
module GistVarKey {

  newtype Byte = x: int | 0 <= x < 256

  type Bytes = seq<Byte>

  // ----- byteacmp -----

  /** `byteacmp(a, b) <= 0`: `memcmp` over the common length, then the lengths. */
  predicate Le(a: Bytes, b: Bytes) {
    a == [] || (b != [] && (a[0] < b[0] || (a[0] == b[0] && Le(a[1..], b[1..]))))
  }

  predicate Lt(a: Bytes, b: Bytes) { Le(a, b) && a != b }

  lemma {:induction false} LeReflexive(a: Bytes)
    ensures Le(a, a)
  {
    if a != [] { LeReflexive(a[1..]); }
  }

  lemma {:induction false} LeTransitive(a: Bytes, b: Bytes, c: Bytes)
    requires Le(a, b) && Le(b, c)
    ensures Le(a, c)
  {
    if a != [] && a[0] == b[0] == c[0] { LeTransitive(a[1..], b[1..], c[1..]); }
  }

  lemma {:induction false} LeTotal(a: Bytes, b: Bytes)
    ensures Le(a, b) || Le(b, a)
  {
    if a != [] && b != [] { LeTotal(a[1..], b[1..]); }
  }

  lemma {:induction false} LeAntisymmetric(a: Bytes, b: Bytes)
    requires Le(a, b) && Le(b, a)
    ensures a == b
  {
    if a != [] {
      LeAntisymmetric(a[1..], b[1..]);
      assert a == [a[0]] + a[1..] && b == [b[0]] + b[1..];
    }
  }

  /** The first `n` bytes, or all there are. */
  function Take(a: Bytes, n: nat): (r: Bytes)
    ensures |r| <= n && |r| <= |a| && r == a[..|r|] && (|r| == n || |r| == |a|)
  {
    if n < |a| then a[..n] else a
  }

  lemma {:induction false} TakeMonotone(a: Bytes, b: Bytes, n: nat)
    requires Le(a, b)
    ensures Le(Take(a, n), Take(b, n))
  {
    if a != [] && n > 0 {
      assert Take(a, n)[1..] == Take(a[1..], n - 1);
      assert Take(b, n)[1..] == Take(b[1..], n - 1);
      if a[0] == b[0] { TakeMonotone(a[1..], b[1..], n - 1); }
    }
  }

  lemma {:induction false} TakeLe(a: Bytes, n: nat)
    ensures Le(Take(a, n), a)
  {
    if a != [] && n > 0 {
      assert Take(a, n)[1..] == Take(a[1..], n - 1);
      TakeLe(a[1..], n - 1);
    }
  }

  lemma TakeTake(a: Bytes, m: nat, n: nat)
    ensures Take(Take(a, m), n) == Take(a, if m < n then m else n)
  {}

  predicate IsPrefix(p: Bytes, a: Bytes) { |p| <= |a| && a[..|p|] == p }

  // ----- common prefix -----

  function CommonPrefix(a: Bytes, b: Bytes): (n: nat)
    ensures n <= |a| && n <= |b|
  {
    if a == [] || b == [] || a[0] != b[0] then 0 else 1 + CommonPrefix(a[1..], b[1..])
  }

  /** `gbt_var_node_cp_len` for single-byte data. */
  method NodeCpLen(lower: Bytes, upper: Bytes) returns (n: nat)
    ensures n == CommonPrefix(lower, upper)
  {
    var ml := if |lower| < |upper| then |lower| else |upper|;
    n := 0;
    while n < ml
      invariant n <= ml
      invariant n + CommonPrefix(lower[n..], upper[n..]) == CommonPrefix(lower, upper)
    {
      assert lower[n..][1..] == lower[n + 1..] && upper[n..][1..] == upper[n + 1..];
      if lower[n] != upper[n] {
        return;
      }
      n := n + 1;
    }
  }

  /** Whatever lies between two values shares their common prefix. */
  lemma {:induction false} PrefixBetween(a: Bytes, b: Bytes, c: Bytes, d: Bytes)
    requires Le(a, b) && Le(b, c) && Le(c, d)
    ensures CommonPrefix(a, d) <= CommonPrefix(b, c)
  {
    if a != [] && d != [] && a[0] == d[0] {
      PrefixBetween(a[1..], b[1..], c[1..], d[1..]);
    }
  }

  /** Cutting two bytes after the common prefix leaves it as it was. */
  lemma {:induction false} CutKeepsPrefix(a: Bytes, b: Bytes, n: nat)
    requires n >= CommonPrefix(a, b)
    ensures CommonPrefix(Take(a, n), Take(b, n)) == CommonPrefix(a, b)
  {
    if a != [] && b != [] && a[0] == b[0] {
      CutKeepsPrefix(a[1..], b[1..], n - 1);
      assert Take(a, n)[1..] == Take(a[1..], n - 1);
      assert Take(b, n)[1..] == Take(b[1..], n - 1);
    }
  }

  // ----- keys -----

  /** A readable key; leaf keys have both bounds equal to the value. */
  datatype Key = Key(lower: Bytes, upper: Bytes)

  /** `gbt_var_bin_union`: the bounds are only widened. */
  function BinUnion(u: Key, e: Key): Key {
    Key(if !Le(u.lower, e.lower) then e.lower else u.lower,
        if !Le(e.upper, u.upper) then e.upper else u.upper)
  }

  /** `gbt_var_node_truncate`. */
  function Truncate(k: Key, cpfLength: nat): Key { Key(Take(k.lower, cpfLength + 1), Take(k.upper, cpfLength + 1)) }

  /** The bounds over all entries, before the cut. */
  function Bounds(entries: seq<Key>): Key
    requires entries != []
  {
    if |entries| == 1 then entries[0] else BinUnion(Bounds(entries[..|entries| - 1]), entries[|entries| - 1])
  }

  function Union(entries: seq<Key>): Key
    requires entries != []
  {
    var out := Bounds(entries);
    Truncate(out, CommonPrefix(out.lower, out.upper) + 1)
  }

  /** `gbt_var_union`. */
  method VarUnion(entries: seq<Key>) returns (out: Key)
    requires entries != []
    ensures out == Union(entries)
  {
    out := entries[0];
    assert entries[..1] == [entries[0]];
    for i := 1 to |entries|
      invariant out == Bounds(entries[..i])
    {
      assert entries[..i + 1][..i] == entries[..i];
      var (lower, upper) := (out.lower, out.upper);
      if !Le(out.lower, entries[i].lower) {
        lower := entries[i].lower;
      }
      if !Le(entries[i].upper, out.upper) {
        upper := entries[i].upper;
      }
      out := Key(lower, upper);
    }
    assert entries[..|entries|] == entries;
    var plen := NodeCpLen(out.lower, out.upper);
    out := Truncate(out, plen + 1);
  }

  // ----- the invariant of internal keys -----

  /** Two bytes past the common prefix of the bounds: where `gbt_var_union` cuts. */
  function UnionCut(k: Key): nat { CommonPrefix(k.lower, k.upper) + 2 }

  /** At least that, and not less than the upper bound is long. */
  function Cut(k: Key): nat { if |k.upper| > UnionCut(k) then |k.upper| else UnionCut(k) }

  /** The value lies above the lower bound, and its first `n` bytes lie below the upper bound. */
  ghost predicate AdmitsAt(k: Key, v: Bytes, n: nat) { Le(k.lower, v) && Le(Take(v, n), k.upper) }

  /** The invariant that keeps searches sound. */
  ghost predicate Admits(k: Key, v: Bytes) { AdmitsAt(k, v, Cut(k)) }

  ghost predicate Ordered(k: Key) { Le(k.lower, k.upper) }

  lemma {:induction false} SelfPrefix(v: Bytes)
    ensures CommonPrefix(v, v) == |v|
  {
    if v != [] { SelfPrefix(v[1..]); }
  }

  lemma LeafKeyAdmits(v: Bytes)
    ensures Admits(Key(v, v), v) && Ordered(Key(v, v))
  {
    SelfPrefix(v);
    LeReflexive(v);
  }

  lemma FewerBytes(k: Key, v: Bytes, m: nat, n: nat)
    requires AdmitsAt(k, v, m) && n <= m
    ensures AdmitsAt(k, v, n)
  {
    TakeTake(v, m, n);
    TakeLe(Take(v, m), n);
    LeTransitive(Take(v, n), Take(v, m), k.upper);
  }

  /** Widening the bounds keeps a value admitted: the common prefix can only shrink. */
  lemma WiderAdmits(k: Key, w: Key, v: Bytes)
    requires AdmitsAt(k, v, UnionCut(k)) && Ordered(k) && Le(w.lower, k.lower) && Le(k.upper, w.upper)
    ensures AdmitsAt(w, v, UnionCut(w))
  {
    PrefixBetween(w.lower, k.lower, k.upper, w.upper);
    LeTransitive(w.lower, k.lower, v);
    FewerBytes(k, v, UnionCut(k), UnionCut(w));
    LeTransitive(Take(v, UnionCut(w)), k.upper, w.upper);
  }

  /** Cutting both bounds at `n` bytes keeps what was admitted up to there. */
  lemma CutAdmits(k: Key, v: Bytes, n: nat)
    requires AdmitsAt(k, v, n) && Ordered(k) && n >= UnionCut(k)
    ensures var c := Truncate(k, n - 1); Admits(c, v) && Ordered(c)
  {
    CutKeepsPrefix(k.lower, k.upper, n);
    TakeLe(k.lower, n);
    LeTransitive(Take(k.lower, n), k.lower, v);
    TakeMonotone(Take(v, n), k.upper, n);
    TakeTake(v, n, n);
    TakeMonotone(k.lower, k.upper, n);
    FewerBytes(Truncate(k, n - 1), v, n, Cut(Truncate(k, n - 1)));
  }

  lemma {:induction false} BoundsCover(entries: seq<Key>, i: nat)
    requires i < |entries| && forall j :: 0 <= j < |entries| ==> Ordered(entries[j])
    ensures var b := Bounds(entries); Le(b.lower, entries[i].lower) && Le(entries[i].upper, b.upper) && Le(b.lower, b.upper)
  {
    var n := |entries| - 1;
    var e := entries[n];
    LeReflexive(e.lower);
    LeReflexive(e.upper);
    if n > 0 {
      var f := Bounds(entries[..n]);
      var b := BinUnion(f, e);
      BoundsCover(entries[..n], if i < n then i else 0);
      UnionCovers(f, e);
      if i < n {
        LeTransitive(b.lower, f.lower, entries[i].lower);
        LeTransitive(entries[i].upper, f.upper, b.upper);
      }
    }
  }

  lemma UnionCovers(f: Key, e: Key)
    requires Le(e.lower, e.upper)
    ensures var b := BinUnion(f, e);
      Le(b.lower, f.lower) && Le(b.lower, e.lower) && Le(f.upper, b.upper) && Le(e.upper, b.upper) && Le(b.lower, b.upper)
  {
    var b := BinUnion(f, e);
    LeTotal(f.lower, e.lower);
    LeTotal(f.upper, e.upper);
    LeReflexive(f.lower);
    LeReflexive(f.upper);
    LeReflexive(e.lower);
    LeReflexive(e.upper);
    LeTransitive(b.lower, e.lower, e.upper);
    LeTransitive(b.lower, e.upper, b.upper);
  }

  /** A union admits whatever its entries admit. */
  lemma UnionAdmits(entries: seq<Key>, i: nat, v: Bytes)
    requires i < |entries| && Admits(entries[i], v)
    requires forall j :: 0 <= j < |entries| ==> Ordered(entries[j])
    ensures Admits(Union(entries), v) && Ordered(Union(entries))
  {
    var b := Bounds(entries);
    BoundsCover(entries, i);
    FewerBytes(entries[i], v, Cut(entries[i]), UnionCut(entries[i]));
    WiderAdmits(entries[i], b, v);
    CutAdmits(b, v, UnionCut(b));
  }

  /** Over leaf entries any longer cut will do as well, so `gbt_var_picksplit` may cut both halves alike. */
  lemma {:induction false} LeafSplitAdmits(entries: seq<Key>, i: nat, n: nat)
    requires i < |entries| && forall j :: 0 <= j < |entries| ==> entries[j].lower == entries[j].upper
    requires n >= UnionCut(Bounds(entries))
    ensures var c := Truncate(Bounds(entries), n - 1); Admits(c, entries[i].lower) && Ordered(c)
  {
    forall j | 0 <= j < |entries| ensures Ordered(entries[j]) { LeReflexive(entries[j].lower); }
    BoundsCover(entries, i);
    var (b, v) := (Bounds(entries), entries[i].lower);
    TakeLe(v, n);
    LeTransitive(Take(v, n), v, b.upper);
    CutAdmits(b, v, n);
  }

  // ----- gbt_var_consistent -----

  datatype Strategy = LessEqual | Less | Equal | Greater | GreaterEqual | NotEqual

  /** `gbt_var_node_pf_match`, with `trnc` true. */
  predicate PfMatch(k: Key, q: Bytes) { IsPrefix(k.lower, q) || IsPrefix(k.upper, q) }

  predicate Consistent(k: Key, q: Bytes, strategy: Strategy, isLeaf: bool) {
    match strategy
    case LessEqual => if isLeaf then Le(k.lower, q) else Le(k.lower, q) || PfMatch(k, q)
    case Less => if isLeaf then Lt(k.lower, q) else Le(k.lower, q) || PfMatch(k, q)
    case Equal => if isLeaf then q == k.lower else (Le(k.lower, q) && Le(q, k.upper)) || PfMatch(k, q)
    case Greater => if isLeaf then Lt(q, k.upper) else Le(q, k.upper) || PfMatch(k, q)
    case GreaterEqual => if isLeaf then Le(q, k.upper) else Le(q, k.upper) || PfMatch(k, q)
    case NotEqual => !(q == k.lower && q == k.upper)
  }

  /** What the operator of the strategy says of a value and a query, by the order of bytes alone. */
  predicate Satisfies(v: Bytes, q: Bytes, strategy: Strategy) {
    match strategy
    case LessEqual => Le(v, q)
    case Less => Le(v, q) && v != q
    case Equal => v == q
    case Greater => Le(q, v) && v != q
    case GreaterEqual => Le(q, v)
    case NotEqual => v != q
  }

  /** On leaf keys the test is the operator. */
  lemma LeafIsExact(v: Bytes, q: Bytes, strategy: Strategy)
    ensures Consistent(Key(v, v), q, strategy, true) <==> Satisfies(v, q, strategy)
  {}

  /** What lies between a value and one it is a prefix of has that prefix too. */
  lemma {:induction false} PrefixSqueezed(p: Bytes, q: Bytes, v: Bytes)
    requires IsPrefix(p, v) && Le(p, q) && Le(q, v)
    ensures IsPrefix(p, q)
  {
    if p != [] {
      assert v[1..][..|p| - 1] == v[..|p|][1..] == p[1..];
      PrefixSqueezed(p[1..], q[1..], v[1..]);
      assert q[..|p|] == [q[0]] + q[1..][..|p| - 1];
    }
  }

  /** A short upper bound between the first bytes of a value and the value is one of its prefixes. */
  lemma {:induction false} CutUpperIsPrefix(u: Bytes, v: Bytes, n: nat)
    requires |u| <= n && Le(Take(v, n), u) && Le(u, v)
    ensures IsPrefix(u, v)
  {
    if u != [] {
      assert Take(v, n)[1..] == Take(v[1..], n - 1);
      CutUpperIsPrefix(u[1..], v[1..], n - 1);
      assert v[..|u|] == [v[0]] + v[1..][..|u| - 1];
    }
  }

  /** A query not above an admitted value is not above the upper bound, or begins with it. */
  lemma {:induction false} BelowUpper(k: Key, v: Bytes, q: Bytes)
    requires Admits(k, v) && Le(q, v)
    ensures Le(q, k.upper) || PfMatch(k, q)
  {
    if !Le(q, k.upper) {
      LeTotal(q, k.upper);
      LeTransitive(k.upper, q, v);
      CutUpperIsPrefix(k.upper, v, Cut(k));
      PrefixSqueezed(k.upper, q, v);
    }
  }

  /** Equal bounds admit one value only. */
  lemma EqualBounds(k: Key, v: Bytes)
    requires Admits(k, v) && k.lower == k.upper
    ensures v == k.lower
  {
    SelfPrefix(k.lower);
    TakeMonotone(k.lower, v, Cut(k));
    LeAntisymmetric(k.lower, Take(v, Cut(k)));
  }

  /** No strategy rejects a key that admits a matching value. */
  lemma AdmittedIsFound(k: Key, v: Bytes, q: Bytes, strategy: Strategy)
    requires Admits(k, v) && Satisfies(v, q, strategy)
    ensures Consistent(k, q, strategy, false)
  {
    LeReflexive(v);
    match strategy
    case LessEqual => LeTransitive(k.lower, v, q);
    case Less => LeTransitive(k.lower, v, q);
    case Equal => BelowUpper(k, v, q);
    case Greater => BelowUpper(k, v, q);
    case GreaterEqual => BelowUpper(k, v, q);
    case NotEqual => if k.lower == k.upper { EqualBounds(k, v); }
  }

  lemma {:induction false} Differ(a: Bytes, b: Bytes, i: nat)
    requires i < |a| && i < |b| && a[..i] == b[..i] && a[i] < b[i]
    ensures Le(a, b) && !Le(b, a)
  {
    if i > 0 {
      assert a[0] == a[..i][0] == b[..i][0] == b[0];
      assert a[1..][..i - 1] == a[..i][1..] == b[..i][1..] == b[1..][..i - 1];
      Differ(a[1..], b[1..], i - 1);
    }
  }

  lemma {:induction false} Longer(a: Bytes, b: Bytes)
    requires |a| < |b| && b[..|a|] == a
    ensures Le(a, b) && !Le(b, a)
  {
    if a != [] {
      assert b[1..][..|a| - 1] == b[..|a|][1..] == a[1..];
      Longer(a[1..], b[1..]);
    }
  }
}
