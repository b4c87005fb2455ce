/**
 Bloom tuples, pages and the scan's test (contrib/bloom: bloom.h, blutils.c, blvacuum.c, blscan.c).
 */
module BloomPage {
  import opened BloomSignature
  import opened Sorting

  /** Block and offset of a heap tuple. */
  datatype Tid = Tid(block: nat, offset: nat)

  /** `op` names the insert that made the tuple: a history tag, not part of the stored bytes. */
  datatype Tuple = Tuple(tid: Tid, sign: Signature, op: nat)

  // ----- sizes -----

  const BLCKSZ := 8192
  const PAGE_HEADER := 24
  const OPAQUE := 8
  const TUPLE_HEADER := 6

  /** `sizeOfBloomTuple` for signatures of `length` words. */
  function TupleSize(length: nat): nat { TUPLE_HEADER + 2 * length }

  /** `BloomPageGetFreeSpace`. */
  function FreeSpace(length: nat, maxoff: nat): int {
    BLCKSZ - PAGE_HEADER - maxoff * TupleSize(length) - OPAQUE
  }

  /** `BloomPageAddItem` has room for one more. */
  predicate Fits(length: nat, maxoff: nat) { FreeSpace(length, maxoff) >= TupleSize(length) }

  lemma EmptyPageFits(length: nat)
    requires length <= 256
    ensures Fits(length, 0)
  {}

  // ----- forming tuples and scan signatures -----

  /** Options, number of columns, the columns' hash functions and the equality of each column's opclass. */
  datatype Index = Index(opts: Options, nColumns: nat, hash: (nat, int) -> Uint32, eq: (nat, int, int) -> bool) {
    ghost predicate Valid() {
      && opts.Valid() && nColumns <= INDEX_MAX_KEYS
      && (forall i, v, w :: eq(i, v, w) ==> hash(i, v) == hash(i, w))
    }

    predicate CanSign(column: nat, v: int) { column < INDEX_MAX_KEYS && Signable(column, hash(column, v)) }

    /** The bits of a value in a column. */
    ghost function Bits(): (nat, int) -> set<int>
      requires opts.Valid()
    {
      (column: nat, v: int) => if column < INDEX_MAX_KEYS then ValueBits(opts, column, hash(column, v)) else {}
    }
  }

  /** The bits of the non-null values among the first `n`. */
  ghost function RowBits(bits: (nat, int) -> set<int>, values: seq<Option<int>>, n: nat): set<int>
    requires n <= |values|
  {
    if n == 0 then {}
    else RowBits(bits, values, n - 1) + if values[n - 1].Some? then bits(n - 1, values[n - 1].value) else {}
  }

  /** The tuple carries exactly the bits of the row. */
  ghost predicate IsTupleOf(index: Index, t: Tuple, tid: Tid, values: seq<Option<int>>)
    requires index.Valid()
  {
    && t.tid == tid && |t.sign| == index.opts.bloomLength
    && BitsOf(t.sign) == RowBits(index.Bits(), values, |values|)
  }

  /** No value of the row, or key of the scan, meets one of the two bad seeds. */
  ghost predicate RowSignable(index: Index, values: seq<Option<int>>, n: nat)
    requires n <= |values|
  {
    n == 0 || (RowSignable(index, values, n - 1) && (values[n - 1].Some? ==> index.CanSign(n - 1, values[n - 1].value)))
  }

  ghost predicate KeysSignable(index: Index, keys: seq<ScanKey>, n: nat)
    requires n <= |keys|
  {
    n == 0 || (KeysSignable(index, keys, n - 1) && (keys[n - 1].value.Some? ==> index.CanSign(keys[n - 1].column, keys[n - 1].value.value)))
  }

  method SignColumn(index: Index, gen: Generator, sign: array<Word>, column: nat, v: int) returns (defined: bool)
    requires index.Valid() && sign.Length == index.opts.bloomLength && column < INDEX_MAX_KEYS
    modifies gen, sign
    ensures defined == index.CanSign(column, v)
    ensures defined ==> BitsOf(sign[..]) == old(BitsOf(sign[..])) + index.Bits()(column, v)
  {
    defined := SignValue(index.opts, gen, sign, column, index.hash(column, v));
  }

  method EmptySignature(length: nat) returns (sign: array<Word>)
    ensures fresh(sign) && sign.Length == length && BitsOf(sign[..]) == {}
  {
    sign := new Word[length](_ => ZERO);
  }

  /** The signature so far, if every bit set has a number. */
  ghost predicate RowSigned(index: Index, sign: Signature, values: seq<Option<int>>, i: nat, defined: bool)
    requires index.Valid() && i <= |values|
  {
    defined == RowSignable(index, values, i) && (defined ==> BitsOf(sign) == RowBits(index.Bits(), values, i))
  }

  method SignRowColumn(index: Index, gen: Generator, sign: array<Word>, values: seq<Option<int>>, i: nat, defined0: bool) returns (defined: bool)
    requires index.Valid() && sign.Length == index.opts.bloomLength && i < |values| <= INDEX_MAX_KEYS
    requires RowSigned(index, sign[..], values, i, defined0)
    modifies gen, sign
    ensures RowSigned(index, sign[..], values, i + 1, defined)
  {
    defined := defined0;
    if values[i].Some? {
      var ok := SignColumn(index, gen, sign, i, values[i].value);
      defined := defined && ok;
    }
  }

  /** `BloomFormTuple`; `defined` is false when a value meets one of the two bad seeds. */
  method FormTuple(index: Index, gen: Generator, tid: Tid, values: seq<Option<int>>, op: nat) returns (t: Tuple, defined: bool)
    requires index.Valid() && |values| == index.nColumns
    modifies gen
    ensures defined == RowSignable(index, values, |values|)
    ensures defined ==> IsTupleOf(index, t, tid, values) && t.op == op
  {
    var sign := EmptySignature(index.opts.bloomLength);
    defined := true;
    for i := 0 to |values|
      invariant RowSigned(index, sign[..], values, i, defined)
    {
      defined := SignRowColumn(index, gen, sign, values, i, defined);
    }
    t := Tuple(tid, sign[..], op);
  }

  /** An equality condition on a column; the value may be null. */
  datatype ScanKey = ScanKey(column: nat, value: Option<int>)

  ghost function KeyBits(bits: (nat, int) -> set<int>, keys: seq<ScanKey>, n: nat): set<int>
    requires n <= |keys|
  {
    if n == 0 then {}
    else KeyBits(bits, keys, n - 1) + if keys[n - 1].value.Some? then bits(keys[n - 1].column, keys[n - 1].value.value) else {}
  }

  ghost predicate KeysSigned(index: Index, sign: Signature, keys: seq<ScanKey>, i: nat, defined: bool)
    requires index.Valid() && i <= |keys|
  {
    defined == KeysSignable(index, keys, i) && (defined ==> BitsOf(sign) == KeyBits(index.Bits(), keys, i))
  }

  method SignKey(index: Index, gen: Generator, sign: array<Word>, keys: seq<ScanKey>, i: nat, defined0: bool) returns (defined: bool)
    requires index.Valid() && sign.Length == index.opts.bloomLength && i < |keys| && keys[i].value.Some? && keys[i].column < INDEX_MAX_KEYS
    requires KeysSigned(index, sign[..], keys, i, defined0)
    modifies gen, sign
    ensures KeysSigned(index, sign[..], keys, i + 1, defined)
  {
    var ok := SignColumn(index, gen, sign, keys[i].column, keys[i].value.value);
    defined := defined0 && ok;
  }

  /** The number of keys before the first null. */
  function Leading(keys: seq<ScanKey>, i: nat): (n: nat)
    requires i <= |keys|
    ensures i <= n <= |keys|
    decreases |keys| - i
  {
    if i < |keys| && keys[i].value.Some? then Leading(keys, i + 1) else i
  }

  ghost predicate SomeNull(keys: seq<ScanKey>, i: nat) { exists k :: i <= k < |keys| && keys[k].value.None? }

  lemma {:induction false} LeadingStops(keys: seq<ScanKey>, i: nat)
    requires i <= |keys|
    ensures Leading(keys, i) < |keys| <==> SomeNull(keys, i)
    decreases |keys| - i
  {
    if i < |keys| && keys[i].value.Some? { LeadingStops(keys, i + 1); }
  }

  /** The head of `blgetbitmap`: the scan's signature, or nothing when a key is null; `defined` is false when a
      key before the first null meets one of the two bad seeds. */
  method ScanSignature(index: Index, gen: Generator, keys: seq<ScanKey>) returns (r: Option<Signature>, defined: bool)
    requires index.Valid() && forall i :: 0 <= i < |keys| ==> keys[i].column < INDEX_MAX_KEYS
    modifies gen
    ensures r.None? <==> SomeNull(keys, 0)
    ensures defined == KeysSignable(index, keys, Leading(keys, 0))
    ensures r.Some? ==> |r.value| == index.opts.bloomLength && KeysSigned(index, r.value, keys, |keys|, defined)
  {
    var sign := EmptySignature(index.opts.bloomLength);
    var i;
    i, defined := SignKeys(index, gen, sign, keys);
    LeadingStops(keys, 0);
    r := None;
    if i == |keys| {
      var s := sign[..];
      assert KeysSigned(index, s, keys, |keys|, defined);
      r := Some(s);
    }
  }

  method SignKeys(index: Index, gen: Generator, sign: array<Word>, keys: seq<ScanKey>) returns (i: nat, defined: bool)
    requires index.Valid() && forall i :: 0 <= i < |keys| ==> keys[i].column < INDEX_MAX_KEYS
    requires sign.Length == index.opts.bloomLength && BitsOf(sign[..]) == {}
    modifies gen, sign
    ensures i == Leading(keys, 0) && KeysSigned(index, sign[..], keys, i, defined)
  {
    i, defined := 0, true;
    while i < |keys| && keys[i].value.Some?
      invariant i <= |keys| && Leading(keys, 0) == Leading(keys, i)
      invariant KeysSigned(index, sign[..], keys, i, defined)
    {
      defined := SignKey(index, gen, sign, keys, i, defined);
      i := i + 1;
    }
  }

  /** Every key's column holds a value equal to the key, and no key is null. */
  ghost predicate Matches(index: Index, keys: seq<ScanKey>, values: seq<Option<int>>) {
    forall i :: 0 <= i < |keys| ==>
      && keys[i].value.Some? && keys[i].column < |values| && values[keys[i].column].Some?
      && index.eq(keys[i].column, values[keys[i].column].value, keys[i].value.value)
  }

  lemma {:induction false} RowBitsHold(bits: (nat, int) -> set<int>, values: seq<Option<int>>, n: nat, i: nat)
    requires i < n <= |values| && values[i].Some?
    ensures bits(i, values[i].value) <= RowBits(bits, values, n)
  {
    if i < n - 1 { RowBitsHold(bits, values, n - 1, i); }
  }

  lemma {:induction false} MatchBits(bits: (nat, int) -> set<int>, keys: seq<ScanKey>, values: seq<Option<int>>, n: nat)
    requires n <= |keys|
    requires forall i :: 0 <= i < |keys| ==>
      && keys[i].value.Some? && keys[i].column < |values| && values[keys[i].column].Some?
      && bits(keys[i].column, values[keys[i].column].value) == bits(keys[i].column, keys[i].value.value)
    ensures KeyBits(bits, keys, n) <= RowBits(bits, values, |values|)
  {
    if n > 0 {
      MatchBits(bits, keys, values, n - 1);
      RowBitsHold(bits, values, |values|, keys[n - 1].column);
    }
  }

  lemma EqualValuesSameBits(index: Index, column: nat, v: int, w: int)
    requires index.Valid() && index.eq(column, v, w)
    ensures index.Bits()(column, v) == index.Bits()(column, w)
  {}

  /** A row that satisfies the keys passes the scan's test. */
  lemma {:induction false} MatchingRowIsCovered(index: Index, keys: seq<ScanKey>, values: seq<Option<int>>, t: Tuple, tid: Tid, q: Signature)
    requires index.Valid() && Matches(index, keys, values) && IsTupleOf(index, t, tid, values)
    requires |q| == index.opts.bloomLength && BitsOf(q) == KeyBits(index.Bits(), keys, |keys|)
    ensures Covers(t.sign, q)
  {
    forall i | 0 <= i < |keys|
      ensures index.Bits()(keys[i].column, values[keys[i].column].value) == index.Bits()(keys[i].column, keys[i].value.value)
    {
      EqualValuesSameBits(index, keys[i].column, values[keys[i].column].value, keys[i].value.value);
    }
    MatchBits(index.Bits(), keys, values, |keys|);
    CoversIsInclusion(t.sign, q);
  }

  /** The word loop with its early exit. */
  method TestTuple(t: Signature, q: Signature) returns (res: bool)
    requires |t| == |q|
    ensures res == Covers(t, q)
  {
    for i := 0 to |q|
      invariant forall w :: 0 <= w < i ==> And(t[w], q[w]) == q[w]
    {
      if And(t[i], q[i]) != q[i] {
        return false;
      }
    }
    res := true;
  }

  // ----- filtering -----

  /** What vacuum leaves of a page. */
  function Kept(s: seq<Tuple>, dead: set<Tid>): (r: seq<Tuple>)
    ensures |r| <= |s|
  {
    if s == [] then []
    else if s[|s| - 1].tid in dead then Kept(s[..|s| - 1], dead)
    else Kept(s[..|s| - 1], dead) + [s[|s| - 1]]
  }

  lemma {:induction false} KeptNone(s: seq<Tuple>, dead: set<Tid>)
    ensures Kept(s[..0], dead) == []
  {}

  lemma {:induction false} KeptNext(s: seq<Tuple>, dead: set<Tid>, i: nat)
    requires i < |s|
    ensures Kept(s[..i + 1], dead) == Kept(s[..i], dead) + if s[i].tid in dead then [] else [s[i]]
  {
    assert s[..i + 1][..i] == s[..i];
  }

  /** What it takes away. */
  function Dropped(s: seq<Tuple>, dead: set<Tid>): seq<Tuple> {
    if s == [] then []
    else if s[|s| - 1].tid in dead then Dropped(s[..|s| - 1], dead) + [s[|s| - 1]]
    else Dropped(s[..|s| - 1], dead)
  }

  lemma MultisetAppend(s: seq<Tuple>, t: Tuple)
    ensures multiset(s + [t]) == multiset(s) + multiset{t}
  {}

  lemma {:induction false} KeptAndDropped(s: seq<Tuple>, dead: set<Tid>)
    ensures multiset(Kept(s, dead)) + multiset(Dropped(s, dead)) == multiset(s)
  {
    if s != [] {
      var (front, last) := (s[..|s| - 1], s[|s| - 1]);
      KeptAndDropped(front, dead);
      assert s == front + [last];
      MultisetAppend(front, last);
      MultisetAppend(Kept(front, dead), last);
      MultisetAppend(Dropped(front, dead), last);
    }
  }

  /** When as many remain as there were, nothing was dropped. */
  lemma {:induction false} NothingDropped(s: seq<Tuple>, dead: set<Tid>)
    requires |Kept(s, dead)| == |s|
    ensures Kept(s, dead) == s && Dropped(s, dead) == []
  {
    if s != [] {
      NothingDropped(s[..|s| - 1], dead);
      assert s == s[..|s| - 1] + [s[|s| - 1]];
    }
  }

  /** Exactly the dead tuples go. */
  lemma {:induction false} KeptExactly(s: seq<Tuple>, dead: set<Tid>, t: Tuple)
    ensures t in Kept(s, dead) <==> t in s && t.tid !in dead
    ensures t in Dropped(s, dead) <==> t in s && t.tid in dead
  {
    if s != [] {
      KeptExactly(s[..|s| - 1], dead, t);
      assert s == s[..|s| - 1] + [s[|s| - 1]];
    }
  }

  // ----- a page in a buffer -----

  class PageBuffer {
    const length: nat          // words per signature
    const data: array<Tuple>   // room for as many tuples as fit
    var maxoff: nat
    var deleted: bool
    var lower: nat             // pd_lower

    ghost predicate Valid()
      reads this
    {
      && 1 <= length <= 256
      && maxoff <= data.Length && data.Length * TupleSize(length) <= BLCKSZ - PAGE_HEADER - OPAQUE
      && !(data.Length * TupleSize(length) + TupleSize(length) <= BLCKSZ - PAGE_HEADER - OPAQUE)
      && lower == PAGE_HEADER + maxoff * TupleSize(length)
    }

    ghost function Contents(): seq<Tuple>
      requires Valid()
      reads this, data
    {
      data[..maxoff]
    }

    /** `BloomInitPage(page, 0)`. */
    constructor (length: nat, filler: Tuple)
      requires 1 <= length <= 256
      ensures Valid() && fresh(data) && Contents() == [] && !deleted && this.length == length
    {
      this.length := length;
      var size := TupleSize(length);
      data := new Tuple[(BLCKSZ - PAGE_HEADER - OPAQUE) / size](_ => filler);
      maxoff, deleted, lower := 0, false, PAGE_HEADER;
    }

    lemma RoomIffFits()
      requires Valid()
      ensures Fits(length, maxoff) <==> maxoff < data.Length
    {
      var size := TupleSize(length);
      if maxoff < data.Length {
        assert (maxoff + 1) * size <= data.Length * size;
      }
    }

    /** `BloomPageAddItem`. */
    method AddItem(t: Tuple) returns (added: bool)
      requires Valid()
      modifies this`maxoff, this`lower, data
      ensures Valid() && added == old(Fits(length, maxoff))
      ensures Contents() == if added then old(Contents()) + [t] else old(Contents())
    {
      RoomIffFits();
      if FreeSpace(length, maxoff) < TupleSize(length) {
        return false;
      }
      data[maxoff] := t;
      maxoff := maxoff + 1;
      lower := PAGE_HEADER + maxoff * TupleSize(length);
      added := true;
    }

    /** The tuple loop of `blbulkdelete`: compaction in place with two pointers. */
    method Vacuum(dead: set<Tid>) returns (changed: bool)
      requires Valid()
      modifies this, data
      ensures Valid() && Contents() == Kept(old(Contents()), dead)
      ensures changed == (|Kept(old(Contents()), dead)| != |old(Contents())|)
      ensures deleted == (old(deleted) || (changed && Contents() == []))
    {
      hide Kept;
      ghost var was := Contents();
      KeptNone(was, dead);
      var count := maxoff;
      var itup, itupPtr := 0, 0;
      while itup < count
        invariant itupPtr <= itup <= count == |was| <= data.Length
        invariant maxoff == count - (itup - itupPtr)
        invariant data[..itupPtr] == Kept(was[..itup], dead)
        invariant data[itup..count] == was[itup..]
        invariant deleted == old(deleted)
      {
        assert data[itup] == data[itup..count][0] == was[itup];
        KeptNext(was, dead, itup);
        assert data[itup + 1..count] == data[itup..count][1..];
        if data[itup].tid in dead {
          maxoff := maxoff - 1;
        } else {
          MoveDown(itupPtr, itup, count);
          itupPtr := itupPtr + 1;
        }
        itup := itup + 1;
      }
      assert was[..count] == was;
      changed := itupPtr != itup;
      if changed && maxoff == 0 {
        deleted := true;
      }
      lower := PAGE_HEADER + itupPtr * TupleSize(length);
    }

    /** `memmove` of one tuple, skipped when it is already in place. */
    method MoveDown(to: nat, from: nat, count: nat)
      requires to <= from < count <= data.Length
      modifies data
      ensures data[..to + 1] == old(data[..to]) + [old(data[from])]
      ensures data[from + 1..count] == old(data[from + 1..count])
    {
      if to != from {
        data[to] := data[from];
      }
    }
  }
}
