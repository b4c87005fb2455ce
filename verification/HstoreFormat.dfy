/**
 Lists of keys and values in the two hstore formats (contrib/hstore: hstore.h, hstore_compat.c): every list
 in order of key length is accepted in its format, and the upgrade takes the old form of a list to
 a value that reads as the same list.
 */
module HstoreFormat {
  import opened HstoreUpgrade

  type Byte = x: nat | x < 256

  type Bytes = seq<Byte>

  datatype Option<T> = None | Some(value: T)

  /** A null has no bytes; what stands in its length field is not defined. */
  datatype Value = Null(raw: nat) | Text(bytes: Bytes)

  datatype Entry = Entry(key: Bytes, value: Value)

  // ----- the list a value stands for -----

  function Plain(v: Value): Option<Bytes> { if v.Null? then None else Some(v.bytes) }

  function ValueBytes(v: Value): Bytes { if v.Null? then [] else v.bytes }

  function RawLen(v: Value): nat { if v.Null? then v.raw else |v.bytes| }

  /** Byte `b` of what follows the two header words. */
  function ByteAt(words: seq<nat>, b: nat): Byte {
    var w := Word(words, b / 4);
    (if b % 4 == 0 then w else if b % 4 == 1 then w / 256 else if b % 4 == 2 then w / 65536 else w / 16777216) % 256
  }

  /** `len` bytes of the text at `off`. */
  function ReadText(words: seq<nat>, count: nat, off: int, len: int): (r: Bytes)
    ensures |r| == if off >= 0 && len >= 0 then len else 0
  {
    if off >= 0 && len >= 0 then seq<Byte>(len, j requires 0 <= j < len => ByteAt(words, 8 * count + off + j)) else []
  }

  /** The key and value that a pair's place in the text holds. */
  function ReadPair(words: seq<nat>, count: nat, p: Pair): (Bytes, Option<Bytes>) {
    (ReadText(words, count, p.keyOff, p.keyLen), if p.isNull then None else Some(ReadText(words, count, p.valOff, p.valLen)))
  }

  /** The value read in the old format. */
  function OldList(words: seq<nat>, count: nat): (r: seq<(Bytes, Option<Bytes>)>)
    ensures |r| == count
  {
    seq(count, i requires 0 <= i < count => ReadPair(words, count, OldPair(words, i)))
  }

  /** The value read in the new format. */
  function NewList(words: seq<nat>, count: nat): (r: seq<(Bytes, Option<Bytes>)>)
    ensures |r| == count
  {
    seq(count, i requires 0 <= i < count => ReadPair(words, count, NewPair(words, i)))
  }

  function PlainList(es: seq<Entry>): (r: seq<(Bytes, Option<Bytes>)>)
    ensures |r| == |es|
  {
    seq(|es|, i requires 0 <= i < |es| => (es[i].key, Plain(es[i].value)))
  }

  // ----- the upgrade keeps the list -----

  lemma TextStays(words: seq<nat>, words': seq<nat>, count: nat, p: Pair)
    requires |words| == |words'| && forall k :: 2 * count <= k < |words| ==> words[k] == words'[k]
    ensures ReadPair(words, count, p) == ReadPair(words', count, p)
  {
    forall b: nat | b >= 8 * count ensures ByteAt(words, b) == ByteAt(words', b) {
      assert b / 4 >= 2 * count;
    }
    assert ReadText(words, count, p.keyOff, p.keyLen) == ReadText(words', count, p.keyOff, p.keyLen);
    assert ReadText(words, count, p.valOff, p.valLen) == ReadText(words', count, p.valOff, p.valLen);
  }

  /** An accepted old value reads, once rewritten, as the same list of keys, values and nulls. */
  lemma UpgradeKeepsList(varsize: nat, count: nat, words: seq<nat>)
    requires Accepted(varsize, count, words)
    ensures NewList(Rewritten(words, count), count) == OldList(words, count)
  {
    hide ValidOld, ReadPair, OldPair, NewPair;
    var w := Rewritten(words, count);
    forall i | 0 <= i < count ensures NewList(w, count)[i] == OldList(words, count)[i] {
      UpgradeKeepsPairs(varsize, count, words, i);
      TextStays(words, w, count, OldPair(words, i));
    }
  }

  // ----- packed text -----

  function ByteOr0(text: Bytes, j: nat): Byte { if j < |text| then text[j] else 0 }

  function PackedWord(text: Bytes, k: nat): nat {
    ByteOr0(text, 4 * k) + 256 * ByteOr0(text, 4 * k + 1) + 65536 * ByteOr0(text, 4 * k + 2) + 16777216 * ByteOr0(text, 4 * k + 3)
  }

  function Packed(text: Bytes): (r: seq<nat>)
    ensures |r| == (|text| + 3) / 4
  {
    seq((|text| + 3) / 4, k requires 0 <= k => PackedWord(text, k))
  }

  lemma Digits(b0: Byte, b1: Byte, b2: Byte, b3: Byte)
    ensures var w := b0 + 256 * b1 + 65536 * b2 + 16777216 * b3;
      w % 256 == b0 && w / 256 % 256 == b1 && w / 65536 % 256 == b2 && w / 16777216 % 256 == b3
  {
    var w := b0 + 256 * b1 + 65536 * b2 + 16777216 * b3;
    assert w / 256 == b1 + 256 * b2 + 65536 * b3;
    assert w / 65536 == b2 + 256 * b3;
    assert w / 16777216 == b3;
  }

  lemma PackedByte(text: Bytes, pre: seq<nat>, post: seq<nat>, j: nat)
    requires j < |text| && |pre| % 2 == 0
    ensures ByteAt(pre + Packed(text) + post, 4 * |pre| + j) == text[j]
  {
    var (words, k) := (pre + Packed(text) + post, j / 4);
    assert (4 * |pre| + j) / 4 == |pre| + k && (4 * |pre| + j) % 4 == j % 4;
    assert words[|pre| + k] == Packed(text)[k] == PackedWord(text, k);
    Digits(ByteOr0(text, 4 * k), ByteOr0(text, 4 * k + 1), ByteOr0(text, 4 * k + 2), ByteOr0(text, 4 * k + 3));
    assert j == 4 * k + j % 4;
  }

  // ----- the list in the old format -----

  /** The text of the first `n` entries: keys and values one after the other. */
  function TextOf(es: seq<Entry>, n: nat): Bytes
    requires n <= |es|
  {
    if n == 0 then [] else TextOf(es, n - 1) + es[n - 1].key + ValueBytes(es[n - 1].value)
  }

  lemma TextStep(es: seq<Entry>, n: nat)
    requires n <= |es|
    ensures TextOf(es, n) == if n == 0 then [] else TextOf(es, n - 1) + es[n - 1].key + ValueBytes(es[n - 1].value)
  {}

  function OldKeyWord(es: seq<Entry>, i: nat): nat
    requires i < |es|
  {
    |es[i].key| + 65536 * RawLen(es[i].value)
  }

  function OldPosWord(es: seq<Entry>, i: nat): nat
    requires i < |es|
  {
    2 * |TextOf(es, i)| + if es[i].value.Null? then 1 else 0
  }

  function OldEntries(es: seq<Entry>): (r: seq<nat>)
    ensures |r| == 2 * |es|
  {
    seq(2 * |es|, k requires 0 <= k < 2 * |es| => if k % 2 == 0 then OldKeyWord(es, k / 2) else OldPosWord(es, k / 2))
  }

  /** Entries, text, and whatever follows. */
  function OldForm(es: seq<Entry>, slack: seq<nat>): seq<nat> { OldEntries(es) + Packed(TextOf(es, |es|)) + slack }

  /** Lengths fit their fields, and keys are in order of length. */
  ghost predicate Listable(es: seq<Entry>) {
    && (forall i :: 0 <= i < |es| ==> |es[i].key| < 65536 && RawLen(es[i].value) < 65536)
    && (forall i :: 1 <= i < |es| ==> |es[i - 1].key| <= |es[i].key|)
  }

  lemma OldWords(es: seq<Entry>, slack: seq<nat>, i: nat)
    requires i < |es|
    ensures var words := OldForm(es, slack); Word(words, 2 * i) == OldKeyWord(es, i) && Word(words, 2 * i + 1) == OldPosWord(es, i)
  {
    var words := OldForm(es, slack);
    assert words[2 * i] == OldEntries(es)[2 * i] && words[2 * i + 1] == OldEntries(es)[2 * i + 1];
    assert (2 * i) / 2 == i && (2 * i + 1) / 2 == i;
  }

  lemma {:induction false} OldFields(es: seq<Entry>, slack: seq<nat>, i: nat)
    requires Listable(es) && i < |es|
    ensures var words := OldForm(es, slack);
      && KeyLen(words, i) == |es[i].key| && RawValLen(words, i) == RawLen(es[i].value) && OldPos(words, i) == |TextOf(es, i)|
      && (OldIsNull(words, i) <==> es[i].value.Null?) && ValLen(words, i) == |ValueBytes(es[i].value)|
  {
    hide OldForm, TextOf;
    OldWords(es, slack, i);
    TwoFields(|es[i].key|, RawLen(es[i].value));
  }

  lemma TwoFields(low: nat, high: nat)
    requires low < 65536
    ensures (low + 65536 * high) % 65536 == low && (low + 65536 * high) / 65536 == high
  {}

  lemma {:induction false} OldUsed(es: seq<Entry>, slack: seq<nat>, n: nat)
    requires Listable(es) && n <= |es|
    ensures Used(OldForm(es, slack), n) == |TextOf(es, n)|
  {
    hide OldForm, TextOf;
    if n > 0 {
      OldUsed(es, slack, n - 1);
      OldFields(es, slack, n - 1);
    }
    TextStep(es, n);
  }

  /** Every list in order of key length is accepted in the old format: exactly without slack, and with it. */
  lemma {:induction false} OldIsAccepted(es: seq<Entry>, slack: seq<nat>, varsize: nat)
    requires Listable(es) && 0 < |es| < COUNT_MOD && varsize >= DataSize(|es|, |TextOf(es, |es|)|)
    ensures ValidOld(varsize, |es|, OldForm(es, slack)) == if varsize == DataSize(|es|, |TextOf(es, |es|)|) then 2 else 1
  {
    hide OldForm, KeyLen, OldPos, Used;
    var words := OldForm(es, slack);
    forall i | 1 <= i < |es| ensures KeyLen(words, i - 1) <= KeyLen(words, i) {
      OldFields(es, slack, i - 1);
      OldFields(es, slack, i);
    }
    forall i | 0 <= i < |es| ensures OldPos(words, i) == Used(words, i) {
      OldFields(es, slack, i);
      OldUsed(es, slack, i);
    }
    assert Contiguous(words, |es|) && KeysGrow(words, |es|);
    OldUsed(es, slack, |es|);
  }

  /** The text of an entry stands behind that of the entries before it. */
  lemma {:induction false} TextBegins(es: seq<Entry>, i: nat, n: nat)
    requires i < n <= |es|
    ensures TextOf(es, i) + es[i].key + ValueBytes(es[i].value) <= TextOf(es, n)
  {
    hide TextOf;
    TextStep(es, n);
    if i < n - 1 {
      TextBegins(es, i, n - 1);
      StillBegins(TextOf(es, i) + es[i].key + ValueBytes(es[i].value), TextOf(es, n - 1), es[n - 1].key, ValueBytes(es[n - 1].value));
    }
  }

  lemma StillBegins(a: Bytes, b: Bytes, c: Bytes, d: Bytes)
    requires a <= b
    ensures a <= b + c + d
  {}

  lemma ReadIs(words: seq<nat>, count: nat, text: Bytes, off: nat, part: Bytes)
    requires forall j: nat :: j < |text| ==> ByteAt(words, 8 * count + j) == text[j]
    requires off + |part| <= |text| && text[off..off + |part|] == part
    ensures ReadText(words, count, off, |part|) == part
  {
    forall j | 0 <= j < |part| ensures ReadText(words, count, off, |part|)[j] == part[j] {
      assert part[j] == text[off + j];
      assert ByteAt(words, 8 * count + (off + j)) == text[off + j];
    }
  }

  lemma TextPacked(pre: seq<nat>, text: Bytes, post: seq<nat>, count: nat)
    requires |pre| == 2 * count
    ensures forall j: nat :: j < |text| ==> ByteAt(pre + Packed(text) + post, 8 * count + j) == text[j]
  {
    forall j: nat | j < |text| ensures ByteAt(pre + Packed(text) + post, 8 * count + j) == text[j] {
      PackedByte(text, pre, post, j);
    }
  }

  lemma {:induction false} PartsRead(es: seq<Entry>, words: seq<nat>, i: nat)
    requires i < |es| && forall j: nat :: j < |TextOf(es, |es|)| ==> ByteAt(words, 8 * |es| + j) == TextOf(es, |es|)[j]
    ensures var (at, e) := (|TextOf(es, i)|, es[i]);
      && ReadText(words, |es|, at, |e.key|) == e.key
      && ReadText(words, |es|, at + |e.key|, |ValueBytes(e.value)|) == ValueBytes(e.value)
  {
    hide ByteAt, ReadText;
    var (at, e, text) := (|TextOf(es, i)|, es[i], TextOf(es, |es|));
    TextBegins(es, i, |es|);
    var begin := TextOf(es, i) + e.key + ValueBytes(e.value);
    assert begin == text[..|begin|];
    assert text[at..at + |e.key|] == e.key by { assert begin[at..at + |e.key|] == e.key; }
    assert text[at + |e.key|..|begin|] == ValueBytes(e.value) by { assert begin[at + |e.key|..] == ValueBytes(e.value); }
    ReadIs(words, |es|, text, at, e.key);
    ReadIs(words, |es|, text, at + |e.key|, ValueBytes(e.value));
  }

  /** Where entry `i` stands in the text. */
  ghost function PlaceOf(es: seq<Entry>, i: nat): Pair
    requires i < |es|
  {
    var (at, e) := (|TextOf(es, i)|, es[i]);
    Pair(at, |e.key|, at + |e.key|, |ValueBytes(e.value)|, e.value.Null?)
  }

  lemma {:induction false} PlaceReads(es: seq<Entry>, words: seq<nat>, i: nat)
    requires i < |es| && forall j: nat :: j < |TextOf(es, |es|)| ==> ByteAt(words, 8 * |es| + j) == TextOf(es, |es|)[j]
    ensures ReadPair(words, |es|, PlaceOf(es, i)) == PlainList(es)[i]
  {
    hide ByteAt, ReadText, TextOf;
    PartsRead(es, words, i);
  }

  lemma OldPairIs(es: seq<Entry>, slack: seq<nat>, i: nat)
    requires Listable(es) && i < |es|
    ensures OldPair(OldForm(es, slack), i) == PlaceOf(es, i)
  {
    hide OldForm, TextOf, KeyLen, OldPos, OldIsNull, ValLen;
    OldFields(es, slack, i);
  }

  /** Reading back the old form gives the list. */
  lemma OldReads(es: seq<Entry>, slack: seq<nat>)
    requires Listable(es)
    ensures OldList(OldForm(es, slack), |es|) == PlainList(es)
  {
    hide OldPair, ReadPair, TextOf, ByteAt;
    var words := OldForm(es, slack);
    TextPacked(OldEntries(es), TextOf(es, |es|), slack, |es|);
    forall i | 0 <= i < |es| ensures OldList(words, |es|)[i] == PlainList(es)[i] {
      OldPairIs(es, slack, i);
      PlaceReads(es, words, i);
    }
  }

  /**
   The old form of every list that fits is converted, to a value that reads in the new format as the list;
   but if it is smaller than 32768 bytes and its first value is null with 32768 or more in its length field, it is left as it is.
   */
  lemma {:induction false} OldListUpgrades(es: seq<Entry>, slack: seq<nat>, varsize: nat)
    requires Listable(es) && 0 < |es| < COUNT_MOD && DataSize(|es|, |TextOf(es, |es|)|) <= varsize < POS_MOD
    ensures var words := OldForm(es, slack);
      && Decide(varsize, |es|, words) == (if varsize < 32768 && es[0].value.Null? && es[0].value.raw >= 32768 then Unchanged else Converted)
      && Accepted(varsize, |es|, words)
      && NewList(Rewritten(words, |es|), |es|) == PlainList(es)
  {
    hide Decide, ValidOld, OldForm, OldList, NewList, Rewritten;
    var words := OldForm(es, slack);
    OldIsAccepted(es, slack, varsize);
    OldFormLength(es, slack);
    OldFields(es, slack, 0);
    FirstWordFits(es, slack);
    ConvertedExactly(varsize, |es|, words);
    UpgradeKeepsList(varsize, |es|, words);
    OldReads(es, slack);
  }

  /** The count and the flag of a converted value can be told apart again, and another upgrade leaves it as it is. */
  lemma UpgradedOnce(count: nat, varsize: nat, words: seq<nat>)
    requires 0 < count < COUNT_MOD
    ensures var size := count + NEWVERSION;
      && size < 0x1_0000_0000 && size % COUNT_MOD == count && size >= 0x8000_0000
      && Decide(varsize, size, words) == Unchanged && ValidOld(varsize, size, words) == 0 && ValidNew(varsize, size, words) == 2
  {}

  lemma OldFormLength(es: seq<Entry>, slack: seq<nat>)
    ensures |OldForm(es, slack)| >= 2 * |es|
  {}

  lemma FirstWordFits(es: seq<Entry>, slack: seq<nat>)
    requires Listable(es) && es != []
    ensures Word(OldForm(es, slack), 0) < 0x1_0000_0000
  {
    OldWords(es, slack, 0);
  }

  // ----- the list in the new format -----

  function NewEntries(es: seq<Entry>): (r: seq<nat>)
    ensures |r| == 2 * |es|
  {
    seq(2 * |es|, k requires 0 <= k < 2 * |es| =>
      if k % 2 == 0 then Compose(|TextOf(es, k / 2)| + |es[k / 2].key|, false, k == 0)
      else Compose(|TextOf(es, k / 2 + 1)|, es[k / 2].value.Null?, false))
  }

  function NewForm(es: seq<Entry>, slack: seq<nat>): seq<nat> { NewEntries(es) + Packed(TextOf(es, |es|)) + slack }

  lemma {:induction false} TextGrows(es: seq<Entry>, m: nat, n: nat)
    requires m <= n <= |es|
    ensures |TextOf(es, m)| <= |TextOf(es, n)|
  {
    if m < n { TextGrows(es, m, n - 1); }
  }

  lemma NewWords(es: seq<Entry>, slack: seq<nat>, i: nat)
    requires i < |es|
    ensures var words := NewForm(es, slack);
      && Word(words, 2 * i) == Compose(|TextOf(es, i)| + |es[i].key|, false, i == 0)
      && Word(words, 2 * i + 1) == Compose(|TextOf(es, i + 1)|, es[i].value.Null?, false)
  {
    hide TextOf, Compose;
    var words := NewForm(es, slack);
    assert words[2 * i] == NewEntries(es)[2 * i] && words[2 * i + 1] == NewEntries(es)[2 * i + 1];
    assert (2 * i) / 2 == i && (2 * i + 1) / 2 == i;
  }

  lemma NewReadsAt(es: seq<Entry>, slack: seq<nat>, i: nat)
    requires i < |es| && |TextOf(es, |es|)| < POS_MOD
    ensures var words := NewForm(es, slack);
      && Reads(Word(words, 2 * i), |TextOf(es, i)| + |es[i].key|, false, i == 0)
      && Reads(Word(words, 2 * i + 1), |TextOf(es, i + 1)|, es[i].value.Null?, false)
  {
    hide NewForm, Compose;
    NewWords(es, slack, i);
    TextGrows(es, i + 1, |es|);
    ComposeReads(|TextOf(es, i)| + |es[i].key|, false, i == 0);
    ComposeReads(|TextOf(es, i + 1)|, es[i].value.Null?, false);
  }

  lemma {:induction false} NewPairIs(es: seq<Entry>, slack: seq<nat>, i: nat)
    requires i < |es| && |TextOf(es, |es|)| < POS_MOD
    ensures NewPair(NewForm(es, slack), i) == PlaceOf(es, i)
  {
    hide NewForm, NewPair, Reads;
    var w := NewForm(es, slack);
    NewReadsAt(es, slack, i);
    if i > 0 {
      NewReadsAt(es, slack, i - 1);
      assert 2 * i - 1 == 2 * (i - 1) + 1;
      PreviousEnd(w, i, |TextOf(es, i)|, es[i - 1].value.Null?);
    }
    PairReads(w, i, |TextOf(es, i)|, |TextOf(es, i)| + |es[i].key|, |TextOf(es, i + 1)|, es[i].value.Null?);
  }

  lemma PreviousEnd(w: seq<nat>, i: nat, end: nat, isNull: bool)
    requires i > 0 && Reads(Word(w, 2 * (i - 1) + 1), end, isNull, false)
    ensures EndPos(Word(w, 2 * i - 1)) == end
  {
    assert 2 * i - 1 == 2 * (i - 1) + 1;
  }

  /** Reading back the new form gives the list. */
  lemma {:induction false} NewReads(es: seq<Entry>, slack: seq<nat>)
    requires |TextOf(es, |es|)| < POS_MOD
    ensures NewList(NewForm(es, slack), |es|) == PlainList(es)
  {
    hide NewPair, ReadPair, TextOf, ByteAt;
    var words := NewForm(es, slack);
    TextPacked(NewEntries(es), TextOf(es, |es|), slack, |es|);
    forall i | 0 <= i < |es| ensures NewList(words, |es|)[i] == PlainList(es)[i] {
      NewPairIs(es, slack, i);
      PlaceReads(es, words, i);
    }
  }

  lemma {:induction false} NewEndsGrow(es: seq<Entry>, slack: seq<nat>)
    requires |TextOf(es, |es|)| < POS_MOD
    ensures EndsGrow(NewForm(es, slack), |es|)
  {
    hide NewForm, IsFirst, IsNull, EndPos;
    var w := NewForm(es, slack);
    forall k | 1 <= k < 2 * |es| ensures !IsFirst(Word(w, k)) && EndPos(Word(w, k - 1)) <= EndPos(Word(w, k)) {
      NewReadsAt(es, slack, k / 2);
      if k % 2 == 0 {
        NewReadsAt(es, slack, k / 2 - 1);
        assert k - 1 == 2 * (k / 2 - 1) + 1;
      } else {
        assert k == 2 * (k / 2) + 1;
      }
    }
  }

  lemma {:induction false} NewKeyLen(es: seq<Entry>, slack: seq<nat>, i: nat)
    requires i < |es| && |TextOf(es, |es|)| < POS_MOD
    ensures Len(NewForm(es, slack), 2 * i) == |es[i].key| && !IsNull(Word(NewForm(es, slack), 2 * i))
  {
    hide NewForm, IsFirst, IsNull, EndPos;
    NewPairIs(es, slack, i);
    NewReadsAt(es, slack, i);
  }

  /** Every list in order of key length is accepted in the new format, flagged or not: exactly without slack, and with it. */
  lemma {:induction false} NewIsAccepted(es: seq<Entry>, slack: seq<nat>, varsize: nat)
    requires Listable(es) && 0 < |es| < COUNT_MOD && DataSize(|es|, |TextOf(es, |es|)|) <= varsize && |TextOf(es, |es|)| < POS_MOD
    ensures ValidNew(varsize, |es|, NewForm(es, slack)) == if varsize == DataSize(|es|, |TextOf(es, |es|)|) then 2 else 1
  {
    hide NewForm, IsFirst, EndsGrow, NewKeysGrow, TextLen, TextOf;
    NewEndsGrow(es, slack);
    NewKeysInOrder(es, slack);
    NewStartsAndEnds(es, slack);
  }

  lemma {:induction false} NewKeysInOrder(es: seq<Entry>, slack: seq<nat>)
    requires Listable(es) && |TextOf(es, |es|)| < POS_MOD
    ensures NewKeysGrow(NewForm(es, slack), |es|)
  {
    hide NewForm, IsNull, Len, TextOf;
    var w := NewForm(es, slack);
    forall i | 1 <= i < |es| ensures NewKeyOk(w, i) {
      NewKeyLen(es, slack, i - 1);
      NewKeyLen(es, slack, i);
    }
  }

  lemma {:induction false} NewStartsAndEnds(es: seq<Entry>, slack: seq<nat>)
    requires es != [] && |TextOf(es, |es|)| < POS_MOD
    ensures IsFirst(Word(NewForm(es, slack), 0)) && TextLen(NewForm(es, slack), |es|) == |TextOf(es, |es|)|
  {
    hide NewForm, IsFirst, TextLen, TextOf;
    var n := |es| - 1;
    NewReadsAt(es, slack, 0);
    NewReadsAt(es, slack, n);
    LastWordEnds(NewForm(es, slack), n, |TextOf(es, n + 1)|, es[n].value.Null?);
  }
}
