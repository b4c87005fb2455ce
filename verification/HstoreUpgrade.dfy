/**
 The in-place upgrade of old hstore values (contrib/hstore: hstore.h, hstore_compat.c).

 A value is its varlena size, the word `size_`, and the words that follow: two per pair, then
 the text.  Words are unsigned 32-bit numbers; bit fields are read off by division.  Lengths
 are summed without bound here: where the C int would wrap, both stop with "not valid".
 */
module HstoreUpgrade {

  const POS_MOD: nat := 0x4000_0000
  const ISNULL: nat := 0x4000_0000
  const ISFIRST: nat := 0x8000_0000
  const NEWVERSION: nat := 0x8000_0000
  const COUNT_MOD: nat := 0x1000_0000

  // ----- words -----

  function Word(words: seq<nat>, i: nat): nat { if i < |words| then words[i] else 0 }

  /** `HSE_ISFIRST`, `HSE_ISNULL`, `HSE_ENDPOS`. */
  predicate IsFirst(w: nat) { w / ISFIRST % 2 == 1 }

  predicate IsNull(w: nat) { w / ISNULL % 2 == 1 }

  function EndPos(w: nat): nat { w % POS_MOD }

  /** `HSE_OFF` and `HSE_LEN` of the entry at index `k`. */
  function Off(words: seq<nat>, k: nat): nat {
    if k == 0 || IsFirst(Word(words, k)) then 0 else EndPos(Word(words, k - 1))
  }

  function Len(words: seq<nat>, k: nat): int { EndPos(Word(words, k)) - Off(words, k) }

  /** `CALCDATASIZE`. */
  function DataSize(count: nat, text: nat): nat { count * 8 + 8 + text }

  // ----- old entries: keylen:16 vallen:16, isnull:1 pos:31, little endian -----

  function KeyLen(words: seq<nat>, i: nat): nat { Word(words, 2 * i) % 65536 }

  function RawValLen(words: seq<nat>, i: nat): nat { Word(words, 2 * i) / 65536 }

  predicate OldIsNull(words: seq<nat>, i: nat) { Word(words, 2 * i + 1) % 2 == 1 }

  function OldPos(words: seq<nat>, i: nat): nat { Word(words, 2 * i + 1) / 2 }

  function ValLen(words: seq<nat>, i: nat): nat { if OldIsNull(words, i) then 0 else RawValLen(words, i) }

  /** Text used by the first `n` pairs. */
  function Used(words: seq<nat>, n: nat): nat {
    if n == 0 then 0 else Used(words, n - 1) + KeyLen(words, n - 1) + ValLen(words, n - 1)
  }

  // ----- content -----

  /** Where a pair's key and value lie in the text. */
  datatype Pair = Pair(keyOff: int, keyLen: int, valOff: int, valLen: int, isNull: bool)

  function OldPair(words: seq<nat>, i: nat): Pair {
    Pair(OldPos(words, i), KeyLen(words, i), OldPos(words, i) + KeyLen(words, i), ValLen(words, i), OldIsNull(words, i))
  }

  function NewPair(words: seq<nat>, i: nat): Pair {
    Pair(Off(words, 2 * i), Len(words, 2 * i), Off(words, 2 * i + 1), Len(words, 2 * i + 1), IsNull(Word(words, 2 * i + 1)))
  }

  // ----- validity of the old format -----

  ghost predicate KeysGrow(words: seq<nat>, count: nat) {
    forall i :: 1 <= i < count ==> KeyLen(words, i - 1) <= KeyLen(words, i)
  }

  ghost predicate Contiguous(words: seq<nat>, count: nat) {
    forall i {:trigger OldPos(words, i)} :: 0 <= i < count ==> OldPos(words, i) == Used(words, i)
  }

  /** `hstoreValidOldFormat`: 0 not valid, 1 valid with slack, 2 exactly valid. */
  ghost function ValidOld(varsize: nat, size: nat, words: seq<nat>): int {
    if size >= NEWVERSION then 0
    else if size == 0 then 2
    else if size >= COUNT_MOD || DataSize(size, 0) > varsize then 0
    else if !KeysGrow(words, size) || !Contiguous(words, size) || DataSize(size, Used(words, size)) > varsize then 0
    else if DataSize(size, Used(words, size)) != varsize then 1
    else 2
  }

  method HstoreValidOldFormat(varsize: nat, size: nat, words: seq<nat>) returns (r: int)
    ensures r == ValidOld(varsize, size, words)
  {
    if size >= NEWVERSION { return 0; }
    if size == 0 { return 2; }
    if size >= COUNT_MOD { return 0; }
    if DataSize(size, 0) > varsize { return 0; }
    if OldPos(words, 0) != 0 {
      assert Used(words, 0) == 0;
      return 0;
    }
    for i := 1 to size
      invariant forall k :: 1 <= k < i ==> KeyLen(words, k - 1) <= KeyLen(words, k)
    {
      if KeyLen(words, i) < KeyLen(words, i - 1) { return 0; }
    }
    var lastpos := 0;
    for i := 0 to size
      invariant lastpos == Used(words, i) && Contiguous(words, i)
    {
      if OldPos(words, i) != lastpos { return 0; }
      lastpos := lastpos + KeyLen(words, i) + ValLen(words, i);
    }
    var vsize := DataSize(size, lastpos);
    if vsize > varsize { return 0; }
    if vsize != varsize { return 1; }
    r := 2;
  }

  // ----- validity of the new format -----

  ghost predicate EndsGrow(words: seq<nat>, count: nat) {
    forall i :: 1 <= i < 2 * count ==> !IsFirst(Word(words, i)) && EndPos(Word(words, i - 1)) <= EndPos(Word(words, i))
  }

  ghost predicate NewKeysGrow(words: seq<nat>, count: nat) {
    forall i :: 1 <= i < count ==> NewKeyOk(words, i)
  }

  predicate NewKeyOk(words: seq<nat>, i: nat) {
    i >= 1 ==> Len(words, 2 * (i - 1)) <= Len(words, 2 * i) && !IsNull(Word(words, 2 * i))
  }

  function TextLen(words: seq<nat>, count: nat): nat { if count == 0 then 0 else EndPos(Word(words, 2 * count - 1)) }

  /** The structural checks of `hstoreValidNewFormat`, past the tests of flag and count. */
  ghost function NewChecks(varsize: nat, count: nat, words: seq<nat>): int {
    var vsize := DataSize(count, TextLen(words, count));
    if !IsFirst(Word(words, 0)) || vsize > varsize then 0
    else if !EndsGrow(words, count) || !NewKeysGrow(words, count) then 0
    else if vsize != varsize then 1
    else 2
  }

  ghost function ValidNew(varsize: nat, size: nat, words: seq<nat>): int {
    if size >= NEWVERSION || size % COUNT_MOD == 0 then 2 else NewChecks(varsize, size % COUNT_MOD, words)
  }

  method HstoreValidNewFormat(varsize: nat, size: nat, words: seq<nat>) returns (r: int)
    ensures r == ValidNew(varsize, size, words)
  {
    hide IsFirst, IsNull, EndPos, Off;
    var count := size % COUNT_MOD;
    var vsize := DataSize(count, TextLen(words, count));
    if size >= NEWVERSION || count == 0 { return 2; }
    if !IsFirst(Word(words, 0)) { return 0; }
    if vsize > varsize { return 0; }
    for i := 1 to 2 * count
      invariant forall k :: 1 <= k < i ==> !IsFirst(Word(words, k)) && EndPos(Word(words, k - 1)) <= EndPos(Word(words, k))
    {
      if IsFirst(Word(words, i)) || EndPos(Word(words, i)) < EndPos(Word(words, i - 1)) { return 0; }
    }
    for i := 1 to count
      invariant forall k :: 1 <= k < i ==> NewKeyOk(words, k)
    {
      assert NewKeyOk(words, i) <==> Len(words, 2 * (i - 1)) <= Len(words, 2 * i) && !IsNull(Word(words, 2 * i));
      if Len(words, 2 * i) < Len(words, 2 * (i - 1)) { return 0; }
      if IsNull(Word(words, 2 * i)) { return 0; }
    }
    r := if vsize != varsize then 1 else 2;
  }

  // ----- the rewrite -----

  /** A new-format word from its parts. */
  function Compose(end: nat, isNull: bool, isFirst: bool): nat {
    end + (if isNull then ISNULL else 0) + (if isFirst then ISFIRST else 0)
  }

  lemma ComposeReads(end: nat, isNull: bool, isFirst: bool)
    requires end < POS_MOD
    ensures var w := Compose(end, isNull, isFirst);
      EndPos(w) == end && IsNull(w) == isNull && IsFirst(w) == isFirst
  {}

  function NewKeyWord(words: seq<nat>, i: nat): nat { (OldPos(words, i) + KeyLen(words, i)) % POS_MOD }

  function NewValWord(words: seq<nat>, i: nat): nat {
    Compose((OldPos(words, i) + KeyLen(words, i) + ValLen(words, i)) % POS_MOD, OldIsNull(words, i), false)
  }

  /** The words after the first `n` pairs have been rewritten. */
  ghost function Rewriting(words: seq<nat>, n: nat): (r: seq<nat>)
    requires 2 * n <= |words|
    ensures |r| == |words|
  {
    seq(|words|, k requires 0 <= k < |words| =>
      if k >= 2 * n then words[k] else if k % 2 == 0 then NewKeyWord(words, k / 2) else NewValWord(words, k / 2))
  }

  /** All pairs rewritten and the first entry flagged. */
  ghost function Rewritten(words: seq<nat>, count: nat): (r: seq<nat>)
    requires 2 * count <= |words|
    ensures |r| == |words|
  {
    var w := Rewriting(words, count);
    if count == 0 then w else w[0 := w[0] + ISFIRST]
  }

  lemma RewrittenAt(words: seq<nat>, count: nat, i: nat)
    requires 2 * count <= |words| && i < count
    ensures Word(Rewritten(words, count), 2 * i) == NewKeyWord(words, i) + (if i == 0 then ISFIRST else 0)
    ensures Word(Rewritten(words, count), 2 * i + 1) == NewValWord(words, i)
  {
    RewritingAt(words, count, i);
  }

  lemma RewritingAt(words: seq<nat>, n: nat, i: nat)
    requires 2 * n <= |words| && i < n
    ensures Rewriting(words, n)[2 * i] == NewKeyWord(words, i) && Rewriting(words, n)[2 * i + 1] == NewValWord(words, i)
  {
    assert (2 * i) / 2 == i && (2 * i + 1) / 2 == i;
  }

  lemma {:induction false} UsedGrows(words: seq<nat>, m: nat, n: nat)
    requires m <= n
    ensures Used(words, m) <= Used(words, n)
  {
    if m < n { UsedGrows(words, m, n - 1); }
  }

  /** Accepted by the old format's checks, in a value small enough for a varlena. */
  ghost predicate Accepted(varsize: nat, count: nat, words: seq<nat>) {
    && varsize < POS_MOD && count > 0 && ValidOld(varsize, count, words) > 0 && 2 * count <= |words|
  }

  /** The end of pair `i`, in both formats. */
  lemma PairEnds(varsize: nat, count: nat, words: seq<nat>, i: nat)
    requires Accepted(varsize, count, words) && i < count
    ensures OldPos(words, i) == Used(words, i) && Used(words, i + 1) < POS_MOD
    ensures NewKeyWord(words, i) == Used(words, i) + KeyLen(words, i) < POS_MOD
    ensures NewValWord(words, i) == Compose(Used(words, i + 1), OldIsNull(words, i), false)
  {
    UsedGrows(words, i + 1, count);
  }

  /** How a word reads in the new format. */
  predicate Reads(w: nat, end: nat, isNull: bool, isFirst: bool) {
    EndPos(w) == end && IsNull(w) == isNull && IsFirst(w) == isFirst
  }

  lemma RewrittenReads(varsize: nat, count: nat, words: seq<nat>, i: nat)
    requires Accepted(varsize, count, words) && i < count
    ensures Reads(Word(Rewritten(words, count), 2 * i), Used(words, i) + KeyLen(words, i), false, i == 0)
    ensures Reads(Word(Rewritten(words, count), 2 * i + 1), Used(words, i + 1), OldIsNull(words, i), false)
  {
    var (key, val) := (Used(words, i) + KeyLen(words, i), Used(words, i + 1));
    var (w0, w1) := (Word(Rewritten(words, count), 2 * i), Word(Rewritten(words, count), 2 * i + 1));
    assert key < POS_MOD && val < POS_MOD && w0 == Compose(key, false, i == 0) && w1 == Compose(val, OldIsNull(words, i), false) by {
      PairEnds(varsize, count, words, i);
      RewrittenAt(words, count, i);
    }
    ComposeReads(key, false, i == 0);
    ComposeReads(val, OldIsNull(words, i), false);
  }

  /** A pair from how its two words, and the word before them, read. */
  lemma PairReads(w: seq<nat>, i: nat, start: nat, key: nat, val: nat, isNull: bool)
    requires Reads(Word(w, 2 * i), key, false, i == 0) && Reads(Word(w, 2 * i + 1), val, isNull, false)
    requires if i == 0 then start == 0 else EndPos(Word(w, 2 * i - 1)) == start
    ensures NewPair(w, i) == Pair(start, key - start, key, val - key, isNull)
  {}

  /** Every pair keeps the place of its key, the place of its value and its null flag. */
  lemma UpgradeKeepsPairs(varsize: nat, count: nat, words: seq<nat>, i: nat)
    requires Accepted(varsize, count, words) && i < count
    ensures NewPair(Rewritten(words, count), i) == OldPair(words, i)
  {
    hide ValidOld, IsFirst, IsNull, EndPos;
    var w := Rewritten(words, count);
    RewrittenReads(varsize, count, words, i);
    if i > 0 {
      RewrittenReads(varsize, count, words, i - 1);
      assert 2 * i - 1 == 2 * (i - 1) + 1;
    }
    PairReads(w, i, Used(words, i), Used(words, i) + KeyLen(words, i), Used(words, i + 1), OldIsNull(words, i));
    PairEnds(varsize, count, words, i);
  }

  lemma RewrittenEndsGrow(varsize: nat, count: nat, words: seq<nat>)
    requires Accepted(varsize, count, words)
    ensures EndsGrow(Rewritten(words, count), count)
  {
    var w := Rewritten(words, count);
    forall k | 1 <= k < 2 * count ensures !IsFirst(Word(w, k)) && EndPos(Word(w, k - 1)) <= EndPos(Word(w, k)) {
      RewrittenReads(varsize, count, words, k / 2);
      if k % 2 == 0 {
        RewrittenReads(varsize, count, words, k / 2 - 1);
        assert k - 1 == 2 * (k / 2 - 1) + 1;
      } else {
        assert k == 2 * (k / 2) + 1;
      }
    }
  }

  lemma RewrittenKeysGrow(varsize: nat, count: nat, words: seq<nat>)
    requires Accepted(varsize, count, words)
    ensures NewKeysGrow(Rewritten(words, count), count)
  {
    var w := Rewritten(words, count);
    forall i | 1 <= i < count ensures NewKeyOk(w, i) {
      UpgradeKeepsPairs(varsize, count, words, i - 1);
      UpgradeKeepsPairs(varsize, count, words, i);
      RewrittenReads(varsize, count, words, i);
      assert Len(w, 2 * (i - 1)) == KeyLen(words, i - 1) && Len(w, 2 * i) == KeyLen(words, i);
    }
  }

  lemma {:induction false} RewrittenTextLen(varsize: nat, count: nat, words: seq<nat>)
    requires Accepted(varsize, count, words)
    ensures TextLen(Rewritten(words, count), count) == Used(words, count)
  {
    var i := count - 1;
    RewrittenReads(varsize, count, words, i);
    LastWordEnds(Rewritten(words, count), i, Used(words, i + 1), OldIsNull(words, i));
  }

  lemma LastWordEnds(w: seq<nat>, i: nat, end: nat, isNull: bool)
    requires Reads(Word(w, 2 * i + 1), end, isNull, false)
    ensures TextLen(w, i + 1) == end
  {
    assert 2 * (i + 1) - 1 == 2 * i + 1;
  }

  lemma {:induction false} OldSize(varsize: nat, count: nat, words: seq<nat>)
    requires Accepted(varsize, count, words)
    ensures var size' := DataSize(count, Used(words, count));
      size' <= varsize && (size' == varsize <==> ValidOld(varsize, count, words) == 2)
  {}

  /** The result passes every structural check of the new format, with no slack, and did not grow. */
  lemma {:induction false} UpgradeIsValidNew(varsize: nat, count: nat, words: seq<nat>)
    requires Accepted(varsize, count, words)
    ensures var (w, size') := (Rewritten(words, count), DataSize(count, Used(words, count)));
      && TextLen(w, count) == Used(words, count)
      && NewChecks(size', count, w) == 2
      && size' <= varsize && (size' == varsize <==> ValidOld(varsize, count, words) == 2)
  {
    var w := Rewritten(words, count);
    assert IsFirst(Word(w, 0)) by { RewrittenReads(varsize, count, words, 0); }
    RewrittenTextLen(varsize, count, words);
    RewrittenEndsGrow(varsize, count, words);
    RewrittenKeysGrow(varsize, count, words);
    OldSize(varsize, count, words);
  }

  // ----- hstoreUpgrade -----

  class HStore {
    var varsize: nat
    var size: nat
    const words: array<nat>   // entries, then text

    constructor (varsize: nat, size: nat, source: array<nat>)
      ensures this.varsize == varsize && this.size == size && fresh(words) && words[..] == source[..]
    {
      this.varsize, this.size := varsize, size;
      var w := new nat[source.Length](i requires 0 <= i < source.Length reads source => source[i]);
      words := w;
      new;
      assert words[..] == source[..];
    }

    /** `HS_SETCOUNT` and `HS_FIXSIZE`. */
    method SetCountAndSize(count: nat)
      modifies this
      ensures size == count + NEWVERSION && varsize == DataSize(count, TextLen(words[..], count))
    {
      size := count + NEWVERSION;
      varsize := DataSize(count, TextLen(words[..], count));
    }

    /** Two words of one pair, read in the old format and written in the new. */
    method RewritePair(i: nat)
      requires 2 * i + 1 < words.Length
      modifies words
      ensures words[..] == old(words[..])[2 * i := NewKeyWord(old(words[..]), i)][2 * i + 1 := NewValWord(old(words[..]), i)]
    {
      var w := words[..];
      var pos, keylen, vallen := OldPos(w, i), KeyLen(w, i), RawValLen(w, i);
      var isnull := OldIsNull(w, i);
      if isnull {
        vallen := 0;
      }
      words[2 * i] := (pos + keylen) % POS_MOD;
      words[2 * i + 1] := Compose((pos + keylen + vallen) % POS_MOD, isnull, false);
    }

    /** The conversion loop. */
    method RewriteInPlace(count: nat)
      requires 2 * count <= words.Length
      modifies words
      ensures words[..] == Rewritten(old(words[..]), count)
    {
      ghost var was := words[..];
      for i := 0 to count
        invariant words[..] == Rewriting(was, i)
      {
        SameOldPair(was, i);
        RewritePair(i);
      }
      if count > 0 {
        words[0] := words[0] + ISFIRST;
      }
    }
  }

  /** The pair about to be rewritten still reads as before, and rewriting it advances the loop. */
  lemma SameOldPair(was: seq<nat>, i: nat)
    requires 2 * i + 1 < |was|
    ensures var w := Rewriting(was, i);
      && NewKeyWord(w, i) == NewKeyWord(was, i) && NewValWord(w, i) == NewValWord(was, i)
      && w[2 * i := NewKeyWord(was, i)][2 * i + 1 := NewValWord(was, i)] == Rewriting(was, i + 1)
  {
    assert (2 * i) / 2 == i && (2 * i + 1) / 2 == i;
  }

  datatype Outcome = Unchanged | Flagged | Converted | Invalid

  /** What `hstoreUpgrade` decides, built as contrib/hstore. */
  ghost function Decide(varsize: nat, size: nat, words: seq<nat>): Outcome {
    if size >= NEWVERSION || size == 0 || (varsize < 32768 && IsFirst(Word(words, 0))) then Unchanged
    else if ValidOld(varsize, size, words) != 0 then Converted
    else if ValidNew(varsize, size, words) != 0 then Flagged
    else Invalid
  }

  /** The first pair of an old value is null and its unused value length has the top bit. */
  predicate LooksNew(words: seq<nat>) { OldIsNull(words, 0) && RawValLen(words, 0) >= 32768 }

  /**
   A value the old format's checks accept is converted, unless it is smaller than 32768 bytes and
   its null first pair holds a length of 32768 or more: then it is taken for a new value as it
   stands, and its first pair reads as not null.
   */
  lemma ConvertedExactly(varsize: nat, size: nat, words: seq<nat>)
    requires size > 0 && ValidOld(varsize, size, words) > 0 && Word(words, 0) < 0x1_0000_0000
    ensures Decide(varsize, size, words) == Converted <==> varsize >= 32768 || !LooksNew(words)
    ensures Decide(varsize, size, words) != Converted ==>
      Decide(varsize, size, words) == Unchanged && OldPair(words, 0).isNull && !NewPair(words, 0).isNull
  {
    UsedGrows(words, 1, size);
    assert Used(words, 1) == Used(words, 0) + KeyLen(words, 0) + ValLen(words, 0);
    assert OldPos(words, 0) == Used(words, 0) == 0;
    TopBit(Word(words, 0));
  }

  lemma TopBit(w: nat)
    requires w < 0x1_0000_0000
    ensures IsFirst(w) <==> w / 65536 >= 32768
  {}

  /** One pair with an empty key and a null value whose length field is 32768. */
  lemma AcceptedYetUnchanged()
    ensures var words := [0x8000_0000, 1];
      ValidOld(16, 1, words) == 2 && Decide(16, 1, words) == Unchanged && OldPair(words, 0) != NewPair(words, 0)
  {
    var words: seq<nat> := [0x8000_0000, 1];
    assert Used(words, 1) == Used(words, 0) + KeyLen(words, 0) + ValLen(words, 0) == 0;
    assert OldPair(words, 0).isNull && !NewPair(words, 0).isNull;
  }

  /** `hstoreUpgrade`; a value that is not writable is copied before it is converted. */
  method Upgrade(hs: HStore, writable: bool) returns (r: HStore, outcome: Outcome)
    requires hs.varsize < POS_MOD && 4 * hs.words.Length >= hs.varsize - 8
    modifies hs, hs.words
    ensures outcome == Decide(old(hs.varsize), old(hs.size), old(hs.words[..]))
    ensures outcome.Unchanged? || outcome.Invalid? || (outcome.Flagged? && !writable) ==>
      r == hs && hs.varsize == old(hs.varsize) && hs.size == old(hs.size) && hs.words[..] == old(hs.words[..])
    ensures outcome.Flagged? && writable ==>
      && r == hs && hs.words[..] == old(hs.words[..])
      && hs.size == old(hs.size) % COUNT_MOD + NEWVERSION
      && hs.varsize == DataSize(old(hs.size) % COUNT_MOD, TextLen(hs.words[..], old(hs.size) % COUNT_MOD))
    ensures outcome.Converted? ==>
      && (if writable then r == hs else fresh(r) && fresh(r.words) && hs.varsize == old(hs.varsize) && hs.size == old(hs.size) && hs.words[..] == old(hs.words[..]))
      && Accepted(old(hs.varsize), old(hs.size), old(hs.words[..]))
      && r.size == old(hs.size) + NEWVERSION
      && r.words[..] == Rewritten(old(hs.words[..]), old(hs.size))
      && r.varsize == DataSize(old(hs.size), Used(old(hs.words[..]), old(hs.size)))
  {
    r := hs;
    if hs.size >= NEWVERSION || hs.size == 0 || (hs.varsize < 32768 && IsFirst(Word(hs.words[..], 0))) {
      return r, Unchanged;
    }
    var validNew := HstoreValidNewFormat(hs.varsize, hs.size, hs.words[..]);
    var validOld := HstoreValidOldFormat(hs.varsize, hs.size, hs.words[..]);
    if validOld == 0 {
      if validNew == 0 {
        return r, Invalid;
      }
      if writable {
        hs.SetCountAndSize(hs.size % COUNT_MOD);
      }
      return r, Flagged;
    }
    r := Convert(hs, writable);
    outcome := Converted;
  }

  method Convert(hs: HStore, writable: bool) returns (r: HStore)
    requires Accepted(hs.varsize, hs.size, hs.words[..])
    modifies hs, hs.words
    ensures if writable then r == hs else fresh(r) && fresh(r.words) && hs.varsize == old(hs.varsize) && hs.size == old(hs.size) && hs.words[..] == old(hs.words[..])
    ensures r.size == old(hs.size) + NEWVERSION
    ensures r.words[..] == Rewritten(old(hs.words[..]), old(hs.size))
    ensures r.varsize == DataSize(old(hs.size), Used(old(hs.words[..]), old(hs.size)))
  {
    UpgradeIsValidNew(hs.varsize, hs.size, hs.words[..]);
    r := hs;
    if !writable {
      r := new HStore(hs.varsize, hs.size, hs.words);
    }
    var count := r.size;
    r.RewriteInPlace(count);
    r.SetCountAndSize(count);
  }
}
