/**
 The string rewriter behind AQO's constant-insensitive hashes (contrib/aqo/hash.c).

 `replace_patterns` copies a string, dropping the text between each occurrence of a start
 pattern and the next character that satisfies `stop`.  C strings are `seq<char>` here, the
 terminating NUL being the end of the sequence.
 */
module AqoText {

  predicate IsBrace(ch: char) { ch == '{' || ch == '}' }

  predicate IsColon(ch: char) { ch == ':' }

  const CONST_PATTERN := "{CONST"
  const LOCATION_PATTERN := " :location"
  const VARNO_PATTERN := " :varno"
  const VARNOOLD_PATTERN := " :varnoold"
  const STMT_LEN_PATTERN := " :stmt_len"

  /** The pattern ends exactly at position `i`. */
  predicate MatchedAt(s: string, pat: string, i: nat)
    requires i <= |s|
  {
    |pat| <= i && forall k :: 0 <= k < |pat| ==> pat[k] == s[i - |pat| + k]
  }

  /** The first position from `i` on that stops a skip, or the end of the string. */
  function SkipTo(s: string, stop: char -> bool, i: nat): (e: nat)
    requires i <= |s|
    ensures i <= e <= |s| && (e < |s| ==> stop(s[e]))
    decreases |s| - i
  {
    if i == |s| || stop(s[i]) then i else SkipTo(s, stop, i + 1)
  }

  lemma {:induction false} SkippedText(s: string, stop: char -> bool, i: nat)
    requires i <= |s|
    ensures forall k :: i <= k < SkipTo(s, stop, i) ==> !stop(s[k])
    decreases |s| - i
  {
    if i < |s| && !stop(s[i]) { SkippedText(s, stop, i + 1); }
  }

  /** A skip ends at the first stop. */
  lemma {:induction false} SkipEnds(s: string, stop: char -> bool, i: nat, e: nat)
    requires i <= e <= |s| && (forall k :: i <= k < e ==> !stop(s[k])) && (e < |s| ==> stop(s[e]))
    ensures SkipTo(s, stop, i) == e
    decreases e - i
  {
    if i < e { SkipEnds(s, stop, i + 1, e); }
  }

  /** The position copied next when the scan stands at `i`. */
  function Next(s: string, pat: string, stop: char -> bool, i: nat): (e: nat)
    requires i <= |s|
    ensures i <= e <= |s|
  {
    if MatchedAt(s, pat, i) then SkipTo(s, stop, i) else i
  }

  /** What remains of `s` from position `i` on. */
  function Scrub(s: string, pat: string, stop: char -> bool, i: nat): (r: string)
    requires i <= |s|
    decreases |s| - i
  {
    var e := Next(s, pat, stop, i);
    if e == |s| then [] else [s[e]] + Scrub(s, pat, stop, e + 1)
  }

  /** The inner loop: advance to the next stop character. */
  method Skip(s: string, stop: char -> bool, start: nat) returns (i: nat)
    requires start <= |s|
    ensures i == SkipTo(s, stop, start)
  {
    i := start;
    while i < |s| && !stop(s[i])
      invariant i <= |s|
      invariant SkipTo(s, stop, start) == SkipTo(s, stop, i)
    {
      i := i + 1;
    }
  }

  method ReplacePatterns(s: string, pat: string, stop: char -> bool) returns (r: string)
    ensures r == Scrub(s, pat, stop, 0)
  {
    var res := new char[|s| + 1](_ => '\0');
    var i, j := 0, 0;
    while i < |s|
      invariant j <= i <= |s|
      invariant Scrub(s, pat, stop, 0) == res[..j] + Scrub(s, pat, stop, i)
      decreases |s| - i
    {
      ghost var done, start := res[..j], i;
      if MatchedAt(s, pat, i) {
        i := Skip(s, stop, i);
      }
      if i < |s| {
        res[j] := s[i];
        ScrubCopies(s, pat, stop, start, done, res[..j + 1]);
        i, j := i + 1, j + 1;
      }
    }
    r := res[..j];
  }

  lemma ScrubCopies(s: string, pat: string, stop: char -> bool, i: nat, done: string, next: string)
    requires i <= |s| && Next(s, pat, stop, i) < |s|
    requires next == done + [s[Next(s, pat, stop, i)]]
    ensures done + Scrub(s, pat, stop, i) == next + Scrub(s, pat, stop, Next(s, pat, stop, i) + 1)
  {}

  // ----- idempotence -----

  /** Wherever the pattern ends in `t`, a stop character (or the end) follows. */
  ghost predicate Clean(t: string, pat: string, stop: char -> bool) {
    forall j :: 0 <= j < |t| && MatchedAt(t, pat, j) ==> stop(t[j])
  }

  /** No proper suffix of a match followed by a stop character can start a new match. */
  ghost predicate Separable(pat: string, stop: char -> bool) {
    && |pat| > 0
    && forall k :: 1 <= k < |pat| && stop(pat[k]) ==> pat[k - 1] != pat[|pat| - 1]
  }

  lemma PatternsSeparable()
    ensures Separable(CONST_PATTERN, IsBrace)
    ensures Separable(LOCATION_PATTERN, IsBrace)
    ensures Separable(VARNO_PATTERN, IsColon)
    ensures Separable(VARNOOLD_PATTERN, IsColon)
    ensures Separable(STMT_LEN_PATTERN, IsBrace)
  {}

  /**
   The copied text `acc` ends with a run of `c` characters copied from `s[i - c..i]` without a
   gap; just before the run a skip happened, so the run begins with a stop character and
   follows the pattern's last character.
   */
  ghost predicate Copied(s: string, pat: string, stop: char -> bool, i: nat, acc: string, c: nat)
    requires i <= |s| && |pat| > 0
  {
    && c <= |acc| && c <= i
    && (i > 0 ==> c >= 1)
    && (forall k :: i - c <= k < i ==> s[k] == acc[k - i + |acc|])
    && (c < |acc| ==> c > 0 && stop(acc[|acc| - c]) && acc[|acc| - c - 1] == pat[|pat| - 1])
    && Clean(acc, pat, stop)
  }

  lemma {:induction false} MatchInCopyIsMatch(s: string, pat: string, stop: char -> bool, i: nat, acc: string, c: nat)
    requires Separable(pat, stop) && i <= |s| && Copied(s, pat, stop, i, acc, c)
    requires MatchedAt(acc, pat, |acc|)
    ensures MatchedAt(s, pat, i)
  {
    var p, n := |pat|, |acc|;
    assert forall k :: 0 <= k < p ==> pat[k] == acc[n - p + k];
    if c < p {
      BrokenMatch(pat, stop, acc, c);
    }
  }

  /** A match cannot span the place of a skip. */
  lemma BrokenMatch(pat: string, stop: char -> bool, acc: string, c: nat)
    requires Separable(pat, stop) && 0 < c < |pat| <= |acc|
    requires stop(acc[|acc| - c]) && acc[|acc| - c - 1] == pat[|pat| - 1]
    ensures !MatchedAt(acc, pat, |acc|)
  {
    var k := |pat| - c;
    assert !(pat[k] == acc[|acc| - |pat| + k] && pat[k - 1] == acc[|acc| - |pat| + (k - 1)]);
  }

  /** One more copied character keeps the copy clean. */
  lemma {:induction false} CopyStaysClean(s: string, pat: string, stop: char -> bool, i: nat, acc: string, c: nat, ch: char)
    requires Separable(pat, stop) && i <= |s| && Copied(s, pat, stop, i, acc, c)
    requires MatchedAt(s, pat, i) ==> stop(ch)
    ensures Clean(acc + [ch], pat, stop)
  {
    var next := acc + [ch];
    forall j | 0 <= j < |next| && MatchedAt(next, pat, j) ensures stop(next[j]) {
      assert MatchedAt(acc, pat, j) by {
        forall k | 0 <= k < |pat| ensures pat[k] == acc[j - |pat| + k] {
          assert pat[k] == next[j - |pat| + k];
        }
      }
      if j == |acc| {
        MatchInCopyIsMatch(s, pat, stop, i, acc, c);
      }
    }
  }

  /** Copying the next character keeps the relation between source and copy. */
  lemma {:induction false} CopiedStep(s: string, pat: string, stop: char -> bool, i: nat, acc: string, c: nat)
    requires Separable(pat, stop) && i <= |s| && Copied(s, pat, stop, i, acc, c)
    requires Next(s, pat, stop, i) < |s|
    ensures var e := Next(s, pat, stop, i);
      Copied(s, pat, stop, e + 1, acc + [s[e]], if MatchedAt(s, pat, i) then 1 else c + 1)
  {
    var e := Next(s, pat, stop, i);
    CopyStaysClean(s, pat, stop, i, acc, c, s[e]);
    if MatchedAt(s, pat, i) {
      assert pat[|pat| - 1] == s[i - |pat| + (|pat| - 1)] == acc[|acc| - 1];
    }
  }

  lemma {:induction false} ScrubIsCleanFrom(s: string, pat: string, stop: char -> bool, i: nat, acc: string, c: nat)
    requires Separable(pat, stop) && i <= |s| && Copied(s, pat, stop, i, acc, c)
    ensures Clean(acc + Scrub(s, pat, stop, i), pat, stop)
    decreases |s| - i
  {
    hide Scrub, Clean, MatchedAt;
    var e := Next(s, pat, stop, i);
    if e == |s| {
      ScrubFrom(s, pat, stop, i, e);
      assert acc + Scrub(s, pat, stop, i) == acc;
    } else {
      var (acc', c') := (acc + [s[e]], if MatchedAt(s, pat, i) then 1 else c + 1);
      assert Copied(s, pat, stop, e + 1, acc', c') by { CopiedStep(s, pat, stop, i, acc, c); }
      ScrubIsCleanFrom(s, pat, stop, e + 1, acc', c');
      assert acc + Scrub(s, pat, stop, i) == acc' + Scrub(s, pat, stop, e + 1) by { ScrubCopies(s, pat, stop, i, acc, acc'); }
    }
  }

  lemma {:induction false} CleanIsFixed(t: string, pat: string, stop: char -> bool, i: nat)
    requires Clean(t, pat, stop) && i <= |t|
    ensures Scrub(t, pat, stop, i) == t[i..]
    decreases |t| - i
  {
    if i < |t| {
      CleanIsFixed(t, pat, stop, i + 1);
    }
  }

  /** Rewriting twice is rewriting once, on every string. */
  lemma {:induction false} ScrubIdempotent(s: string, pat: string, stop: char -> bool)
    requires Separable(pat, stop)
    ensures var r := Scrub(s, pat, stop, 0); Scrub(r, pat, stop, 0) == r
  {
    var r := Scrub(s, pat, stop, 0);
    ScrubIsCleanFrom(s, pat, stop, 0, [], 0);
    assert [] + r == r;
    CleanIsFixed(r, pat, stop, 0);
  }

  // ----- what is erased -----

  /** Between the end of an occurrence of the pattern and the next stop. */
  ghost predicate Erased(s: string, pat: string, stop: char -> bool, j: nat)
    requires j < |s|
  {
    exists i :: 0 <= i <= j && MatchedAt(s, pat, i) && NoStop(s, stop, i, j)
  }

  /** No stop from `i` to `j`. */
  ghost predicate NoStop(s: string, stop: char -> bool, i: nat, j: nat)
    requires j < |s|
  {
    forall k :: i <= k <= j ==> !stop(s[k])
  }

  /** The characters from `i` on that are not erased. */
  ghost function KeptFrom(s: string, pat: string, stop: char -> bool, i: nat): string
    requires i <= |s|
    decreases |s| - i
  {
    if i == |s| then "" else (if Erased(s, pat, stop, i) then "" else [s[i]]) + KeptFrom(s, pat, stop, i + 1)
  }

  /** Every occurrence that ends before `i` has met a stop before `i`. */
  ghost predicate AllClosed(s: string, pat: string, stop: char -> bool, i: nat)
    requires i <= |s|
  {
    forall k :: 0 <= k < i && MatchedAt(s, pat, k) ==> !NoStop(s, stop, k, i - 1)
  }

  lemma {:induction false} AllErased(s: string, pat: string, stop: char -> bool, i: nat, j: nat, e: nat)
    requires i <= j <= e <= |s| && MatchedAt(s, pat, i) && forall k :: i <= k < e ==> !stop(s[k])
    ensures KeptFrom(s, pat, stop, j) == KeptFrom(s, pat, stop, e)
    decreases e - j
  {
    if j < e {
      assert NoStop(s, stop, i, j);
      assert Erased(s, pat, stop, j);
      AllErased(s, pat, stop, i, j + 1, e);
    }
  }

  lemma NextIsKept(s: string, pat: string, stop: char -> bool, i: nat, e: nat)
    requires i <= |s| && AllClosed(s, pat, stop, i) && e == Next(s, pat, stop, i)
    ensures KeptFrom(s, pat, stop, i) == KeptFrom(s, pat, stop, e)
    ensures e < |s| ==> !Erased(s, pat, stop, e) && AllClosed(s, pat, stop, e + 1)
  {
    SkippedText(s, stop, i);
    if MatchedAt(s, pat, i) { AllErased(s, pat, stop, i, i, e); }
    if e < |s| { NextIsClosed(s, pat, stop, i, e); }
  }

  lemma NextIsClosed(s: string, pat: string, stop: char -> bool, i: nat, e: nat)
    requires i <= |s| && AllClosed(s, pat, stop, i) && e == Next(s, pat, stop, i) && e < |s|
    ensures !Erased(s, pat, stop, e) && AllClosed(s, pat, stop, e + 1)
  {
    hide MatchedAt, SkipTo;
    forall k | 0 <= k <= e && MatchedAt(s, pat, k) ensures !NoStop(s, stop, k, e) {
      if MatchedAt(s, pat, i) {
        assert stop(s[e]);
      } else {
        var m :| k <= m <= i - 1 && stop(s[m]);
      }
    }
  }

  lemma {:induction false} ScrubKeepsFrom(s: string, pat: string, stop: char -> bool, i: nat)
    requires i <= |s| && AllClosed(s, pat, stop, i)
    ensures Scrub(s, pat, stop, i) == KeptFrom(s, pat, stop, i)
    decreases |s| - i
  {
    hide AllClosed, Erased;
    var e := Next(s, pat, stop, i);
    NextIsKept(s, pat, stop, i, e);
    ScrubFrom(s, pat, stop, i, e);
    if e < |s| { ScrubKeepsFrom(s, pat, stop, e + 1); }
  }

  /** The rewriting keeps exactly the characters that do not stand between the pattern and the next stop. */
  lemma {:induction false} ScrubKeepsExactly(s: string, pat: string, stop: char -> bool)
    ensures Scrub(s, pat, stop, 0) == KeptFrom(s, pat, stop, 0)
  {
    ScrubKeepsFrom(s, pat, stop, 0);
  }

  // ----- independence of the erased text -----

  ghost predicate NoInnerStop(pat: string, stop: char -> bool) {
    |pat| > 0 && forall k :: 1 <= k < |pat| ==> !stop(pat[k])
  }

  lemma BracePatternsHaveNoInnerStop()
    ensures NoInnerStop(CONST_PATTERN, IsBrace)
    ensures NoInnerStop(LOCATION_PATTERN, IsBrace)
    ensures NoInnerStop(STMT_LEN_PATTERN, IsBrace)
  {}

  ghost predicate StopFree(v: string, stop: char -> bool) {
    forall k :: 0 <= k < |v| ==> !stop(v[k])
  }

  lemma {:induction false} MatchStaysInSuffix(u: string, b: string, pat: string, stop: char -> bool, k: nat)
    requires NoInnerStop(pat, stop) && 1 <= k <= |b| && stop(b[0])
    ensures MatchedAt(u + b, pat, |u| + k) <==> MatchedAt(b, pat, k)
  {
    var s, i := u + b, |u| + k;
    if |pat| <= k {
      assert forall j :: 0 <= j < |pat| ==> (pat[j] == s[i - |pat| + j] <==> pat[j] == b[k - |pat| + j]);
    } else if |pat| <= i {
      assert s[i - |pat| + (|pat| - k)] == b[0] != pat[|pat| - k];
    }
  }

  /** `b` is what is left of `s` from position `n` on. */
  predicate IsSuffix(s: string, n: nat, b: string) { |s| == n + |b| && forall k :: 0 <= k < |b| ==> b[k] == s[n + k] }

  /** At position `j` of the suffix the pattern matches in both or in neither. */
  predicate AgreeAt(s: string, n: nat, b: string, pat: string, j: nat) {
    j <= |b| && n + j <= |s| && (MatchedAt(s, pat, n + j) <==> MatchedAt(b, pat, j))
  }

  ghost predicate AgreeFrom(s: string, n: nat, b: string, pat: string, k: nat) {
    forall j :: k <= j <= |b| ==> AgreeAt(s, n, b, pat, j)
  }

  lemma {:induction false} SkipInSuffix(s: string, n: nat, b: string, stop: char -> bool, k: nat)
    requires IsSuffix(s, n, b) && k <= |b|
    ensures SkipTo(s, stop, n + k) == n + SkipTo(b, stop, k)
    decreases |b| - k
  {
    if k < |b| && !stop(b[k]) {
      SkipInSuffix(s, n, b, stop, k + 1);
    }
  }

  lemma AgreeNext(s: string, n: nat, b: string, pat: string, stop: char -> bool, k: nat)
    requires IsSuffix(s, n, b) && AgreeAt(s, n, b, pat, k)
    ensures Next(s, pat, stop, n + k) == n + Next(b, pat, stop, k)
  {
    SkipInSuffix(s, n, b, stop, k);
  }

  lemma ScrubFrom(s: string, pat: string, stop: char -> bool, i: nat, e: nat)
    requires i <= |s| && e == Next(s, pat, stop, i)
    ensures Scrub(s, pat, stop, i) == if e == |s| then [] else [s[e]] + Scrub(s, pat, stop, e + 1)
  {}

  lemma {:induction false} AgreeStep(s: string, n: nat, b: string, pat: string, stop: char -> bool, k: nat)
    requires IsSuffix(s, n, b) && AgreeAt(s, n, b, pat, k)
    ensures var e := Next(b, pat, stop, k);
      Scrub(s, pat, stop, n + k) == if e == |b| then [] else [b[e]] + Scrub(s, pat, stop, n + (e + 1))
  {
    hide Scrub;
    var e := Next(b, pat, stop, k);
    AgreeNext(s, n, b, pat, stop, k);
    ScrubFrom(s, pat, stop, n + k, n + e);
  }

  /** One character copied: the two outputs agree if they agree from there on. */
  lemma AgreeOnce(s: string, n: nat, b: string, pat: string, stop: char -> bool, k: nat, e: nat)
    requires IsSuffix(s, n, b) && AgreeAt(s, n, b, pat, k) && e == Next(b, pat, stop, k)
    requires e < |b| ==> Scrub(s, pat, stop, n + (e + 1)) == Scrub(b, pat, stop, e + 1)
    ensures Scrub(s, pat, stop, n + k) == Scrub(b, pat, stop, k)
  {
    hide Scrub;
    AgreeStep(s, n, b, pat, stop, k);
    ScrubFrom(b, pat, stop, k, e);
  }

  /** Where matches agree, what came before is forgotten. */
  lemma {:induction false} ForgetsPast(s: string, n: nat, b: string, pat: string, stop: char -> bool, k: nat)
    requires k <= |b| && IsSuffix(s, n, b) && AgreeFrom(s, n, b, pat, k)
    ensures Scrub(s, pat, stop, n + k) == Scrub(b, pat, stop, k)
    decreases |b| - k
  {
    hide Scrub;
    var e := Next(b, pat, stop, k);
    assert AgreeAt(s, n, b, pat, k);
    if e < |b| { ForgetsPast(s, n, b, pat, stop, e + 1); }
    AgreeOnce(s, n, b, pat, stop, k, e);
  }

  /** A skip from inside `c` that finds no stop there runs over `v` up to what follows. */
  lemma {:induction false} SkipOver(c: string, v: string, b: string, stop: char -> bool, i: nat)
    requires i <= |c| && SkipTo(c, stop, i) == |c| && StopFree(v, stop) && (b == [] || stop(b[0]))
    ensures SkipTo(c + v + b, stop, i) == |c + v|
  {
    var s := c + v + b;
    SkippedText(c, stop, i);
    assert forall k :: i <= k < |c + v| ==> s[k] == if k < |c| then c[k] else v[k - |c|];
    assert b != [] ==> s[|c + v|] == b[0];
    SkipEnds(s, stop, i, |c + v|);
  }

  lemma {:induction false} SkipInside(c: string, x: string, stop: char -> bool, i: nat)
    requires i <= |c| && SkipTo(c, stop, i) < |c|
    ensures SkipTo(c + x, stop, i) == SkipTo(c, stop, i)
  {
    SkippedText(c, stop, i);
    assert forall k :: i <= k < |c| ==> (c + x)[k] == c[k];
    SkipEnds(c + x, stop, i, SkipTo(c, stop, i));
  }

  lemma {:induction false} MatchInPrefix(c: string, x: string, pat: string, i: nat)
    requires i <= |c|
    ensures MatchedAt(c + x, pat, i) <==> MatchedAt(c, pat, i)
  {
    assert |pat| <= i ==>
      forall k :: 0 <= k < |pat| ==> (pat[k] == (c + x)[i - |pat| + k] <==> pat[k] == c[i - |pat| + k]);
  }

  /** While the scan stays inside `c`, what follows `c` does not matter. */
  lemma PrefixStep(c: string, x: string, pat: string, stop: char -> bool, i: nat)
    requires i <= |c| && Next(c, pat, stop, i) < |c|
    ensures var e := Next(c, pat, stop, i);
      Scrub(c + x, pat, stop, i) == [c[e]] + Scrub(c + x, pat, stop, e + 1)
  {
    MatchInPrefix(c, x, pat, i);
    if MatchedAt(c, pat, i) { SkipInside(c, x, stop, i); }
  }

  /** What is made of `b`, past its first character, when it follows `u`. */
  function Tail(u: string, b: string, pat: string, stop: char -> bool): string
    requires b != []
  {
    Scrub(u + b, pat, stop, |u| + 1)
  }

  /** When it runs off the end of `c` in a skip, the text `v` is erased. */
  lemma {:induction false} GapStep(c: string, v: string, b: string, pat: string, stop: char -> bool, i: nat)
    requires i <= |c| && MatchedAt(c, pat, i) && SkipTo(c, stop, i) == |c|
    requires StopFree(v, stop) && (b == [] || stop(b[0]))
    ensures Scrub(c + (v + b), pat, stop, i) == if b == [] then [] else [b[0]] + Tail(c + v, b, pat, stop)
  {
    assert c + v + b == c + (v + b);
    MatchInPrefix(c, v + b, pat, i);
    SkipOver(c, v, b, stop, i);
  }

  /** Two texts erased between `c` and `b`: the same output from position `i` of `c`, and past the start of `b`. */
  predicate SameFrom(c: string, v: string, w: string, b: string, pat: string, stop: char -> bool, i: nat)
    requires i <= |c|
  {
    Scrub(c + (v + b), pat, stop, i) == Scrub(c + (w + b), pat, stop, i)
  }

  predicate SameTail(c: string, v: string, w: string, b: string, pat: string, stop: char -> bool) {
    b == [] || Tail(c + v, b, pat, stop) == Tail(c + w, b, pat, stop)
  }

  lemma SameHead(h: char, x: string, y: string)
    ensures [h] + x == [h] + y <==> x == y
  {
    if [h] + x == [h] + y {
      assert x == ([h] + x)[1..] == ([h] + y)[1..] == y;
    }
  }

  /** One step inside `c`, whatever follows. */
  lemma InsideAlike(c: string, v: string, w: string, b: string, pat: string, stop: char -> bool, i: nat)
    requires i <= |c| && Next(c, pat, stop, i) < |c|
    ensures SameFrom(c, v, w, b, pat, stop, i) <==> SameFrom(c, v, w, b, pat, stop, Next(c, pat, stop, i) + 1)
  {
    var (e, x, y) := (Next(c, pat, stop, i), v + b, w + b);
    PrefixStep(c, x, pat, stop, i);
    PrefixStep(c, y, pat, stop, i);
    SameHead(c[e], Scrub(c + x, pat, stop, e + 1), Scrub(c + y, pat, stop, e + 1));
  }

  lemma {:induction false} GapAlike(c: string, v: string, w: string, b: string, pat: string, stop: char -> bool, i: nat)
    requires i <= |c| && MatchedAt(c, pat, i) && SkipTo(c, stop, i) == |c|
    requires StopFree(v, stop) && StopFree(w, stop) && (b == [] || stop(b[0]))
    ensures SameFrom(c, v, w, b, pat, stop, i) <==> SameTail(c, v, w, b, pat, stop)
  {
    GapStep(c, v, b, pat, stop, i);
    GapStep(c, w, b, pat, stop, i);
    if b != [] { SameHead(b[0], Tail(c + v, b, pat, stop), Tail(c + w, b, pat, stop)); }
  }

  /** Scanning from anywhere up to the end of the pattern, the text after it matters only for what follows. */
  lemma {:induction false} ErasedFrom(c: string, pat: string, v: string, w: string, b: string,
                                      stop: char -> bool, i: nat)
    requires StopFree(v, stop) && StopFree(w, stop)
    requires b == [] || stop(b[0])
    requires i <= |c| && MatchedAt(c, pat, |c|)
    ensures SameFrom(c, v, w, b, pat, stop, i) <==> SameTail(c, v, w, b, pat, stop)
    decreases |c| - i
  {
    if Next(c, pat, stop, i) < |c| {
      ErasedFrom(c, pat, v, w, b, stop, Next(c, pat, stop, i) + 1);
      InsideAlike(c, v, w, b, pat, stop, i);
    } else {
      GapAlike(c, v, w, b, pat, stop, i);
    }
  }

  lemma {:induction false} ErasedAll(a: string, pat: string, v: string, w: string, b: string, stop: char -> bool)
    requires StopFree(v, stop) && StopFree(w, stop) && (b == [] || stop(b[0]))
    ensures Scrub(a + pat + v + b, pat, stop, 0) == Scrub(a + pat + w + b, pat, stop, 0) <==> SameTail(a + pat, v, w, b, pat, stop)
  {
    var c := a + pat;
    assert MatchedAt(c, pat, |c|);
    ErasedFrom(c, pat, v, w, b, stop, 0);
    assert c + v + b == c + (v + b) && c + w + b == c + (w + b);
  }

  /** The output does not depend on the text between a pattern and the next stop. */
  lemma {:induction false} ScrubErases(a: string, pat: string, v: string, w: string, b: string, stop: char -> bool)
    requires NoInnerStop(pat, stop) && StopFree(v, stop) && StopFree(w, stop)
    requires b == [] || stop(b[0])
    ensures Scrub(a + pat + v + b, pat, stop, 0) == Scrub(a + pat + w + b, pat, stop, 0)
  {
    ErasedAll(a, pat, v, w, b, stop);
    if b != [] {
      TailForgetsPast(a + pat + v, b, pat, stop);
      TailForgetsPast(a + pat + w, b, pat, stop);
    }
  }

  /** Past the first character of a suffix that begins with a stop, what came before is forgotten. */
  lemma {:induction false} TailForgetsPast(u: string, b: string, pat: string, stop: char -> bool)
    requires NoInnerStop(pat, stop) && b != [] && stop(b[0])
    ensures Tail(u, b, pat, stop) == Scrub(b, pat, stop, 1)
  {
    forall j | 1 <= j <= |b| ensures AgreeAt(u + b, |u|, b, pat, j) {
      MatchStaysInSuffix(u, b, pat, stop, j);
    }
    ForgetsPast(u + b, |u|, b, pat, stop, 1);
  }

  // ----- the colon-terminated patterns -----

  /** The one inner stop of the pattern is its second character. */
  ghost predicate SecondStops(pat: string, stop: char -> bool) {
    && |pat| > 2 && pat[0] != pat[|pat| - 1] && !stop(pat[0]) && stop(pat[1])
    && forall k :: 2 <= k < |pat| ==> !stop(pat[k])
  }

  lemma ColonPatternsStopSecond()
    ensures SecondStops(VARNO_PATTERN, IsColon) && SecondStops(VARNOOLD_PATTERN, IsColon)
  {}

  /** `b` begins with all of the pattern but its first character. */
  ghost predicate Resumes(b: string, pat: string) {
    0 < |pat| <= |b| + 1 && b[..|pat| - 1] == pat[1..]
  }

  /** It does, and there is text up to the next stop to erase. */
  ghost predicate Reopens(b: string, pat: string, stop: char -> bool) {
    Resumes(b, pat) && |b| >= |pat| && !stop(b[|pat| - 1])
  }

  /** The only match that begins before `b` and ends inside it begins just before. */
  lemma {:induction false} MatchAcross(u: string, b: string, pat: string, stop: char -> bool, k: nat)
    requires SecondStops(pat, stop) && 1 <= k <= |b| && stop(b[0])
    ensures k != |pat| - 1 ==> (MatchedAt(u + b, pat, |u| + k) <==> MatchedAt(b, pat, k))
    ensures k == |pat| - 1 ==> !MatchedAt(b, pat, k)
    ensures k == |pat| - 1 ==> (MatchedAt(u + b, pat, |u| + k) <==> u != [] && u[|u| - 1] == pat[0] && Resumes(b, pat))
  {
    var s, i := u + b, |u| + k;
    if |pat| <= k {
      assert forall j :: 0 <= j < |pat| ==> (pat[j] == s[i - |pat| + j] <==> pat[j] == b[k - |pat| + j]);
    } else if k < |pat| - 1 {
      if |pat| <= i { assert s[i - |pat| + (|pat| - k)] == b[0] != pat[|pat| - k]; }
    } else if u != [] {
      JustBefore(u, b, pat);
    }
  }

  lemma JustBefore(u: string, b: string, pat: string)
    requires u != [] && 0 < |pat| <= |b| + 1
    ensures MatchedAt(u + b, pat, |u| + |pat| - 1) <==> u[|u| - 1] == pat[0] && Resumes(b, pat)
  {
    var s, n := u + b, |pat| - 1;
    var m := s[|u| - 1..|u| + n];
    assert m == [u[|u| - 1]] + b[..n];
    WholeMatch(s, pat, |u| + n);
    assert pat == [pat[0]] + pat[1..];
    assert m[0] == u[|u| - 1] && m[1..] == b[..n];
  }

  lemma WholeMatch(s: string, pat: string, i: nat)
    requires |pat| <= i <= |s|
    ensures MatchedAt(s, pat, i) <==> s[i - |pat|..i] == pat
  {
    var m := s[i - |pat|..i];
    assert forall k :: 0 <= k < |pat| ==> m[k] == s[i - |pat| + k];
  }

  /** Where no match can begin before `b`, what came before is forgotten. */
  lemma LaterForgetsPast(u: string, b: string, pat: string, stop: char -> bool, k: nat)
    requires SecondStops(pat, stop) && 1 <= k <= |b| && stop(b[0]) && (!Resumes(b, pat) || |pat| <= k)
    ensures Scrub(u + b, pat, stop, |u| + k) == Scrub(b, pat, stop, k)
  {
    forall j | k <= j <= |b| ensures AgreeAt(u + b, |u|, b, pat, j) {
      MatchAcross(u, b, pat, stop, j);
    }
    ForgetsPast(u + b, |u|, b, pat, stop, k);
  }

  lemma {:induction false} PlainRun(s: string, pat: string, stop: char -> bool, i: nat, j: nat)
    requires i <= j <= |s|
    requires forall k :: i <= k < j ==> !MatchedAt(s, pat, k)
    ensures Scrub(s, pat, stop, i) == s[i..j] + Scrub(s, pat, stop, j)
    decreases j - i
  {
    if i < j {
      PlainRun(s, pat, stop, i + 1, j);
      assert s[i..j] == [s[i]] + s[i + 1..j];
    }
  }

  /** Up to the end of a resumed pattern everything is copied. */
  lemma ResumedTail(u: string, b: string, pat: string, stop: char -> bool)
    requires SecondStops(pat, stop) && b != [] && stop(b[0]) && Resumes(b, pat)
    ensures Tail(u, b, pat, stop) == b[1..|pat| - 1] + Scrub(u + b, pat, stop, |u| + |pat| - 1)
  {
    var n := |pat| - 1;
    forall k | |u| + 1 <= k < |u| + n ensures !MatchedAt(u + b, pat, k) { MatchAcross(u, b, pat, stop, k - |u|); }
    PlainRun(u + b, pat, stop, |u| + 1, |u| + n);
    assert (u + b)[|u| + 1..|u| + n] == b[1..n];
  }

  predicate EndsWith(u: string, ch: char) { u != [] && u[|u| - 1] == ch }

  /** At its end the scan skips exactly when the character before `b` completes the match. */
  lemma {:induction false} ResumedNext(u: string, b: string, pat: string, stop: char -> bool)
    requires SecondStops(pat, stop) && b != [] && stop(b[0]) && Resumes(b, pat)
    ensures var n := |pat| - 1;
      Next(u + b, pat, stop, |u| + n) == |u| + (if EndsWith(u, pat[0]) then SkipTo(b, stop, n) else n)
  {
    var n := |pat| - 1;
    MatchAcross(u, b, pat, stop, n);
    SkipInSuffix(u + b, |u|, b, stop, n);
  }

  lemma ResumedAtStop(u: string, b: string, pat: string, stop: char -> bool)
    requires SecondStops(pat, stop) && b != [] && stop(b[0]) && Resumes(b, pat)
    requires |b| >= |pat| ==> stop(b[|pat| - 1])
    ensures var n := |pat| - 1;
      Scrub(u + b, pat, stop, |u| + n) == if |b| == n then [] else [b[n]] + Scrub(b, pat, stop, n + 1)
  {
    var n := |pat| - 1;
    hide Scrub;
    ResumedNext(u, b, pat, stop);
    if n < |b| { LaterForgetsPast(u, b, pat, stop, n + 1); }
    CopiedOnce(u + b, |u|, b, pat, stop, n);
  }

  lemma CopiedOnce(s: string, n: nat, b: string, pat: string, stop: char -> bool, k: nat)
    requires IsSuffix(s, n, b) && k <= |b| && Next(s, pat, stop, n + k) == n + k
    requires k < |b| ==> Scrub(s, pat, stop, n + (k + 1)) == Scrub(b, pat, stop, k + 1)
    ensures Scrub(s, pat, stop, n + k) == if k == |b| then [] else [b[k]] + Scrub(b, pat, stop, k + 1)
  {
    hide Scrub;
    ScrubFrom(s, pat, stop, n + k, n + k);
  }

  /** The first character of the output is the one the scan comes to next. */
  lemma FirstCopied(s: string, n: nat, b: string, pat: string, stop: char -> bool, k: nat, e: nat)
    requires IsSuffix(s, n, b) && k <= |b| && e <= |b| && Next(s, pat, stop, n + k) == n + e
    ensures var r := Scrub(s, pat, stop, n + k); if e == |b| then r == [] else r != [] && r[0] == b[e]
  {
    hide Scrub;
    ScrubFrom(s, pat, stop, n + k, n + e);
  }

  lemma ResumedInText(u: string, b: string, pat: string, stop: char -> bool)
    requires SecondStops(pat, stop) && b != [] && stop(b[0]) && Reopens(b, pat, stop)
    ensures var r := Scrub(u + b, pat, stop, |u| + |pat| - 1);
      if EndsWith(u, pat[0]) then r == [] || stop(r[0]) else r != [] && !stop(r[0])
  {
    hide Scrub;
    var n := |pat| - 1;
    ResumedNext(u, b, pat, stop);
    FirstCopied(u + b, |u|, b, pat, stop, n, if EndsWith(u, pat[0]) then SkipTo(b, stop, n) else n);
  }

  /** If nothing is reopened, the text before `b` does not matter. */
  lemma TailForgets(u: string, u': string, b: string, pat: string, stop: char -> bool)
    requires SecondStops(pat, stop) && b != [] && stop(b[0]) && !Reopens(b, pat, stop)
    ensures Tail(u, b, pat, stop) == Tail(u', b, pat, stop)
  {
    if Resumes(b, pat) {
      ResumedTail(u, b, pat, stop);
      ResumedTail(u', b, pat, stop);
      ResumedAtStop(u, b, pat, stop);
      ResumedAtStop(u', b, pat, stop);
    } else {
      LaterForgetsPast(u, b, pat, stop, 1);
      LaterForgetsPast(u', b, pat, stop, 1);
    }
  }

  /** If something is, it matters whether the text before `b` ends in the pattern's first character. */
  lemma TailRemembers(u: string, u': string, b: string, pat: string, stop: char -> bool)
    requires SecondStops(pat, stop) && b != [] && stop(b[0]) && Reopens(b, pat, stop)
    requires EndsWith(u, pat[0]) && !EndsWith(u', pat[0])
    ensures Tail(u, b, pat, stop) != Tail(u', b, pat, stop)
  {
    ResumedTail(u, b, pat, stop);
    ResumedTail(u', b, pat, stop);
    ResumedInText(u, b, pat, stop);
    ResumedInText(u', b, pat, stop);
    var (h, r, r') := (b[1..|pat| - 1], Scrub(u + b, pat, stop, |u| + |pat| - 1), Scrub(u' + b, pat, stop, |u'| + |pat| - 1));
    assert (h + r)[|h|..] == r && (h + r')[|h|..] == r';
  }

  lemma {:induction false} ErasedTextMatters(a: string, pat: string, b: string, stop: char -> bool)
    requires SecondStops(pat, stop) && b != [] && stop(b[0]) && Reopens(b, pat, stop)
    ensures Scrub(a + pat + [pat[0]] + b, pat, stop, 0) != Scrub(a + pat + [] + b, pat, stop, 0)
  {
    var (u, u') := (a + pat + [pat[0]], a + pat + []);
    assert u[|u| - 1] == pat[0] && u'[|u'| - 1] == pat[|pat| - 1];
    TailRemembers(u, u', b, pat, stop);
    ErasedAll(a, pat, [pat[0]], [], b, stop);
  }

  /** For the colon-terminated patterns the output is independent of the erased text exactly when what
      follows does not take the pattern up again with text behind it. */
  lemma {:induction false} ColonErasesExactly(a: string, pat: string, b: string, stop: char -> bool)
    requires SecondStops(pat, stop) && (b == [] || stop(b[0]))
    ensures (forall v, w :: StopFree(v, stop) && StopFree(w, stop) ==>
        Scrub(a + pat + v + b, pat, stop, 0) == Scrub(a + pat + w + b, pat, stop, 0))
      <==> !Reopens(b, pat, stop)
  {
    if Reopens(b, pat, stop) {
      ErasedTextMatters(a, pat, b, stop);
      assert StopFree([pat[0]], stop) && StopFree([], stop);
    } else {
      forall v, w | StopFree(v, stop) && StopFree(w, stop)
        ensures Scrub(a + pat + v + b, pat, stop, 0) == Scrub(a + pat + w + b, pat, stop, 0)
      {
        ErasedAll(a, pat, v, w, b, stop);
        if b != [] { TailForgets(a + pat + v, a + pat + w, b, pat, stop); }
      }
    }
  }

  /** Such input: the blank that is skipped decides whether the "3" is erased. */
  lemma VarnoDependsOnErasedText()
    ensures Scrub(" :varno" + " " + ":varno3", VARNO_PATTERN, IsColon, 0)
         != Scrub(" :varno" + "" + ":varno3", VARNO_PATTERN, IsColon, 0)
  {
    ColonPatternsStopSecond();
    assert Reopens(":varno3", VARNO_PATTERN, IsColon);
    ErasedTextMatters("", VARNO_PATTERN, ":varno3", IsColon);
    assert "" + VARNO_PATTERN + [VARNO_PATTERN[0]] + ":varno3" == " :varno" + " " + ":varno3";
    assert "" + VARNO_PATTERN + [] + ":varno3" == " :varno" + "" + ":varno3";
  }
}
