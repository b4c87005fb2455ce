/**
 `blbuild` (contrib/bloom/blinsert.c).

 The callback does not count the tuple that opens a fresh page after a flush, and the last
 cached page is flushed only when the count is positive.  So the promise that a build indexes
 every tuple fails, and it fails for exactly the sizes given by `LosesLast`.
 */
module BloomBuild {
  import opened BloomPage

  const ROOM: nat := BLCKSZ - PAGE_HEADER - OPAQUE

  lemma Division(a: nat, b: nat)
    requires b > 0
    ensures 0 <= a / b && a / b * b <= a < (a / b + 1) * b
  {
    assert a == a / b * b + a % b;
  }

  /** Tuples per page. */
  function Capacity(length: nat): nat
  {
    Division(ROOM, TupleSize(length));
    ROOM / TupleSize(length)
  }

  lemma OrderedMultiples(m: nat, n: nat, size: nat)
    requires m <= n
    ensures m * size <= n * size
  {}

  lemma CapacityFits(length: nat, n: nat)
    requires 1 <= length <= 256
    ensures Fits(length, n) <==> n < Capacity(length)
    ensures Capacity(length) >= 15
  {
    var (size, k) := (TupleSize(length), Capacity(length));
    Division(ROOM, size);
    assert (n + 1) * size == n * size + size;
    if n < k { OrderedMultiples(n + 1, k, size); } else { OrderedMultiples(k + 1, n + 1, size); }
    if k < 15 { OrderedMultiples(k + 1, 15, size); }
  }

  function Concat(pages: seq<seq<Tuple>>): seq<Tuple> {
    if pages == [] then [] else Concat(pages[..|pages| - 1]) + pages[|pages| - 1]
  }

  lemma {:induction false} ConcatAppend(pages: seq<seq<Tuple>>, p: seq<Tuple>)
    ensures Concat(pages + [p]) == Concat(pages) + p
  {
    assert (pages + [p])[..|pages|] == pages;
  }

  /** The last tuple opened a page by overflow: nothing after it was counted. */
  predicate LosesLast(length: nat, n: nat)
    requires 1 <= length <= 256
  {
    CapacityFits(length, 0);
    n > Capacity(length) && n % Capacity(length) == 1
  }

  /** State of the build: the cached page, the number of tuples counted on it, the pages written. */
  class BuildState {
    const length: nat
    var cached: seq<Tuple>
    var count: nat
    var flushed: seq<seq<Tuple>>

    /** After `n` callbacks all pages written are full and all but one tuple of a reopened page are counted. */
    ghost predicate Valid(n: nat)
      reads this
    {
      && 1 <= length <= 256
      && |cached| <= Capacity(length) && (flushed != [] ==> cached != [])
      && count == (if flushed == [] then |cached| else |cached| - 1)
      && n == |flushed| * Capacity(length) + |cached|
      && |Seen()| == n
    }

    ghost function Seen(): seq<Tuple>
      reads this
    {
      Concat(flushed) + cached
    }

    constructor (length: nat)
      requires 1 <= length <= 256
      ensures Valid(0) && Seen() == [] && flushed == [] && this.length == length
    {
      this.length := length;
      cached, count, flushed := [], 0, [];
    }

    /** `bloomBuildCallback`. */
    method Callback(t: Tuple, ghost n: nat)
      requires Valid(n)
      modifies this
      ensures Valid(n + 1) && Seen() == old(Seen()) + [t]
    {
      CapacityFits(length, |cached|);
      if Fits(length, |cached|) {
        cached := cached + [t];
        count := count + 1;
      } else {
        ConcatAppend(flushed, cached);
        OneMorePage(|flushed|, Capacity(length));
        flushed := flushed + [cached];
        cached, count := [t], 0;
      }
    }

    /** The end of `blbuild`. */
    method Finish(ghost n: nat)
      requires Valid(n)
      modifies this
      ensures Concat(flushed) == if LosesLast(length, n) then old(Seen())[..n - 1] else old(Seen())
    {
      LastPage(length, |flushed|, |cached|, n);
      if count > 0 {
        ConcatAppend(flushed, cached);
        flushed := flushed + [cached];
      }
    }
  }

  lemma OneMorePage(q: nat, k: nat)
    ensures (q + 1) * k == q * k + k
  {}

  lemma Remainder(q: nat, k: nat, c: nat)
    requires c < k
    ensures (q * k + c) % k == c
  {
    var x := q * k + c;
    var (d, r) := (x / k, x % k);
    assert x == d * k + r;
    SameQuotient(q, d, k, c, r);
  }

  lemma SameQuotient(q: nat, d: nat, k: nat, c: nat, r: nat)
    requires c < k && r < k && q * k + c == d * k + r
    ensures c == r
  {
    assert (d + 1) * k == d * k + k && (q + 1) * k == q * k + k;
    if q > d {
      OrderedMultiples(d + 1, q, k);
    } else if q < d {
      OrderedMultiples(q + 1, d, k);
    }
  }

  /** The reopened last page holds a single tuple exactly when that tuple would be lost. */
  lemma LastPage(length: nat, q: nat, c: nat, n: nat)
    requires 1 <= length <= 256 && n == q * Capacity(length) + c && c <= Capacity(length) && (q > 0 ==> c > 0)
    ensures LosesLast(length, n) <==> q > 0 && c == 1
  {
    CapacityFits(length, 0);
    var k := Capacity(length);
    if c < k { Remainder(q, k, c); } else { Remainder(q + 1, k, 0); }
    if q > 0 { OrderedMultiples(1, q, k); }
    assert (q + 1) * k == q * k + k;
  }

  /** `blbuild`: the index holds every tuple, in order, but for the one that is lost. */
  method Build(length: nat, ts: seq<Tuple>) returns (pages: seq<seq<Tuple>>)
    requires 1 <= length <= 256
    ensures Concat(pages) == if LosesLast(length, |ts|) then ts[..|ts| - 1] else ts
    ensures Concat(pages) == ts <==> !LosesLast(length, |ts|)
  {
    var b := new BuildState(length);
    for i := 0 to |ts|
      invariant b.length == length && b.Valid(i) && b.Seen() == ts[..i] && fresh(b)
    {
      b.Callback(ts[i], i);
    }
    assert ts[..|ts|] == ts;
    b.Finish(|ts|);
    pages := b.flushed;
  }

  /** With default options (5 words) a page holds 510 tuples, and a table of 511 rows loses one. */
  lemma DefaultBuildLosesRow()
    ensures Capacity(5) == 510 && LosesLast(5, 511)
  {}
}
