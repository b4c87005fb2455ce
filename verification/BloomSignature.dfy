/**
 Bloom signatures and the generator that picks their bits (contrib/bloom/blutils.c).

 Integers are mathematical; every int32 operation of the generator is proved to stay in range.
 C's `/` and `%` truncate toward zero.
 */
module BloomSignature {

  // ----- the generator -----

  const INT32_MAX: int := 0x7fff_ffff
  const MODULUS: int := 0x7fff_ffff

  predicate IsInt32(x: int) { -0x8000_0000 <= x <= INT32_MAX }

  predicate IsUint32(x: int) { 0 <= x < 0x1_0000_0000 }

  type Uint32 = x: int | IsUint32(x) witness 0

  function CDiv(a: int, b: int): (q: int)
    requires b > 0
  {
    if a >= 0 then a / b else -((-a) / b)
  }

  function CMod(a: int, b: int): (r: int)
    requires b > 0
    ensures if a >= 0 then 0 <= r < b else -b < r <= 0
  {
    if a >= 0 then a % b else -((-a) % b)
  }

  lemma CDivMod(a: int, b: int)
    requires b > 0
    ensures a == CDiv(a, b) * b + CMod(a, b)
  {}

  /** Storing a uint32 in an int32. */
  function ToInt32(u: int): int { if u > INT32_MAX then u - 0x1_0000_0000 else u }

  /** `mySrand`. */
  function Seeded(seed: int): int { CMod(ToInt32(seed), 0x7fff_fffe) + 1 }

  /** The state after `myRand`. */
  function Step(x: int): int {
    var y := 16807 * CMod(x, 127773) - 2836 * CDiv(x, 127773);
    if y < 0 then y + 0x7fff_ffff else y
  }

  /** Where the states that `mySrand` can leave lie: negative ones too, as the seed is stored signed. */
  predicate IsState(x: int) { -0x7fff_fffc <= x <= 0x7fff_fffe }

  lemma SeededIsState(seed: int)
    requires IsUint32(seed)
    ensures IsState(Seeded(seed))
  {}

  /** The seed is read as signed; the state is the remainder of its division by 2^31 - 2, with its sign, plus one. */
  lemma SeededExactly(seed: int)
    requires IsUint32(seed)
    ensures seed < 0x8000_0000 ==> 1 <= Seeded(seed) <= 0x7fff_fffe && (Seeded(seed) - 1 - seed) % 0x7fff_fffe == 0
    ensures seed >= 0x8000_0000 ==>
      -0x7fff_fffc <= Seeded(seed) <= 1 && (Seeded(seed) - 1 - (seed - 0x1_0000_0000)) % 0x7fff_fffe == 0
  {}

  /** Exactly two seeds leave the generator in its fixed point 0. */
  lemma ZeroStateSeeds(seed: int)
    requires IsUint32(seed)
    ensures Seeded(seed) == 0 <==> seed == 0xffff_ffff || seed == 0x8000_0001
  {
    var s := ToInt32(seed);
    CDivMod(s, 0x7fff_fffe);
    assert -1 <= CDiv(s, 0x7fff_fffe) <= 1;
  }

  lemma ZeroStateIsFixed()
    ensures Step(0) == 0
  {}

  /** No intermediate value leaves int32. */
  lemma StepFitsInt32(x: int)
    requires IsState(x)
    ensures var (hi, lo) := (CDiv(x, 127773), CMod(x, 127773));
      && IsInt32(16807 * lo) && IsInt32(2836 * hi) && IsInt32(16807 * lo - 2836 * hi)
      && -0x7fff_ffff < 16807 * lo - 2836 * hi < 0x7fff_ffff
  {
    var (hi, lo) := (CDiv(x, 127773), CMod(x, 127773));
    assert -16808 <= hi <= 16808;
    if x >= 0 { assert hi >= 0; } else { assert hi <= 0; }
  }

  ghost predicate Congruent(a: int, b: int) { exists k: int :: a - b == k * MODULUS }

  /** 16807 has an inverse modulo 2^31 - 1, so only multiples of the modulus map to multiples of it. */
  lemma MultiplierInvertible(x: int, k: int)
    requires 16807 * x == k * MODULUS
    ensures x == (1407677000 * k - 11017 * x) * MODULUS
  {
    assert 16807 * 1407677000 == 11017 * MODULUS + 1;
  }

  lemma StepCongruent(x: int)
    ensures Congruent(Step(x), 16807 * x)
  {
    var (hi, lo) := (CDiv(x, 127773), CMod(x, 127773));
    CDivMod(x, 127773);
    assert 16807 * x == 16807 * (hi * 127773 + lo);
    assert MODULUS == 16807 * 127773 + 2836;
    var k := if 16807 * lo - 2836 * hi < 0 then 1 - hi else -hi;
    assert Step(x) - 16807 * x == k * MODULUS;
  }

  lemma StepInRange(x: int)
    requires IsState(x)
    ensures 0 <= Step(x) <= 0x7fff_fffe
  {
    StepFitsInt32(x);
  }

  /** From every nonzero state `myRand` takes the one step of the Park-Miller generator, in range. */
  lemma StepIsParkMiller(x: int)
    requires IsState(x) && x != 0
    ensures 1 <= Step(x) <= 0x7fff_fffe
    ensures Congruent(Step(x), 16807 * x)
  {
    hide Step;
    StepInRange(x);
    StepCongruent(x);
    if Step(x) == 0 {
      var k :| Step(x) - 16807 * x == k * MODULUS;
      MultiplierInvertible(x, -k);
    }
  }

  /** There is only one such value. */
  lemma ParkMillerUnique(x: int, y: int, z: int)
    requires 1 <= y <= 0x7fff_fffe && 1 <= z <= 0x7fff_fffe
    requires Congruent(y, 16807 * x) && Congruent(z, 16807 * x)
    ensures y == z
  {
    var k :| y - 16807 * x == k * MODULUS;
    var l :| z - 16807 * x == l * MODULUS;
    assert y - z == (k - l) * MODULUS;
  }

  /** The file-level variable `next` and the functions that update it. */
  class Generator {
    var next: int

    constructor ()
      ensures next == 0
    {
      next := 0;
    }

    method Srand(seed: int)
      requires IsUint32(seed)
      modifies this
      ensures next == Seeded(seed)
    {
      next := ToInt32(seed);
      next := CMod(next, 0x7fff_fffe) + 1;
    }

    method Rand() returns (r: int)
      requires IsState(next)
      modifies this
      ensures next == Step(old(next)) && IsState(next) && r == next - 1
      ensures old(next) != 0 ==> next != 0 && 0 <= r <= 0x7fff_fffd
    {
      if next != 0 { StepIsParkMiller(next); } else { ZeroStateIsFixed(); }
      var hi := CDiv(next, 127773);
      var lo := CMod(next, 127773);
      var x := 16807 * lo - 2836 * hi;
      if x < 0 {
        x := x + 0x7fff_ffff;
      }
      next := x;
      r := x - 1;
    }
  }

  // ----- signature words -----

  const WORD_BITS: nat := 16

  /** A uint16 as its bits, least significant first. */
  type Word = w: seq<bool> | |w| == WORD_BITS witness seq(WORD_BITS, _ => false)

  const ZERO: Word := seq(WORD_BITS, _ => false)

  function And(a: Word, b: Word): Word { seq(WORD_BITS, k requires 0 <= k < WORD_BITS => a[k] && b[k]) }

  type Signature = seq<Word>

  /** `GETBIT`. */
  predicate HasBit(s: Signature, i: nat)
    requires i < |s| * WORD_BITS
  {
    s[i / WORD_BITS][i % WORD_BITS]
  }

  /** `SETBIT`. */
  function SetBit(s: Signature, i: nat): (r: Signature)
    requires i < |s| * WORD_BITS
    ensures |r| == |s|
  {
    s[i / WORD_BITS := s[i / WORD_BITS][i % WORD_BITS := true]]
  }

  ghost function BitsOf(s: Signature): set<nat> { set i | 0 <= i < |s| * WORD_BITS && HasBit(s, i) }

  lemma SetBitAdds(s: Signature, i: nat)
    requires i < |s| * WORD_BITS
    ensures BitsOf(SetBit(s, i)) == BitsOf(s) + {i}
  {
    forall j: nat | j < |s| * WORD_BITS ensures HasBit(SetBit(s, i), j) <==> j == i || HasBit(s, j) {
      assert j == j / WORD_BITS * WORD_BITS + j % WORD_BITS;
      assert i == i / WORD_BITS * WORD_BITS + i % WORD_BITS;
    }
  }

  /** The scan's test: every word of the query survives masking by the tuple's word. */
  predicate Covers(t: Signature, q: Signature)
    requires |t| == |q|
  {
    forall w :: 0 <= w < |q| ==> And(t[w], q[w]) == q[w]
  }

  /** It is inclusion of the bits, no more and no less. */
  lemma CoversIsInclusion(t: Signature, q: Signature)
    requires |t| == |q|
    ensures Covers(t, q) <==> BitsOf(q) <= BitsOf(t)
  {
    if Covers(t, q) {
      forall i: nat | i in BitsOf(q) ensures i in BitsOf(t) {
        assert And(t[i / WORD_BITS], q[i / WORD_BITS])[i % WORD_BITS] == q[i / WORD_BITS][i % WORD_BITS];
      }
    }
    if BitsOf(q) <= BitsOf(t) {
      forall w, k | 0 <= w < |q| && 0 <= k < WORD_BITS ensures q[w][k] ==> t[w][k] {
        BitAt(q, w, k);
        BitAt(t, w, k);
      }
      forall w | 0 <= w < |q| ensures And(t[w], q[w]) == q[w] {
        assert forall k :: 0 <= k < WORD_BITS ==> And(t[w], q[w])[k] == q[w][k];
      }
    }
  }

  lemma BitAt(s: Signature, w: nat, k: nat)
    requires w < |s| && k < WORD_BITS
    ensures w * WORD_BITS + k < |s| * WORD_BITS
    ensures s[w][k] <==> w * WORD_BITS + k in BitsOf(s)
  {
    var i := w * WORD_BITS + k;
    assert i / WORD_BITS == w && i % WORD_BITS == k;
    assert HasBit(s, i) <==> s[w][k];
  }

  // ----- signing a value -----

  const INDEX_MAX_KEYS: nat := 32

  /** Options frozen in the metapage: words per signature and bits per column. */
  datatype Options = Options(bloomLength: nat, bitSize: seq<nat>) {
    /** What `bloptions` lets through: 1 to 4096 bits rounded up to words, 1 to 4095 bits per column. */
    predicate Valid() {
      && 1 <= bloomLength <= 256 && |bitSize| == INDEX_MAX_KEYS
      && forall i :: 0 <= i < |bitSize| ==> 1 <= bitSize[i] <= 4095
    }
  }

  function Xor32(a: int, b: int): (r: int)
    requires IsUint32(a) && IsUint32(b)
    ensures IsUint32(r)
  {
    ((a as bv32) ^ (b as bv32)) as int
  }

  /** The seed `signValue` derives from the column number and the value's hash. */
  function ValueSeed(attno: nat, hash: int): int
    requires attno < INDEX_MAX_KEYS && IsUint32(hash)
  {
    ColumnState(attno);
    Xor32(hash, Step(Seeded(attno)) - 1)
  }

  lemma ColumnState(attno: nat)
    requires attno < INDEX_MAX_KEYS
    ensures Seeded(attno) == attno + 1 && 1 <= Step(Seeded(attno)) <= 0x7fff_fffe
  {
    StepIsParkMiller(Seeded(attno));
  }

  /** The hash does not drive the generator into its fixed point; see `ZeroStateSeeds`. */
  predicate Signable(attno: nat, hash: int)
    requires attno < INDEX_MAX_KEYS && IsUint32(hash)
  {
    ValueSeed(attno, hash) != 0xffff_ffff && ValueSeed(attno, hash) != 0x8000_0001
  }

  /** The next bit number picked from generator state `x` among `m`: C's `%` on what `myRand` returns. */
  function PickBit(x: int, m: nat): int
    requires m >= 1
  {
    CMod(Step(x) - 1, m)
  }

  /** Every bit number picked lies inside the signature iff the state is not the fixed point. */
  lemma PickBitInRange(x: int, m: nat)
    requires IsState(x) && m >= 2
    ensures 0 <= PickBit(x, m) < m <==> x != 0
    ensures x != 0 ==> IsState(Step(x)) && Step(x) != 0
  {
    if x != 0 { StepIsParkMiller(x); }
  }

  /** The bit numbers `n` picks from state `x` yield. */
  ghost function Picks(x: int, m: nat, n: nat): (picks: seq<int>)
    requires m >= 1
    ensures |picks| == n
    decreases n
  {
    if n == 0 then [] else [PickBit(x, m)] + Picks(Step(x), m, n - 1)
  }

  ghost predicate AllBelow(picks: seq<int>, m: nat) { forall k :: 0 <= k < |picks| ==> 0 <= picks[k] < m }

  ghost function ToSet(picks: seq<int>): set<int> { set k | 0 <= k < |picks| :: picks[k] }

  lemma {:induction false} PicksInRange(x: int, m: nat, n: nat)
    requires IsState(x) && m >= 2 && n >= 1
    ensures AllBelow(Picks(x, m, n), m) <==> x != 0
    decreases n
  {
    PickBitInRange(x, m);
    var picks := Picks(x, m, n);
    assert picks[0] == PickBit(x, m);
    if x != 0 && n > 1 {
      PicksInRange(Step(x), m, n - 1);
    }
  }

  /** The bit numbers of a value in a column depend on column, hash and options alone. */
  ghost function ValuePicks(opts: Options, attno: nat, hash: int): seq<int>
    requires opts.Valid() && attno < INDEX_MAX_KEYS && IsUint32(hash)
  {
    Picks(Seeded(ValueSeed(attno, hash)), opts.bloomLength * WORD_BITS, opts.bitSize[attno])
  }

  ghost function ValueBits(opts: Options, attno: nat, hash: int): set<int>
    requires opts.Valid() && attno < INDEX_MAX_KEYS && IsUint32(hash)
  {
    ToSet(ValuePicks(opts, attno, hash))
  }

  /** For the two excluded seeds a bit number outside the signature is picked, and only for those. */
  lemma ValueBitsInRange(opts: Options, attno: nat, hash: int)
    requires opts.Valid() && attno < INDEX_MAX_KEYS && IsUint32(hash)
    ensures AllBelow(ValuePicks(opts, attno, hash), opts.bloomLength * WORD_BITS) <==> Signable(attno, hash)
  {
    var seed := ValueSeed(attno, hash);
    ZeroStateSeeds(seed);
    SeededIsState(seed);
    PicksInRange(Seeded(seed), opts.bloomLength * WORD_BITS, opts.bitSize[attno]);
  }

  // ----- the bits, in closed form -----

  function Power(n: nat): int { if n == 0 then 1 else 16807 * Power(n - 1) }

  lemma CongruentTimes(a: int, b: int, c: int)
    requires Congruent(a, b)
    ensures Congruent(c * a, c * b)
  {
    var k :| a - b == k * MODULUS;
    assert c * a - c * b == (c * k) * MODULUS;
  }

  lemma CongruentTrans(a: int, b: int, c: int)
    requires Congruent(a, b) && Congruent(b, c)
    ensures Congruent(a, c)
  {
    var k :| a - b == k * MODULUS;
    var l :| b - c == l * MODULUS;
    assert a - c == (k + l) * MODULUS;
  }

  /** The one number from 1 to 2^31 - 2 that is congruent to the `n`-th power of 16807 times `x` modulo 2^31 - 1. */
  ghost predicate IsDraw(x: int, n: nat, y: int) { 1 <= y <= 0x7fff_fffe && Congruent(y, Power(n) * x) }

  lemma DrawIsUnique(x: int, n: nat, y: int, z: int)
    requires IsDraw(x, n, y) && IsDraw(x, n, z)
    ensures y == z
  {
    var k :| y - Power(n) * x == k * MODULUS;
    var l :| z - Power(n) * x == l * MODULUS;
    assert y - z == (k - l) * MODULUS;
  }

  /** A draw one step later. */
  lemma DrawLater(x: int, n: nat, y: int)
    requires IsState(x) && x != 0 && IsDraw(Step(x), n, y)
    ensures IsDraw(x, n + 1, y)
  {
    hide Step;
    StepIsParkMiller(x);
    CongruentTimes(Step(x), 16807 * x, Power(n));
    assert Power(n) * (16807 * x) == Power(n + 1) * x;
    CongruentTrans(y, Power(n) * Step(x), Power(n + 1) * x);
  }

  lemma {:induction false} PickIs(x: int, m: nat, n: nat, j: nat) returns (y: int)
    requires IsState(x) && x != 0 && m >= 1 && j < n
    ensures IsDraw(x, j + 1, y) && Picks(x, m, n)[j] == (y - 1) % m
    decreases n
  {
    hide Step, Congruent;
    StepIsParkMiller(x);
    if j == 0 {
      y := Step(x);
      assert Power(1) * x == 16807 * x;
    } else {
      y := PickIs(Step(x), m, n - 1, j - 1);
      DrawLater(x, j, y);
    }
  }

  /** What the hash is combined with: the column number, from 1, times 16807, less one. */
  lemma SeedIs(attno: nat, hash: int)
    requires attno < INDEX_MAX_KEYS && IsUint32(hash)
    ensures IsUint32(16807 * (attno + 1) - 1) && ValueSeed(attno, hash) == Xor32(hash, 16807 * (attno + 1) - 1)
  {
    hide Xor32;
    ColumnState(attno);
  }

  /**
   A value sets as many bits as its column has: the `j`-th is the power 16807^(j + 1) times the seeded state
   modulo 2^31 - 1, less one, modulo the length of the signature.
   */
  lemma PicksExactly(opts: Options, attno: nat, hash: int)
    requires opts.Valid() && attno < INDEX_MAX_KEYS && IsUint32(hash) && Signable(attno, hash)
    ensures |ValuePicks(opts, attno, hash)| == opts.bitSize[attno]
    ensures forall j :: 0 <= j < opts.bitSize[attno] ==>
      IsPick(opts, Seeded(ValueSeed(attno, hash)), j + 1, ValuePicks(opts, attno, hash)[j])
  {
    hide Step, Seeded, ValueSeed, IsDraw;
    var seed := ValueSeed(attno, hash);
    SeedInRange(attno, hash);
    ZeroStateSeeds(seed);
    SeededIsState(seed);
    forall j | 0 <= j < opts.bitSize[attno]
      ensures IsPick(opts, Seeded(seed), j + 1, ValuePicks(opts, attno, hash)[j])
    {
      var y := PickIs(Seeded(seed), opts.bloomLength * WORD_BITS, opts.bitSize[attno], j);
    }
  }

  /** The bit that the `n`-th draw from the state `x` picks, from 1. */
  ghost predicate IsPick(opts: Options, x: int, n: nat, pick: int)
    requires opts.Valid()
  {
    exists y :: IsDraw(x, n, y) && pick == (y - 1) % (opts.bloomLength * WORD_BITS)
  }

  lemma SeedInRange(attno: nat, hash: int)
    requires attno < INDEX_MAX_KEYS && IsUint32(hash)
    ensures IsUint32(ValueSeed(attno, hash))
  {}

  /** Such a hash, in the first column: it is the complement of the first number drawn for that column. */
  lemma BadHash()
    ensures !Signable(0, 0xffff_be59)
  {
    hide Step, Seeded, Xor32;
    FirstDraw();
    ComplementsFill();
  }

  lemma FirstDraw()
    ensures Step(Seeded(0)) == 16807
  {}

  lemma ComplementsFill()
    ensures Xor32(0xffff_be59, 16806) == 0xffff_ffff
  {
    assert ((0xffff_be59 as bv32) ^ (16806 as bv32)) as int == 0xffff_ffff;
  }

  /** `signValue`: whatever state the shared generator was left in, the value's bits are added and nothing else.
      `defined` is false where the C code sets bit -1, which is undefined; nothing is set here then. */
  method SignValue(opts: Options, gen: Generator, sign: array<Word>, attno: nat, hash: int) returns (defined: bool)
    requires opts.Valid() && sign.Length == opts.bloomLength
    requires attno < INDEX_MAX_KEYS && IsUint32(hash)
    modifies gen, sign
    ensures defined == Signable(attno, hash)
    ensures BitsOf(sign[..]) == old(BitsOf(sign[..])) + if defined then ValueBits(opts, attno, hash) else {}
  {
    gen.Srand(attno);
    ColumnState(attno);
    var r := gen.Rand();
    ZeroStateSeeds(Xor32(hash, r));
    gen.Srand(Xor32(hash, r));
    SeededIsState(Xor32(hash, r));
    defined := gen.next != 0;
    if defined {
      SetBits(gen, sign, opts.bitSize[attno]);
    }
  }

  /** The loop of `signValue`: `n` more bits from the current state. */
  method SetBits(gen: Generator, sign: array<Word>, n: nat)
    requires sign.Length >= 1 && IsState(gen.next) && gen.next != 0
    modifies gen, sign
    ensures BitsOf(sign[..]) == old(BitsOf(sign[..])) + ToSet(Picks(old(gen.next), sign.Length * WORD_BITS, n))
  {
    var m := sign.Length * WORD_BITS;
    ghost var (before, start) := (BitsOf(sign[..]), gen.next);
    ghost var picks := Picks(start, m, n);
    var j := 0;
    while j < n
      invariant 0 <= j <= n && sign.Length * WORD_BITS == m
      invariant IsState(gen.next) && gen.next != 0
      invariant picks[j..] == Picks(gen.next, m, n - j)
      invariant BitsOf(sign[..]) == before + ToSet(picks[..j])
    {
      PicksStep(picks, gen.next, m, n, j);
      SetNext(gen, sign, m);
      j := j + 1;
    }
    assert picks[..n] == picks;
  }

  lemma PicksStep(picks: seq<int>, x: int, m: nat, n: nat, j: nat)
    requires j < n == |picks| && m >= 1 && picks[j..] == Picks(x, m, n - j)
    ensures picks[j + 1..] == Picks(Step(x), m, n - j - 1)
    ensures ToSet(picks[..j + 1]) == ToSet(picks[..j]) + {PickBit(x, m)}
  {
    assert picks[j] == picks[j..][0];
    assert picks[j + 1..] == picks[j..][1..];
    ToSetGrows(picks, j);
  }

  /** One round of the loop. */
  method SetNext(gen: Generator, sign: array<Word>, m: nat)
    requires sign.Length >= 1 && m == sign.Length * WORD_BITS && IsState(gen.next) && gen.next != 0
    modifies gen, sign
    ensures gen.next == Step(old(gen.next)) && IsState(gen.next) && gen.next != 0
    ensures BitsOf(sign[..]) == old(BitsOf(sign[..])) + {PickBit(old(gen.next), m)}
  {
    PickBitInRange(gen.next, m);
    var x := gen.Rand();
    SetOne(sign, CMod(x, m));
  }

  lemma ToSetGrows(picks: seq<int>, j: nat)
    requires j < |picks|
    ensures ToSet(picks[..j + 1]) == ToSet(picks[..j]) + {picks[j]}
  {
    assert picks[..j + 1] == picks[..j] + [picks[j]];
    assert forall k :: 0 <= k < j ==> picks[..j + 1][k] == picks[..j][k];
    assert picks[..j + 1][j] == picks[j];
  }

  method SetOne(sign: array<Word>, nBit: nat)
    requires nBit < sign.Length * WORD_BITS
    modifies sign
    ensures BitsOf(sign[..]) == old(BitsOf(sign[..])) + {nBit}
  {
    ghost var was := sign[..];
    SetBitAdds(was, nBit);
    sign[nBit / WORD_BITS] := sign[nBit / WORD_BITS][nBit % WORD_BITS := true];
    assert sign[..] == SetBit(was, nBit);
  }
}
