/**
 The bytes of a variable-length GiST key (contrib/btree_gist/btree_utils_var.c).

 A varlena is a four-byte header, holding its total size shifted left by two (little endian),
 followed by its data.  A leaf key wraps one varlena, an internal key two, the second aligned
 to four bytes; which of the two a stored key is can only be told from the sizes.
 */
module GistVarLayout {
  import opened GistVarKey

  const VARHDRSZ: nat := 4
  const MAX_SIZE: nat := 0x4000_0000

  function ByteOf(n: nat): Byte { (n % 256) as Byte }

  /** `SET_VARSIZE`. */
  function Header(size: nat): (h: Bytes)
    ensures |h| == VARHDRSZ
  {
    var w := 4 * size;
    [ByteOf(w), ByteOf(w / 256), ByteOf(w / 65536), ByteOf(w / 16777216)]
  }

  /** `VARSIZE` of the varlena at position `at`. */
  function VarSize(buf: Bytes, at: nat): nat
    requires at + VARHDRSZ <= |buf|
  {
    (buf[at] as int + 256 * buf[at + 1] as int + 65536 * buf[at + 2] as int + 16777216 * buf[at + 3] as int) / 4
  }

  lemma HeaderRoundTrip(size: nat, pre: Bytes, post: Bytes)
    requires size < MAX_SIZE
    ensures VarSize(pre + (Header(size) + post), |pre|) == size
  {
    var (buf, w, at) := (pre + (Header(size) + post), 4 * size, |pre|);
    assert forall i :: 0 <= i < 4 ==> buf[at + i] == Header(size)[i];
    assert buf[at] == Header(size)[0] && buf[at + 1] == Header(size)[1] && buf[at + 2] == Header(size)[2] && buf[at + 3] == Header(size)[3];
    FourBytes(w);
  }

  lemma FourBytes(w: nat)
    requires w < 0x1_0000_0000
    ensures ByteOf(w) as int + 256 * ByteOf(w / 256) as int + 65536 * ByteOf(w / 65536) as int + 16777216 * ByteOf(w / 16777216) as int == w
  {
    assert w == w % 256 + 256 * (w / 256 % 256) + 65536 * (w / 65536 % 256) + 16777216 * (w / 16777216);
  }

  function Varlena(data: Bytes): (v: Bytes)
    ensures |v| == |data| + VARHDRSZ
  {
    Header(|data| + VARHDRSZ) + data
  }

  /** The data of the varlena at `at`. */
  function VarData(buf: Bytes, at: nat): Bytes
    requires at + VARHDRSZ <= |buf| && VARHDRSZ <= VarSize(buf, at) <= |buf| - at
  {
    buf[at + VARHDRSZ..at + VarSize(buf, at)]
  }

  lemma VarlenaRoundTrip(data: Bytes, pre: Bytes, post: Bytes)
    requires |data| + VARHDRSZ < MAX_SIZE
    ensures var buf := pre + (Varlena(data) + post);
      VarSize(buf, |pre|) == |data| + VARHDRSZ && VarData(buf, |pre|) == data
  {
    var (buf, size) := (pre + (Varlena(data) + post), |data| + VARHDRSZ);
    assert buf == pre + (Header(size) + (data + post));
    HeaderRoundTrip(size, pre, data + post);
    assert buf[|pre| + VARHDRSZ..|pre| + size] == data;
  }

  /** `INTALIGN`. */
  function IntAlign(n: nat): (a: nat)
    ensures n <= a < n + 4 && a % 4 == 0
  {
    (n + 3) / 4 * 4
  }

  function Zeros(n: nat): (z: Bytes)
    ensures |z| == n
  {
    seq(n, _ => 0 as Byte)
  }

  /** `gbt_var_key_from_datum`. */
  function LeafKey(v: Bytes): Bytes { Header(|v| + 2 * VARHDRSZ) + Varlena(v) }

  /** `gbt_var_key_copy`; `gbt_var_node_truncate` writes the same layout. */
  function NodeKey(k: Key): Bytes {
    var (l, u) := (Varlena(k.lower), Varlena(k.upper));
    Header(IntAlign(|l|) + |u| + VARHDRSZ) + (l + (Zeros(IntAlign(|l|) - |l|) + u))
  }

  datatype Readable = Readable(lower: Bytes, upper: Bytes, leaf: bool) | Corrupt

  /** `gbt_var_key_readable`; `leaf` is the test `lower == upper` on the pointers. */
  function Read(buf: Bytes): Readable {
    if |buf| < 2 * VARHDRSZ then Corrupt
    else
      var ls := VarSize(buf, VARHDRSZ);
      if !(VARHDRSZ <= ls <= |buf| - VARHDRSZ) then Corrupt
      else if VarSize(buf, 0) > VARHDRSZ + ls then
        var at := VARHDRSZ + IntAlign(ls);
        if at + VARHDRSZ > |buf| || !(VARHDRSZ <= VarSize(buf, at) <= |buf| - at) then Corrupt
        else Readable(VarData(buf, VARHDRSZ), VarData(buf, at), false)
      else Readable(VarData(buf, VARHDRSZ), VarData(buf, VARHDRSZ), true)
  }

  /** A leaf key reads back as its value, and as a leaf. */
  lemma LeafRoundTrip(v: Bytes)
    requires |LeafKey(v)| < MAX_SIZE
    ensures Read(LeafKey(v)) == Readable(v, v, true)
  {
    var (buf, h) := (LeafKey(v), Header(|v| + 2 * VARHDRSZ));
    assert buf == [] + (h + Varlena(v)) && buf == h + (Varlena(v) + []);
    HeaderRoundTrip(|v| + 2 * VARHDRSZ, [], Varlena(v));
    VarlenaRoundTrip(v, h, []);
  }

  lemma NodeLower(h: Bytes, l: Bytes, pad: Bytes, u: Bytes, size: nat)
    requires size < MAX_SIZE && h == Header(size) && |l| + VARHDRSZ < MAX_SIZE
    ensures var buf := h + (Varlena(l) + (pad + u));
      && VarSize(buf, 0) == size
      && VarSize(buf, VARHDRSZ) == |l| + VARHDRSZ && VarData(buf, VARHDRSZ) == l
  {
    var (buf, rest) := (h + (Varlena(l) + (pad + u)), Varlena(l) + (pad + u));
    assert buf == [] + (h + rest);
    HeaderRoundTrip(size, [], rest);
    VarlenaRoundTrip(l, h, pad + u);
  }

  lemma NodeUpper(h: Bytes, l: Bytes, pad: Bytes, u: Bytes)
    requires |u| + VARHDRSZ < MAX_SIZE
    ensures var (buf, at) := (h + (l + (pad + Varlena(u))), |h| + |l| + |pad|);
      VarSize(buf, at) == |u| + VARHDRSZ && VarData(buf, at) == u
  {
    assert h + (l + (pad + Varlena(u))) == (h + l + pad) + (Varlena(u) + []);
    VarlenaRoundTrip(u, h + l + pad, []);
  }

  /** An internal key reads back as its bounds, and never as a leaf, not even when they are equal. */
  lemma NodeRoundTrip(k: Key)
    requires |NodeKey(k)| < MAX_SIZE
    ensures Read(NodeKey(k)) == Readable(k.lower, k.upper, false)
  {
    var (l, u) := (Varlena(k.lower), Varlena(k.upper));
    var pad := Zeros(IntAlign(|l|) - |l|);
    var size := IntAlign(|l|) + |u| + VARHDRSZ;
    NodeLower(Header(size), k.lower, pad, u, size);
    NodeUpper(Header(size), l, pad, k.upper);
    ReadNode(NodeKey(k), k, IntAlign(|l|));
  }

  lemma ReadNode(buf: Bytes, k: Key, aligned: nat)
    requires |buf| == VARHDRSZ + aligned + VARHDRSZ + |k.upper| && aligned == IntAlign(|k.lower| + VARHDRSZ)
    requires VarSize(buf, 0) == |buf| && VarSize(buf, VARHDRSZ) == |k.lower| + VARHDRSZ
    requires VarSize(buf, VARHDRSZ + aligned) == |k.upper| + VARHDRSZ
    requires VarData(buf, VARHDRSZ) == k.lower && VarData(buf, VARHDRSZ + aligned) == k.upper
    ensures Read(buf) == Readable(k.lower, k.upper, false)
  {}
}
