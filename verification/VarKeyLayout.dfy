/**
 How variable-length keys are packed (contrib/btree_gist/btree_utils_var.c): a varlena
 holding the lower bound and, at the next multiple of four, the upper bound; a leaf key
 holds one value only and is told apart by its size.
 */
module VarKeyLayout {
  import opened Common
  import opened ByteOrder
  import opened VarKey

  const VARHDRSZ: nat := 4
  const SIZE_LIMIT: nat := 0x4000_0000

  /** The four-byte length word of a varlena of `size` bytes: the size shifted left by two, low byte first. */
  function Header(size: nat): (h: Bytes)
    requires size < SIZE_LIMIT
    ensures |h| == VARHDRSZ
  {
    var w := 4 * size;
    var w1 := w / 0x100;
    var w2 := w1 / 0x100;
    var w3 := w2 / 0x100;
    [(w % 0x100) as Byte, (w1 % 0x100) as Byte, (w2 % 0x100) as Byte, w3 as Byte]
  }

  /** `VARSIZE` of the varlena at offset `at`. */
  function VarSize(m: Bytes, at: nat): nat
    requires at + VARHDRSZ <= |m|
  {
    (m[at] as int + 0x100 * m[at + 1] as int + 0x1_0000 * m[at + 2] as int + 0x100_0000 * m[at + 3] as int) / 4
  }

  function IntAlign(n: nat): (r: nat)
    ensures n <= r < n + 4 && r % 4 == 0
  {
    (n + 3) / 4 * 4
  }

  /** A bytea value as a varlena. */
  function Datum(v: Bytes): (r: Bytes)
    requires |v| + VARHDRSZ < SIZE_LIMIT
    ensures |r| == |v| + VARHDRSZ
  {
    Header(|v| + VARHDRSZ) + v
  }

  function Zeros(n: nat): (r: Bytes)
    ensures |r| == n
  {
    seq(n, _ => 0 as Byte)
  }

  predicate Fits(lo: Bytes, hi: Bytes) {
    |lo| + |hi| + 5 * VARHDRSZ < SIZE_LIMIT
  }

  /** `gbt_var_key_from_datum`: a leaf key. */
  function PackLeaf(v: Bytes): Bytes
    requires Fits(v, [])
  {
    Header(|v| + 2 * VARHDRSZ) + Datum(v)
  }

  /** `gbt_var_key_copy`: a node key. */
  function PackNode(lo: Bytes, hi: Bytes): Bytes
    requires Fits(lo, hi)
  {
    var lower := Datum(lo);
    Header(IntAlign(|lower|) + |hi| + 2 * VARHDRSZ) + lower + Zeros(IntAlign(|lower|) - |lower|) + Datum(hi)
  }

  /** The value of the varlena at an offset, if it lies inside `m`. */
  predicate HasDatum(m: Bytes, at: nat) {
    at + VARHDRSZ <= |m| && VARHDRSZ <= VarSize(m, at) && at + VarSize(m, at) <= |m|
  }

  function DatumAt(m: Bytes, at: nat): Bytes
    requires HasDatum(m, at)
  {
    m[at + VARHDRSZ..at + VarSize(m, at)]
  }

  /** `gbt_var_key_readable`: where the upper bound is, or that it is the lower one. */
  function UpperOffset(m: Bytes): nat
    requires HasDatum(m, 0) && HasDatum(m, VARHDRSZ)
  {
    if VarSize(m, 0) > VARHDRSZ + VarSize(m, VARHDRSZ) then VARHDRSZ + IntAlign(VarSize(m, VARHDRSZ)) else VARHDRSZ
  }

  /** The bytes hold key `k`: both bounds can be read, and a leaf is recognised as such. */
  ghost predicate Reads(m: Bytes, k: Key) {
    && HasDatum(m, 0) && VarSize(m, 0) == |m| && HasDatum(m, VARHDRSZ) && HasDatum(m, UpperOffset(m))
    && DatumAt(m, VARHDRSZ) == k.Lower() && DatumAt(m, UpperOffset(m)) == k.Upper()
    && (k.Leaf? <==> UpperOffset(m) == VARHDRSZ)
  }

  lemma HeaderSize(m: Bytes, at: nat, size: nat)
    requires size < SIZE_LIMIT && at + VARHDRSZ <= |m| && m[at..at + VARHDRSZ] == Header(size)
    ensures VarSize(m, at) == size
  {
    var h := Header(size);
    assert m[at] == h[0] && m[at + 1] == h[1] && m[at + 2] == h[2] && m[at + 3] == h[3];
  }

  /** A varlena somewhere in `m` is read back. */
  lemma DatumReads(m: Bytes, at: nat, v: Bytes)
    requires |v| + VARHDRSZ < SIZE_LIMIT && at + VARHDRSZ + |v| <= |m| && m[at..at + VARHDRSZ + |v|] == Datum(v)
    ensures HasDatum(m, at) && DatumAt(m, at) == v && VarSize(m, at) == |v| + VARHDRSZ
  {
    hide Header, VarSize;
    var w := m[at..at + VARHDRSZ + |v|];
    assert w[..VARHDRSZ] == Header(|v| + VARHDRSZ) && w[VARHDRSZ..] == v;
    assert m[at..at + VARHDRSZ] == w[..VARHDRSZ] && m[at + VARHDRSZ..at + VARHDRSZ + |v|] == w[VARHDRSZ..];
    HeaderSize(m, at, |v| + VARHDRSZ);
  }

  lemma LeafRoundTrip(v: Bytes)
    requires Fits(v, [])
    ensures Reads(PackLeaf(v), Leaf(v))
  {
    hide Header, VarSize, Datum;
    var m := PackLeaf(v);
    assert m[0..VARHDRSZ] == Header(|m|);
    HeaderSize(m, 0, |m|);
    assert m[VARHDRSZ..VARHDRSZ + VARHDRSZ + |v|] == Datum(v);
    DatumReads(m, VARHDRSZ, v);
  }

  /** Packing and reading a node key gives back both bounds, whatever their lengths, and never a leaf. */
  lemma NodeRoundTrip(lo: Bytes, hi: Bytes)
    requires Fits(lo, hi)
    ensures Reads(PackNode(lo, hi), Node(lo, hi))
    ensures UpperOffset(PackNode(lo, hi)) % 4 == 0 && |lo| + 8 <= UpperOffset(PackNode(lo, hi)) < |lo| + 12
  {
    hide Header, VarSize, Datum, IntAlign;
    var m, lower := PackNode(lo, hi), Datum(lo);
    var up := VARHDRSZ + IntAlign(|lower|);
    assert |m| == up + |hi| + VARHDRSZ;
    assert m[0..VARHDRSZ] == Header(|m|);
    HeaderSize(m, 0, |m|);
    assert m[VARHDRSZ..VARHDRSZ + VARHDRSZ + |lo|] == lower;
    DatumReads(m, VARHDRSZ, lo);
    assert m[up..up + VARHDRSZ + |hi|] == Datum(hi);
    DatumReads(m, up, hi);
  }
}
