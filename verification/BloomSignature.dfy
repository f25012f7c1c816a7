/**
 Bloom signatures: how a column value turns into signature bits, and how the
 word-wise match of a scan relates to those bits
 (contrib/bloom/blutils.c, contrib/bloom/blscan.c).
 */
module BloomSignature {
  import opened CInt
  import opened BloomRandom

  const WORD_BITS: nat := 16

  /** A column value; only its hash matters here. */
  type Datum = int

  /** The per-column hash procedure of the operator class. */
  type HashFn = (nat, Datum) -> uint32

  /** The frozen options of an index: signature length in words, bits per column. */
  datatype Options = Options(bloomLength: nat, bitSize: seq<nat>) {
    ghost predicate Legal() {
      1 <= bloomLength <= 256 && |bitSize| == 32
    }

    function Bits(): nat {
      bloomLength * WORD_BITS
    }
  }

  // ------------------------------------------------------------------ bits

  /** A 16-bit signature word, least significant bit first. */
  type Word = w: seq<bool> | |w| == WORD_BITS witness seq(WORD_BITS, _ => false)

  function ZeroWord(): Word {
    seq(WORD_BITS, _ => false)
  }

  /** C's `a & b`. */
  function And(a: Word, b: Word): Word {
    seq(WORD_BITS, k requires 0 <= k < WORD_BITS => a[k] && b[k])
  }

  /** C's `a | b`. */
  function Or(a: Word, b: Word): Word {
    seq(WORD_BITS, k requires 0 <= k < WORD_BITS => a[k] || b[k])
  }

  /** C's `0x01 << k`. */
  function Mask(k: nat): Word
    requires k < WORD_BITS
  {
    ZeroWord()[k := true]
  }

  predicate GetBit(sign: seq<Word>, i: nat)
    requires i < WORD_BITS * |sign|
  {
    sign[i / WORD_BITS][i % WORD_BITS]
  }

  /** The bit positions a signature has set. */
  ghost function Positions(sign: seq<Word>): set<nat> {
    set i | 0 <= i < WORD_BITS * |sign| && GetBit(sign, i)
  }

  /** SETBIT adds exactly the named position. */
  lemma SetBitAdds(sign: seq<Word>, i: nat)
    requires i < WORD_BITS * |sign|
    ensures Positions(sign[i / WORD_BITS := Or(sign[i / WORD_BITS], Mask(i % WORD_BITS))]) == Positions(sign) + {i}
  {
    var after := sign[i / WORD_BITS := Or(sign[i / WORD_BITS], Mask(i % WORD_BITS))];
    forall j: nat | j < WORD_BITS * |sign|
      ensures GetBit(after, j) <==> GetBit(sign, j) || j == i
    {
      assert j / WORD_BITS == i / WORD_BITS && j % WORD_BITS == i % WORD_BITS ==> j == i;
    }
  }

  /** The scan's word-by-word test `(t & s) == s`. */
  predicate WordsMatch(t: seq<Word>, s: seq<Word>)
    requires |t| == |s|
  {
    forall k :: 0 <= k < |s| ==> And(t[k], s[k]) == s[k]
  }

  lemma WordSubset(a: Word, b: Word)
    ensures And(a, b) == b <==> forall k :: 0 <= k < WORD_BITS ==> b[k] ==> a[k]
  {
    if And(a, b) == b {
      forall k | 0 <= k < WORD_BITS
        ensures b[k] ==> a[k]
      {
        assert And(a, b)[k] == (a[k] && b[k]);
      }
    }
  }

  /** The word test accepts a tuple exactly when its bits include the scan's bits. */
  lemma WordsMatchIsInclusion(t: seq<Word>, s: seq<Word>)
    requires |t| == |s|
    ensures WordsMatch(t, s) <==> Positions(s) <= Positions(t)
  {
    if WordsMatch(t, s) {
      forall i | i in Positions(s)
        ensures i in Positions(t)
      {
        WordSubset(t[i / WORD_BITS], s[i / WORD_BITS]);
      }
    }
    if Positions(s) <= Positions(t) {
      forall k | 0 <= k < |s|
        ensures And(t[k], s[k]) == s[k]
      {
        forall j | 0 <= j < WORD_BITS
          ensures s[k][j] ==> t[k][j]
        {
          var i := k * WORD_BITS + j;
          assert i / WORD_BITS == k && i % WORD_BITS == j;
          assert GetBit(s, i) ==> i in Positions(s);
          assert GetBit(t, i) <==> i in Positions(t);
        }
        WordSubset(t[k], s[k]);
      }
    }
  }

  // ------------------------------------------------------------ signing values

  /** C's `a ^ b` on unsigned integers. */
  function Xor(a: nat, b: nat): nat {
    if a == 0 && b == 0 then 0 else (a + b) % 2 + 2 * Xor(a / 2, b / 2)
  }

  lemma {:induction false} XorBound(a: nat, b: nat, p: nat)
    requires a < Pow2(p) && b < Pow2(p)
    ensures Xor(a, b) < Pow2(p)
  {
    if p > 0 {
      XorBound(a / 2, b / 2, p - 1);
    }
  }

  function Pow2(p: nat): nat {
    if p == 0 then 1 else 2 * Pow2(p - 1)
  }

  lemma Pow2At32()
    ensures Pow2(32) == 0x1_0000_0000
  {
    assert Pow2(8) == 256;
    assert Pow2(16) == 0x1_0000;
    assert Pow2(24) == 0x100_0000;
  }

  function Xor32(a: uint32, b: uint32): uint32 {
    Pow2At32();
    XorBound(a as int, b as int, 32);
    Xor(a as int, b as int) as uint32
  }

  /** The seed of a value's bit sequence: its hash mixed with the column's first draw. */
  function ValueSeed(attno: nat, h: uint32): uint32
    requires attno < 32
  {
    Xor32(h, FirstDraw(attno) as uint32)
  }

  function FirstDraw(attno: nat): (r: int)
    requires attno < 32
    ensures 0 <= r < MERSENNE - 1
  {
    var seed := attno as uint32;
    OrbitRange(seed, 0);
    assert Orbit(SeedState(seed) as int, 1) == LehmerStep(SeedState(seed) as int);
    LehmerStep(SeedState(seed) as int) - 1
  }

  /** The `j`-th bit position drawn from a seed, in a signature of `bits` bits. */
  function DrawnBit(seed: uint32, bits: nat, j: nat): (b: int)
    requires bits > 0
    ensures !PoisonedSeed(seed) ==> 0 <= b < bits
    ensures PoisonedSeed(seed) && bits > 1 ==> b == -1
  {
    OrbitRange(seed, j);
    CMod(Orbit(SeedState(seed) as int, j + 1) - 1, bits)
  }

  /** The positions of the first `n` draws from a seed. */
  ghost function DrawnBits(seed: uint32, bits: nat, n: nat): set<int>
    requires bits > 0
  {
    if n == 0 then {} else DrawnBits(seed, bits, n - 1) + {DrawnBit(seed, bits, n - 1)}
  }

  /** All bit positions `signValue` sets for a value with hash `h` in column `attno`. */
  ghost function SignBits(opts: Options, attno: nat, h: uint32): set<int>
    requires opts.Legal() && attno < 32
  {
    DrawnBits(ValueSeed(attno, h), opts.Bits(), opts.bitSize[attno])
  }

  // ------------------------------------------------------------ which positions these are

  /** Draw number `j` after seeding with `seed` gives position `b`. */
  ghost predicate Draws(seed: uint32, bits: nat, j: nat, b: int)
    requires bits > 0
  {
    b == CMod(Orbit(SeedState(seed) as int, j + 1) - 1, bits)
  }

  /** `b` is one of the `bitSize` positions drawn for a value with hash `h` in column `attno`. */
  ghost predicate Signs(opts: Options, attno: nat, h: uint32, b: int)
    requires opts.Legal() && attno < 32
  {
    exists j :: 0 <= j < opts.bitSize[attno] && Draws(ValueSeed(attno, h), opts.Bits(), j, b)
  }

  lemma {:induction false} DrawnBitsAre(seed: uint32, bits: nat, n: nat, b: int)
    requires bits > 0
    ensures b in DrawnBits(seed, bits, n) <==> exists j :: 0 <= j < n && Draws(seed, bits, j, b)
  {
    if n > 0 {
      DrawnBitsAre(seed, bits, n - 1, b);
      if b == DrawnBit(seed, bits, n - 1) {
        assert Draws(seed, bits, n - 1, b);
      }
    }
  }

  /** A value's positions are exactly its draws: all of them, and nothing else. */
  lemma SignBitsAre(opts: Options, attno: nat, h: uint32, b: int)
    requires opts.Legal() && attno < 32
    ensures b in SignBits(opts, attno, h) <==> Signs(opts, attno, h, b)
  {
    DrawnBitsAre(ValueSeed(attno, h), opts.Bits(), opts.bitSize[attno], b);
  }

  lemma FirstDrawIs(attno: nat)
    requires attno < 32
    ensures FirstDraw(attno) == 16807 * (attno + 1) - 1
  {
    var s := SeedState(attno as uint32) as int;
    assert s == attno + 1;
    assert s / 127773 == 0 && s % 127773 == s;
    assert LehmerStep(s) == 16807 * s;
  }

  /** The column's first draw is mixed into the seed: mixing it in again gives back the hash. */
  lemma ValueSeedIs(attno: nat, h: uint32)
    requires attno < 32
    ensures Xor32(ValueSeed(attno, h), (16807 * (attno + 1) - 1) as uint32) == h
  {
    hide FirstDraw, Xor;
    FirstDrawIs(attno);
    XorTwice(h as int, FirstDraw(attno));
  }

  /** Values whose hash leaves the generator in a usable state. */
  predicate Signable(attno: nat, h: uint32)
    requires attno < 32
  {
    !PoisonedSeed(ValueSeed(attno, h))
  }

  lemma {:induction false} DrawnBitsRange(seed: uint32, bits: nat, n: nat)
    requires bits > 1
    ensures !PoisonedSeed(seed) ==> forall b :: b in DrawnBits(seed, bits, n) ==> 0 <= b < bits
    ensures PoisonedSeed(seed) && n > 0 ==> -1 in DrawnBits(seed, bits, n)
  {
    if n > 0 {
      DrawnBitsRange(seed, bits, n - 1);
    }
  }

  /**
   Every bit position drawn for a value lies inside the signature if and only if
   the value is signable: a poisoned seed would address bit -1.
   */
  lemma SignBitsInRange(opts: Options, attno: nat, h: uint32)
    requires opts.Legal() && attno < 32 && opts.bitSize[attno] > 0
    ensures (forall b :: b in SignBits(opts, attno, h) ==> 0 <= b < opts.Bits()) <==> Signable(attno, h)
  {
    var seed, bits, n := ValueSeed(attno, h), opts.Bits(), opts.bitSize[attno];
    InRangeIffUnpoisoned(seed, bits, n);
    assert SignBits(opts, attno, h) == DrawnBits(seed, bits, n);
  }

  lemma InRangeIffUnpoisoned(seed: uint32, bits: nat, n: nat)
    requires bits > 1 && n > 0
    ensures (forall b :: b in DrawnBits(seed, bits, n) ==> 0 <= b < bits) <==> !PoisonedSeed(seed)
  {
    DrawnBitsRange(seed, bits, n);
  }

  lemma {:induction false} XorStep(a: nat, b: nat)
    ensures Xor(a, b) % 2 == (a + b) % 2 && Xor(a, b) / 2 == Xor(a / 2, b / 2)
  {
    if a != 0 || b != 0 {
      LowDigit((a + b) % 2, Xor(a / 2, b / 2));
    }
  }

  lemma LowDigit(d: nat, x: nat)
    requires d < 2
    ensures (d + 2 * x) % 2 == d && (d + 2 * x) / 2 == x
  {
  }

  /** Mixing twice undoes itself. */
  lemma {:induction false} XorTwice(a: nat, b: nat)
    ensures Xor(Xor(a, b), b) == a
    decreases a + b
  {
    hide Xor;
    XorStep(a, b);
    XorStep(Xor(a, b), b);
    if a != 0 || b != 0 {
      XorTwice(a / 2, b / 2);
    } else {
      XorZero();
    }
  }

  lemma XorZero()
    ensures Xor(0, 0) == 0
  {
  }

  /** Mixing with all ones complements. */
  lemma {:induction false} XorOnes(a: nat, p: nat)
    requires a < Pow2(p)
    ensures Xor(Pow2(p) - 1, a) == Pow2(p) - 1 - a
  {
    hide Xor;
    if p == 0 {
      XorZero();
    } else {
      var half := Pow2(p - 1);
      XorOnes(a / 2, p - 1);
      XorStep(2 * half - 1, a);
      OnesDigit(half, a);
    }
  }

  lemma OnesDigit(half: nat, a: nat)
    requires half > 0
    ensures (2 * half - 1) / 2 == half - 1
    ensures 2 * (half - 1 - a / 2) + (2 * half - 1 + a) % 2 == 2 * half - 1 - a
  {
  }

  /** In every column exactly two hash values cannot be signed. */
  lemma UnsignableHashes(attno: nat, h: uint32)
    requires attno < 32
    ensures var draw := FirstDraw(attno) as uint32;
            !Signable(attno, h) <==> h == Xor32(0xFFFF_FFFF, draw) || h == Xor32(0x8000_0001, draw)
  {
    hide FirstDraw;
    var draw := FirstDraw(attno);
    XorTwice(h as int, draw);
    XorTwice(0xFFFF_FFFF, draw);
    XorTwice(0x8000_0001, draw);
  }

  /** In the first column, a value with this hash sets bit -1. */
  lemma SignBitsMiss(opts: Options)
    requires opts.Legal() && opts.bitSize[0] > 0
    ensures -1 in SignBits(opts, 0, 4294950489)
  {
    assert FirstDraw(0) == 16806;
    Pow2At32();
    XorOnes(16806, 32);
    UnsignableHashes(0, 4294950489);
    DrawnBitsRange(ValueSeed(0, 4294950489), opts.Bits(), opts.bitSize[0]);
  }

  /** SETBIT on a signature buffer. */
  method SetBit(sign: array<Word>, i: nat)
    requires i < WORD_BITS * sign.Length
    modifies sign
    ensures Positions(sign[..]) == old(Positions(sign[..])) + {i}
  {
    SetBitAdds(sign[..], i);
    ghost var words := sign[..];
    sign[i / WORD_BITS] := Or(sign[i / WORD_BITS], Mask(i % WORD_BITS));
    assert sign[..] == words[i / WORD_BITS := Or(words[i / WORD_BITS], Mask(i % WORD_BITS))];
  }

  /** `signValue`: or the bits of one value into a signature buffer. */
  method SignValue(gen: Generator, opts: Options, hashFn: HashFn, sign: array<Word>, value: Datum, attno: nat)
    requires opts.Legal() && attno < 32 && sign.Length == opts.bloomLength
    requires Signable(attno, hashFn(attno, value))
    modifies gen, sign
    ensures Positions(sign[..]) == old(Positions(sign[..])) + SignBits(opts, attno, hashFn(attno, value))
    ensures forall b :: b in Positions(sign[..]) <==>
              b in old(Positions(sign[..])) || Signs(opts, attno, hashFn(attno, value), b)
  {
    gen.Srand(attno as uint32);
    var hashVal := hashFn(attno, value);
    var draw := gen.Rand();
    assert draw as int == FirstDraw(attno);
    gen.Srand(Xor32(hashVal, draw as int as uint32));
    ghost var seed := ValueSeed(attno, hashVal);
    ghost var before := Positions(sign[..]);
    var j := 0;
    while j < opts.bitSize[attno]
      invariant 0 <= j <= opts.bitSize[attno]
      invariant gen.next as int == Orbit(SeedState(seed) as int, j)
      invariant Positions(sign[..]) == before + DrawnBits(seed, opts.Bits(), j)
    {
      var r := gen.Rand();
      var nBit := CMod(r as int, opts.Bits());
      assert nBit == DrawnBit(seed, opts.Bits(), j);
      SetBit(sign, nBit);
      j := j + 1;
    }
    forall b
      ensures b in SignBits(opts, attno, hashVal) <==> Signs(opts, attno, hashVal, b)
    {
      SignBitsAre(opts, attno, hashVal, b);
    }
  }

  // ------------------------------------------------------------ tuples and scans

  /** Heap tuple identifier: block and offset. */
  datatype Tid = Tid(block: nat, offset: nat)

  /** An index entry. */
  datatype BloomTuple = BloomTuple(heapPtr: Tid, sign: seq<Word>)

  /** A column value or a scan argument, possibly null. */
  datatype Nullable = Null | Value(datum: Datum)

  datatype ScanKey = ScanKey(attno: nat, argument: Nullable)

  /** The bits of the first `n` columns of a row. */
  ghost function RowBits(opts: Options, hashFn: HashFn, values: seq<Nullable>, n: nat): set<int>
    requires opts.Legal() && n <= |values| <= 32
  {
    if n == 0 then {} else
      RowBits(opts, hashFn, values, n - 1) +
      if values[n - 1].Null? then {} else SignBits(opts, n - 1, hashFn(n - 1, values[n - 1].datum))
  }

  ghost function OneKeyBits(opts: Options, hashFn: HashFn, key: ScanKey): set<int>
    requires opts.Legal()
  {
    if key.argument.Null? || key.attno >= 32 then {} else
      SignBits(opts, key.attno, hashFn(key.attno, key.argument.datum))
  }

  /** The bits of the first `n` scan keys. */
  ghost function KeyBits(opts: Options, hashFn: HashFn, keys: seq<ScanKey>, n: nat): set<int>
    requires opts.Legal() && n <= |keys|
  {
    if n == 0 then {} else KeyBits(opts, hashFn, keys, n - 1) + OneKeyBits(opts, hashFn, keys[n - 1])
  }

  /** Position `b` belongs to the key. */
  ghost predicate KeySigns(opts: Options, hashFn: HashFn, key: ScanKey, b: int)
    requires opts.Legal()
  {
    key.argument.Value? && key.attno < 32 && Signs(opts, key.attno, hashFn(key.attno, key.argument.datum), b)
  }

  /** Position `b` belongs to column `c` of the row. */
  ghost predicate ColumnSigns(opts: Options, hashFn: HashFn, values: seq<Nullable>, c: nat, b: int)
    requires opts.Legal() && c < |values| <= 32
  {
    values[c].Value? && Signs(opts, c, hashFn(c, values[c].datum), b)
  }

  /** The signature of a row has the positions of its columns and no others. */
  ghost predicate RowSigned(opts: Options, hashFn: HashFn, values: seq<Nullable>, sign: seq<Word>) {
    && opts.Legal() && |values| <= 32 && |sign| == opts.bloomLength
    && (forall c, b :: 0 <= c < |values| && ColumnSigns(opts, hashFn, values, c, b) ==> b in Positions(sign))
    && (forall b :: b in Positions(sign) ==> exists c :: 0 <= c < |values| && ColumnSigns(opts, hashFn, values, c, b))
  }

  /** The signature of a scan has the positions of its keys and no others. */
  ghost predicate ScanSigned(opts: Options, hashFn: HashFn, keys: seq<ScanKey>, sign: seq<Word>) {
    && opts.Legal() && |sign| == opts.bloomLength
    && (forall k, b :: 0 <= k < |keys| && KeySigns(opts, hashFn, keys[k], b) ==> b in Positions(sign))
    && (forall b :: b in Positions(sign) ==> exists k :: 0 <= k < |keys| && KeySigns(opts, hashFn, keys[k], b))
  }

  lemma {:induction false} RowBitsAre(opts: Options, hashFn: HashFn, values: seq<Nullable>, n: nat, b: int)
    requires opts.Legal() && n <= |values| <= 32
    ensures b in RowBits(opts, hashFn, values, n) <==>
            exists c :: 0 <= c < n && ColumnSigns(opts, hashFn, values, c, b)
  {
    hide SignBits, Signs;
    if n > 0 {
      RowBitsAre(opts, hashFn, values, n - 1, b);
      if values[n - 1].Value? {
        SignBitsAre(opts, n - 1, hashFn(n - 1, values[n - 1].datum), b);
      }
      if b in RowBits(opts, hashFn, values, n) && b !in RowBits(opts, hashFn, values, n - 1) {
        assert ColumnSigns(opts, hashFn, values, n - 1, b);
      }
    }
  }

  lemma {:induction false} KeyBitsAre(opts: Options, hashFn: HashFn, keys: seq<ScanKey>, n: nat, b: int)
    requires opts.Legal() && n <= |keys|
    ensures b in KeyBits(opts, hashFn, keys, n) <==> exists k :: 0 <= k < n && KeySigns(opts, hashFn, keys[k], b)
  {
    hide SignBits, Signs;
    if n > 0 {
      KeyBitsAre(opts, hashFn, keys, n - 1, b);
      var key := keys[n - 1];
      if key.argument.Value? && key.attno < 32 {
        SignBitsAre(opts, key.attno, hashFn(key.attno, key.argument.datum), b);
      }
      if b in KeyBits(opts, hashFn, keys, n) && b !in KeyBits(opts, hashFn, keys, n - 1) {
        assert KeySigns(opts, hashFn, keys[n - 1], b);
      }
    }
  }

  lemma RowIsSigned(opts: Options, hashFn: HashFn, values: seq<Nullable>, sign: seq<Word>)
    requires opts.Legal() && |values| <= 32 && |sign| == opts.bloomLength
    requires Positions(sign) == RowBits(opts, hashFn, values, |values|)
    ensures RowSigned(opts, hashFn, values, sign)
  {
    hide RowBits, Positions, ColumnSigns;
    forall b: int
      ensures b in RowBits(opts, hashFn, values, |values|) <==>
              exists c :: 0 <= c < |values| && ColumnSigns(opts, hashFn, values, c, b)
    {
      RowBitsAre(opts, hashFn, values, |values|, b);
    }
  }

  lemma ScanIsSigned(opts: Options, hashFn: HashFn, keys: seq<ScanKey>, sign: seq<Word>)
    requires opts.Legal() && |sign| == opts.bloomLength
    requires Positions(sign) == KeyBits(opts, hashFn, keys, |keys|)
    ensures ScanSigned(opts, hashFn, keys, sign)
  {
    hide KeyBits, Positions, KeySigns;
    forall b: int
      ensures b in KeyBits(opts, hashFn, keys, |keys|) <==>
              exists k :: 0 <= k < |keys| && KeySigns(opts, hashFn, keys[k], b)
    {
      KeyBitsAre(opts, hashFn, keys, |keys|, b);
    }
  }

  ghost predicate RowSignable(hashFn: HashFn, values: seq<Nullable>)
    requires |values| <= 32
  {
    forall i :: 0 <= i < |values| && values[i].Value? ==> Signable(i, hashFn(i, values[i].datum))
  }

  lemma ZeroSignature(sign: seq<Word>)
    requires forall k :: 0 <= k < |sign| ==> sign[k] == ZeroWord()
    ensures Positions(sign) == {}
  {
  }

  /** `BloomFormTuple`: sign every non-null column. */
  method FormTuple(gen: Generator, opts: Options, hashFn: HashFn, tid: Tid, values: seq<Nullable>)
    returns (tuple: BloomTuple)
    requires opts.Legal() && |values| <= 32 && RowSignable(hashFn, values)
    modifies gen
    ensures tuple.heapPtr == tid && |tuple.sign| == opts.bloomLength
    ensures RowSigned(opts, hashFn, values, tuple.sign)
  {
    var sign := new Word[opts.bloomLength](_ => ZeroWord());
    ZeroSignature(sign[..]);
    for i := 0 to |values|
      invariant Positions(sign[..]) == RowBits(opts, hashFn, values, i)
    {
      if values[i].Value? {
        SignValue(gen, opts, hashFn, sign, values[i].datum, i);
      }
    }
    tuple := BloomTuple(tid, sign[..]);
    RowIsSigned(opts, hashFn, values, tuple.sign);
  }

  /** A scan's signature, absent when a key is null and nothing can match. */
  datatype ScanSign = NoMatch | Sign(words: seq<Word>)

  predicate KeySignable(hashFn: HashFn, key: ScanKey) {
    key.attno < 32 && (key.argument.Value? ==> Signable(key.attno, hashFn(key.attno, key.argument.datum)))
  }

  predicate KeysSignable(hashFn: HashFn, keys: seq<ScanKey>) {
    forall k {:trigger KeySignable(hashFn, keys[k])} :: 0 <= k < |keys| ==> KeySignable(hashFn, keys[k])
  }

  method SignKey(gen: Generator, opts: Options, hashFn: HashFn, sign: array<Word>, keys: seq<ScanKey>, i: nat)
    requires opts.Legal() && sign.Length == opts.bloomLength
    requires KeysSignable(hashFn, keys) && i < |keys| && keys[i].argument.Value?
    requires Positions(sign[..]) == KeyBits(opts, hashFn, keys, i)
    modifies gen, sign
    ensures Positions(sign[..]) == KeyBits(opts, hashFn, keys, i + 1)
  {
    assert KeySignable(hashFn, keys[i]);
    SignValue(gen, opts, hashFn, sign, keys[i].argument.datum, keys[i].attno);
  }

  lemma NoKeys(opts: Options, hashFn: HashFn, keys: seq<ScanKey>)
    requires opts.Legal()
    ensures KeyBits(opts, hashFn, keys, 0) == {}
  {
  }

  /** The signature part of `blgetbitmap`: no signature when some key is null. */
  method ScanSignature(gen: Generator, opts: Options, hashFn: HashFn, keys: seq<ScanKey>)
    returns (r: ScanSign)
    requires opts.Legal() && KeysSignable(hashFn, keys)
    modifies gen
    ensures r.NoMatch? <==> exists k :: 0 <= k < |keys| && keys[k].argument.Null?
    ensures r.Sign? ==> ScanSigned(opts, hashFn, keys, r.words)
  {
    hide Positions, KeyBits, ScanSigned, KeySignable;
    var sign := new Word[opts.bloomLength](_ => ZeroWord());
    ZeroSignature(sign[..]);
    NoKeys(opts, hashFn, keys);
    for i := 0 to |keys|
      invariant forall k :: 0 <= k < i ==> !keys[k].argument.Null?
      invariant Positions(sign[..]) == KeyBits(opts, hashFn, keys, i)
    {
      if keys[i].argument.Null? {
        return NoMatch;
      }
      SignKey(gen, opts, hashFn, sign, keys, i);
    }
    r := Sign(sign[..]);
    ScanIsSigned(opts, hashFn, keys, r.words);
  }

  /** A row agrees with a scan when every key's column is non-null and hashes alike. */
  ghost predicate HashesAgree(hashFn: HashFn, values: seq<Nullable>, keys: seq<ScanKey>) {
    forall k :: 0 <= k < |keys| ==>
      && keys[k].attno < |values| && keys[k].argument.Value? && values[keys[k].attno].Value?
      && hashFn(keys[k].attno, keys[k].argument.datum) == hashFn(keys[k].attno, values[keys[k].attno].datum)
  }

  /**
   No false negatives at the signature level: whatever signatures `FormTuple`
   and `ScanSignature` produced, a row that agrees with the scan passes the word
   test.
   */
  lemma AgreeingRowMatches(opts: Options, hashFn: HashFn, values: seq<Nullable>, keys: seq<ScanKey>,
                           rowSign: seq<Word>, scanSign: seq<Word>)
    requires HashesAgree(hashFn, values, keys)
    requires RowSigned(opts, hashFn, values, rowSign) && ScanSigned(opts, hashFn, keys, scanSign)
    ensures WordsMatch(rowSign, scanSign)
  {
    hide Positions, Signs;
    forall b | b in Positions(scanSign)
      ensures b in Positions(rowSign)
    {
      var k :| 0 <= k < |keys| && KeySigns(opts, hashFn, keys[k], b);
      assert ColumnSigns(opts, hashFn, values, keys[k].attno, b);
    }
    WordsMatchIsInclusion(rowSign, scanSign);
  }

  /** A tuple passes the word test of a scan exactly when it has every position of every key. */
  lemma MatchIsEveryBit(opts: Options, hashFn: HashFn, keys: seq<ScanKey>, scanSign: seq<Word>, sign: seq<Word>)
    requires ScanSigned(opts, hashFn, keys, scanSign) && |sign| == |scanSign|
    ensures WordsMatch(sign, scanSign) <==>
            forall k, b :: 0 <= k < |keys| && KeySigns(opts, hashFn, keys[k], b) ==> b in Positions(sign)
  {
    hide Positions, KeySigns, WordsMatch;
    WordsMatchIsInclusion(sign, scanSign);
    if forall k, b :: 0 <= k < |keys| && KeySigns(opts, hashFn, keys[k], b) ==> b in Positions(sign) {
      forall b | b in Positions(scanSign)
        ensures b in Positions(sign)
      {
        var k :| 0 <= k < |keys| && KeySigns(opts, hashFn, keys[k], b);
      }
    }
  }
}
