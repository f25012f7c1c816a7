/**
 `check_toast_tuple` and `check_toasted_attribute` of contrib/amcheck/verify_heapam.c:
 the chunks an ordered index scan returns for one toasted value.
 */
module HeapToast {
  const MAX_CHUNK: nat := 1996
  const UINT32: nat := 0x1_0000_0000
  const INT32_MAX: int := 0x7fff_ffff

  /** The data column of a toast tuple. */
  datatype Data = Null | Plain(size: nat) | Short(size: nat) | BadHeader

  /** A toast tuple: its sequence number, unless null, and its data. */
  datatype Chunk = NoSeq(data: Data) | Chunk(seqNo: int, data: Data)

  /** `(extsize - 1) / TOAST_MAX_CHUNK_SIZE` in unsigned arithmetic. */
  function LastSeq(extsize: nat): nat {
    ((extsize + UINT32 - 1) % UINT32) / MAX_CHUNK
  }

  /** An unsigned 32-bit value stored in an `int32`. */
  function AsInt32(x: int): int {
    var u := x % UINT32;
    if u <= INT32_MAX then u else u - UINT32
  }

  function ExpectedSize(extsize: nat, n: int): int {
    if n < LastSeq(extsize) then MAX_CHUNK else AsInt32(extsize - LastSeq(extsize) * MAX_CHUNK)
  }

  predicate GoodData(d: Data) {
    d.Plain? || d.Short?
  }

  /** The chunk is number `n` of the value and has the right size. */
  predicate Fits(c: Chunk, extsize: nat, n: int) {
    c.Chunk? && c.seqNo == n && n <= LastSeq(extsize) && GoodData(c.data) && c.data.size == ExpectedSize(extsize, n)
  }

  /** The value is stored completely: chunks 0 to last in order, none missing, none extra. */
  ghost predicate Complete(chunks: seq<Chunk>, extsize: nat) {
    |chunks| == LastSeq(extsize) + 1 && forall i :: 0 <= i < |chunks| ==> Fits(chunks[i], extsize, i)
  }

  /** `check_toast_tuple`: number of complaints and the sequence number expected next. */
  method CheckToastTuple(c: Chunk, expected: int, extsize: nat) returns (next: int, reports: nat)
    ensures reports == 0 <==> Fits(c, extsize, expected)
    ensures reports == 0 ==> next == if expected == INT32_MAX then -INT32_MAX - 1 else expected + 1
  {
    next, reports := expected, 0;
    if c.NoSeq? {
      return next, 1;
    }
    if c.seqNo != expected {
      reports := reports + 1;
    }
    next := if c.seqNo == INT32_MAX then -INT32_MAX - 1 else c.seqNo + 1;
    if c.data.Null? {
      return next, reports + 1;
    }
    if c.data.BadHeader? {
      return next, reports + 1;
    }
    if c.seqNo > LastSeq(extsize) {
      return next, reports + 1;
    }
    if c.data.size != ExpectedSize(extsize, c.seqNo) {
      reports := reports + 1;
    }
  }

  /** `check_toasted_attribute` complains about nothing exactly when the value is stored completely. */
  method CheckToastedAttribute(chunks: seq<Chunk>, extsize: nat) returns (reports: nat)
    ensures reports == 0 <==> Complete(chunks, extsize)
  {
    reports := 0;
    var expected, found := 0, false;
    LastSeqSmall(extsize);
    for i := 0 to |chunks|
      invariant found <==> i > 0
      invariant reports == 0 ==> i <= LastSeq(extsize) + 1 && expected == i
      invariant reports == 0 <==> forall k :: 0 <= k < i ==> Fits(chunks[k], extsize, k)
    {
      found := true;
      ghost var before := reports;
      var n;
      expected, n := CheckToastTuple(chunks[i], expected, extsize);
      reports := reports + n;
      assert before == 0 ==> (n == 0 <==> Fits(chunks[i], extsize, i));
    }
    if !found {
      reports := reports + 1;
    } else if expected <= LastSeq(extsize) {
      reports := reports + 1;
    }
  }

  lemma LastSeqSmall(extsize: nat)
    ensures LastSeq(extsize) < INT32_MAX
  {
  }

  // ------------------------------------------------------------ what a clean value means

  /** Bytes in the first `n` chunks. */
  ghost function TotalSize(chunks: seq<Chunk>, n: nat): nat
    requires n <= |chunks|
  {
    if n == 0 then 0
    else TotalSize(chunks, n - 1) + (if GoodData(chunks[n - 1].data) then chunks[n - 1].data.size else 0)
  }

  lemma {:induction false} FullChunks(chunks: seq<Chunk>, extsize: nat, n: nat)
    requires Complete(chunks, extsize) && n <= LastSeq(extsize)
    ensures TotalSize(chunks, n) == n * MAX_CHUNK
  {
    if n > 0 {
      FullChunks(chunks, extsize, n - 1);
      assert Fits(chunks[n - 1], extsize, n - 1);
    }
  }

  /** The chunks of a complete value add up to its external size; size 0 wraps and stands for 2^32. */
  lemma SizesAddUp(chunks: seq<Chunk>, extsize: nat)
    requires extsize < UINT32 && Complete(chunks, extsize)
    ensures TotalSize(chunks, |chunks|) == if extsize == 0 then UINT32 else extsize
  {
    var last := LastSeq(extsize);
    FullChunks(chunks, extsize, last);
    assert Fits(chunks[last], extsize, last);
    var size := if extsize == 0 then UINT32 else extsize;
    assert last == (size - 1) / MAX_CHUNK;
    assert 0 < size - last * MAX_CHUNK <= MAX_CHUNK;
    LastChunk(extsize, last, size);
  }

  lemma LastChunk(extsize: nat, last: nat, size: nat)
    requires extsize == size || (extsize == 0 && size == UINT32)
    requires last == LastSeq(extsize) && 0 < size - last * MAX_CHUNK <= MAX_CHUNK
    ensures ExpectedSize(extsize, last) == size - last * MAX_CHUNK
  {
    var r := size - last * MAX_CHUNK;
    assert extsize - last * MAX_CHUNK == r || extsize - last * MAX_CHUNK == r - UINT32;
    assert (extsize - last * MAX_CHUNK) % UINT32 == r;
  }

  /** The chunks are numbered from 0; all are full but the last, which is not empty. */
  ghost predicate InSequence(chunks: seq<Chunk>) {
    && chunks != []
    && (forall i :: 0 <= i < |chunks| ==> chunks[i].Chunk? && chunks[i].seqNo == i && GoodData(chunks[i].data))
    && (forall i :: 0 <= i < |chunks| - 1 ==> chunks[i].data.size == 1996)
    && 1 <= chunks[|chunks| - 1].data.size <= 1996
  }

  lemma {:induction false} SequenceSize(chunks: seq<Chunk>, n: nat)
    requires InSequence(chunks) && n < |chunks|
    ensures TotalSize(chunks, n) == n * 1996
  {
    if n > 0 {
      SequenceSize(chunks, n - 1);
    }
  }

  lemma SequenceEnd(extsize: nat, last: nat, tail: nat, size: nat)
    requires size == last * 1996 + tail && 1 <= tail <= 1996
    requires 0 < size <= UINT32 && extsize == size % UINT32
    ensures LastSeq(extsize) == last && ExpectedSize(extsize, last) == tail
  {
    assert (extsize + UINT32 - 1) % UINT32 == size - 1;
    assert (last * 1996 + (tail - 1)) / 1996 == last;
    LastChunk(extsize, last, size);
  }

  /**
   What a value without complaints is, without the checker's arithmetic: full
   chunks in sequence and a last one, together as large as the value.
   */
  lemma CompleteExactly(chunks: seq<Chunk>, extsize: nat)
    requires extsize < UINT32
    ensures Complete(chunks, extsize) <==>
            InSequence(chunks) && TotalSize(chunks, |chunks|) == if extsize == 0 then UINT32 else extsize
  {
    var size := if extsize == 0 then UINT32 else extsize;
    if Complete(chunks, extsize) {
      CompleteInSequence(chunks, extsize);
      SizesAddUp(chunks, extsize);
    }
    if InSequence(chunks) && TotalSize(chunks, |chunks|) == size {
      var last := |chunks| - 1;
      SequenceSize(chunks, last);
      SequenceEnd(extsize, last, chunks[last].data.size, size);
      forall i | 0 <= i < |chunks|
        ensures Fits(chunks[i], extsize, i)
      {
      }
    }
  }

  lemma CompleteInSequence(chunks: seq<Chunk>, extsize: nat)
    requires extsize < UINT32 && Complete(chunks, extsize)
    ensures InSequence(chunks)
  {
    var size, last := if extsize == 0 then UINT32 else extsize, LastSeq(extsize);
    assert last == (size - 1) / MAX_CHUNK;
    assert 0 < size - last * MAX_CHUNK <= MAX_CHUNK;
    LastChunk(extsize, last, size);
    forall i | 0 <= i < |chunks|
      ensures chunks[i].Chunk? && chunks[i].seqNo == i && GoodData(chunks[i].data)
      ensures chunks[i].data.size == if i < last then MAX_CHUNK else size - last * MAX_CHUNK
    {
      assert Fits(chunks[i], extsize, i);
    }
  }
}
