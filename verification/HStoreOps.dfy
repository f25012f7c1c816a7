/**
 Whole operations on packed hstore values: building one from pairs (hstore_io.c) and
 deleting a key (hstore_op.c), which reserves too many entries and finalizes with fewer.
 */
module HStoreOps {
  import opened Common
  import opened HStore

  /** A finished value: the accessors see exactly `pairs`. */
  ghost predicate IsValue(b: Builder, pairs: seq<Pair>)
    reads b, b.mem
  {
    && b.count == |pairs| && |Flat(pairs)| < POS_LIMIT && b.varsize == HEADER_SIZE + 8 * |pairs| + |Flat(pairs)|
    && Holds(b.mem[..], |pairs|, pairs, true)
    && forall i :: 0 <= i < |pairs| ==> Reads(b.mem[..], b.count, i, pairs[i])
  }

  /** `hstorePairs`: every pair reads back. */
  method HstorePairs(pairs: seq<Pair>) returns (b: Builder)
    requires |Flat(pairs)| < POS_LIMIT
    ensures fresh(b) && fresh(b.mem) && IsValue(b, pairs)
  {
    hide Flat, Holds, Reads;
    var buflen := |Flat(pairs)|;
    b := new Builder(|pairs|, buflen);
    for i := 0 to |pairs|
      invariant fresh(b) && fresh(b.mem) && b.reserved == |pairs| && b.mem.Length == 8 * |pairs| + buflen
      invariant b.Valid(pairs[..i])
    {
      FlatNext(pairs, i);
      assert pairs[..i + 1] == pairs[..i] + [pairs[i]];
      b.AddItem(pairs[i], pairs[..i]);
    }
    assert pairs[..|pairs|] == pairs;
    b.Finalize(pairs);
  }

  lemma FlatNext(pairs: seq<Pair>, i: nat)
    requires i < |pairs|
    ensures |Flat(pairs[..i])| + |pairs[i].key| + |Stored(pairs[i])| == |Flat(pairs[..i + 1])| <= |Flat(pairs)|
  {
    hide Flat;
    assert pairs[..i + 1] == pairs[..i] + [pairs[i]];
    FlatSnoc(pairs[..i], pairs[i]);
    FlatPrefix(pairs, i + 1);
  }

  /** The pairs whose key is not `key`. */
  ghost function Without(pairs: seq<Pair>, key: seq<Byte>): (r: seq<Pair>)
    ensures |r| <= |pairs|
  {
    if pairs == [] then [] else
      var rest := Without(pairs[..|pairs| - 1], key);
      if pairs[|pairs| - 1].key == key then rest else rest + [StoredPair(pairs[|pairs| - 1])]
  }

  /** A pair as it is read back: a null value has no bytes. */
  function StoredPair(p: Pair): Pair {
    Pair(p.key, Stored(p), p.isnull)
  }

  lemma WithoutNext(pairs: seq<Pair>, i: nat, key: seq<Byte>)
    requires i < |pairs|
    ensures Without(pairs[..i + 1], key) ==
            if pairs[i].key == key then Without(pairs[..i], key) else Without(pairs[..i], key) + [StoredPair(pairs[i])]
  {
    assert pairs[..i + 1][..i] == pairs[..i];
  }

  /** The places `at`, in order, are exactly those whose key is not `key`, and `kept` are the pairs there. */
  ghost predicate KeptAt(pairs: seq<Pair>, key: seq<Byte>, kept: seq<Pair>, at: seq<nat>) {
    && |at| == |kept|
    && (forall j :: 0 <= j < |at| ==> at[j] < |pairs| && pairs[at[j]].key != key && kept[j] == StoredPair(pairs[at[j]]))
    && (forall j, k :: 0 <= j < k < |at| ==> at[j] < at[k])
    && (forall i :: 0 <= i < |pairs| && pairs[i].key != key ==> i in at)
  }

  lemma KeptMore(init: seq<Pair>, p: Pair, key: seq<Byte>, kept: seq<Pair>, at: seq<nat>)
    requires KeptAt(init, key, kept, at) && p.key != key
    ensures KeptAt(init + [p], key, kept + [StoredPair(p)], at + [|init|])
  {
    hide StoredPair;
    var pairs, at' := init + [p], at + [|init|];
    forall i | 0 <= i < |pairs| && pairs[i].key != key
      ensures i in at'
    {
      assert at'[|at|] == |init|;
      if i < |init| {
        assert init[i].key != key;
      }
    }
  }

  lemma KeptNoMore(init: seq<Pair>, p: Pair, key: seq<Byte>, kept: seq<Pair>, at: seq<nat>)
    requires KeptAt(init, key, kept, at) && p.key == key
    ensures KeptAt(init + [p], key, kept, at)
  {
    hide StoredPair;
    var pairs := init + [p];
    forall i | 0 <= i < |pairs| && pairs[i].key != key
      ensures i in at
    {
      assert init[i].key != key;
    }
  }

  /** Deleting a key keeps the other pairs, all of them and in their order, and no pair with that key. */
  lemma {:induction false} WithoutKeeps(pairs: seq<Pair>, key: seq<Byte>) returns (at: seq<nat>)
    ensures KeptAt(pairs, key, Without(pairs, key), at)
  {
    hide KeptAt, StoredPair;
    if pairs == [] {
      at := [];
      assert KeptAt(pairs, key, [], at) by {
        NothingKept(key);
      }
    } else {
      var init, last := pairs[..|pairs| - 1], pairs[|pairs| - 1];
      at := WithoutKeeps(init, key);
      assert pairs == init + [last];
      if last.key == key {
        KeptNoMore(init, last, key, Without(init, key), at);
      } else {
        KeptMore(init, last, key, Without(init, key), at);
        at := at + [|init|];
      }
    }
  }

  lemma NothingKept(key: seq<Byte>)
    ensures KeptAt([], key, [], [])
  {
  }

  lemma {:induction false} WithoutShorter(pairs: seq<Pair>, i: nat, key: seq<Byte>)
    requires i <= |pairs|
    ensures |Flat(Without(pairs[..i], key))| <= |Flat(pairs[..i])|
  {
    hide Flat;
    if i > 0 {
      WithoutShorter(pairs, i - 1, key);
      WithoutNext(pairs, i - 1, key);
      FlatNext(pairs, i - 1);
      FlatSnoc(Without(pairs[..i - 1], key), StoredPair(pairs[i - 1]));
    }
  }

  /** Key and value of pair `i` lie next to each other. */
  method ReadPair(b: Builder, i: nat, ghost pairs: seq<Pair>)
    returns (src: seq<Byte>, klen: nat, vlen: nat, vnull: bool)
    requires IsValue(b, pairs) && i < |pairs|
    ensures klen == |pairs[i].key| && vlen == |Stored(pairs[i])| && src == pairs[i].key + Stored(pairs[i])
    ensures vnull == pairs[i].isnull
  {
    hide Flat, Entry;
    assert Reads(b.mem[..], b.count, i, pairs[i]);
    EntryPositions(b.mem[..], pairs, i);
    klen, vlen := Len(b.mem[..], 2 * i), Len(b.mem[..], 2 * i + 1);
    var base := 8 * b.count + Off(b.mem[..], 2 * i);
    vnull := IsNull(Entry(b.mem[..], 2 * i + 1));
    Adjacent(b.mem[..], base, pairs[i].key, Stored(pairs[i]));
    src := b.mem[base..base + klen + vlen];
  }

  lemma Adjacent(m: seq<Byte>, a: nat, k: seq<Byte>, v: seq<Byte>)
    requires a + |k| + |v| <= |m| && m[a..a + |k|] == k && m[a + |k|..a + |k| + |v|] == v
    ensures m[a..a + |k| + |v|] == k + v
  {
    assert m[a..a + |k| + |v|] == m[a..a + |k|] + m[a + |k|..a + |k| + |v|];
  }

  /** `hstore_delete`: the result holds the other pairs, in order. */
  method HstoreDelete(hs: Builder, key: seq<Byte>, ghost pairs: seq<Pair>) returns (out: Builder)
    requires IsValue(hs, pairs)
    ensures fresh(out) && fresh(out.mem) && IsValue(out, Without(pairs, key))
  {
    hide Flat, Holds, Reads;
    var size := SpaceOf(hs, pairs);
    out := new Builder(hs.count, size);
    assert pairs[..0] == [];
    for i := 0 to hs.count
      invariant fresh(out) && fresh(out.mem) && out.reserved == hs.count && out.mem.Length == 8 * hs.count + size
      invariant IsValue(hs, pairs)
      invariant out.Valid(Without(pairs[..i], key))
    {
      var src, klen, vlen, vnull := ReadPair(hs, i, pairs);
      WithoutNext(pairs, i, key);
      WithoutShorter(pairs, i, key);
      FlatNext(pairs, i);
      assert src[..klen] == pairs[i].key && src[klen..klen + vlen] == Stored(pairs[i]);
      if !(klen == |key| && src[..klen] == key) {
        out.CopyItem(src, klen, vlen, vnull, Without(pairs[..i], key));
      }
    }
    assert pairs[..|pairs|] == pairs;
    WithoutShorter(pairs, |pairs|, key);
    out.Finalize(Without(pairs, key));
  }

  /** The string area of a value: what `VARSIZE` leaves beyond the entries. */
  method SpaceOf(hs: Builder, ghost pairs: seq<Pair>) returns (size: nat)
    requires IsValue(hs, pairs)
    ensures size == |Flat(pairs)|
  {
    size := hs.varsize - HEADER_SIZE - 8 * hs.count;
  }
}
