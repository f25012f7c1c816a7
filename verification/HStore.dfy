/**
 The packed layout of contrib/hstore (hstore.h): an array of 32-bit end positions with
 flag bits, then all keys and values in one string area.  While a value is built the
 string area lies behind the reserved number of entries; finalizing may move it down.
 */
module HStore {
  import opened Common

  const ISFIRST: nat := 0x8000_0000
  const ISNULL: nat := 0x4000_0000
  const POS_LIMIT: nat := 0x4000_0000

  /** The varlena length word and the pair count come before the entries. */
  const HEADER_SIZE: nat := 8

  /** `Pairs`: a key and a value or null. */
  datatype Pair = Pair(key: seq<Byte>, val: seq<Byte>, isnull: bool)

  /** The value bytes that are stored. */
  function Stored(p: Pair): seq<Byte> {
    if p.isnull then [] else p.val
  }

  /** All keys and values, one after the other. */
  function Flat(pairs: seq<Pair>): seq<Byte> {
    if pairs == [] then [] else
      var last := pairs[|pairs| - 1];
      Flat(pairs[..|pairs| - 1]) + last.key + Stored(last)
  }

  lemma FlatSnoc(pairs: seq<Pair>, p: Pair)
    ensures Flat(pairs + [p]) == Flat(pairs) + p.key + Stored(p)
  {
    assert (pairs + [p])[..|pairs|] == pairs;
  }

  lemma {:induction false} FlatPrefix(pairs: seq<Pair>, i: nat)
    requires i <= |pairs|
    ensures |Flat(pairs[..i])| <= |Flat(pairs)| && Flat(pairs)[..|Flat(pairs[..i])|] == Flat(pairs[..i])
  {
    if i == |pairs| {
      assert pairs[..i] == pairs;
    } else {
      var init := pairs[..|pairs| - 1];
      FlatPrefix(init, i);
      assert init[..i] == pairs[..i];
      assert Flat(pairs)[..|Flat(init)|] == Flat(init);
    }
  }

  // ------------------------------------------------------------ entries

  /** `HEntry` number `k` of the entry array. */
  function Entry(m: seq<Byte>, k: nat): nat
    requires 4 * k + 4 <= |m|
  {
    m[4 * k] as int + 0x100 * m[4 * k + 1] as int + 0x1_0000 * m[4 * k + 2] as int + 0x100_0000 * m[4 * k + 3] as int
  }

  function EndPos(e: nat): nat {
    e % POS_LIMIT
  }

  predicate IsNull(e: nat) {
    e / ISNULL % 2 == 1
  }

  predicate IsFirst(e: nat) {
    e / ISFIRST % 2 == 1
  }

  /** `HSE_OFF`: the end of the previous entry. */
  function Off(m: seq<Byte>, k: nat): nat
    requires 4 * k + 4 <= |m| && (k == 0 ==> IsFirst(Entry(m, 0)))
  {
    if IsFirst(Entry(m, k)) then 0 else EndPos(Entry(m, k - 1))
  }

  /** `HSE_LEN`. */
  function Len(m: seq<Byte>, k: nat): int
    requires 4 * k + 4 <= |m| && (k == 0 ==> IsFirst(Entry(m, 0)))
  {
    if IsFirst(Entry(m, k)) then EndPos(Entry(m, k)) else EndPos(Entry(m, k)) - EndPos(Entry(m, k - 1))
  }

  function EndKey(pairs: seq<Pair>, i: nat): nat
    requires i < |pairs|
  {
    |Flat(pairs[..i])| + |pairs[i].key|
  }

  function EndVal(pairs: seq<Pair>, i: nat): nat
    requires i < |pairs|
  {
    |Flat(pairs[..i])| + |pairs[i].key| + |Stored(pairs[i])|
  }

  function NullFlag(p: Pair): nat {
    if p.isnull then ISNULL else 0
  }

  /** The entries of pair `i` carry its end positions and its null flag; `first` marks entry 0. */
  predicate EntriesOf(m: seq<Byte>, pairs: seq<Pair>, i: nat, first: bool)
    requires i < |pairs| && 8 * i + 8 <= |m|
  {
    && Entry(m, 2 * i) == EndKey(pairs, i) + (if first && i == 0 then ISFIRST else 0)
    && Entry(m, 2 * i + 1) == EndVal(pairs, i) + NullFlag(pairs[i])
  }

  /** `pairs` have been put into `m`, with room reserved for `reserved` pairs. */
  ghost predicate Holds(m: seq<Byte>, reserved: nat, pairs: seq<Pair>, first: bool) {
    && |pairs| <= reserved && 8 * reserved + |Flat(pairs)| <= |m|
    && m[8 * reserved..8 * reserved + |Flat(pairs)|] == Flat(pairs)
    && forall i :: 0 <= i < |pairs| ==> EntriesOf(m, pairs, i, first)
  }

  lemma SameEntry(m: seq<Byte>, m': seq<Byte>, k: nat)
    requires 4 * k + 4 <= |m| && 4 * k + 4 <= |m'| && m[4 * k..4 * k + 4] == m'[4 * k..4 * k + 4]
    ensures Entry(m, k) == Entry(m', k)
  {
    var w, w' := m[4 * k..4 * k + 4], m'[4 * k..4 * k + 4];
    assert w[0] == m[4 * k] && w[1] == m[4 * k + 1] && w[2] == m[4 * k + 2] && w[3] == m[4 * k + 3];
    assert w'[0] == m'[4 * k] && w'[1] == m'[4 * k + 1] && w'[2] == m'[4 * k + 2] && w'[3] == m'[4 * k + 3];
  }

  // ------------------------------------------------------------ reading back

  /** The accessors see pair `i`. */
  ghost predicate Reads(m: seq<Byte>, count: nat, i: nat, p: Pair) {
    && i < count && 8 * count <= |m| && IsFirst(Entry(m, 0))
    && var key, klen, val, vlen := Off(m, 2 * i), Len(m, 2 * i), Off(m, 2 * i + 1), Len(m, 2 * i + 1);
       && 0 <= klen && 8 * count + key + klen <= |m| && m[8 * count + key..8 * count + key + klen] == p.key
       && 0 <= vlen && 8 * count + val + vlen <= |m| && m[8 * count + val..8 * count + val + vlen] == Stored(p)
       && (IsNull(Entry(m, 2 * i + 1)) <==> p.isnull)
  }

  lemma FlagBits(pos: nat, isnull: bool, first: bool)
    requires pos < POS_LIMIT
    ensures var e := pos + (if isnull then ISNULL else 0) + (if first then ISFIRST else 0);
            EndPos(e) == pos && (IsNull(e) <==> isnull) && (IsFirst(e) <==> first)
  {
  }

  lemma PositionsInOrder(pairs: seq<Pair>, i: nat)
    requires i < |pairs|
    ensures EndVal(pairs, i) == |Flat(pairs[..i + 1])| <= |Flat(pairs)|
    ensures Flat(pairs)[|Flat(pairs[..i])|..EndKey(pairs, i)] == pairs[i].key
    ensures Flat(pairs)[EndKey(pairs, i)..EndVal(pairs, i)] == Stored(pairs[i])
  {
    hide Flat;
    assert pairs[..i + 1] == pairs[..i] + [pairs[i]];
    FlatSnoc(pairs[..i], pairs[i]);
    FlatPrefix(pairs, i + 1);
    var f, n := Flat(pairs[..i + 1]), |Flat(pairs[..i + 1])|;
    ThreeParts(Flat(pairs[..i]), pairs[i].key, Stored(pairs[i]));
    SameRange(f, Flat(pairs), n, |Flat(pairs[..i])|, EndKey(pairs, i));
    SameRange(f, Flat(pairs), n, EndKey(pairs, i), EndVal(pairs, i));
  }

  lemma ThreeParts(a: seq<Byte>, b: seq<Byte>, c: seq<Byte>)
    ensures (a + b + c)[|a|..|a| + |b|] == b && (a + b + c)[|a| + |b|..|a| + |b| + |c|] == c
    ensures (a + b + c)[..|a| + |b| + |c|] == a + b + c
  {
  }

  lemma SameRange(m: seq<Byte>, m': seq<Byte>, n: nat, a: nat, b: nat)
    requires a <= b <= n <= |m| && n <= |m'| && m'[..n] == m[..n]
    ensures m'[a..b] == m[a..b]
  {
    assert m'[..n][a..b] == m'[a..b] && m[..n][a..b] == m[a..b];
  }

  lemma FlatNothing(pairs: seq<Pair>)
    ensures |Flat(pairs[..0])| == 0
  {
  }

  /** What the entries of pair `i` say about offsets and lengths. */
  lemma EntryPositions(m: seq<Byte>, pairs: seq<Pair>, i: nat)
    requires i < |pairs| && 8 * |pairs| <= |m| && |Flat(pairs)| < POS_LIMIT
    requires forall j :: 0 <= j < |pairs| ==> EntriesOf(m, pairs, j, true)
    ensures IsFirst(Entry(m, 0))
    ensures Off(m, 2 * i) == |Flat(pairs[..i])| && Len(m, 2 * i) == |pairs[i].key|
    ensures Off(m, 2 * i + 1) == EndKey(pairs, i) && Len(m, 2 * i + 1) == |Stored(pairs[i])|
    ensures IsNull(Entry(m, 2 * i + 1)) <==> pairs[i].isnull
  {
    hide Entry, Flat, EndPos, IsNull, IsFirst;
    PositionsInOrder(pairs, i);
    PositionsInOrder(pairs, 0);
    assert EntriesOf(m, pairs, 0, true) && EntriesOf(m, pairs, i, true);
    FlagBits(EndKey(pairs, 0), false, true);
    FlagBits(EndKey(pairs, i), false, i == 0);
    FlagBits(EndVal(pairs, i), pairs[i].isnull, false);
    if i == 0 {
      FlatNothing(pairs);
    } else {
      PositionsInOrder(pairs, i - 1);
      assert EntriesOf(m, pairs, i - 1, true);
      FlagBits(EndVal(pairs, i - 1), pairs[i - 1].isnull, false);
    }
  }

  lemma SliceOfSlice(m: seq<Byte>, base: nat, f: seq<Byte>, a: nat, b: nat)
    requires base + |f| <= |m| && m[base..base + |f|] == f && a <= b <= |f|
    ensures m[base + a..base + b] == f[a..b]
  {
    var w := m[base..base + |f|];
    assert |m[base + a..base + b]| == b - a == |w[a..b]|;
    forall k | 0 <= k < b - a
      ensures m[base + a..base + b][k] == w[a..b][k]
    {
      assert w[a..b][k] == w[a + k] == m[base + a + k];
    }
    assert m[base + a..base + b] == w[a..b];
  }

  /** Round trip: after finalizing, every pair reads back as it was put in. */
  lemma RoundTrip(m: seq<Byte>, pairs: seq<Pair>, i: nat)
    requires Holds(m, |pairs|, pairs, true) && |Flat(pairs)| < POS_LIMIT && i < |pairs|
    ensures Reads(m, |pairs|, i, pairs[i])
  {
    hide Entry, EntriesOf, Flat;
    EntryPositions(m, pairs, i);
    PositionsInOrder(pairs, i);
    SliceOfSlice(m, 8 * |pairs|, Flat(pairs), |Flat(pairs[..i])|, EndKey(pairs, i));
    SliceOfSlice(m, 8 * |pairs|, Flat(pairs), EndKey(pairs, i), EndVal(pairs, i));
  }

  // ------------------------------------------------------------ building

  class Builder {
    const reserved: nat
    var count: nat
    var varsize: nat
    var mem: array<Byte>
    var ent: nat
    var ptr: nat

    ghost predicate Valid(pairs: seq<Pair>)
      reads this, mem
    {
      && count == reserved && ent == 2 * |pairs| && ptr == 8 * reserved + |Flat(pairs)|
      && Holds(mem[..], reserved, pairs, false)
    }

    /** `palloc(CALCDATASIZE(count, lenstr))` and `HS_SETCOUNT`. */
    constructor (reserved: nat, lenstr: nat)
      ensures Valid([]) && this.reserved == reserved && mem.Length == 8 * reserved + lenstr && fresh(mem)
    {
      this.reserved, count := reserved, reserved;
      mem := new Byte[8 * reserved + lenstr](_ => 0);
      ent, ptr := 0, 8 * reserved;
    }

    /** Store the next entry. */
    method PutEntry(e: nat)
      requires 4 * ent + 4 <= 8 * reserved <= mem.Length && e < 0x1_0000_0000
      modifies this`ent, mem
      ensures ent == old(ent) + 1 && Entry(mem[..], old(ent)) == e
      ensures mem[..4 * old(ent)] == old(mem[..4 * ent]) && mem[8 * reserved..] == old(mem[8 * reserved..])
    {
      var e1 := e / 0x100;
      var e2 := e1 / 0x100;
      var e3 := e2 / 0x100;
      var at := 4 * ent;
      mem[at] := (e % 0x100) as Byte;
      mem[at + 1] := (e1 % 0x100) as Byte;
      mem[at + 2] := (e2 % 0x100) as Byte;
      mem[at + 3] := e3 as Byte;
      ent := ent + 1;
    }

    /** `memcpy` to the current position. */
    method CopyBytes(s: seq<Byte>)
      requires 8 * reserved <= ptr && ptr + |s| <= mem.Length
      modifies this`ptr, mem
      ensures ptr == old(ptr) + |s| && mem[8 * reserved..ptr] == old(mem[8 * reserved..ptr]) + s
      ensures mem[..8 * reserved] == old(mem[..8 * reserved])
    {
      forall k | 0 <= k < |s| {
        mem[ptr + k] := s[k];
      }
      ptr := ptr + |s|;
    }

    /** Copy a string and store the end position as the next entry. */
    method PutString(s: seq<Byte>, flag: nat)
      requires 4 * ent + 4 <= 8 * reserved <= ptr && ptr + |s| <= mem.Length && ptr + |s| - 8 * reserved < POS_LIMIT
      requires flag == 0 || flag == ISNULL
      modifies this`ent, this`ptr, mem
      ensures ent == old(ent) + 1 && ptr == old(ptr) + |s| && Entry(mem[..], old(ent)) == ptr - 8 * reserved + flag
      ensures mem[8 * reserved..ptr] == old(mem[8 * reserved..ptr]) + s
      ensures mem[..4 * old(ent)] == old(mem[..4 * ent])
    {
      hide Entry;
      CopyBytes(s);
      ghost var m := mem[..];
      PutEntry((ptr - 8 * reserved) % POS_LIMIT + flag);
      SameTail(m, mem[..], 8 * reserved, ptr);
      SameRange(old(mem[..]), m, 8 * reserved, 0, 4 * old(ent));
    }

    /** `HS_ADDITEM`: the key, then nothing for a null value or the value. */
    method AddItem(p: Pair, ghost pairs: seq<Pair>)
      requires Valid(pairs) && |pairs| < reserved && ptr + |p.key| + |Stored(p)| <= mem.Length
      requires |Flat(pairs)| + |p.key| + |Stored(p)| < POS_LIMIT
      modifies this`ent, this`ptr, mem
      ensures Valid(pairs + [p])
    {
      hide Entry, Flat;
      ghost var was := mem[..];
      PutString(p.key, 0);
      ghost var m := mem[..];
      PutString(if p.isnull then [] else p.val, if p.isnull then ISNULL else 0);
      FlatSnoc(pairs, p);
      AddedBoth(was, m, mem[..], reserved, pairs, p, ptr);
    }

    /** `HS_COPYITEM`: key and value lie next to each other in the source. */
    method CopyItem(src: seq<Byte>, klen: nat, vlen: nat, vnull: bool, ghost pairs: seq<Pair>)
      requires klen + vlen <= |src| && (vnull ==> vlen == 0)
      requires Valid(pairs) && |pairs| < reserved && ptr + klen + vlen <= mem.Length
      requires |Flat(pairs)| + klen + vlen < POS_LIMIT
      modifies this`ent, this`ptr, mem
      ensures Valid(pairs + [Pair(src[..klen], src[klen..klen + vlen], vnull)])
    {
      hide Entry, Flat;
      ghost var was := mem[..];
      ghost var p := Pair(src[..klen], src[klen..klen + vlen], vnull);
      CopyBytes(src[..klen + vlen]);
      ghost var m := mem[..];
      PutEntries((ptr - 8 * reserved - vlen) % POS_LIMIT,
                 (ptr - 8 * reserved) % POS_LIMIT + if vnull then ISNULL else 0);
      assert src[..klen + vlen] == p.key + Stored(p);
      FlatSnoc(pairs, p);
      CopiedBoth(was, m, mem[..], reserved, pairs, p, ptr);
    }

    method PutEntries(e: nat, f: nat)
      requires 4 * ent + 8 <= 8 * reserved <= mem.Length && e < 0x1_0000_0000 && f < 0x1_0000_0000
      modifies this`ent, mem
      ensures ent == old(ent) + 2 && Entry(mem[..], old(ent)) == e && Entry(mem[..], old(ent) + 1) == f
      ensures mem[..4 * old(ent)] == old(mem[..4 * ent]) && mem[8 * reserved..] == old(mem[8 * reserved..])
    {
      hide Entry;
      PutEntry(e);
      ghost var m := mem[..];
      PutEntry(f);
      EntryInPrefix(m, mem[..], 4 * old(ent) + 4, old(ent));
      SameRange(m, mem[..], 4 * old(ent) + 4, 0, 4 * old(ent));
    }

    /** `HS_FINALIZE` with as many pairs as were put in, possibly fewer than reserved. */
    method Finalize(ghost pairs: seq<Pair>)
      requires Valid(pairs) && |Flat(pairs)| < POS_LIMIT
      modifies this`count, this`varsize, mem
      ensures count == |pairs| && Holds(mem[..], |pairs|, pairs, true)
      ensures varsize == HEADER_SIZE + 8 * |pairs| + |Flat(pairs)|
      ensures forall i :: 0 <= i < |pairs| ==> Reads(mem[..], count, i, pairs[i])
    {
      var buflen, n := ptr - 8 * reserved, ent / 2;
      if n > 0 {
        SetFirst(pairs);
      }
      if n != count {
        count := n;
        MoveDown(pairs, buflen);
      }
      varsize := HEADER_SIZE + 8 * n + buflen;
      forall i | 0 <= i < |pairs|
        ensures Reads(mem[..], count, i, pairs[i])
      {
        RoundTrip(mem[..], pairs, i);
      }
    }

    /** `ARRPTR(hsp)[0].entry |= HENTRY_ISFIRST`. */
    method SetFirst(ghost pairs: seq<Pair>)
      requires pairs != [] && Holds(mem[..], reserved, pairs, false) && |Flat(pairs)| < POS_LIMIT
      modifies mem
      ensures Holds(mem[..], reserved, pairs, true)
    {
      ghost var was := mem[..];
      PositionsInOrder(pairs, 0);
      assert EntriesOf(was, pairs, 0, false);
      if (mem[3] as int) < 0x80 {
        mem[3] := ((mem[3] as int) + 0x80) as Byte;
      }
      FirstMarked(was, mem[..], reserved, pairs);
    }

    method MemMove(dst: nat, src: nat, n: nat)
      requires dst <= src && src + n <= mem.Length
      modifies mem
      ensures mem[dst..dst + n] == old(mem[src..src + n]) && mem[..dst] == old(mem[..dst])
    {
      forall k | 0 <= k < n {
        mem[dst + k] := mem[src + k];
      }
    }

    /** `memmove` of the string area to its final place. */
    method MoveDown(ghost pairs: seq<Pair>, buflen: nat)
      requires Holds(mem[..], reserved, pairs, pairs != []) && buflen == |Flat(pairs)|
      requires count == |pairs|
      modifies mem
      ensures Holds(mem[..], |pairs|, pairs, true)
    {
      hide Entry, EntriesOf, Flat;
      ghost var was := mem[..];
      MemMove(8 * count, 8 * reserved, buflen);
      MovedDown(was, mem[..], reserved, pairs);
    }
  }

  lemma EntriesKept(m: seq<Byte>, m': seq<Byte>, pairs: seq<Pair>, i: nat, first: bool)
    requires i < |pairs| && 8 * i + 8 <= |m| && 8 * i + 8 <= |m'| && m[8 * i..8 * i + 8] == m'[8 * i..8 * i + 8]
    requires EntriesOf(m, pairs, i, first)
    ensures EntriesOf(m', pairs, i, first)
  {
    hide Entry;
    assert m[8 * i..8 * i + 8][..4] == m'[8 * i..8 * i + 8][..4];
    assert m[8 * i..8 * i + 8][4..] == m'[8 * i..8 * i + 8][4..];
    assert m[8 * i..8 * i + 8][..4] == m[8 * i..8 * i + 4] && m'[8 * i..8 * i + 8][..4] == m'[8 * i..8 * i + 4];
    assert m[8 * i..8 * i + 8][4..] == m[8 * i + 4..8 * i + 8] && m'[8 * i..8 * i + 8][4..] == m'[8 * i + 4..8 * i + 8];
    SameEntry(m, m', 2 * i);
    SameEntry(m, m', 2 * i + 1);
  }

  lemma EntriesMore(m: seq<Byte>, pairs: seq<Pair>, p: Pair, i: nat)
    requires i < |pairs| && 8 * i + 8 <= |m| && EntriesOf(m, pairs, i, false)
    ensures EntriesOf(m, pairs + [p], i, false)
  {
    hide Entry;
    assert (pairs + [p])[..i] == pairs[..i];
  }

  /** One more pair: its entries and bytes are in place, everything before is as it was. */
  lemma Extended(m: seq<Byte>, m': seq<Byte>, reserved: nat, pairs: seq<Pair>, p: Pair)
    requires Holds(m, reserved, pairs, false) && |pairs| < reserved && |m'| == |m|
    requires 8 * reserved + |Flat(pairs + [p])| <= |m|
    requires m'[..8 * |pairs|] == m[..8 * |pairs|]
    requires m'[8 * reserved..8 * reserved + |Flat(pairs + [p])|] == Flat(pairs + [p])
    requires EntriesOf(m', pairs + [p], |pairs|, false)
    ensures Holds(m', reserved, pairs + [p], false)
  {
    hide Entry, EntriesOf, Flat;
    forall i | 0 <= i < |pairs + [p]|
      ensures EntriesOf(m', pairs + [p], i, false)
    {
      if i < |pairs| {
        SameRange(m, m', 8 * |pairs|, 8 * i, 8 * i + 8);
        EntriesKept(m, m', pairs, i, false);
        EntriesMore(m', pairs, p, i);
      }
    }
  }

  lemma SameTail(m: seq<Byte>, m': seq<Byte>, n: nat, b: nat)
    requires n <= b <= |m| == |m'| && m'[n..] == m[n..]
    ensures m'[n..b] == m[n..b]
  {
    assert m'[n..][..b - n] == m'[n..b] && m[n..][..b - n] == m[n..b];
  }

  lemma EntryInPrefix(m: seq<Byte>, m': seq<Byte>, n: nat, k: nat)
    requires 4 * k + 4 <= n <= |m| && n <= |m'| && m'[..n] == m[..n]
    ensures Entry(m', k) == Entry(m, k)
  {
    hide Entry;
    SameRange(m, m', n, 4 * k, 4 * k + 4);
    SameEntry(m, m', k);
  }

  /** Key and value were stored one after the other. */
  lemma AddedBoth(was: seq<Byte>, m: seq<Byte>, m': seq<Byte>, reserved: nat, pairs: seq<Pair>, p: Pair, ptr: nat)
    requires Holds(was, reserved, pairs, false) && |pairs| < reserved && |was| == |m| == |m'|
    requires var n, base := |pairs|, 8 * reserved;
             var f := base + |Flat(pairs)|;
             && ptr == f + |p.key| + |Stored(p)| <= |m| && ptr - base < POS_LIMIT
             && m[..8 * n] == was[..8 * n] && Entry(m, 2 * n) == |Flat(pairs)| + |p.key|
             && m[base..f + |p.key|] == was[base..f] + p.key
             && m'[..8 * n + 4] == m[..8 * n + 4] && Entry(m', 2 * n + 1) == ptr - base + NullFlag(p)
             && m'[base..ptr] == m[base..f + |p.key|] + Stored(p)
    ensures Holds(m', reserved, pairs + [p], false)
  {
    hide Entry, Flat;
    var n := |pairs|;
    SameRange(m, m', 8 * n + 4, 0, 8 * n);
    EntryInPrefix(m, m', 8 * n + 4, 2 * n);
    FlatSnoc(pairs, p);
    assert (pairs + [p])[..n] == pairs;
    Extended(was, m', reserved, pairs, p);
  }

  /** Key and value were copied together, then both entries stored. */
  lemma CopiedBoth(was: seq<Byte>, m: seq<Byte>, m': seq<Byte>, reserved: nat, pairs: seq<Pair>, p: Pair, ptr: nat)
    requires Holds(was, reserved, pairs, false) && |pairs| < reserved && |was| == |m| == |m'|
    requires var n, base := |pairs|, 8 * reserved;
             var f := base + |Flat(pairs)|;
             && ptr == f + |p.key| + |Stored(p)| <= |m'| && ptr - base < POS_LIMIT
             && m[..base] == was[..base] && m[base..ptr] == was[base..f] + (p.key + Stored(p))
             && m'[..8 * n] == m[..8 * n] && m'[base..] == m[base..]
             && Entry(m', 2 * n) == |Flat(pairs)| + |p.key| && Entry(m', 2 * n + 1) == ptr - base + NullFlag(p)
    ensures Holds(m', reserved, pairs + [p], false)
  {
    hide Entry, Flat;
    var n := |pairs|;
    SameRange(was, m, 8 * reserved, 0, 8 * n);
    SameTail(m, m', 8 * reserved, ptr);
    FlatSnoc(pairs, p);
    assert (pairs + [p])[..n] == pairs;
    assert Flat(pairs) + (p.key + Stored(p)) == Flat(pairs) + p.key + Stored(p);
    Extended(was, m', reserved, pairs, p);
  }

  lemma FirstMarked(m: seq<Byte>, m': seq<Byte>, reserved: nat, pairs: seq<Pair>)
    requires pairs != [] && Holds(m, reserved, pairs, false) && |m'| == |m|
    requires m'[4..] == m[4..] && Entry(m', 0) == EndKey(pairs, 0) + ISFIRST
    ensures Holds(m', reserved, pairs, true)
  {
    hide Entry, Flat;
    forall i | 0 <= i < |pairs|
      ensures EntriesOf(m', pairs, i, true)
    {
      assert EntriesOf(m, pairs, i, false);
      assert m'[4..][8 * i..8 * i + 4] == m'[8 * i + 4..8 * i + 8];
      assert m[4..][8 * i..8 * i + 4] == m[8 * i + 4..8 * i + 8];
      SameEntry(m, m', 2 * i + 1);
      if i > 0 {
        assert m'[4..][8 * i - 4..8 * i] == m'[8 * i..8 * i + 4] && m[4..][8 * i - 4..8 * i] == m[8 * i..8 * i + 4];
        SameEntry(m, m', 2 * i);
      }
    }
    var a, b := 8 * reserved, 8 * reserved + |Flat(pairs)|;
    assert m'[4..][a - 4..b - 4] == m'[a..b] && m[4..][a - 4..b - 4] == m[a..b];
  }

  lemma MovedDown(m: seq<Byte>, m': seq<Byte>, reserved: nat, pairs: seq<Pair>)
    requires Holds(m, reserved, pairs, pairs != []) && |m'| == |m|
    requires m'[..8 * |pairs|] == m[..8 * |pairs|]
    requires m'[8 * |pairs|..8 * |pairs| + |Flat(pairs)|] == m[8 * reserved..8 * reserved + |Flat(pairs)|]
    ensures Holds(m', |pairs|, pairs, true)
  {
    hide Entry, EntriesOf, Flat;
    forall i | 0 <= i < |pairs|
      ensures EntriesOf(m', pairs, i, true)
    {
      SameRange(m, m', 8 * |pairs|, 8 * i, 8 * i + 8);
      EntriesKept(m, m', pairs, i, true);
    }
  }
}
