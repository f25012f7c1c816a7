/**
 Bloom index pages: space accounting, adding a tuple, in-place vacuum compaction
 and the per-page part of a scan (contrib/bloom/bloom.h, blutils.c, blvacuum.c,
 blscan.c).  `Page` is the value of a page; `PageBuffer` is the mutable buffer.
 */
module BloomPage {
  import opened BloomSignature

  // ------------------------------------------------------------ layout

  const BLCKSZ: nat := 8192
  const PAGE_HEADER: nat := 24
  const OPAQUE_SIZE: nat := 8
  const TUPLE_HEADER: nat := 6
  const SIZE_MODULUS: nat := 0x1_0000_0000_0000_0000

  /** Bytes available for tuples on a page. */
  const PAGE_ROOM: nat := BLCKSZ - PAGE_HEADER - OPAQUE_SIZE

  /** Number of block numbers the metapage's not-full list holds. */
  const META_BLOCKS: nat := (BLCKSZ - PAGE_HEADER - OPAQUE_SIZE - 144) / 4

  /** `bloptions` and the defaults: a signature length in bits becomes words. */
  function WordsForLength(bits: nat): nat {
    (bits + WORD_BITS - 1) / WORD_BITS
  }

  function TupleSize(opts: Options): nat {
    TUPLE_HEADER + 2 * opts.bloomLength
  }

  /** `BloomPageGetFreeSpace`, computed like the C macro in an unsigned 64-bit type. */
  function FreeSpace(opts: Options, maxoff: nat): nat {
    (PAGE_ROOM - maxoff * TupleSize(opts)) % SIZE_MODULUS
  }

  /** Every accepted reloption gives legal options: between 1 and 256 words. */
  lemma LegalReloptions(bits: nat, bitSize: seq<nat>)
    requires 1 <= bits <= 256 * WORD_BITS && |bitSize| == 32
    ensures Options(WordsForLength(bits), bitSize).Legal()
    ensures WORD_BITS * WordsForLength(bits) - WORD_BITS < bits <= WORD_BITS * WordsForLength(bits)
  {
  }

  // ------------------------------------------------------------ page values

  datatype Page =
    | MetaPage
    | NewPage
    | DataPage(tuples: seq<BloomTuple>, deleted: bool, lower: nat)
  {
    /** `PageIsNew(page) || BloomPageIsDeleted(page)`: free for reuse. */
    predicate Reusable() {
      NewPage? || (DataPage? && deleted)
    }
  }

  function Tuples(p: Page): seq<BloomTuple> {
    if p.DataPage? then p.tuples else []
  }

  /** The page-space invariant. */
  ghost predicate PageOk(opts: Options, p: Page) {
    p.DataPage? ==>
      && |p.tuples| * TupleSize(opts) <= PAGE_ROOM
      && p.lower == PAGE_HEADER + |p.tuples| * TupleSize(opts)
      && (p.deleted ==> p.tuples == [])
      && forall t :: t in p.tuples ==> |t.sign| == opts.bloomLength
  }

  /** `BloomInitPage(page, 0)`. */
  function InitPage(): Page {
    DataPage([], false, PAGE_HEADER)
  }

  /** `BloomPageAddItem` tests this before copying the tuple in. */
  predicate HasRoom(opts: Options, p: Page)
    requires p.DataPage?
  {
    FreeSpace(opts, |p.tuples|) >= TupleSize(opts)
  }

  /** `BloomPageAddItem`; a full page is left alone. */
  function AddItem(opts: Options, p: Page, t: BloomTuple): Page
    requires p.DataPage?
  {
    if HasRoom(opts, p)
    then DataPage(p.tuples + [t], p.deleted, PAGE_HEADER + (|p.tuples| + 1) * TupleSize(opts))
    else p
  }

  /** The tuples a bulk delete keeps, in page order. */
  function Kept(tuples: seq<BloomTuple>, dead: set<Tid>): (k: seq<BloomTuple>)
    ensures |k| <= |tuples|
  {
    if tuples == [] then [] else
      var rest := Kept(tuples[..|tuples| - 1], dead);
      if tuples[|tuples| - 1].heapPtr in dead then rest else rest + [tuples[|tuples| - 1]]
  }

  lemma KeptStep(tuples: seq<BloomTuple>, i: nat, dead: set<Tid>)
    requires i < |tuples|
    ensures Kept(tuples[..i + 1], dead) ==
            Kept(tuples[..i], dead) + if tuples[i].heapPtr in dead then [] else [tuples[i]]
  {
    assert tuples[..i + 1][..i] == tuples[..i];
  }

  lemma KeptNone(tuples: seq<BloomTuple>, dead: set<Tid>)
    requires tuples == []
    ensures Kept(tuples, dead) == []
  {
  }

  /** What `blbulkdelete` leaves of one page. */
  function Compact(opts: Options, p: Page, dead: set<Tid>): Page {
    if p.Reusable() || p.MetaPage? then p else
      var kept := Kept(p.tuples, dead);
      if |kept| == |p.tuples| then p
      else DataPage(kept, p.deleted || kept == [], PAGE_HEADER + |kept| * TupleSize(opts))
  }

  /** The tuples of a page that pass a scan's word test, in page order. */
  function Matching(tuples: seq<BloomTuple>, sign: seq<Word>): seq<BloomTuple>
  {
    if tuples == [] then [] else
      var last := tuples[|tuples| - 1];
      var rest := Matching(tuples[..|tuples| - 1], sign);
      if |last.sign| == |sign| && WordsMatch(last.sign, sign) then rest + [last] else rest
  }

  // ------------------------------------------------------------ space

  /** On a page that respects the space invariant, free space never wraps around. */
  lemma FreeSpaceExact(opts: Options, p: Page)
    requires opts.Legal() && p.DataPage? && PageOk(opts, p)
    ensures FreeSpace(opts, |p.tuples|) == PAGE_ROOM - |p.tuples| * TupleSize(opts)
  {
  }

  /** Room for one more tuple, counted in bytes. */
  predicate OneMoreFits(opts: Options, n: nat) {
    (n + 1) * (6 + 2 * opts.bloomLength) <= 8160
  }

  /** A page refuses a tuple exactly when its bytes would not fit. */
  lemma HasRoomIs(opts: Options, p: Page)
    requires opts.Legal() && p.DataPage? && PageOk(opts, p)
    ensures HasRoom(opts, p) <==> OneMoreFits(opts, |p.tuples|)
  {
    FreeSpaceExact(opts, p);
    assert (|p.tuples| + 1) * TupleSize(opts) == |p.tuples| * TupleSize(opts) + TupleSize(opts);
  }

  /** Adding an item keeps the space invariant: the copied tuple ends before the opaque area. */
  lemma AddItemOk(opts: Options, p: Page, t: BloomTuple)
    requires opts.Legal() && p.DataPage? && !p.deleted && PageOk(opts, p) && |t.sign| == opts.bloomLength
    ensures PageOk(opts, AddItem(opts, p, t))
    ensures HasRoom(opts, p) ==> AddItem(opts, p, t).lower <= BLCKSZ - OPAQUE_SIZE
    ensures Tuples(AddItem(opts, p, t)) == if OneMoreFits(opts, |p.tuples|) then p.tuples + [t] else p.tuples
  {
    FreeSpaceExact(opts, p);
    HasRoomIs(opts, p);
    assert (|p.tuples| + 1) * TupleSize(opts) == |p.tuples| * TupleSize(opts) + TupleSize(opts);
  }

  /** An empty page always has room, for every legal signature length. */
  lemma EmptyPageHasRoom(opts: Options)
    requires opts.Legal()
    ensures HasRoom(opts, InitPage())
    ensures PageOk(opts, InitPage())
  {
  }

  // ------------------------------------------------------------ compaction

  /** The tuples a bulk delete drops. */
  ghost function Dropped(tuples: seq<BloomTuple>, dead: set<Tid>): multiset<BloomTuple> {
    if tuples == [] then multiset{} else
      var rest := Dropped(tuples[..|tuples| - 1], dead);
      if tuples[|tuples| - 1].heapPtr in dead then rest + multiset{tuples[|tuples| - 1]} else rest
  }

  /** Kept and dropped tuples split the page by the callback, with nothing lost. */
  lemma {:induction false} KeptAndDropped(tuples: seq<BloomTuple>, dead: set<Tid>)
    ensures multiset(Kept(tuples, dead)) + Dropped(tuples, dead) == multiset(tuples)
    ensures forall t :: t in Kept(tuples, dead) ==> t.heapPtr !in dead
    ensures forall t :: t in Dropped(tuples, dead) ==> t.heapPtr in dead
    ensures |Kept(tuples, dead)| + |Dropped(tuples, dead)| == |tuples|
  {
    if tuples != [] {
      var init, last := tuples[..|tuples| - 1], tuples[|tuples| - 1];
      KeptAndDropped(init, dead);
      assert tuples == init + [last];
    }
  }

  lemma {:induction false} KeptAll(tuples: seq<BloomTuple>, dead: set<Tid>)
    ensures |Kept(tuples, dead)| == |tuples| <==> Kept(tuples, dead) == tuples
    ensures |Kept(tuples, dead)| == |tuples| ==> Dropped(tuples, dead) == multiset{}
  {
    if tuples != [] {
      KeptAll(tuples[..|tuples| - 1], dead);
      assert tuples == tuples[..|tuples| - 1] + [tuples[|tuples| - 1]];
    }
  }

  lemma SmallerFits(m: nat, n: nat, size: nat)
    requires m <= n
    ensures m * size <= n * size
  {
  }

  lemma KeptSubset(tuples: seq<BloomTuple>, dead: set<Tid>, t: BloomTuple)
    requires t in Kept(tuples, dead)
    ensures t in tuples
  {
    KeptAndDropped(tuples, dead);
    assert t in multiset(Kept(tuples, dead));
    assert t in multiset(tuples);
  }

  /** Compaction keeps the space invariant; a page that loses its last tuple is left for reuse, and no other page is. */
  lemma CompactOk(opts: Options, p: Page, dead: set<Tid>)
    requires PageOk(opts, p)
    ensures PageOk(opts, Compact(opts, p, dead))
    ensures p.NewPage? <==> Compact(opts, p, dead).NewPage?
    ensures p.MetaPage? <==> Compact(opts, p, dead).MetaPage?
    ensures Tuples(p) != [] ==> (Tuples(Compact(opts, p, dead)) == [] <==> Compact(opts, p, dead).Reusable())
    ensures Tuples(p) == [] ==> Compact(opts, p, dead) == p
  {
    if p.DataPage? && !p.deleted {
      var kept := Kept(p.tuples, dead);
      SmallerFits(|kept|, |p.tuples|, TupleSize(opts));
      forall t | t in kept
        ensures |t.sign| == opts.bloomLength
      {
        KeptSubset(p.tuples, dead, t);
      }
    }
  }

  /** Compaction removes exactly the dead tuples. */
  lemma CompactTuples(opts: Options, p: Page, dead: set<Tid>)
    requires PageOk(opts, p)
    ensures multiset(Tuples(Compact(opts, p, dead))) + Dropped(Tuples(p), dead) == multiset(Tuples(p))
    ensures forall t :: t in Tuples(Compact(opts, p, dead)) ==> t.heapPtr !in dead
    ensures forall t :: multiset(Tuples(Compact(opts, p, dead)))[t] ==
                        if t.heapPtr in dead then 0 else multiset(Tuples(p))[t]
  {
    KeptAndDropped(Tuples(p), dead);
    KeptAll(Tuples(p), dead);
    var after := Tuples(Compact(opts, p, dead));
    forall t: BloomTuple
      ensures multiset(after)[t] == if t.heapPtr in dead then 0 else multiset(Tuples(p))[t]
    {
      assert (multiset(after) + Dropped(Tuples(p), dead))[t] == multiset(Tuples(p))[t];
      assert t in multiset(after) <==> t in after;
    }
  }

  // ------------------------------------------------------------ buffers

  /** A page buffer: fixed tuple slots, the opaque area and `pd_lower`. */
  class PageBuffer {
    const opts: Options
    var isNew: bool
    var slots: array<BloomTuple>
    var maxoff: nat
    var deleted: bool
    var lower: nat

    ghost predicate Valid()
      reads this
    {
      opts.Legal() && maxoff <= slots.Length && slots.Length == PAGE_ROOM / TupleSize(opts)
    }

    function View(): Page
      requires Valid()
      reads this, slots
    {
      if isNew then NewPage else DataPage(slots[..maxoff], deleted, lower)
    }

    constructor (opts: Options)
      requires opts.Legal()
      ensures Valid() && fresh(slots) && this.opts == opts
      ensures View() == NewPage
    {
      this.opts := opts;
      isNew := true;
      slots := new BloomTuple[PAGE_ROOM / TupleSize(opts)](_ => BloomTuple(Tid(0, 0), []));
      maxoff, deleted, lower := 0, false, 0;
    }

    /** `GenericXLogRegisterBuffer`: a working copy of a page. */
    constructor Register(opts: Options, page: Page)
      requires opts.Legal() && !page.MetaPage? && PageOk(opts, page)
      ensures Valid() && fresh(slots) && this.opts == opts
      ensures View() == page
    {
      this.opts := opts;
      isNew := page.NewPage?;
      var tuples, size := Tuples(page), PAGE_ROOM / TupleSize(opts);
      SlotsSuffice(|tuples|, TupleSize(opts));
      slots := new BloomTuple[size](i => if 0 <= i < |tuples| then tuples[i] else BloomTuple(Tid(0, 0), []));
      maxoff := |tuples|;
      deleted, lower := page.DataPage? && page.deleted, if page.DataPage? then page.lower else 0;
      new;
      assert slots[..maxoff] == tuples;
    }

    /** `BloomInitPage(page, 0)`. */
    method Init()
      requires Valid()
      modifies this`isNew, this`maxoff, this`deleted, this`lower
      ensures Valid() && !isNew && View() == InitPage()
    {
      isNew, maxoff, deleted, lower := false, 0, false, PAGE_HEADER;
    }

    /** `BloomPageAddItem`. */
    method Add(t: BloomTuple) returns (ok: bool)
      requires Valid() && !isNew && PageOk(opts, View())
      modifies this`maxoff, this`lower, slots
      ensures Valid() && !isNew
      ensures ok <==> HasRoom(opts, old(View()))
      ensures View() == AddItem(opts, old(View()), t)
    {
      FreeSpaceExact(opts, View());
      if FreeSpace(opts, maxoff) < TupleSize(opts) {
        return false;
      }
      SlotAvailable(maxoff, TupleSize(opts));
      ghost var before := slots[..maxoff];
      slots[maxoff] := t;
      maxoff := maxoff + 1;
      lower := PAGE_HEADER + maxoff * TupleSize(opts);
      assert slots[..maxoff] == before + [t];
      ok := true;
    }

    /**
     The compaction loop of `blbulkdelete`: `itup` scans, `itupPtr` is where the
     next surviving tuple goes, and `maxoff` counts down as tuples die.
     */
    method CompactSlots(dead: set<Tid>) returns (removed: nat)
      requires maxoff <= slots.Length
      modifies this`maxoff, slots
      ensures maxoff <= slots.Length
      ensures slots[..maxoff] == Kept(old(slots[..maxoff]), dead)
      ensures removed == old(maxoff) - maxoff
    {
      hide Kept;
      removed := 0;
      var itup, itupPtr, itupEnd := 0, 0, maxoff;
      ghost var was := slots[..maxoff];
      KeptNone(was[..0], dead);
      while itup < itupEnd
        invariant 0 <= itupPtr <= itup <= itupEnd <= slots.Length
        invariant slots[..itupPtr] == Kept(was[..itup], dead)
        invariant forall k :: itup <= k < itupEnd ==> slots[k] == was[k]
        invariant removed == itup - itupPtr
        invariant maxoff == itupEnd - removed
      {
        KeptStep(was, itup, dead);
        if slots[itup].heapPtr in dead {
          maxoff := maxoff - 1;
          removed := removed + 1;
        } else {
          if itupPtr != itup {
            slots[itupPtr] := slots[itup];
          }
          itupPtr := itupPtr + 1;
          assert slots[..itupPtr] == slots[..itupPtr - 1] + [was[itup]];
        }
        itup := itup + 1;
      }
      assert was[..itup] == was;
    }

    /** The per-page part of `blbulkdelete`. */
    method BulkDelete(dead: set<Tid>) returns (removed: nat)
      requires Valid()
      modifies this`maxoff, this`deleted, this`lower, slots
      ensures Valid() && isNew == old(isNew)
      ensures View() == Compact(opts, old(View()), dead)
      ensures removed == |Tuples(old(View()))| - |Tuples(View())|
      ensures Tuples(old(View())) != [] && Tuples(View()) == [] ==> View().Reusable()
    {
      removed := 0;
      if isNew || deleted {
        return;
      }
      KeptAll(slots[..maxoff], dead);
      removed := CompactSlots(dead);
      if removed != 0 {
        if maxoff == 0 {
          deleted := true;
        }
        lower := PAGE_HEADER + maxoff * TupleSize(opts);
      }
    }

    /** The per-page part of `blgetbitmap`: tuples whose words cover the scan's words. */
    method Scan(sign: seq<Word>) returns (found: seq<BloomTuple>)
      requires Valid() && PageOk(opts, View()) && |sign| == opts.bloomLength
      ensures found == Matching(Tuples(View()), sign)
    {
      found := [];
      if isNew || deleted {
        return;
      }
      ghost var all := slots[..maxoff];
      for offset := 0 to maxoff
        invariant found == Matching(all[..offset], sign)
      {
        var itup := slots[offset];
        assert itup in all;
        var res := WordTest(itup.sign, sign);
        assert all[..offset + 1][..offset] == all[..offset];
        if res {
          found := found + [itup];
        }
      }
      assert all[..maxoff] == all;
    }
  }

  /** The word loop of a scan, leaving at the first word that misses a bit. */
  method WordTest(t: seq<Word>, s: seq<Word>) returns (res: bool)
    requires |t| == |s|
    ensures res <==> WordsMatch(t, s)
  {
    res := true;
    var i := 0;
    while i < |s|
      invariant 0 <= i <= |s| && res
      invariant forall k :: 0 <= k < i ==> And(t[k], s[k]) == s[k]
    {
      if And(t[i], s[i]) != s[i] {
        res := false;
        break;
      }
      i := i + 1;
    }
  }

  lemma SlotsSuffice(n: nat, size: nat)
    requires size > 0 && n * size <= PAGE_ROOM
    ensures n <= PAGE_ROOM / size
  {
    if n > 0 {
      SlotAvailable(n - 1, size);
    }
  }

  lemma SlotAvailable(n: nat, size: nat)
    requires size > 0 && (n + 1) * size <= PAGE_ROOM
    ensures n < PAGE_ROOM / size
  {
    var q := PAGE_ROOM / size;
    if q <= n {
      SmallerFits(q + 1, n + 1, size);
    }
  }
}
