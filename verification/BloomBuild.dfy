/**
 Building a Bloom index from the heap (`blbuild`, `bloomBuildCallback`,
 `flushCachedPage` in contrib/bloom/blinsert.c): tuples gather on one cached page,
 which is appended to the file whenever it is full.
 */
module BloomBuild {
  import opened Common
  import opened BloomSignature
  import opened BloomPage
  import opened BloomProtocol

  /** The tuples of all pages, in file order. */
  ghost function Flat(pages: seq<Page>): seq<BloomTuple> {
    if pages == [] then [] else Flat(pages[..|pages| - 1]) + Tuples(pages[|pages| - 1])
  }

  lemma {:induction false} FlatIsTuples(pages: seq<Page>, n: nat)
    requires n <= |pages|
    ensures TuplesIn(pages, 0, n) == multiset(Flat(pages[..n]))
  {
    if n > 0 {
      FlatIsTuples(pages, n - 1);
      assert pages[..n][..n - 1] == pages[..n - 1];
    }
  }

  /** A data page that took all it could. */
  ghost predicate Full(opts: Options, p: Page) {
    p.DataPage? && !p.deleted && !HasRoom(opts, p)
  }

  /** `fed` has been delivered: it is on the flushed pages, which are full, and on the cached page. */
  ghost predicate Delivered(opts: Options, pages: seq<Page>, cached: Page, count: nat, indtuples: nat,
                            fed: seq<BloomTuple>) {
    && opts.Legal() && PagesOk(opts, pages) && PageOk(opts, cached)
    && cached.DataPage? && !cached.deleted && count == |cached.tuples|
    && (forall i :: 1 <= i < |pages| ==> Full(opts, pages[i]))
    && fed == Flat(pages) + cached.tuples && indtuples == |fed|
    && (fed != [] ==> cached.tuples != [])
  }

  /** The cached page took one more tuple. */
  lemma TakenIn(opts: Options, pages: seq<Page>, cached: Page, count: nat, indtuples: nat, fed: seq<BloomTuple>,
                t: BloomTuple)
    requires Delivered(opts, pages, cached, count, indtuples, fed) && HasRoom(opts, cached)
    requires |t.sign| == opts.bloomLength
    ensures Delivered(opts, pages, AddItem(opts, cached, t), count + 1, indtuples + 1, fed + [t])
  {
    AddItemOk(opts, cached, t);
    assert fed + [t] == Flat(pages) + AddItem(opts, cached, t).tuples;
  }

  /** The cached page was full: it was flushed and a fresh one took the tuple. */
  lemma Flushed(opts: Options, pages: seq<Page>, cached: Page, count: nat, indtuples: nat, fed: seq<BloomTuple>,
                t: BloomTuple)
    requires Delivered(opts, pages, cached, count, indtuples, fed) && !HasRoom(opts, cached)
    requires |t.sign| == opts.bloomLength
    ensures HasRoom(opts, InitPage()) && PageOk(opts, InitPage())
    ensures Delivered(opts, pages + [cached], AddItem(opts, InitPage(), t), 1, indtuples + 1, fed + [t])
  {
    EmptyPageHasRoom(opts);
    AddItemOk(opts, InitPage(), t);
    var more := pages + [cached];
    assert more[..|pages|] == pages;
    assert Flat(more) == fed;
    assert AddItem(opts, InitPage(), t).tuples == [t];
  }

  lemma StaysFull(opts: Options, p: Page, t: BloomTuple)
    requires p.DataPage? && !HasRoom(opts, p)
    ensures AddItem(opts, p, t) == p
  {
  }

  lemma PageStaysOk(opts: Options, pages: seq<Page>, cached: Page, count: nat, indtuples: nat, fed: seq<BloomTuple>)
    requires Delivered(opts, pages, cached, count, indtuples, fed)
    ensures PageOk(opts, cached)
  {
  }

  class Builder {
    const opts: Options
    var pages: seq<Page>
    const cached: PageBuffer
    var count: nat
    var indtuples: nat

    ghost predicate Valid(fed: seq<BloomTuple>)
      reads this, cached, cached.slots
    {
      && cached.Valid() && cached.opts == opts && !cached.isNew && PageOk(opts, cached.View())
      && Delivered(opts, pages, cached.View(), count, indtuples, fed)
    }

    /** `BloomInitMetapage` and `initCachedPage` on an empty file. */
    constructor (opts: Options)
      requires opts.Legal()
      ensures Valid([]) && this.opts == opts && fresh(cached) && fresh(cached.slots)
    {
      var page := new PageBuffer(opts);
      page.Init();
      this.opts := opts;
      pages := [MetaPage];
      cached := page;
      count, indtuples := 0, 0;
      new;
      EmptyPageHasRoom(opts);
      assert Flat(pages[..0]) == [];
    }

    method FlushCachedPage()
      requires cached.Valid()
      modifies this`pages
      ensures pages == old(pages) + [cached.View()]
    {
      pages := pages + [cached.View()];
    }

    /** `bloomBuildCallback`; the error on an empty page is never reported. */
    method Feed(t: BloomTuple, ghost fed: seq<BloomTuple>) returns (error: bool)
      requires Valid(fed) && |t.sign| == opts.bloomLength
      modifies this, cached, cached.slots
      ensures Valid(fed + [t]) && !error && cached.slots == old(cached.slots)
    {
      hide HasRoom, Delivered, AddItem, PageOk, InitPage;
      error := false;
      ghost var before, was := cached.View(), pages;
      var added := cached.Add(t);
      if added {
        TakenIn(opts, was, before, count, indtuples, fed, t);
        count := count + 1;
      } else {
        StaysFull(opts, before, t);
        Flushed(opts, was, before, count, indtuples, fed, t);
        FlushCachedPage();
        cached.Init();
        count := 0;
        added := cached.Add(t);
        if !added {
          error := true;
        }
        count := count + 1;
      }
      indtuples := indtuples + 1;
      PageStaysOk(opts, pages, cached.View(), count, indtuples, fed + [t]);
    }

    /** The end of `blbuild`: flush the last page if it holds anything. */
    method Finish(ghost fed: seq<BloomTuple>)
      requires Valid(fed)
      modifies this`pages
      ensures PagesOk(opts, pages) && Flat(pages) == fed && indtuples == |fed|
      ensures forall i :: 1 <= i < |pages| - 1 ==> Full(opts, pages[i])
      ensures |pages| == 1 <==> fed == []
    {
      if count > 0 {
        FlushCachedPage();
        assert pages[..|pages| - 1] == old(pages);
      } else {
        assert fed == Flat(pages);
        if |pages| > 1 {
          assert fed == [];
          LastInFlat(opts, pages);
        }
      }
    }
  }

  /** A full page holds tuples, so the flushed pages do. */
  lemma LastInFlat(opts: Options, pages: seq<Page>)
    requires opts.Legal() && |pages| > 0 && Full(opts, pages[|pages| - 1])
    ensures Flat(pages) != []
  {
    EmptyPageHasRoom(opts);
  }

  /**
   `blbuild` over the tuples of the heap scan: an index the protocol can start
   from, holding exactly those tuples in order, all pages but the last one full.
   */
  method Build(opts: Options, heap: seq<BloomTuple>, listArea: seq<nat>) returns (pages: seq<Page>, indexTuples: nat)
    requires opts.Legal() && (forall t :: t in heap ==> |t.sign| == opts.bloomLength) && |listArea| == META_BLOCKS
    ensures Flat(pages) == heap && indexTuples == |heap|
    ensures Initial(opts, State(pages, Meta(0, 0, listArea), None, {}, map[], multiset(heap), multiset{}))
    ensures forall i :: 1 <= i < |pages| - 1 ==> Full(opts, pages[i])
  {
    hide Delivered, PageOk;
    var b := new Builder(opts);
    for i := 0 to |heap|
      invariant fresh(b) && fresh(b.cached) && fresh(b.cached.slots) && b.opts == opts && b.Valid(heap[..i])
    {
      assert heap[..i + 1] == heap[..i] + [heap[i]];
      var error := b.Feed(heap[i], heap[..i]);
    }
    assert heap[..|heap|] == heap;
    b.Finish(heap);
    pages, indexTuples := b.pages, b.indtuples;
    FlatIsTuples(pages, |pages|);
    assert pages[..|pages|] == pages;
  }
}
