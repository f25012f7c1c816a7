/**
 The access method entry points as imperative code: `blinsert`, `blbulkdelete`,
 `blvacuumcleanup` and `blgetbitmap` on a relation whose pages, metapage list and
 free-space map they update.  Each locked section is shown to be one action of
 the protocol, so a whole call is a run of it.
 */
module BloomIndex {
  import opened Common
  import opened BloomRandom
  import opened BloomSignature
  import opened BloomPage
  import opened BloomProtocol
  import opened BloomSafety
  import opened BloomTheorems
  import opened BloomPasses

  class Relation {
    const opts: Options
    var pages: seq<Page>
    var nStart: nat
    var nEnd: nat
    var notFull: seq<nat>
    var fsm: set<nat>
    ghost var owner: Option<nat>
    ghost var procs: map<nat, Proc>
    ghost var inserted: Live
    ghost var removed: Live

    ghost function View(): State
      reads this
    {
      State(pages, Meta(nStart, nEnd, notFull), owner, fsm, procs, inserted, removed)
    }

    /** A run leads from `s0` to the present state, and backend `p` stands at `proc`. */
    ghost predicate At(s0: State, p: nat, proc: Proc)
      reads this
    {
      Reaches(opts, s0, View()) && p in procs && procs[p] == proc
    }

    /** One more action has been taken. */
    lemma Took(s0: State, s: State, a: Action)
      requires Reaches(opts, s0, s) && Enabled(opts, s, a)
      requires View() == Step(opts, s, a)
      ensures Reaches(opts, s0, View())
    {
      ReachesStep(opts, s0, s, a);
    }

    ghost method Begin(a: Action, proc: Proc)
      requires Begins(a) && Enabled(opts, View(), a)
      requires Step(opts, View(), a) == SetProc(View(), a.p, proc)
      modifies this`procs
      ensures At(old(View()), a.p, proc) && procs == old(procs)[a.p := proc]
    {
      ghost var s := View();
      ReachesSelf(opts, s);
      procs := procs[a.p := proc];
      Took(s, s, a);
    }

    /** On a working copy, initialise the page if it is reusable, then add the tuple; a full page stays as it was. */
    method AddToPage(blk: nat, t: BloomTuple) returns (ok: bool)
      requires opts.Legal() && DataBlock(View(), blk) && PageOk(opts, pages[blk])
      modifies this`pages
      ensures ok <==> Accepts(opts, old(pages)[blk])
      ensures ok ==> pages == old(pages)[blk := AddItem(opts, Prepared(old(pages)[blk]), t)]
      ensures !ok ==> pages == old(pages)
    {
      var page := new PageBuffer.Register(opts, pages[blk]);
      if page.isNew || page.deleted {
        page.Init();
        EmptyPageHasRoom(opts);
      }
      ok := page.Add(t);
      if ok {
        pages := pages[blk := page.View()];
      }
    }

    /** Read the first listed page under a share lock on the metapage. */
    method ReadMetaSection(t: BloomTuple, ghost p: nat, ghost s0: State) returns (blkno: Option<nat>)
      requires opts.Legal() && Inv(opts, s0) && At(s0, p, InsStart(t)) && owner == None
      modifies this`procs
      ensures At(s0, p, if blkno.Some? then InsFirst(t, blkno.value) else InsSlow(t, None))
    {
      ghost var s := View();
      ReachesInv(opts, s0, s);
      OnlyLocksBlockInserts(opts, s, p);
      if nEnd > nStart {
        blkno := Some(notFull[nStart]);
        procs := procs[p := InsFirst(t, notFull[nStart])];
      } else {
        blkno := None;
        procs := procs[p := InsSlow(t, None)];
      }
      Took(s0, s, ReadMeta(p));
    }

    /** Try the remembered page under its own lock. */
    method TryFirstSection(t: BloomTuple, blk: nat, ghost p: nat, ghost s0: State) returns (ok: bool)
      requires opts.Legal() && Inv(opts, s0) && At(s0, p, InsFirst(t, blk)) && owner == None
      modifies this`pages, this`procs, this`inserted
      ensures At(s0, p, if ok then InsDone(t) else InsSlow(t, Some(blk)))
      ensures inserted == if ok then old(inserted) + multiset{t} else old(inserted)
    {
      ghost var s := View();
      assert Enabled(opts, s, TryFirst(p)) && PageOk(opts, s.pages[blk]) by {
        ReachesInv(opts, s0, s);
        OnlyLocksBlockInserts(opts, s, p);
      }
      ok := AddToPage(blk, t);
      if ok {
        inserted := inserted + multiset{t};
        procs := procs[p := InsDone(t)];
      } else {
        procs := procs[p := InsSlow(t, Some(blk))];
      }
      Took(s0, s, TryFirst(p));
    }

    /** Lock the metapage exclusively; skip the first listed page if it was tried already. */
    method LockMetaPage(t: BloomTuple, blkno: Option<nat>, ghost p: nat) returns (k: nat)
      requires p in procs && procs[p] == InsSlow(t, blkno) && nEnd <= |notFull|
      modifies this`procs, this`owner
      ensures View() == DoLockMeta(old(View()), p) && procs[p] == InsLoop(t, k) && owner == Some(p)
      ensures k == if nStart < nEnd && blkno == Some(notFull[nStart]) then nStart + 1 else nStart
    {
      k := nStart;
      if k < nEnd && blkno == Some(notFull[k]) {
        k := k + 1;
      }
      procs := procs[p := InsLoop(t, k)];
      owner := Some(p);
    }

    method LockMetaSection(t: BloomTuple, blkno: Option<nat>, ghost p: nat, ghost s0: State) returns (k: nat)
      requires opts.Legal() && Inv(opts, s0) && At(s0, p, InsSlow(t, blkno)) && owner == None
      modifies this`procs, this`owner
      ensures At(s0, p, InsLoop(t, k)) && owner == Some(p)
    {
      ghost var s := View();
      ReachesInv(opts, s0, s);
      k := LockMetaPage(t, blkno, p);
      Took(s0, s, LockMeta(p));
    }

    /** Try one listed page; on success the list starts there. */
    method TryListedPage(t: BloomTuple, k: nat, ghost p: nat) returns (ok: bool)
      requires p in procs && procs[p] == InsLoop(t, k) && owner == Some(p)
      requires opts.Legal() && k < nEnd && k < |notFull| && DataBlock(View(), notFull[k])
      requires PageOk(opts, pages[notFull[k]])
      modifies this`pages, this`procs, this`inserted, this`owner, this`nStart
      ensures View() == DoTryListed(opts, old(View()), p)
      ensures procs[p] == (if ok then InsDone(t) else InsLoop(t, k + 1)) && owner == (if ok then None else Some(p))
      ensures nStart == if ok then k else old(nStart)
      ensures inserted == if ok then old(inserted) + multiset{t} else old(inserted)
    {
      ghost var s := View();
      var blkno := notFull[k];
      ok := AddToPage(blkno, t);
      if ok {
        nStart := k;
        inserted := inserted + multiset{t};
        procs := procs[p := InsDone(t)];
        owner := None;
      } else {
        procs := procs[p := InsLoop(t, k + 1)];
      }
      ListedForm(s, View(), p, blkno, ok);
    }

    /** Field by field, what trying a listed page does. */
    lemma ListedForm(s: State, s': State, p: nat, blk: nat, ok: bool)
      requires p in s.procs && s.procs[p].InsLoop? && s.procs[p].k < s.meta.nEnd && s.procs[p].k < |s.meta.notFull|
      requires blk == s.meta.notFull[s.procs[p].k] && DataBlock(s, blk) && (ok <==> Accepts(opts, s.pages[blk]))
      requires s'.fsm == s.fsm && s'.removed == s.removed
      requires s'.pages == if ok then s.pages[blk := AddItem(opts, Prepared(s.pages[blk]), s.procs[p].t)] else s.pages
      requires s'.meta == if ok then s.meta.(nStart := s.procs[p].k) else s.meta
      requires s'.inserted == if ok then s.inserted + multiset{s.procs[p].t} else s.inserted
      requires s'.procs == s.procs[p := if ok then InsDone(s.procs[p].t) else InsLoop(s.procs[p].t, s.procs[p].k + 1)]
      requires s'.metaOwner == if ok then None else s.metaOwner
      ensures s' == DoTryListed(opts, s, p)
    {
    }

    method TryListedSection(t: BloomTuple, k: nat, ghost p: nat, ghost s0: State) returns (ok: bool)
      requires opts.Legal() && Inv(opts, s0) && At(s0, p, InsLoop(t, k)) && owner == Some(p) && k < nEnd
      modifies this`pages, this`procs, this`inserted, this`owner, this`nStart
      ensures At(s0, p, if ok then InsDone(t) else InsLoop(t, k + 1))
      ensures owner == if ok then None else Some(p)
      ensures inserted == if ok then old(inserted) + multiset{t} else old(inserted)
    {
      ghost var s := View();
      assert Enabled(opts, s, TryListed(p)) && PageOk(opts, s.pages[s.meta.notFull[k]]) by {
        ReachesInv(opts, s0, s);
        OnlyLocksBlockInserts(opts, s, p);
      }
      ok := TryListedPage(t, k, p);
      Took(s0, s, TryListed(p));
    }

    /** The not-full list is one page long, and the tuple is on that page. */
    ghost predicate OnlyListed(t: BloomTuple)
      reads this
    {
      nStart == 0 && nEnd == 1 && |notFull| > 0 && notFull[0] < |pages| && t in Tuples(pages[notFull[0]])
    }

    /** Put the tuple on an allocated page and make that page the whole not-full list. */
    method FillPage(t: BloomTuple, blk: nat, ghost p: nat)
      requires opts.Legal() && DataBlock(View(), blk) && PageOk(opts, pages[blk]) && pages[blk].Reusable()
      requires |notFull| > 0
      modifies this`pages, this`procs, this`inserted, this`owner, this`nStart, this`nEnd, this`notFull
      ensures View() == DoFill(opts, old(View()), p, t, blk)
      ensures View() == CommitInsert(opts, old(View()), p, t, blk, FreshList(old(View()).meta, blk)).(metaOwner := None)
      ensures OnlyListed(t)
    {
      FillSucceeds(opts, View(), p, t, blk);
      var ok := AddToPage(blk, t);
      nStart, nEnd, notFull := 0, 1, notFull[0 := blk];
      inserted := inserted + multiset{t};
      procs := procs[p := InsDone(t)];
      owner := None;
    }

    method RecycleSection(t: BloomTuple, blk: nat, ghost p: nat, ghost s0: State)
      requires opts.Legal() && Inv(opts, s0) && At(s0, p, InsAlloc(t)) && blk in fsm && DataBlock(View(), blk)
      requires pages[blk].Reusable()
      modifies this
      ensures At(s0, p, InsDone(t)) && owner == None && OnlyListed(t)
      ensures inserted == old(inserted) + multiset{t} && removed == old(removed)
    {
      ghost var s := View();
      ReachesInv(opts, s0, s);
      assert Enabled(opts, s, Recycle(p, blk));
      FillPage(t, blk, p);
      fsm := fsm - {blk};
      assert View() == DoFill(opts, s, p, t, blk).(fsm := s.fsm - {blk});
      Took(s0, s, Recycle(p, blk));
    }

    method FillExtendedSection(t: BloomTuple, blk: nat, ghost p: nat, ghost s0: State)
      requires opts.Legal() && Inv(opts, s0) && At(s0, p, InsExtended(t, blk))
      modifies this
      ensures At(s0, p, InsDone(t)) && owner == None && OnlyListed(t)
      ensures inserted == old(inserted) + multiset{t} && removed == old(removed)
    {
      ghost var s := View();
      ReachesInv(opts, s0, s);
      assert ProcOk(opts, s, p, s.procs[p]);
      OnlyLocksBlockInserts(opts, s, p);
      FillPage(t, blk, p);
      Took(s0, s, FillExtended(p));
    }

    method PassOverSection(blk: nat, t: BloomTuple, ghost p: nat, ghost s0: State)
      requires opts.Legal() && Inv(opts, s0) && At(s0, p, InsAlloc(t)) && blk in fsm
      modifies this`fsm
      ensures At(s0, p, InsAlloc(t)) && fsm == old(fsm) - {blk}
    {
      ghost var s := View();
      fsm := fsm - {blk};
      Took(s0, s, PassOver(p, blk));
    }

    method ExtendSection(t: BloomTuple, ghost p: nat, ghost s0: State) returns (blk: nat)
      requires opts.Legal() && Inv(opts, s0) && At(s0, p, InsAlloc(t))
      modifies this`pages, this`procs
      ensures At(s0, p, InsExtended(t, blk))
    {
      ghost var s := View();
      blk := |pages|;
      pages := pages + [NewPage];
      procs := procs[p := InsExtended(t, blk)];
      Took(s0, s, Extend(p));
    }

    /** `BloomNewBuffer` and the rest of `blinsert`: recycle a page or extend the file. */
    method AllocateAndInsert(t: BloomTuple, ghost p: nat, ghost s0: State)
      requires opts.Legal() && Inv(opts, s0) && At(s0, p, InsAlloc(t))
      modifies this
      ensures At(s0, p, InsDone(t)) && owner == None && OnlyListed(t)
      ensures inserted == old(inserted) + multiset{t} && removed == old(removed)
    {
      while fsm != {}
        invariant At(s0, p, InsAlloc(t)) && inserted == old(inserted) && removed == old(removed)
        decreases |fsm|
      {
        ReachesInv(opts, s0, View());
        var blkno :| blkno in fsm;
        if pages[blkno].Reusable() {
          RecycleSection(t, blkno, p, s0);
          return;
        }
        PassOverSection(blkno, t, p, s0);
      }
      var blk := ExtendSection(t, p, s0);
      FillExtendedSection(t, blk, p, s0);
    }

    /** The slow path of `blinsert`: walk the rest of the list under the metapage lock. */
    method InsertSlow(t: BloomTuple, blkno: Option<nat>, ghost p: nat, ghost s0: State)
      requires opts.Legal() && Inv(opts, s0) && At(s0, p, InsSlow(t, blkno)) && owner == None
      modifies this
      ensures At(s0, p, InsDone(t)) && owner == None
      ensures inserted == old(inserted) + multiset{t} && removed == old(removed)
    {
      var k: nat := LockMetaSection(t, blkno, p, s0);
      while k < nEnd
        invariant At(s0, p, InsLoop(t, k)) && owner == Some(p)
        invariant inserted == old(inserted) && removed == old(removed)
        decreases nEnd - k
      {
        var ok := TryListedSection(t, k, p, s0);
        if ok {
          return;
        }
        k := k + 1;
      }
      ListExhausted(t, k, p, s0);
      AllocateAndInsert(t, p, s0);
    }

    ghost method ListExhausted(t: BloomTuple, k: nat, p: nat, s0: State)
      requires opts.Legal() && Inv(opts, s0) && At(s0, p, InsLoop(t, k)) && k >= nEnd
      modifies this`procs
      ensures At(s0, p, InsAlloc(t))
    {
      var s := View();
      ReachesInv(opts, s0, s);
      OnlyLocksBlockInserts(opts, s, p);
      procs := procs[p := InsAlloc(t)];
      Took(s0, s, TryListed(p));
    }

    /** `blinsert`: the call is a run of the protocol that ends with the tuple inserted exactly once. */
    method Insert(t: BloomTuple, ghost p: nat)
      requires opts.Legal() && Inv(opts, View()) && owner == None && p !in procs && |t.sign| == opts.bloomLength
      modifies this
      ensures At(old(View()), p, InsDone(t)) && owner == None && Inv(opts, View())
      ensures inserted == old(inserted) + multiset{t} && removed == old(removed)
      ensures Contents(View()) == old(Contents(View())) + multiset{t}
    {
      ghost var s0 := View();
      Begin(BeginInsert(p, t), InsStart(t));
      var blkno := ReadMetaSection(t, p, s0);
      if blkno.Some? {
        var ok := TryFirstSection(t, blkno.value, p, s0);
        if !ok {
          InsertSlow(t, blkno, p, s0);
        }
      } else {
        InsertSlow(t, None, p, s0);
      }
      ReachesInv(opts, s0, View());
      assert removed + multiset{} == removed;
      ContentsFromHistory(s0, View(), multiset{t}, multiset{});
      assert Contents(View()) + multiset{} == Contents(View());
    }

    // -------------------------------------------------------- passes over all pages

    /** The page loop of `blbulkdelete`. */
    method VacuumPages(dead: set<Tid>) returns (list: seq<nat>, tuplesRemoved: nat)
      requires opts.Legal() && PagesOk(opts, pages)
      modifies this`pages
      ensures pages == CompactTo(opts, old(pages), dead, |old(pages)|)
      ensures list == ListTo(opts, old(pages), dead, |old(pages)|)
      ensures tuplesRemoved == |DroppedTo(old(pages), dead, |old(pages)|)|
    {
      hide PageOk, Compact, Listable, Dropped, Tuples;
      list, tuplesRemoved := [], 0;
      ghost var was := pages;
      for blkno := 1 to |pages|
        invariant |pages| == |was| && pages == CompactTo(opts, was, dead, blkno)
        invariant list == ListTo(opts, was, dead, blkno)
        invariant tuplesRemoved == |DroppedTo(was, dead, blkno)|
      {
        CompactToAt(opts, was, dead, blkno, blkno);
        if pages[blkno].Reusable() {
          ReusableStays(opts, was[blkno], dead);
          assert pages == pages[blkno := Compact(opts, was[blkno], dead)];
        } else {
          var count;
          list, count := CompactPage(dead, blkno, list);
          tuplesRemoved := tuplesRemoved + count;
        }
      }
    }

    /** A reusable page is passed over. */
    lemma ReusableStays(opts: Options, page: Page, dead: set<Tid>)
      requires page.Reusable() && PageOk(opts, page)
      ensures Compact(opts, page, dead) == page && !Listable(opts, page, dead)
      ensures Dropped(Tuples(page), dead) == multiset{}
    {
    }

    /** Compact one page; note it if it then has tuples and room. */
    method CompactPage(dead: set<Tid>, blk: nat, list: seq<nat>) returns (list': seq<nat>, count: nat)
      requires opts.Legal() && blk < |pages| && pages[blk].DataPage? && !pages[blk].deleted && PageOk(opts, pages[blk])
      modifies this`pages
      ensures pages == old(pages)[blk := Compact(opts, old(pages)[blk], dead)]
      ensures list' == if Listable(opts, old(pages)[blk], dead) && |list| < META_BLOCKS then list + [blk] else list
      ensures count == |Dropped(Tuples(old(pages)[blk]), dead)|
    {
      KeptAndDropped(Tuples(pages[blk]), dead);
      KeptAll(Tuples(pages[blk]), dead);
      var page := new PageBuffer.Register(opts, pages[blk]);
      count := page.BulkDelete(dead);
      list' := list;
      if page.maxoff != 0 && FreeSpace(opts, page.maxoff) >= TupleSize(opts) && |list| < META_BLOCKS {
        list' := list + [blk];
      }
      pages := pages[blk := page.View()];
    }

    /** `blbulkdelete`: the page loop, then the metapage takes over the collected list. */
    method VacuumIndex(dead: set<Tid>, ghost p: nat) returns (tuplesRemoved: nat)
      requires opts.Legal() && PagesOk(opts, pages) && |notFull| == META_BLOCKS
      modifies this
      ensures View() == Vacuumed(opts, old(View()), p, dead)
      ensures tuplesRemoved == |removed| - |old(removed)|
    {
      ghost var s0 := View();
      var list;
      list, tuplesRemoved := VacuumPages(dead);
      ListToShort(opts, s0.pages, dead, |s0.pages|);
      nStart, nEnd, notFull := 0, |list|, list + notFull[|list|..];
      removed := removed + DroppedTo(s0.pages, dead, |s0.pages|);
      procs := procs[p := VacDone(dead, inserted)];
    }

    /** Every page that lost its last tuple is left for reuse. */
    ghost predicate Emptied(before: seq<Page>, after: seq<Page>)
      requires |before| == |after|
    {
      forall i :: 0 <= i < |before| && Tuples(before[i]) != [] && Tuples(after[i]) == [] ==> after[i].Reusable()
    }

    /**
     A bulk delete running alone is a run of the protocol after which every dead
     tuple is gone and every other tuple is still there.
     */
    method BulkDelete(dead: set<Tid>, ghost p: nat) returns (tuplesRemoved: nat)
      requires opts.Legal() && Inv(opts, View()) && owner == None && p !in procs
      modifies this
      ensures At(old(View()), p, VacDone(dead, old(inserted))) && Inv(opts, View())
      ensures forall t :: Contents(View())[t] == if t.heapPtr in dead then 0 else old(Contents(View()))[t]
      ensures tuplesRemoved == |removed| - |old(removed)| && owner == old(owner)
      ensures procs == old(procs)[p := VacDone(dead, old(inserted))]
      ensures |pages| == |old(pages)| && Emptied(old(pages), pages)
      ensures nStart == 0 && nEnd <= |notFull| && RoomyList(opts, pages, notFull[..nEnd], |pages|)
    {
      VacuumedPages(opts, View(), p, dead);
      VacuumAlone(opts, View(), p, dead);
      OnlyDeadGone(opts, View(), p, dead);
      tuplesRemoved := VacuumIndex(dead, p);
    }

    /** `blvacuumcleanup`: offer the reusable pages to the free-space map, count pages and tuples. */
    method VacuumCleanup(ghost p: nat) returns (pagesFree: nat, indexTuples: nat)
      requires opts.Legal() && Inv(opts, View()) && owner == None && p !in procs
      modifies this`fsm, this`procs
      ensures At(old(View()), p, Cleanup(|pages|, |pages|)) && Inv(opts, View())
      ensures fsm == old(fsm) + FreePages(pages, |pages|) && pagesFree == |FreePages(pages, |pages|)|
      ensures forall blk :: blk in fsm <==> blk in old(fsm) || (1 <= blk < |pages| && pages[blk].Reusable())
      ensures indexTuples == |Contents(View())|
    {
      ghost var s0 := View();
      pagesFree, indexTuples := CleanupPages();
      procs := procs[p := Cleanup(|pages|, |pages|)];
      CleanupRun(opts, s0, p, |pages|);
      ReachesInv(opts, s0, View());
      TupleCountIsSize(pages, |pages|);
    }

    /** The page loop of `blvacuumcleanup`. */
    method CleanupPages() returns (pagesFree: nat, indexTuples: nat)
      requires PagesOk(opts, pages)
      modifies this`fsm
      ensures fsm == old(fsm) + FreePages(pages, |pages|) && pagesFree == |FreePages(pages, |pages|)|
      ensures indexTuples == TupleCount(pages, |pages|)
    {
      pagesFree, indexTuples := 0, 0;
      for blkno := 1 to |pages|
        invariant fsm == old(fsm) + FreePages(pages, blkno) && pagesFree == |FreePages(pages, blkno)|
        invariant indexTuples == TupleCount(pages, blkno)
      {
        FreePagesStep(pages, blkno);
        if pages[blkno].Reusable() {
          assert PageOk(opts, pages[blkno]);
          fsm := fsm + {blkno};
          pagesFree := pagesFree + 1;
        } else {
          indexTuples := indexTuples + |Tuples(pages[blkno])|;
        }
      }
    }

    lemma EmptiedPastMeta(before: seq<Page>, after: seq<Page>)
      requires Inv(opts, View()) && |before| == |after| && after == pages && Emptied(before, after)
      ensures forall i :: 0 <= i < |before| && Tuples(before[i]) != [] && Tuples(after[i]) == [] ==>
                1 <= i && after[i].Reusable()
    {
      assert after[0].MetaPage?;
    }

    /** A bulk delete and the cleanup after it: every page that lost its last tuple is in the free-space map. */
    method VacuumAndCleanup(dead: set<Tid>, ghost p: nat, ghost q: nat)
      requires opts.Legal() && Inv(opts, View()) && owner == None && p != q && p !in procs && q !in procs
      modifies this
      ensures Inv(opts, View())
      ensures forall t :: Contents(View())[t] == if t.heapPtr in dead then 0 else old(Contents(View()))[t]
      ensures |pages| == |old(pages)|
      ensures forall i :: 0 <= i < |pages| && Tuples(old(pages)[i]) != [] && Tuples(pages[i]) == [] ==> i in fsm
    {
      hide Inv, Tuples, TuplesIn, Reaches, RoomyList, FreePages;
      var tuplesRemoved := BulkDelete(dead, p);
      EmptiedPastMeta(old(pages), pages);
      var pagesFree, indexTuples := VacuumCleanup(q);
    }

    /** `blgetbitmap` running alone returns exactly the tuples that pass the signature test. */
    method GetBitmap(sign: seq<Word>) returns (found: seq<BloomTuple>)
      requires opts.Legal() && Inv(opts, View()) && owner == None && |sign| == opts.bloomLength
      ensures forall t :: multiset(found)[t] == if Hits(t, sign) then Contents(View())[t] else 0
    {
      found := [];
      for blkno := 1 to |pages|
        invariant found == FoundTo(pages, sign, blkno)
      {
        assert PageOk(opts, pages[blkno]) && !pages[blkno].MetaPage?;
        var page := new PageBuffer.Register(opts, pages[blkno]);
        var here := page.Scan(sign);
        found := found + here;
      }
      ghost var p := FreshBackend(procs.Keys);
      forall t
        ensures multiset(found)[t] == if Hits(t, sign) then Contents(View())[t] else 0
      {
        FoundAll(opts, View(), p, sign, t);
      }
    }

    /** The tuple has every position of every key. */
    ghost predicate HasEveryBit(hashFn: HashFn, keys: seq<ScanKey>, t: BloomTuple)
      requires opts.Legal()
    {
      && |t.sign| == opts.bloomLength
      && forall k, b :: 0 <= k < |keys| && KeySigns(opts, hashFn, keys[k], b) ==> b in Positions(t.sign)
    }

    /** `blgetbitmap` from its keys: a null key finds nothing; else a tuple lacking a bit of a key is not found. */
    method GetBitmapForKeys(gen: Generator, hashFn: HashFn, keys: seq<ScanKey>) returns (found: seq<BloomTuple>)
      requires opts.Legal() && Inv(opts, View()) && owner == None && KeysSignable(hashFn, keys)
      modifies gen
      ensures forall k :: 0 <= k < |keys| && keys[k].argument.Null? ==> found == []
      ensures (forall k :: 0 <= k < |keys| ==> keys[k].argument.Value?) ==>
                forall t :: multiset(found)[t] == if HasEveryBit(hashFn, keys, t) then Contents(View())[t] else 0
    {
      hide Inv, ScanSigned, KeySigns, WordsMatch, Positions, KeySignable, TuplesIn;
      var r := ScanSignature(gen, opts, hashFn, keys);
      if r.NoMatch? {
        return [];
      }
      SignatureLength(hashFn, keys, r.words);
      found := GetBitmap(r.words);
      forall t: BloomTuple
        ensures Hits(t, r.words) <==> HasEveryBit(hashFn, keys, t)
      {
        if |t.sign| == opts.bloomLength {
          MatchIsEveryBit(opts, hashFn, keys, r.words, t.sign);
        }
      }
    }

    lemma SignatureLength(hashFn: HashFn, keys: seq<ScanKey>, sign: seq<Word>)
      requires ScanSigned(opts, hashFn, keys, sign)
      ensures |sign| == opts.bloomLength
    {
    }
  }

  /** A backend number not in use. */
  ghost function FreshBackend(used: set<nat>): (p: nat)
    ensures p !in used
  {
    FreshExists(used);
    var p :| p !in used;
    p
  }

  lemma FreshExists(used: set<nat>)
    ensures exists p: nat :: p !in used
  {
    var bound := Bounded(used);
    assert bound !in used;
  }

  lemma {:induction false} Bounded(used: set<nat>) returns (b: nat)
    ensures forall q :: q in used ==> q < b
  {
    if used == {} {
      b := 0;
    } else {
      var q :| q in used;
      var c := Bounded(used - {q});
      b := if q < c then c else q + 1;
      assert forall r :: r in used ==> r == q || r in used - {q};
    }
  }
}
