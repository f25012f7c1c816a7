/**
 What every interleaving of the Bloom index protocol keeps: page space, the
 metapage window, lock ownership, conservation of tuples, and the bounds that
 make a bulk delete complete and a scan free of false negatives.
 */
module BloomSafety {
  import opened Common
  import opened BloomSignature
  import opened BloomPage
  import opened BloomProtocol

  // ------------------------------------------------------------ the invariant

  /** The not-full window is inside the array and names data pages only. */
  ghost predicate MetaOk(s: State) {
    && s.meta.nStart <= s.meta.nEnd <= META_BLOCKS == |s.meta.notFull|
    && forall i :: 0 <= i < s.meta.nEnd ==> 1 <= s.meta.notFull[i] < |s.pages|
  }

  /** A backend's local variables make sense. */
  ghost predicate ProcOk(opts: Options, s: State, p: nat, proc: Proc) {
    match proc
    case InsStart(t) => |t.sign| == opts.bloomLength
    case InsFirst(t, blk) => |t.sign| == opts.bloomLength && 1 <= blk < |s.pages|
    case InsSlow(t, tried) => |t.sign| == opts.bloomLength
    case InsLoop(t, k) => |t.sign| == opts.bloomLength && s.metaOwner == Some(p) && s.meta.nStart <= k <= s.meta.nEnd
    case InsAlloc(t) => |t.sign| == opts.bloomLength && s.metaOwner == Some(p)
    case InsExtended(t, blk) => |t.sign| == opts.bloomLength && s.metaOwner == Some(p)
                                && 1 <= blk < |s.pages| && s.pages[blk].NewPage?
    case InsDone(t) => true
    case InsError(t) => false
    case InsAborted(t) => true
    case Vacuum(dead, npages, blk, list, before) =>
      && 1 <= blk <= npages <= |s.pages| && |list| <= META_BLOCKS
      && forall i :: 0 <= i < |list| ==> 1 <= list[i] < |s.pages|
    case VacDone(dead, before) => true
    case Cleanup(npages, blk) => 1 <= blk <= npages <= |s.pages|
    case Scan(sign, npages, blk, _, _, _, _) => 1 <= blk <= npages <= |s.pages| && |sign| == opts.bloomLength
  }

  predicate HoldsMeta(proc: Proc) {
    proc.InsLoop? || proc.InsAlloc? || proc.InsExtended?
  }

  ghost predicate Structure(opts: Options, s: State) {
    && PagesOk(opts, s.pages)
    && MetaOk(s)
    && (forall b :: b in s.fsm ==> 1 <= b < |s.pages|)
    && (s.metaOwner.Some? ==> s.metaOwner.value in s.procs && HoldsMeta(s.procs[s.metaOwner.value]))
    && (forall p :: p in s.procs ==> ProcOk(opts, s, p, s.procs[p]))
  }

  /** Every inserted tuple is on exactly one page or was removed by a bulk delete. */
  ghost predicate Conserved(s: State) {
    Contents(s) + s.removed == s.inserted
  }

  /** Dead tuples still on pages the pass has dealt with were inserted after it began. */
  ghost predicate VacuumBound(pages: seq<Page>, inserted: Live, dead: set<Tid>, npages: nat, blk: nat, before: Live) {
    blk <= npages <= |pages| ==>
      forall t: BloomTuple :: t.heapPtr in dead ==>
        TuplesIn(pages, 0, blk)[t] + TuplesIn(pages, npages, |pages|)[t] + before[t] <= inserted[t]
  }

  /** Matching tuples are found, still ahead of the scan, or removed since it began. */
  ghost predicate ScanComplete(pages: seq<Page>, removed: Live, c: Proc)
    requires c.Scan?
  {
    c.blk <= c.npages <= |pages| ==>
      forall t: BloomTuple :: Hits(t, c.sign) ==>
        c.live[t] + c.removed[t] <= c.found[t] + TuplesIn(pages, c.blk, c.npages)[t] + removed[t]
  }

  /** What a scan found matches, and was live at its start or inserted since. */
  ghost predicate ScanSound(pages: seq<Page>, inserted: Live, c: Proc)
    requires c.Scan?
  {
    && (c.blk <= c.npages <= |pages| ==>
          forall t: BloomTuple ::
            c.found[t] + TuplesIn(pages, c.blk, c.npages)[t] + c.inserted[t] <= c.live[t] + inserted[t])
    && forall t :: t in c.found ==> Hits(t, c.sign)
  }

  ghost predicate Bound(pages: seq<Page>, inserted: Live, removed: Live, proc: Proc) {
    match proc
    case Vacuum(dead, npages, blk, list, before) => VacuumBound(pages, inserted, dead, npages, blk, before)
    case VacDone(dead, before) => VacuumBound(pages, inserted, dead, |pages|, |pages|, before)
    case Scan(_, _, _, _, _, _, _) => ScanComplete(pages, removed, proc) && ScanSound(pages, inserted, proc)
    case _ => true
  }

  ghost predicate Bounds(s: State) {
    forall p :: p in s.procs ==> Bound(s.pages, s.inserted, s.removed, s.procs[p])
  }

  ghost predicate Inv(opts: Options, s: State) {
    Structure(opts, s) && Conserved(s) && Bounds(s)
  }

  // ------------------------------------------------------------ counting tuples

  ghost function CountOn(p: Page, t: BloomTuple): nat {
    multiset(Tuples(p))[t]
  }

  /** Copies of one tuple on pages lo..hi-1. */
  ghost function CountIn(pages: seq<Page>, lo: nat, hi: nat, t: BloomTuple): nat
    requires hi <= |pages|
  {
    if hi <= lo then 0 else CountIn(pages, lo, hi - 1, t) + CountOn(pages[hi - 1], t)
  }

  lemma TuplesLast(pages: seq<Page>, lo: nat, hi: nat, t: BloomTuple)
    requires lo < hi <= |pages|
    ensures TuplesIn(pages, lo, hi)[t] == TuplesIn(pages, lo, hi - 1)[t] + CountOn(pages[hi - 1], t)
  {
  }

  lemma {:induction false} TuplesCount(pages: seq<Page>, lo: nat, hi: nat, t: BloomTuple)
    requires hi <= |pages|
    ensures TuplesIn(pages, lo, hi)[t] == CountIn(pages, lo, hi, t)
    decreases hi
  {
    if lo < hi {
      TuplesCount(pages, lo, hi - 1, t);
      TuplesLast(pages, lo, hi, t);
    }
  }

  lemma {:induction false} CountUpdate(pages: seq<Page>, lo: nat, hi: nat, i: nat, q: Page, t: BloomTuple)
    requires hi <= |pages| && i < |pages|
    ensures lo <= i < hi ==>
              CountIn(pages[i := q], lo, hi, t) + CountOn(pages[i], t) == CountIn(pages, lo, hi, t) + CountOn(q, t)
    ensures !(lo <= i < hi) ==> CountIn(pages[i := q], lo, hi, t) == CountIn(pages, lo, hi, t)
    decreases hi
  {
    if lo < hi {
      CountUpdate(pages, lo, hi - 1, i, q, t);
    }
  }

  lemma {:induction false} CountFirst(pages: seq<Page>, lo: nat, hi: nat, t: BloomTuple)
    requires lo < hi <= |pages|
    ensures CountIn(pages, lo, hi, t) == CountOn(pages[lo], t) + CountIn(pages, lo + 1, hi, t)
    decreases hi
  {
    if lo + 1 < hi {
      CountFirst(pages, lo, hi - 1, t);
    } else {
      assert CountIn(pages, lo, lo, t) == 0;
    }
  }

  lemma {:induction false} TuplesAppend(pages: seq<Page>, q: Page, lo: nat, hi: nat)
    requires hi <= |pages|
    ensures TuplesIn(pages + [q], lo, hi) == TuplesIn(pages, lo, hi)
    decreases hi
  {
    if lo < hi {
      TuplesAppend(pages, q, lo, hi - 1);
    }
  }

  lemma {:induction false} TuplesSplit(pages: seq<Page>, lo: nat, mid: nat, hi: nat)
    requires lo <= mid <= hi <= |pages|
    ensures TuplesIn(pages, lo, hi) == TuplesIn(pages, lo, mid) + TuplesIn(pages, mid, hi)
    decreases hi
  {
    if mid < hi {
      TuplesSplit(pages, lo, mid, hi - 1);
    }
  }

  lemma TuplesOne(pages: seq<Page>, i: nat)
    requires i < |pages|
    ensures TuplesIn(pages, i, i + 1) == multiset(Tuples(pages[i]))
  {
    assert TuplesIn(pages, i, i) == multiset{};
  }

  // ------------------------------------------------------------ one page changes

  /** Page `i` becomes `q`, gaining the tuples `add` and losing `drop`. */
  ghost predicate Effect(pages: seq<Page>, i: nat, q: Page, add: Live, drop: Live) {
    i < |pages| && multiset(Tuples(q)) + drop == multiset(Tuples(pages[i])) + add
  }

  lemma EffectCount(pages: seq<Page>, i: nat, q: Page, add: Live, drop: Live, lo: nat, hi: nat, t: BloomTuple)
    requires Effect(pages, i, q, add, drop) && hi <= |pages|
    ensures lo <= i < hi ==> TuplesIn(pages[i := q], lo, hi)[t] + drop[t] == TuplesIn(pages, lo, hi)[t] + add[t]
    ensures !(lo <= i < hi) ==> TuplesIn(pages[i := q], lo, hi)[t] == TuplesIn(pages, lo, hi)[t]
  {
    CountUpdate(pages, lo, hi, i, q, t);
    TuplesCount(pages, lo, hi, t);
    TuplesCount(pages[i := q], lo, hi, t);
    assert (multiset(Tuples(q)) + drop)[t] == (multiset(Tuples(pages[i])) + add)[t];
  }

  lemma EffectConserves(pages: seq<Page>, i: nat, q: Page, add: Live, drop: Live, inserted: Live, removed: Live)
    requires Effect(pages, i, q, add, drop)
    requires TuplesIn(pages, 0, |pages|) + removed == inserted
    ensures TuplesIn(pages[i := q], 0, |pages|) + (removed + drop) == inserted + add
  {
    forall t: BloomTuple
      ensures (TuplesIn(pages[i := q], 0, |pages|) + (removed + drop))[t] == (inserted + add)[t]
    {
      EffectCount(pages, i, q, add, drop, 0, |pages|, t);
      assert (TuplesIn(pages, 0, |pages|) + removed)[t] == inserted[t];
    }
  }

  lemma EffectVacuum(pages: seq<Page>, i: nat, q: Page, add: Live, drop: Live, inserted: Live,
                     dead: set<Tid>, npages: nat, blk: nat, before: Live)
    requires Effect(pages, i, q, add, drop)
    requires VacuumBound(pages, inserted, dead, npages, blk, before)
    ensures VacuumBound(pages[i := q], inserted + add, dead, npages, blk, before)
  {
    if blk <= npages <= |pages| {
      forall t: BloomTuple | t.heapPtr in dead
        ensures TuplesIn(pages[i := q], 0, blk)[t] + TuplesIn(pages[i := q], npages, |pages|)[t] + before[t] <=
                  (inserted + add)[t]
      {
        EffectCount(pages, i, q, add, drop, 0, blk, t);
        EffectCount(pages, i, q, add, drop, npages, |pages|, t);
      }
    }
  }

  lemma EffectScan(pages: seq<Page>, i: nat, q: Page, add: Live, drop: Live, inserted: Live, removed: Live, c: Proc)
    requires Effect(pages, i, q, add, drop) && c.Scan?
    requires ScanComplete(pages, removed, c) && ScanSound(pages, inserted, c)
    ensures ScanComplete(pages[i := q], removed + drop, c) && ScanSound(pages[i := q], inserted + add, c)
  {
    if c.blk <= c.npages <= |pages| {
      forall t: BloomTuple
        ensures Hits(t, c.sign) ==>
                  c.live[t] + c.removed[t] <=
                    c.found[t] + TuplesIn(pages[i := q], c.blk, c.npages)[t] + (removed + drop)[t]
        ensures c.found[t] + TuplesIn(pages[i := q], c.blk, c.npages)[t] + c.inserted[t] <=
                  c.live[t] + (inserted + add)[t]
      {
        EffectCount(pages, i, q, add, drop, c.blk, c.npages, t);
      }
    }
  }

  lemma EffectBound(pages: seq<Page>, i: nat, q: Page, add: Live, drop: Live, inserted: Live, removed: Live, proc: Proc)
    requires Effect(pages, i, q, add, drop)
    requires Bound(pages, inserted, removed, proc)
    ensures Bound(pages[i := q], inserted + add, removed + drop, proc)
  {
    match proc
    case Vacuum(dead, npages, blk, list, before) =>
      EffectVacuum(pages, i, q, add, drop, inserted, dead, npages, blk, before);
    case VacDone(dead, before) =>
      EffectVacuum(pages, i, q, add, drop, inserted, dead, |pages|, |pages|, before);
    case Scan(_, _, _, _, _, _, _) =>
      EffectScan(pages, i, q, add, drop, inserted, removed, proc);
    case _ =>
  }

  /** Adding an empty page to the file changes no bound. */
  lemma AppendBound(pages: seq<Page>, inserted: Live, removed: Live, proc: Proc)
    requires Bound(pages, inserted, removed, proc)
    requires proc.Vacuum? || proc.Scan? ==> proc.npages <= |pages|
    ensures Bound(pages + [NewPage], inserted, removed, proc)
  {
    var longer := pages + [NewPage];
    AppendCount(pages);
    match proc
    case Vacuum(dead, npages, blk, list, before) =>
      if blk <= npages {
        TuplesAppend(pages, NewPage, 0, blk);
        TuplesAppend(pages, NewPage, npages, |pages|);
        assert TuplesIn(longer, npages, |longer|) == TuplesIn(pages, npages, |pages|);
      }
    case VacDone(dead, before) =>
      assert TuplesIn(longer, |longer|, |longer|) == multiset{};
      assert TuplesIn(pages, |pages|, |pages|) == multiset{};
    case Scan(_, npages, blk, _, _, _, _) =>
      if blk <= npages {
        TuplesAppend(pages, NewPage, blk, npages);
      }
    case _ =>
  }

  lemma AppendCount(pages: seq<Page>)
    ensures TuplesIn(pages + [NewPage], 0, |pages| + 1) == TuplesIn(pages, 0, |pages|)
  {
    TuplesAppend(pages, NewPage, 0, |pages|);
  }

  // ------------------------------------------------------------ structure, step by step

  /** Backend `p` may change its own variables, what its locks cover, and pages nobody else has locked. */
  ghost predicate Frame(s: State, s': State, p: nat, proc: Proc) {
    && s'.procs == s.procs[p := proc]
    && |s.pages| <= |s'.pages|
    && (s.metaOwner.Some? && s.metaOwner.value != p ==> s'.metaOwner == s.metaOwner && s'.meta == s.meta)
    && (s.metaOwner.Some? && s.metaOwner.value != p && s.metaOwner.value in s.procs
        && s.procs[s.metaOwner.value].InsExtended? && s.procs[s.metaOwner.value].blk < |s.pages| ==>
          s'.pages[s.procs[s.metaOwner.value].blk] == s.pages[s.procs[s.metaOwner.value].blk])
    && (s'.metaOwner == s.metaOwner || s'.metaOwner == None || s'.metaOwner == Some(p))
    && (s'.metaOwner == Some(p) ==> HoldsMeta(proc))
  }

  lemma FrameProc(opts: Options, s: State, s': State, p: nat, proc: Proc, q: nat)
    requires Structure(opts, s) && Frame(s, s', p, proc) && q in s.procs && q != p
    ensures ProcOk(opts, s', q, s.procs[q])
  {
    assert ProcOk(opts, s, q, s.procs[q]);
  }

  lemma FrameStructure(opts: Options, s: State, s': State, p: nat, proc: Proc)
    requires Structure(opts, s) && Frame(s, s', p, proc)
    requires PagesOk(opts, s'.pages) && MetaOk(s') && ProcOk(opts, s', p, proc)
    requires forall b :: b in s'.fsm ==> 1 <= b < |s'.pages|
    ensures Structure(opts, s')
  {
    forall q | q in s'.procs
      ensures ProcOk(opts, s', q, s'.procs[q])
    {
      if q != p {
        FrameProc(opts, s, s', p, proc, q);
      }
    }
  }

  lemma PagesUpdate(opts: Options, pages: seq<Page>, i: nat, q: Page)
    requires PagesOk(opts, pages) && 1 <= i < |pages| && !q.MetaPage? && PageOk(opts, q)
    ensures PagesOk(opts, pages[i := q])
  {
  }

  /** The page an insert writes: in order, and one tuple richer. */
  lemma CommitPage(opts: Options, s: State, t: BloomTuple, blk: nat)
    requires opts.Legal() && PagesOk(opts, s.pages) && 1 <= blk < |s.pages| && |t.sign| == opts.bloomLength
    requires Accepts(opts, s.pages[blk])
    ensures PagesOk(opts, s.pages[blk := AddItem(opts, Prepared(s.pages[blk]), t)])
    ensures Effect(s.pages, blk, AddItem(opts, Prepared(s.pages[blk]), t), multiset{t}, multiset{})
  {
    var page := Prepared(s.pages[blk]);
    EmptyPageHasRoom(opts);
    AddItemOk(opts, page, t);
    PagesUpdate(opts, s.pages, blk, AddItem(opts, page, t));
    assert Tuples(page) == Tuples(s.pages[blk]);
  }

  /** The page a bulk delete leaves: in order, and poorer by exactly its dead tuples. */
  lemma VacuumedPage(opts: Options, s: State, blk: nat, dead: set<Tid>)
    requires PagesOk(opts, s.pages) && 1 <= blk < |s.pages|
    ensures PagesOk(opts, s.pages[blk := Compact(opts, s.pages[blk], dead)])
    ensures Effect(s.pages, blk, Compact(opts, s.pages[blk], dead), multiset{}, Dropped(Tuples(s.pages[blk]), dead))
  {
    CompactOk(opts, s.pages[blk], dead);
    CompactTuples(opts, s.pages[blk], dead);
    PagesUpdate(opts, s.pages, blk, Compact(opts, s.pages[blk], dead));
  }

  /** Allocation never reports "could not add new bloom tuple to empty page". */
  lemma FillSucceeds(opts: Options, s: State, p: nat, t: BloomTuple, blk: nat)
    requires opts.Legal() && DataBlock(s, blk) && |s.meta.notFull| > 0 && s.pages[blk].Reusable()
    ensures DoFill(opts, s, p, t, blk) == CommitInsert(opts, s, p, t, blk, FreshList(s.meta, blk)).(metaOwner := None)
    ensures Accepts(opts, s.pages[blk])
  {
    EmptyPageHasRoom(opts);
    assert s.pages[blk := InitPage()][blk := AddItem(opts, InitPage(), t)] ==
             s.pages[blk := AddItem(opts, InitPage(), t)];
  }

  // ------------------------------------------------------------ conservation and bounds

  /** A step that moves `add` in and `drop` out through one page. */
  lemma EffectStep(s: State, s': State, p: nat, i: nat, q: Page, add: Live, drop: Live)
    requires Conserved(s) && Bounds(s) && Effect(s.pages, i, q, add, drop)
    requires s'.pages == s.pages[i := q] && s'.inserted == s.inserted + add && s'.removed == s.removed + drop
    requires p in s'.procs && s'.procs == s.procs[p := s'.procs[p]]
    requires Bound(s'.pages, s'.inserted, s'.removed, s'.procs[p])
    ensures Conserved(s') && Bounds(s')
  {
    EffectConserves(s.pages, i, q, add, drop, s.inserted, s.removed);
    forall r | r in s'.procs
      ensures Bound(s'.pages, s'.inserted, s'.removed, s'.procs[r])
    {
      if r != p {
        EffectBound(s.pages, i, q, add, drop, s.inserted, s.removed, s.procs[r]);
      }
    }
  }

  /** A step that leaves the pages alone. */
  lemma QuietStep(s: State, s': State, p: nat, proc: Proc)
    requires Conserved(s) && Bounds(s)
    requires s'.pages == s.pages && s'.inserted == s.inserted && s'.removed == s.removed
    requires s'.procs == s.procs[p := proc] && Bound(s.pages, s.inserted, s.removed, proc)
    ensures Conserved(s') && Bounds(s')
  {
  }

  // ------------------------------------------------------------ inserts

  /** A committed insert keeps the invariant, whichever path chose the page. */
  lemma CommitInv(opts: Options, s: State, p: nat, t: BloomTuple, blk: nat, meta: Meta, owner: Option<nat>,
                  fsm: set<nat>)
    requires opts.Legal() && Inv(opts, s) && p in s.procs
    requires 1 <= blk < |s.pages| && |t.sign| == opts.bloomLength && Accepts(opts, s.pages[blk])
    requires fsm <= s.fsm && MetaOk(s.(meta := meta))
    requires || (s.metaOwner == Some(p) && owner == None)
             || (s.metaOwner != Some(p) && owner == s.metaOwner && meta == s.meta && PageUnlocked(s, blk))
    ensures Inv(opts, CommitInsert(opts, s, p, t, blk, meta).(metaOwner := owner, fsm := fsm))
  {
    CommitPage(opts, s, t, blk);
    var s' := CommitInsert(opts, s, p, t, blk, meta).(metaOwner := owner, fsm := fsm);
    FrameStructure(opts, s, s', p, InsDone(t));
    assert s.removed + multiset{} == s.removed;
    EffectStep(s, s', p, blk, AddItem(opts, Prepared(s.pages[blk]), t), multiset{t}, multiset{});
  }

  lemma TryFirstInv(opts: Options, s: State, p: nat)
    requires opts.Legal() && Inv(opts, s) && Enabled(opts, s, TryFirst(p))
    ensures Inv(opts, DoTryFirst(opts, s, p))
  {
    var t, blk := s.procs[p].t, s.procs[p].blk;
    assert ProcOk(opts, s, p, s.procs[p]);
    if Accepts(opts, s.pages[blk]) {
      CommitInv(opts, s, p, t, blk, s.meta, s.metaOwner, s.fsm);
    } else {
      var s' := SetProc(s, p, InsSlow(t, Some(blk)));
      FrameStructure(opts, s, s', p, InsSlow(t, Some(blk)));
      QuietStep(s, s', p, InsSlow(t, Some(blk)));
    }
  }

  lemma TryListedInv(opts: Options, s: State, p: nat)
    requires opts.Legal() && Inv(opts, s) && Enabled(opts, s, TryListed(p))
    ensures Inv(opts, DoTryListed(opts, s, p))
  {
    var t, k := s.procs[p].t, s.procs[p].k;
    assert ProcOk(opts, s, p, s.procs[p]);
    if k < s.meta.nEnd && Accepts(opts, s.pages[s.meta.notFull[k]]) {
      ListedCommitInv(opts, s, p, t, k);
    } else {
      OwnerMovesOn(opts, s, p, if k >= s.meta.nEnd then InsAlloc(t) else InsLoop(t, k + 1));
    }
  }

  lemma ListedCommitInv(opts: Options, s: State, p: nat, t: BloomTuple, k: nat)
    requires opts.Legal() && Inv(opts, s) && p in s.procs && s.metaOwner == Some(p)
    requires s.meta.nStart <= k < s.meta.nEnd && |t.sign| == opts.bloomLength
    requires Accepts(opts, s.pages[s.meta.notFull[k]])
    ensures Inv(opts, CommitInsert(opts, s, p, t, s.meta.notFull[k], s.meta.(nStart := k)).(metaOwner := None))
  {
    CommitInv(opts, s, p, t, s.meta.notFull[k], s.meta.(nStart := k), None, s.fsm);
  }

  lemma OwnerMovesOn(opts: Options, s: State, p: nat, proc: Proc)
    requires Inv(opts, s) && s.metaOwner == Some(p) && HoldsMeta(proc) && ProcOk(opts, s, p, proc)
    ensures Inv(opts, SetProc(s, p, proc))
  {
    FrameStructure(opts, s, SetProc(s, p, proc), p, proc);
    QuietStep(s, SetProc(s, p, proc), p, proc);
  }

  lemma FillInv(opts: Options, s: State, p: nat, blk: nat, fsm: set<nat>)
    requires opts.Legal() && Inv(opts, s) && p in s.procs && s.metaOwner == Some(p)
    requires DataBlock(s, blk) && s.pages[blk].Reusable() && |s.meta.notFull| > 0 && fsm <= s.fsm
    ensures Inv(opts, DoFill(opts, s, p, s.procs[p].t, blk).(fsm := fsm))
  {
    assert ProcOk(opts, s, p, s.procs[p]);
    FillSucceeds(opts, s, p, s.procs[p].t, blk);
    CommitInv(opts, s, p, s.procs[p].t, blk, FreshList(s.meta, blk), None, fsm);
  }

  lemma ReadMetaInv(opts: Options, s: State, p: nat)
    requires opts.Legal() && Inv(opts, s) && Enabled(opts, s, ReadMeta(p))
    ensures Inv(opts, DoReadMeta(s, p))
  {
    var s' := DoReadMeta(s, p);
    assert ProcOk(opts, s, p, s.procs[p]);
    FrameStructure(opts, s, s', p, s'.procs[p]);
    QuietStep(s, s', p, s'.procs[p]);
  }

  lemma LockMetaInv(opts: Options, s: State, p: nat)
    requires opts.Legal() && Inv(opts, s) && Enabled(opts, s, LockMeta(p))
    ensures Inv(opts, DoLockMeta(s, p))
  {
    var s' := DoLockMeta(s, p);
    assert ProcOk(opts, s, p, s.procs[p]);
    FrameStructure(opts, s, s', p, s'.procs[p]);
    QuietStep(s, s', p, s'.procs[p]);
  }

  lemma ExtendStructure(opts: Options, s: State, p: nat)
    requires Structure(opts, s) && Enabled(opts, s, Extend(p))
    ensures Structure(opts, DoExtend(s, p))
  {
    var proc := InsExtended(s.procs[p].t, |s.pages|);
    var s' := DoExtend(s, p);
    assert ProcOk(opts, s, p, s.procs[p]);
    assert PagesOk(opts, s'.pages) && MetaOk(s') && ProcOk(opts, s', p, proc);
    assert Frame(s, s', p, proc);
    FrameStructure(opts, s, s', p, proc);
  }

  lemma ExtendInv(opts: Options, s: State, p: nat)
    requires Inv(opts, s) && Enabled(opts, s, Extend(p))
    ensures Inv(opts, DoExtend(s, p))
  {
    ExtendStructure(opts, s, p);
    AppendCount(s.pages);
    AppendBounds(opts, s, DoExtend(s, p), p, InsExtended(s.procs[p].t, |s.pages|));
  }

  lemma AppendBounds(opts: Options, s: State, s': State, p: nat, proc: Proc)
    requires Structure(opts, s) && Bounds(s) && proc.InsExtended?
    requires s'.pages == s.pages + [NewPage] && s'.inserted == s.inserted && s'.removed == s.removed
    requires s'.procs == s.procs[p := proc]
    ensures Bounds(s')
  {
    forall r | r in s'.procs
      ensures Bound(s'.pages, s'.inserted, s'.removed, s'.procs[r])
    {
      if r != p {
        assert ProcOk(opts, s, r, s.procs[r]);
        AppendBound(s.pages, s.inserted, s.removed, s.procs[r]);
      }
    }
  }

  lemma PassOverInv(opts: Options, s: State, p: nat, blk: nat)
    requires Inv(opts, s) && Enabled(opts, s, PassOver(p, blk))
    ensures Inv(opts, s.(fsm := s.fsm - {blk}))
  {
    var s' := s.(fsm := s.fsm - {blk});
    assert s.procs == s.procs[p := s.procs[p]];
    assert ProcOk(opts, s, p, s.procs[p]);
    FrameStructure(opts, s, s', p, s.procs[p]);
    assert Bound(s.pages, s.inserted, s.removed, s.procs[p]);
    QuietStep(s, s', p, s.procs[p]);
  }

  lemma AbortInv(opts: Options, s: State, p: nat)
    requires Inv(opts, s) && Enabled(opts, s, Abort(p))
    ensures Inv(opts, DoAbort(s, p))
  {
    var s' := DoAbort(s, p);
    FrameStructure(opts, s, s', p, s'.procs[p]);
    QuietStep(s, s', p, s'.procs[p]);
  }

  // ------------------------------------------------------------ bulk delete and cleanup

  lemma VacuumBoundAdvance(pages: seq<Page>, inserted: Live, dead: set<Tid>, npages: nat, blk: nat, before: Live)
    requires blk < npages <= |pages| && VacuumBound(pages, inserted, dead, npages, blk, before)
    requires forall t :: t in Tuples(pages[blk]) ==> t.heapPtr !in dead
    ensures VacuumBound(pages, inserted, dead, npages, blk + 1, before)
  {
    forall t: BloomTuple | t.heapPtr in dead
      ensures TuplesIn(pages, 0, blk + 1)[t] + TuplesIn(pages, npages, |pages|)[t] + before[t] <= inserted[t]
    {
      TuplesLast(pages, 0, blk + 1, t);
      assert t !in Tuples(pages[blk]);
    }
  }

  lemma VacuumBoundFinal(pages: seq<Page>, inserted: Live, dead: set<Tid>, npages: nat, before: Live)
    requires npages <= |pages| && VacuumBound(pages, inserted, dead, npages, npages, before)
    ensures VacuumBound(pages, inserted, dead, |pages|, |pages|, before)
  {
    TuplesSplit(pages, 0, npages, |pages|);
    assert TuplesIn(pages, |pages|, |pages|) == multiset{};
  }

  /** A vacuumed page, whether it was skipped or compacted. */
  lemma VacuumPageForm(opts: Options, s: State, p: nat)
    requires Structure(opts, s) && Enabled(opts, s, VacuumPage(p))
    ensures var s' := DoVacuumPage(opts, s, p);
            s'.procs[p].Vacuum? && Compacted(opts, s, p, s'.procs[p].list, s')
  {
    var v := s.procs[p];
    assert ProcOk(opts, s, p, v);
    assert s.pages[v.blk := s.pages[v.blk]] == s.pages;
  }

  lemma VacuumPageInv(opts: Options, s: State, p: nat)
    requires opts.Legal() && Inv(opts, s) && Enabled(opts, s, VacuumPage(p))
    ensures Inv(opts, DoVacuumPage(opts, s, p))
  {
    VacuumPageForm(opts, s, p);
    var v, s' := s.procs[p], DoVacuumPage(opts, s, p);
    CompactedInv(opts, s, p, s'.procs[p].list, s');
  }

  /** The state after bulk delete `p` has compacted its page. */
  ghost predicate Compacted(opts: Options, s: State, p: nat, list: seq<nat>, s': State) {
    && p in s.procs && s.procs[p].Vacuum?
    && var v := s.procs[p];
       && v.blk < v.npages && v.blk < |s.pages| && PageUnlocked(s, v.blk)
       && (list == v.list || (list == v.list + [v.blk] && |v.list| < META_BLOCKS))
       && s' == SetProc(s, p, Vacuum(v.dead, v.npages, v.blk + 1, list, v.before))
                  .(pages := s.pages[v.blk := Compact(opts, s.pages[v.blk], v.dead)],
                    removed := s.removed + Dropped(Tuples(s.pages[v.blk]), v.dead))
  }

  lemma CompactedStructure(opts: Options, s: State, p: nat, list: seq<nat>, s': State)
    requires Structure(opts, s) && Compacted(opts, s, p, list, s')
    ensures Structure(opts, s')
  {
    var v := s.procs[p];
    var proc := Vacuum(v.dead, v.npages, v.blk + 1, list, v.before);
    assert ProcOk(opts, s, p, v);
    VacuumedPage(opts, s, v.blk, v.dead);
    assert ProcOk(opts, s', p, proc);
    FrameStructure(opts, s, s', p, proc);
  }

  lemma CompactedInv(opts: Options, s: State, p: nat, list: seq<nat>, s': State)
    requires Inv(opts, s) && Compacted(opts, s, p, list, s')
    ensures Inv(opts, s')
  {
    var v := s.procs[p];
    CompactedStructure(opts, s, p, list, s');
    assert ProcOk(opts, s, p, v);
    VacuumedPage(opts, s, v.blk, v.dead);
    CompactedBound(opts, s, p, v);
    assert s.inserted + multiset{} == s.inserted;
    EffectStep(s, s', p, v.blk, Compact(opts, s.pages[v.blk], v.dead), multiset{},
                   Dropped(Tuples(s.pages[v.blk]), v.dead));
  }

  lemma CompactedBound(opts: Options, s: State, p: nat, v: Proc)
    requires Inv(opts, s) && p in s.procs && s.procs[p] == v && v.Vacuum? && 1 <= v.blk < v.npages <= |s.pages|
    ensures VacuumBound(s.pages[v.blk := Compact(opts, s.pages[v.blk], v.dead)], s.inserted,
                      v.dead, v.npages, v.blk + 1, v.before)
  {
    var q := Compact(opts, s.pages[v.blk], v.dead);
    assert Bound(s.pages, s.inserted, s.removed, v);
    VacuumedPage(opts, s, v.blk, v.dead);
    EffectVacuum(s.pages, v.blk, q, multiset{}, Dropped(Tuples(s.pages[v.blk]), v.dead),
                     s.inserted, v.dead, v.npages, v.blk, v.before);
    assert s.inserted + multiset{} == s.inserted;
    CompactTuples(opts, s.pages[v.blk], v.dead);
    VacuumBoundAdvance(s.pages[v.blk := q], s.inserted, v.dead, v.npages, v.blk, v.before);
  }

  lemma VacuumMetaStructure(opts: Options, s: State, p: nat)
    requires Structure(opts, s) && Enabled(opts, s, VacuumMeta(p))
    ensures Structure(opts, DoVacuumMeta(s, p))
  {
    var v, s' := s.procs[p], DoVacuumMeta(s, p);
    assert ProcOk(opts, s, p, v);
    assert forall i :: 0 <= i < |v.list| ==> s'.meta.notFull[i] == v.list[i];
    assert MetaOk(s');
    FrameStructure(opts, s, s', p, VacDone(v.dead, v.before));
  }

  lemma VacuumingOk(opts: Options, s: State, p: nat)
    requires Structure(opts, s) && p in s.procs && s.procs[p].Vacuum?
    ensures 1 <= s.procs[p].blk <= s.procs[p].npages <= |s.pages|
  {
    assert ProcOk(opts, s, p, s.procs[p]);
  }

  lemma VacuumMetaInv(opts: Options, s: State, p: nat)
    requires Inv(opts, s) && Enabled(opts, s, VacuumMeta(p))
    ensures Inv(opts, DoVacuumMeta(s, p))
  {
    hide Structure, VacuumBound, Conserved;
    var v := s.procs[p];
    VacuumMetaStructure(opts, s, p);
    VacuumingOk(opts, s, p);
    assert Bound(s.pages, s.inserted, s.removed, v);
    VacuumBoundFinal(s.pages, s.inserted, v.dead, v.npages, v.before);
    QuietStep(s, DoVacuumMeta(s, p), p, VacDone(v.dead, v.before));
  }

  lemma CleanupPageInv(opts: Options, s: State, p: nat)
    requires opts.Legal() && Inv(opts, s) && Enabled(opts, s, CleanupPage(p))
    ensures Inv(opts, DoCleanupPage(s, p))
  {
    var s' := DoCleanupPage(s, p);
    assert ProcOk(opts, s, p, s.procs[p]);
    FrameStructure(opts, s, s', p, s'.procs[p]);
    QuietStep(s, s', p, s'.procs[p]);
  }

  // ------------------------------------------------------------ scans

  /** The scan's filter keeps a tuple with all its copies or drops it. */
  lemma {:induction false} MatchingCount(tuples: seq<BloomTuple>, sign: seq<Word>, t: BloomTuple)
    ensures multiset(Matching(tuples, sign))[t] == if Hits(t, sign) then multiset(tuples)[t] else 0
  {
    if tuples != [] {
      var init := tuples[..|tuples| - 1];
      MatchingCount(init, sign, t);
      assert tuples == init + [tuples[|tuples| - 1]];
    }
  }

  lemma FoundCount(opts: Options, page: Page, sign: seq<Word>, found: Live, t: BloomTuple)
    requires PageOk(opts, page)
    ensures FoundOn(page, sign, found)[t] == found[t] + if Hits(t, sign) then CountOn(page, t) else 0
  {
    MatchingCount(Tuples(page), sign, t);
  }

  /** What reading page `c.blk` adds to what the scan has found. */
  ghost predicate Reads(pages: seq<Page>, c: Proc, c': Proc)
    requires c.Scan? && c.blk < c.npages <= |pages|
  {
    && c'.Scan? && c'.sign == c.sign && c'.npages == c.npages && c'.blk == c.blk + 1
    && c'.live == c.live && c'.inserted == c.inserted && c'.removed == c.removed
    && forall t: BloomTuple :: c'.found[t] == c.found[t] + if Hits(t, c.sign) then CountOn(pages[c.blk], t) else 0
  }

  lemma TuplesFirst(pages: seq<Page>, lo: nat, hi: nat, t: BloomTuple)
    requires lo < hi <= |pages|
    ensures TuplesIn(pages, lo, hi)[t] == TuplesIn(pages, lo + 1, hi)[t] + CountOn(pages[lo], t)
  {
    CountFirst(pages, lo, hi, t);
    TuplesCount(pages, lo, hi, t);
    TuplesCount(pages, lo + 1, hi, t);
  }

  lemma ScanAdvance(pages: seq<Page>, inserted: Live, removed: Live, c: Proc, c': Proc)
    requires c.Scan? && c.blk < c.npages <= |pages| && Reads(pages, c, c')
    requires ScanComplete(pages, removed, c) && ScanSound(pages, inserted, c)
    ensures ScanComplete(pages, removed, c') && ScanSound(pages, inserted, c')
  {
    forall t: BloomTuple
      ensures Hits(t, c.sign) ==>
                c.live[t] + c.removed[t] <= c'.found[t] + TuplesIn(pages, c.blk + 1, c.npages)[t] + removed[t]
      ensures c'.found[t] + TuplesIn(pages, c.blk + 1, c.npages)[t] + c.inserted[t] <= c.live[t] + inserted[t]
    {
      TuplesFirst(pages, c.blk, c.npages, t);
    }
  }

  lemma ScanReads(opts: Options, s: State, p: nat)
    requires Structure(opts, s) && Enabled(opts, s, ScanPage(p))
    ensures s.procs[p].npages <= |s.pages| && Reads(s.pages, s.procs[p], DoScanPage(s, p).procs[p])
  {
    var c, c' := s.procs[p], DoScanPage(s, p).procs[p];
    assert ProcOk(opts, s, p, c);
    forall t: BloomTuple
      ensures c'.found[t] == c.found[t] + if Hits(t, c.sign) then CountOn(s.pages[c.blk], t) else 0
    {
      FoundCount(opts, s.pages[c.blk], c.sign, c.found, t);
    }
  }

  lemma ScanPageInv(opts: Options, s: State, p: nat)
    requires opts.Legal() && Inv(opts, s) && Enabled(opts, s, ScanPage(p))
    ensures Inv(opts, DoScanPage(s, p))
  {
    var s' := DoScanPage(s, p);
    assert ProcOk(opts, s, p, s.procs[p]);
    FrameStructure(opts, s, s', p, s'.procs[p]);
    ScanReads(opts, s, p);
    assert Bound(s.pages, s.inserted, s.removed, s.procs[p]);
    ScanAdvance(s.pages, s.inserted, s.removed, s.procs[p], s'.procs[p]);
    QuietStep(s, s', p, s'.procs[p]);
  }

  // ------------------------------------------------------------ beginnings

  predicate Begins(a: Action) {
    a.BeginInsert? || a.BeginVacuum? || a.BeginCleanup? || a.BeginScan?
  }

  lemma BeginBound(opts: Options, s: State, a: Action)
    requires Structure(opts, s) && Conserved(s) && Enabled(opts, s, a) && Begins(a)
    ensures Bound(s.pages, s.inserted, s.removed, Step(opts, s, a).procs[a.p])
  {
    TuplesSplit(s.pages, 0, 1, |s.pages|);
    TuplesOne(s.pages, 0);
    assert TuplesIn(s.pages, 0, 1) == multiset{};
    assert TuplesIn(s.pages, |s.pages|, |s.pages|) == multiset{};
  }

  lemma BeginInv(opts: Options, s: State, a: Action)
    requires opts.Legal() && Inv(opts, s) && Enabled(opts, s, a) && Begins(a)
    ensures Inv(opts, Step(opts, s, a))
  {
    var s' := Step(opts, s, a);
    FrameStructure(opts, s, s', a.p, s'.procs[a.p]);
    BeginBound(opts, s, a);
    QuietStep(s, s', a.p, s'.procs[a.p]);
  }

  // ------------------------------------------------------------ every step, every run

  /** Every action of every backend keeps the invariant. */
  lemma StepInv(opts: Options, s: State, a: Action)
    requires opts.Legal() && Inv(opts, s) && Enabled(opts, s, a)
    ensures Inv(opts, Step(opts, s, a))
  {
    match a
    case BeginInsert(_, _) => BeginInv(opts, s, a);
    case ReadMeta(p) => ReadMetaInv(opts, s, p);
    case TryFirst(p) => TryFirstInv(opts, s, p);
    case LockMeta(p) => LockMetaInv(opts, s, p);
    case TryListed(p) => TryListedInv(opts, s, p);
    case Recycle(p, blk) =>
      assert ProcOk(opts, s, p, s.procs[p]);
      FillInv(opts, s, p, blk, s.fsm - {blk});
    case PassOver(p, blk) => PassOverInv(opts, s, p, blk);
    case Extend(p) => ExtendInv(opts, s, p);
    case FillExtended(p) =>
      assert ProcOk(opts, s, p, s.procs[p]);
      FillInv(opts, s, p, s.procs[p].blk, s.fsm);
    case Abort(p) => AbortInv(opts, s, p);
    case BeginVacuum(_, _) => BeginInv(opts, s, a);
    case VacuumPage(p) => VacuumPageInv(opts, s, p);
    case VacuumMeta(p) => VacuumMetaInv(opts, s, p);
    case BeginCleanup(_) => BeginInv(opts, s, a);
    case CleanupPage(p) => CleanupPageInv(opts, s, p);
    case BeginScan(_, _) => BeginInv(opts, s, a);
    case ScanPage(p) => ScanPageInv(opts, s, p);
  }
}
