/**
 The Bloom index as a concurrent system.  Any number of inserters, bulk deletes,
 vacuum cleanups and scans run interleaved; one action is one section a backend
 executes under buffer locks (contrib/bloom/blinsert.c, blvacuum.c, blscan.c and
 BloomNewBuffer in blutils.c).  Between actions a backend holds at most the
 metapage lock and the lock on a page it has just added to the file, so what it
 remembers about other pages may be out of date.
 */
module BloomProtocol {
  import opened Common
  import opened BloomSignature
  import opened BloomPage

  /** The mutable part of the metapage: the window [nStart, nEnd) of not-full pages. */
  datatype Meta = Meta(nStart: nat, nEnd: nat, notFull: seq<nat>)

  type Live = multiset<BloomTuple>

  /** Where a backend stands, with its local variables. */
  datatype Proc =
    // blinsert
    | InsStart(t: BloomTuple)
    | InsFirst(t: BloomTuple, blk: nat)            // metapage released, first listed page remembered
    | InsSlow(t: BloomTuple, tried: Option<nat>)   // about to lock the metapage exclusively
    | InsLoop(t: BloomTuple, k: nat)               // metapage locked, local nStart is k
    | InsAlloc(t: BloomTuple)                      // metapage locked, list exhausted
    | InsExtended(t: BloomTuple, blk: nat)         // metapage and the added page locked
    | InsDone(t: BloomTuple)
    | InsError(t: BloomTuple)                      // "could not add new bloom tuple to empty page"
    | InsAborted(t: BloomTuple)
    // blbulkdelete; `before` is everything inserted when the pass started
    | Vacuum(dead: set<Tid>, npages: nat, blk: nat, list: seq<nat>, before: Live)
    | VacDone(dead: set<Tid>, before: Live)
    // blvacuumcleanup
    | Cleanup(npages: nat, blk: nat)
    // blgetbitmap; the last three fields describe the index when the scan started
    | Scan(sign: seq<Word>, npages: nat, blk: nat, found: Live, live: Live, inserted: Live, removed: Live)

  /** The index, the free-space map, the backends, and the history of commits. */
  datatype State = State(
    pages: seq<Page>,
    meta: Meta,
    metaOwner: Option<nat>,
    fsm: set<nat>,
    procs: map<nat, Proc>,
    inserted: Live,
    removed: Live)

  /** All tuples on pages lo..hi-1. */
  ghost function TuplesIn(pages: seq<Page>, lo: nat, hi: nat): Live
    requires hi <= |pages|
  {
    if hi <= lo then multiset{} else TuplesIn(pages, lo, hi - 1) + multiset(Tuples(pages[hi - 1]))
  }

  /** The plain multiset the index stands for. */
  ghost function Contents(s: State): Live {
    TuplesIn(s.pages, 0, |s.pages|)
  }

  /** Tuples of a multiset that pass a scan's word test. */
  ghost predicate Hits(t: BloomTuple, sign: seq<Word>) {
    |t.sign| == |sign| && WordsMatch(t.sign, sign)
  }

  // ------------------------------------------------------------ actions

  datatype Action =
    | BeginInsert(p: nat, t: BloomTuple)
    | ReadMeta(p: nat)
    | TryFirst(p: nat)
    | LockMeta(p: nat)
    | TryListed(p: nat)
    | Recycle(p: nat, blk: nat)      // take a reusable page from the free-space map
    | PassOver(p: nat, blk: nat)     // the map's page is locked or in use
    | Extend(p: nat)
    | FillExtended(p: nat)
    | Abort(p: nat)
    | BeginVacuum(p: nat, dead: set<Tid>)
    | VacuumPage(p: nat)
    | VacuumMeta(p: nat)
    | BeginCleanup(p: nat)
    | CleanupPage(p: nat)
    | BeginScan(p: nat, sign: seq<Word>)
    | ScanPage(p: nat)

  /** A page can be locked unless the metapage's owner holds the page it just added. */
  predicate PageUnlocked(s: State, blk: nat) {
    s.metaOwner.Some? && s.metaOwner.value in s.procs && s.procs[s.metaOwner.value].InsExtended? ==>
      s.procs[s.metaOwner.value].blk != blk
  }

  predicate DataBlock(s: State, blk: nat) {
    1 <= blk < |s.pages| && !s.pages[blk].MetaPage?
  }

  /** A page as an inserter sees it: reusable pages are initialised first. */
  function Prepared(p: Page): Page {
    if p.Reusable() then InitPage() else p
  }

  predicate Accepts(opts: Options, p: Page)
    requires !p.MetaPage?
  {
    HasRoom(opts, Prepared(p))
  }

  /** Commit of an insert: the tuple goes to page `blk`, the backend is done. */
  ghost function CommitInsert(opts: Options, s: State, p: nat, t: BloomTuple, blk: nat, meta: Meta): State
    requires DataBlock(s, blk)
  {
    s.(pages := s.pages[blk := AddItem(opts, Prepared(s.pages[blk]), t)],
       meta := meta,
       inserted := s.inserted + multiset{t},
       procs := s.procs[p := InsDone(t)])
  }

  ghost predicate Enabled(opts: Options, s: State, a: Action) {
    match a
    case BeginInsert(p, t) => p !in s.procs && |t.sign| == opts.bloomLength
    case ReadMeta(p) => p in s.procs && s.procs[p].InsStart? && s.metaOwner.None?
                        && (s.meta.nEnd > s.meta.nStart ==> s.meta.nStart < |s.meta.notFull|)
    case TryFirst(p) => p in s.procs && s.procs[p].InsFirst?
                        && DataBlock(s, s.procs[p].blk) && PageUnlocked(s, s.procs[p].blk)
    case LockMeta(p) => p in s.procs && s.procs[p].InsSlow? && s.metaOwner.None?
    case TryListed(p) => p in s.procs && s.procs[p].InsLoop?
                         && (s.procs[p].k < s.meta.nEnd ==>
                               s.procs[p].k < |s.meta.notFull| && DataBlock(s, s.meta.notFull[s.procs[p].k]))
    case Recycle(p, blk) => p in s.procs && s.procs[p].InsAlloc? && blk in s.fsm && |s.meta.notFull| > 0
                            && DataBlock(s, blk) && s.pages[blk].Reusable()
    case PassOver(p, blk) => p in s.procs && s.procs[p].InsAlloc? && blk in s.fsm
    case Extend(p) => p in s.procs && s.procs[p].InsAlloc?
    case FillExtended(p) => p in s.procs && s.procs[p].InsExtended? && |s.meta.notFull| > 0
                            && DataBlock(s, s.procs[p].blk)
    case Abort(p) => p in s.procs && Inserting(s.procs[p])
    case BeginVacuum(p, dead) => p !in s.procs
    case VacuumPage(p) => p in s.procs && s.procs[p].Vacuum? && s.procs[p].blk < s.procs[p].npages
                          && s.procs[p].blk < |s.pages| && PageUnlocked(s, s.procs[p].blk)
    case VacuumMeta(p) => p in s.procs && s.procs[p].Vacuum? && s.procs[p].blk >= s.procs[p].npages
                          && s.metaOwner.None? && |s.procs[p].list| <= |s.meta.notFull|
    case BeginCleanup(p) => p !in s.procs
    case CleanupPage(p) => p in s.procs && s.procs[p].Cleanup? && s.procs[p].blk < s.procs[p].npages
                           && s.procs[p].blk < |s.pages| && PageUnlocked(s, s.procs[p].blk)
    case BeginScan(p, sign) => p !in s.procs && |sign| == opts.bloomLength
    case ScanPage(p) => p in s.procs && s.procs[p].Scan? && s.procs[p].blk < s.procs[p].npages
                        && s.procs[p].blk < |s.pages| && PageUnlocked(s, s.procs[p].blk)
  }

  ghost function SetProc(s: State, p: nat, proc: Proc): State {
    s.(procs := s.procs[p := proc])
  }

  /** The metapage after an insert allocated page `blk`: a list of just that page. */
  function FreshList(m: Meta, blk: nat): Meta
    requires |m.notFull| > 0
  {
    Meta(0, 1, m.notFull[0 := blk])
  }

  ghost function DoReadMeta(s: State, p: nat): State
    requires p in s.procs && s.procs[p].InsStart?
    requires s.meta.nEnd > s.meta.nStart ==> s.meta.nStart < |s.meta.notFull|
  {
    var t := s.procs[p].t;
    if s.meta.nEnd > s.meta.nStart
    then SetProc(s, p, InsFirst(t, s.meta.notFull[s.meta.nStart]))
    else SetProc(s, p, InsSlow(t, None))
  }

  ghost function DoTryFirst(opts: Options, s: State, p: nat): State
    requires p in s.procs && s.procs[p].InsFirst? && DataBlock(s, s.procs[p].blk)
  {
    var t, blk := s.procs[p].t, s.procs[p].blk;
    if Accepts(opts, s.pages[blk])
    then CommitInsert(opts, s, p, t, blk, s.meta)
    else SetProc(s, p, InsSlow(t, Some(blk)))
  }

  ghost function DoLockMeta(s: State, p: nat): State
    requires p in s.procs && s.procs[p].InsSlow?
  {
    var m, proc := s.meta, s.procs[p];
    var skip := m.nStart < m.nEnd && m.nStart < |m.notFull| && proc.tried == Some(m.notFull[m.nStart]);
    SetProc(s, p, InsLoop(proc.t, if skip then m.nStart + 1 else m.nStart)).(metaOwner := Some(p))
  }

  ghost function DoTryListed(opts: Options, s: State, p: nat): State
    requires p in s.procs && s.procs[p].InsLoop?
    requires s.procs[p].k < s.meta.nEnd ==>
               s.procs[p].k < |s.meta.notFull| && DataBlock(s, s.meta.notFull[s.procs[p].k])
  {
    var t, k := s.procs[p].t, s.procs[p].k;
    if k >= s.meta.nEnd then SetProc(s, p, InsAlloc(t))
    else
      var blk := s.meta.notFull[k];
      if Accepts(opts, s.pages[blk])
      then CommitInsert(opts, s, p, t, blk, s.meta.(nStart := k)).(metaOwner := None)
      else SetProc(s, p, InsLoop(t, k + 1))
  }

  /** Put the tuple on the allocated page and make that page the whole list. */
  ghost function DoFill(opts: Options, s: State, p: nat, t: BloomTuple, blk: nat): State
    requires DataBlock(s, blk) && |s.meta.notFull| > 0
  {
    if HasRoom(opts, InitPage())
    then CommitInsert(opts, s.(pages := s.pages[blk := InitPage()]), p, t, blk,
                        FreshList(s.meta, blk)).(metaOwner := None)
    else SetProc(s, p, InsError(t)).(metaOwner := None)
  }

  /** The file grows by a page of zeros, returned locked. */
  ghost function DoExtend(s: State, p: nat): State
    requires p in s.procs && s.procs[p].InsAlloc?
  {
    SetProc(s, p, InsExtended(s.procs[p].t, |s.pages|)).(pages := s.pages + [NewPage])
  }

  predicate Inserting(proc: Proc) {
    proc.InsStart? || proc.InsFirst? || proc.InsSlow? || proc.InsLoop? || proc.InsAlloc? || proc.InsExtended?
  }

  /** An error or interrupt drops the locks and leaves the pages as they are. */
  ghost function DoAbort(s: State, p: nat): State
    requires p in s.procs && Inserting(s.procs[p])
  {
    SetProc(s, p, InsAborted(s.procs[p].t)).(metaOwner := if s.metaOwner == Some(p) then None else s.metaOwner)
  }

  ghost function DoVacuumPage(opts: Options, s: State, p: nat): State
    requires p in s.procs && s.procs[p].Vacuum? && s.procs[p].blk < |s.pages|
  {
    var v := s.procs[p];
    var page := s.pages[v.blk];
    if page.Reusable() || page.MetaPage? then SetProc(s, p, Vacuum(v.dead, v.npages, v.blk + 1, v.list, v.before))
    else
      var after := Compact(opts, page, v.dead);
      var listed := after.tuples != [] && HasRoom(opts, after) && |v.list| < META_BLOCKS;
      var list := if listed then v.list + [v.blk] else v.list;
      SetProc(s, p, Vacuum(v.dead, v.npages, v.blk + 1, list, v.before))
        .(pages := s.pages[v.blk := after], removed := s.removed + Dropped(page.tuples, v.dead))
  }

  ghost function DoVacuumMeta(s: State, p: nat): State
    requires p in s.procs && s.procs[p].Vacuum? && |s.procs[p].list| <= |s.meta.notFull|
  {
    var v := s.procs[p];
    SetProc(s, p, VacDone(v.dead, v.before))
      .(meta := Meta(0, |v.list|, v.list + s.meta.notFull[|v.list|..]))
  }

  ghost function DoCleanupPage(s: State, p: nat): State
    requires p in s.procs && s.procs[p].Cleanup? && s.procs[p].blk < |s.pages|
  {
    var c := s.procs[p];
    SetProc(s, p, Cleanup(c.npages, c.blk + 1))
      .(fsm := if s.pages[c.blk].Reusable() then s.fsm + {c.blk} else s.fsm)
  }

  /** What a scan has found once it has read a page. */
  ghost function FoundOn(page: Page, sign: seq<Word>, found: Live): Live {
    if page.Reusable() then found else found + multiset(Matching(Tuples(page), sign))
  }

  ghost function DoScanPage(s: State, p: nat): State
    requires p in s.procs && s.procs[p].Scan? && s.procs[p].blk < |s.pages|
  {
    var c := s.procs[p];
    SetProc(s, p, Scan(c.sign, c.npages, c.blk + 1,
                           FoundOn(s.pages[c.blk], c.sign, c.found), c.live, c.inserted, c.removed))
  }

  /** What an action does. */
  ghost function Step(opts: Options, s: State, a: Action): State
    requires Enabled(opts, s, a)
  {
    match a
    case BeginInsert(p, t) => SetProc(s, p, InsStart(t))
    case ReadMeta(p) => DoReadMeta(s, p)
    case TryFirst(p) => DoTryFirst(opts, s, p)
    case LockMeta(p) => DoLockMeta(s, p)
    case TryListed(p) => DoTryListed(opts, s, p)
    case Recycle(p, blk) => DoFill(opts, s, p, s.procs[p].t, blk).(fsm := s.fsm - {blk})
    case PassOver(p, blk) => s.(fsm := s.fsm - {blk})
    case Extend(p) => DoExtend(s, p)
    case FillExtended(p) => DoFill(opts, s, p, s.procs[p].t, s.procs[p].blk)
    case Abort(p) => DoAbort(s, p)
    case BeginVacuum(p, dead) => SetProc(s, p, Vacuum(dead, |s.pages|, 1, [], s.inserted))
    case VacuumPage(p) => DoVacuumPage(opts, s, p)
    case VacuumMeta(p) => DoVacuumMeta(s, p)
    case BeginCleanup(p) => SetProc(s, p, Cleanup(|s.pages|, 1))
    case CleanupPage(p) => DoCleanupPage(s, p)
    case BeginScan(p, sign) => SetProc(s, p, Scan(sign, |s.pages|, 1, multiset{}, Contents(s), s.inserted, s.removed))
    case ScanPage(p) => DoScanPage(s, p)
  }

  // ------------------------------------------------------------ runs

  ghost predicate PagesOk(opts: Options, pages: seq<Page>) {
    && |pages| >= 1 && pages[0].MetaPage?
    && forall i :: 1 <= i < |pages| ==> !pages[i].MetaPage? && PageOk(opts, pages[i])
  }

  /** An index as `blbuild` leaves it: a metapage with an empty list, then full pages. */
  ghost predicate Initial(opts: Options, s: State) {
    && PagesOk(opts, s.pages)
    && s.meta.nStart == 0 && s.meta.nEnd == 0 && |s.meta.notFull| == META_BLOCKS
    && s.metaOwner == None && s.fsm == {} && s.procs == map[]
    && s.inserted == Contents(s) && s.removed == multiset{}
  }

  /** Action `i` is enabled and leads from state `i` to state `i + 1`. */
  ghost predicate Linked(opts: Options, states: seq<State>, actions: seq<Action>, i: nat)
    requires i < |actions| && |states| == |actions| + 1
  {
    Enabled(opts, states[i], actions[i]) && states[i + 1] == Step(opts, states[i], actions[i])
  }

  /** A run: consecutive states are linked by enabled actions. */
  ghost predicate Run(opts: Options, states: seq<State>, actions: seq<Action>) {
    |states| == |actions| + 1 && forall i :: 0 <= i < |actions| ==> Linked(opts, states, actions, i)
  }
}
