/**
 Whole passes over the pages, running alone: what a bulk delete, a cleanup and a
 scan have done after the blocks below `n`, and that each pass is a run of the
 protocol.
 */
module BloomPasses {
  import opened Common
  import opened BloomSignature
  import opened BloomPage
  import opened BloomProtocol
  import opened BloomSafety
  import opened BloomTheorems

  lemma ReachesNext(opts: Options, s: State, m: State, a: Action, s': State)
    requires Reaches(opts, s, m) && Enabled(opts, m, a) && s' == Step(opts, m, a)
    ensures Reaches(opts, s, s')
  {
    ReachesStep(opts, s, m, a);
  }

  // ------------------------------------------------------------ bulk delete

  /** The pages once the blocks 1..n-1 are compacted. */
  function CompactTo(opts: Options, pages: seq<Page>, dead: set<Tid>, n: nat): (r: seq<Page>)
    requires n <= |pages|
    ensures |r| == |pages|
  {
    if n <= 1 then pages
    else CompactTo(opts, pages, dead, n - 1)[n - 1 := Compact(opts, pages[n - 1], dead)]
  }

  /** The compacted page is worth listing: it keeps tuples and has room. */
  predicate Listable(opts: Options, page: Page, dead: set<Tid>) {
    var after := Compact(opts, page, dead);
    !page.Reusable() && Tuples(after) != [] && HasRoom(opts, after)
  }

  /** The not-full list a bulk delete has collected from the blocks 1..n-1. */
  function ListTo(opts: Options, pages: seq<Page>, dead: set<Tid>, n: nat): seq<nat>
    requires n <= |pages|
  {
    if n <= 1 then []
    else
      var list := ListTo(opts, pages, dead, n - 1);
      if Listable(opts, pages[n - 1], dead) && |list| < META_BLOCKS then list + [n - 1] else list
  }

  ghost function DroppedTo(pages: seq<Page>, dead: set<Tid>, n: nat): Live
    requires n <= |pages|
  {
    if n <= 1 then multiset{} else DroppedTo(pages, dead, n - 1) + Dropped(Tuples(pages[n - 1]), dead)
  }

  lemma {:induction false} CompactToAt(opts: Options, pages: seq<Page>, dead: set<Tid>, n: nat, i: nat)
    requires n <= |pages| && i < |pages|
    ensures CompactTo(opts, pages, dead, n)[i] == if 1 <= i < n then Compact(opts, pages[i], dead) else pages[i]
  {
    if n > 1 {
      CompactToAt(opts, pages, dead, n - 1, i);
    }
  }

  lemma {:induction false} DroppedToDead(pages: seq<Page>, dead: set<Tid>, n: nat, t: BloomTuple)
    requires n <= |pages| && t.heapPtr !in dead
    ensures DroppedTo(pages, dead, n)[t] == 0
  {
    if n > 1 {
      DroppedToDead(pages, dead, n - 1, t);
      KeptAndDropped(Tuples(pages[n - 1]), dead);
    }
  }

  /** The state in which bulk delete `p`, alone since `s`, has done the blocks below `n`. */
  ghost function VacuumAt(opts: Options, s: State, p: nat, dead: set<Tid>, n: nat): State
    requires 1 <= n <= |s.pages|
  {
    State(CompactTo(opts, s.pages, dead, n), s.meta, s.metaOwner, s.fsm,
          s.procs[p := Vacuum(dead, |s.pages|, n, ListTo(opts, s.pages, dead, n), s.inserted)],
          s.inserted, s.removed + DroppedTo(s.pages, dead, n))
  }

  /** Field by field, what visiting a page does. */
  lemma VacuumForm(opts: Options, s: State, s': State, p: nat)
    requires p in s.procs && s.procs[p].Vacuum? && s.procs[p].blk < |s.pages| && p in s'.procs && s'.procs[p].Vacuum?
    requires s'.meta == s.meta && s'.metaOwner == s.metaOwner && s'.fsm == s.fsm && s'.inserted == s.inserted
    requires var v, list := s.procs[p], s'.procs[p].list;
             var page := s.pages[v.blk];
             && PageOk(opts, page) && !page.MetaPage?
             && s'.procs == s.procs[p := Vacuum(v.dead, v.npages, v.blk + 1, list, v.before)]
             && s'.pages == s.pages[v.blk := Compact(opts, page, v.dead)]
             && s'.removed == s.removed + Dropped(Tuples(page), v.dead)
             && list == if Listable(opts, page, v.dead) && |v.list| < META_BLOCKS then v.list + [v.blk] else v.list
    ensures s' == DoVacuumPage(opts, s, p)
  {
    if s.pages[s.procs[p].blk].Reusable() {
      assert s'.pages == s.pages;
      assert s'.removed == s.removed;
    }
  }

  lemma VacuumAtStep(opts: Options, s: State, p: nat, dead: set<Tid>, n: nat)
    requires PagesOk(opts, s.pages) && s.metaOwner == None && 1 <= n < |s.pages|
    ensures var m := VacuumAt(opts, s, p, dead, n);
            Enabled(opts, m, VacuumPage(p)) && Step(opts, m, VacuumPage(p)) == VacuumAt(opts, s, p, dead, n + 1)
  {
    hide Compact, Listable, Dropped, PageOk, DoVacuumPage, Tuples;
    var m, m' := VacuumAt(opts, s, p, dead, n), VacuumAt(opts, s, p, dead, n + 1);
    CompactToAt(opts, s.pages, dead, n, n);
    assert m'.procs == m.procs[p := m'.procs[p]];
    VacuumForm(opts, m, m', p);
  }

  lemma VacuumAtNext(opts: Options, s: State, p: nat, dead: set<Tid>, n: nat)
    requires PagesOk(opts, s.pages) && s.metaOwner == None && 1 < n <= |s.pages|
    requires Reaches(opts, s, VacuumAt(opts, s, p, dead, n - 1))
    ensures Reaches(opts, s, VacuumAt(opts, s, p, dead, n))
  {
    VacuumAtStep(opts, s, p, dead, n - 1);
    ReachesStep(opts, s, VacuumAt(opts, s, p, dead, n - 1), VacuumPage(p));
  }

  lemma VacuumAtStart(opts: Options, s: State, p: nat, dead: set<Tid>)
    requires |s.pages| >= 1 && p !in s.procs
    ensures Reaches(opts, s, VacuumAt(opts, s, p, dead, 1))
  {
    var m := VacuumAt(opts, s, p, dead, 1);
    assert m.removed == s.removed;
    ReachesSelf(opts, s);
    ReachesNext(opts, s, s, BeginVacuum(p, dead), m);
  }

  lemma {:induction false} VacuumRun(opts: Options, s: State, p: nat, dead: set<Tid>, n: nat)
    requires PagesOk(opts, s.pages) && s.metaOwner == None && p !in s.procs && 1 <= n <= |s.pages|
    ensures Reaches(opts, s, VacuumAt(opts, s, p, dead, n))
  {
    hide VacuumAt, Reaches, PagesOk;
    if n == 1 {
      VacuumAtStart(opts, s, p, dead);
    } else {
      VacuumRun(opts, s, p, dead, n - 1);
      VacuumAtNext(opts, s, p, dead, n);
    }
  }

  lemma {:induction false} ListToShort(opts: Options, pages: seq<Page>, dead: set<Tid>, n: nat)
    requires n <= |pages|
    ensures |ListTo(opts, pages, dead, n)| <= META_BLOCKS
  {
    if n > 1 {
      ListToShort(opts, pages, dead, n - 1);
    }
  }

  /** The page holds tuples and one more would fit. */
  ghost predicate Roomy(opts: Options, page: Page) {
    page.DataPage? && !page.deleted && page.tuples != [] && OneMoreFits(opts, |page.tuples|)
  }

  lemma ListableIs(opts: Options, page: Page, dead: set<Tid>)
    requires opts.Legal() && PageOk(opts, page)
    ensures Listable(opts, page, dead) <==> Roomy(opts, Compact(opts, page, dead))
  {
    hide Compact, PageOk, HasRoom;
    CompactOk(opts, page, dead);
    var after := Compact(opts, page, dead);
    if after.DataPage? {
      HasRoomIs(opts, after);
    }
    if page.Reusable() {
      ReusableUnlisted(opts, page, dead);
    }
  }

  lemma ReusableUnlisted(opts: Options, page: Page, dead: set<Tid>)
    requires page.Reusable()
    ensures !Roomy(opts, Compact(opts, page, dead))
  {
  }

  /** `list` names, in order, pages with tuples and room, and skips none of those up to its last entry. */
  ghost predicate RoomyList(opts: Options, pages: seq<Page>, list: seq<nat>, n: nat)
    requires n <= |pages|
  {
    && |list| <= META_BLOCKS
    && (forall k :: 0 <= k < |list| ==> 1 <= list[k] < n && Roomy(opts, pages[list[k]]))
    && (forall j, k :: 0 <= j < k < |list| ==> list[j] < list[k])
    && (forall b :: 1 <= b < n && Roomy(opts, pages[b]) ==> b in list || PastFull(list, b))
  }

  /** The list was full before block `b` was reached. */
  ghost predicate PastFull(list: seq<nat>, b: nat) {
    |list| == META_BLOCKS && list[META_BLOCKS - 1] < b
  }

  lemma NothingListed(opts: Options, pages: seq<Page>)
    requires |pages| >= 1
    ensures RoomyList(opts, pages, [], 1)
  {
  }

  lemma RoomyListStep(opts: Options, pages: seq<Page>, list: seq<nat>, n: nat)
    requires 1 <= n < |pages| && RoomyList(opts, pages, list, n)
    ensures RoomyList(opts, pages, if Roomy(opts, pages[n]) && |list| < META_BLOCKS then list + [n] else list, n + 1)
  {
    hide Roomy;
    var list' := if Roomy(opts, pages[n]) && |list| < META_BLOCKS then list + [n] else list;
    forall b | 1 <= b < n + 1 && Roomy(opts, pages[b])
      ensures b in list' || PastFull(list', b)
    {
      if b == n && |list| == META_BLOCKS {
        assert list[META_BLOCKS - 1] < n;
      } else if b < n && b in list {
        assert b in list';
      }
    }
  }

  lemma {:induction false} ListToIs(opts: Options, pages: seq<Page>, dead: set<Tid>, n: nat, after: seq<Page>)
    requires opts.Legal() && PagesOk(opts, pages) && 1 <= n <= |pages| == |after|
    requires forall i :: 1 <= i < n ==> after[i] == Compact(opts, pages[i], dead)
    ensures RoomyList(opts, after, ListTo(opts, pages, dead, n), n)
  {
    hide Compact, Listable, PageOk, RoomyList;
    if n == 1 {
      NothingListed(opts, after);
    } else {
      ListToIs(opts, pages, dead, n - 1, after);
      ListableIs(opts, pages[n - 1], dead);
      RoomyListStep(opts, after, ListTo(opts, pages, dead, n - 1), n - 1);
    }
  }

  /** The state a bulk delete running alone ends in. */
  ghost function Vacuumed(opts: Options, s: State, p: nat, dead: set<Tid>): State
    requires |s.pages| >= 1 && |s.meta.notFull| == META_BLOCKS
  {
    ListToShort(opts, s.pages, dead, |s.pages|);
    var list := ListTo(opts, s.pages, dead, |s.pages|);
    State(CompactTo(opts, s.pages, dead, |s.pages|), Meta(0, |list|, list + s.meta.notFull[|list|..]),
          s.metaOwner, s.fsm,
          s.procs[p := VacDone(dead, s.inserted)], s.inserted, s.removed + DroppedTo(s.pages, dead, |s.pages|))
  }

  /** After the pass the list is right, and every page that lost its last tuple is left for reuse. */
  lemma VacuumedPages(opts: Options, s: State, p: nat, dead: set<Tid>)
    requires opts.Legal() && PagesOk(opts, s.pages) && |s.meta.notFull| == META_BLOCKS
    ensures var s' := Vacuumed(opts, s, p, dead);
            && |s'.pages| == |s.pages| && s'.meta.nStart == 0 && s'.meta.nEnd <= |s'.meta.notFull|
            && RoomyList(opts, s'.pages, s'.meta.notFull[..s'.meta.nEnd], |s'.pages|)
            && forall i :: 0 <= i < |s.pages| && Tuples(s.pages[i]) != [] && Tuples(s'.pages[i]) == [] ==>
                 s'.pages[i].Reusable()
  {
    hide Compact, Tuples, PageOk, RoomyList;
    var s' := Vacuumed(opts, s, p, dead);
    forall i | 0 <= i < |s.pages|
      ensures 1 <= i ==> s'.pages[i] == Compact(opts, s.pages[i], dead)
      ensures i == 0 ==> s'.pages[i] == s.pages[i]
    {
      CompactToAt(opts, s.pages, dead, |s.pages|, i);
    }
    forall i | 0 <= i < |s.pages| && Tuples(s.pages[i]) != [] && Tuples(s'.pages[i]) == []
      ensures s'.pages[i].Reusable()
    {
      CompactOk(opts, s.pages[i], dead);
    }
    ListToIs(opts, s.pages, dead, |s.pages|, s'.pages);
    assert s'.meta.notFull[..s'.meta.nEnd] == ListTo(opts, s.pages, dead, |s.pages|);
  }

  lemma VacuumAlone(opts: Options, s: State, p: nat, dead: set<Tid>)
    requires opts.Legal() && Inv(opts, s) && s.metaOwner == None && p !in s.procs
    ensures Reaches(opts, s, Vacuumed(opts, s, p, dead)) && Inv(opts, Vacuumed(opts, s, p, dead))
  {
    VacuumRun(opts, s, p, dead, |s.pages|);
    var m := VacuumAt(opts, s, p, dead, |s.pages|);
    ListToShort(opts, s.pages, dead, |s.pages|);
    ReachesStep(opts, s, m, VacuumMeta(p));
    assert m.procs[p := VacDone(dead, s.inserted)] == s.procs[p := VacDone(dead, s.inserted)];
    ReachesInv(opts, s, Vacuumed(opts, s, p, dead));
  }

  lemma DeadGone(opts: Options, s: State, p: nat, dead: set<Tid>, t: BloomTuple)
    requires opts.Legal() && Inv(opts, s) && s.metaOwner == None && p !in s.procs
    ensures Contents(Vacuumed(opts, s, p, dead))[t] == if t.heapPtr in dead then 0 else Contents(s)[t]
  {
    VacuumAlone(opts, s, p, dead);
    var s' := Vacuumed(opts, s, p, dead);
    assert (Contents(s') + s'.removed)[t] == s'.inserted[t];
    assert (Contents(s) + s.removed)[t] == s.inserted[t];
    if t.heapPtr in dead {
      assert Bound(s'.pages, s'.inserted, s'.removed, s'.procs[p]);
    } else {
      DroppedToDead(s.pages, dead, |s.pages|, t);
    }
  }

  /** Alone, a bulk delete takes away the dead tuples and only those. */
  lemma OnlyDeadGone(opts: Options, s: State, p: nat, dead: set<Tid>)
    requires opts.Legal() && Inv(opts, s) && s.metaOwner == None && p !in s.procs
    ensures forall t :: Contents(Vacuumed(opts, s, p, dead))[t] == if t.heapPtr in dead then 0 else Contents(s)[t]
  {
    forall t
      ensures Contents(Vacuumed(opts, s, p, dead))[t] == if t.heapPtr in dead then 0 else Contents(s)[t]
    {
      DeadGone(opts, s, p, dead, t);
    }
  }

  // ------------------------------------------------------------ cleanup

  /** The reusable pages among the blocks 1..n-1. */
  ghost function FreePages(pages: seq<Page>, n: nat): set<nat>
    requires n <= |pages|
  {
    set i: nat | 1 <= i < n && pages[i].Reusable()
  }

  lemma FreePagesStep(pages: seq<Page>, n: nat)
    requires 1 <= n < |pages|
    ensures FreePages(pages, n + 1) == if pages[n].Reusable() then FreePages(pages, n) + {n} else FreePages(pages, n)
    ensures |FreePages(pages, n + 1)| == |FreePages(pages, n)| + if pages[n].Reusable() then 1 else 0
  {
    assert FreePages(pages, n + 1) == if pages[n].Reusable() then FreePages(pages, n) + {n} else FreePages(pages, n);
  }

  /** The state in which cleanup `p`, alone since `s`, has done the blocks below `n`. */
  ghost function CleanupAt(s: State, p: nat, n: nat): State
    requires 1 <= n <= |s.pages|
  {
    s.(fsm := s.fsm + FreePages(s.pages, n), procs := s.procs[p := Cleanup(|s.pages|, n)])
  }

  lemma CleanupAtStep(opts: Options, s: State, p: nat, n: nat)
    requires s.metaOwner == None && 1 <= n < |s.pages|
    ensures var m := CleanupAt(s, p, n);
            Enabled(opts, m, CleanupPage(p)) && CleanupAt(s, p, n + 1) == Step(opts, m, CleanupPage(p))
  {
    hide FreePages;
    var m, m' := CleanupAt(s, p, n), CleanupAt(s, p, n + 1);
    FreePagesStep(s.pages, n);
    assert m'.fsm == if s.pages[n].Reusable() then m.fsm + {n} else m.fsm;
    assert m'.procs == m.procs[p := m'.procs[p]];
  }

  lemma {:induction false} CleanupRun(opts: Options, s: State, p: nat, n: nat)
    requires s.metaOwner == None && p !in s.procs && 1 <= n <= |s.pages|
    ensures Reaches(opts, s, CleanupAt(s, p, n))
  {
    if n == 1 {
      ReachesSelf(opts, s);
      assert CleanupAt(s, p, 1) == Step(opts, s, BeginCleanup(p)) by {
        assert s.fsm + FreePages(s.pages, 1) == s.fsm;
      }
      ReachesNext(opts, s, s, BeginCleanup(p), CleanupAt(s, p, 1));
    } else {
      CleanupRun(opts, s, p, n - 1);
      CleanupAtStep(opts, s, p, n - 1);
      ReachesNext(opts, s, CleanupAt(s, p, n - 1), CleanupPage(p), CleanupAt(s, p, n));
    }
  }

  /** Tuples on the pages below block `n`. */
  ghost function TupleCount(pages: seq<Page>, n: nat): nat
    requires n <= |pages|
  {
    if n == 0 then 0 else TupleCount(pages, n - 1) + |Tuples(pages[n - 1])|
  }

  lemma {:induction false} TupleCountIsSize(pages: seq<Page>, n: nat)
    requires n <= |pages|
    ensures TupleCount(pages, n) == |TuplesIn(pages, 0, n)|
  {
    if n > 0 {
      TupleCountIsSize(pages, n - 1);
    }
  }

  // ------------------------------------------------------------ scan

  /** What a scan has found on the blocks 1..n-1. */
  function FoundTo(pages: seq<Page>, sign: seq<Word>, n: nat): seq<BloomTuple>
    requires n <= |pages|
  {
    if n <= 1 then []
    else
      var found := FoundTo(pages, sign, n - 1);
      if pages[n - 1].Reusable() then found else found + Matching(Tuples(pages[n - 1]), sign)
  }

  ghost function ScanAt(s: State, p: nat, sign: seq<Word>, n: nat): State
    requires 1 <= n <= |s.pages|
  {
    SetProc(s, p, Scan(sign, |s.pages|, n, multiset(FoundTo(s.pages, sign, n)), Contents(s), s.inserted, s.removed))
  }

  lemma ScanAtStep(opts: Options, s: State, p: nat, sign: seq<Word>, n: nat)
    requires s.metaOwner == None && 1 <= n < |s.pages|
    ensures var m := ScanAt(s, p, sign, n);
            Enabled(opts, m, ScanPage(p)) && ScanAt(s, p, sign, n + 1) == Step(opts, m, ScanPage(p))
  {
    var m, m' := ScanAt(s, p, sign, n), ScanAt(s, p, sign, n + 1);
    assert m'.procs[p].found == FoundOn(s.pages[n], sign, m.procs[p].found);
    assert m'.procs == m.procs[p := m'.procs[p]];
  }

  lemma ScanAtNext(opts: Options, s: State, p: nat, sign: seq<Word>, n: nat)
    requires s.metaOwner == None && 1 < n <= |s.pages| && Reaches(opts, s, ScanAt(s, p, sign, n - 1))
    ensures Reaches(opts, s, ScanAt(s, p, sign, n))
  {
    ScanAtStep(opts, s, p, sign, n - 1);
    ReachesStep(opts, s, ScanAt(s, p, sign, n - 1), ScanPage(p));
  }

  lemma ScanAtStart(opts: Options, s: State, p: nat, sign: seq<Word>)
    requires p !in s.procs && |sign| == opts.bloomLength && 1 <= |s.pages|
    ensures Reaches(opts, s, ScanAt(s, p, sign, 1))
  {
    ReachesSelf(opts, s);
    ReachesNext(opts, s, s, BeginScan(p, sign), ScanAt(s, p, sign, 1));
  }

  lemma {:induction false} ScanRun(opts: Options, s: State, p: nat, sign: seq<Word>, n: nat)
    requires s.metaOwner == None && p !in s.procs && |sign| == opts.bloomLength && 1 <= n <= |s.pages|
    ensures Reaches(opts, s, ScanAt(s, p, sign, n))
  {
    if n == 1 {
      ScanAtStart(opts, s, p, sign);
    } else {
      ScanRun(opts, s, p, sign, n - 1);
      ScanAtNext(opts, s, p, sign, n);
    }
  }

  /** Alone, a scan finds exactly the tuples that pass the signature test. */
  lemma FoundAll(opts: Options, s: State, p: nat, sign: seq<Word>, t: BloomTuple)
    requires opts.Legal() && Inv(opts, s) && s.metaOwner == None && p !in s.procs && |sign| == opts.bloomLength
    ensures multiset(FoundTo(s.pages, sign, |s.pages|))[t] == if Hits(t, sign) then Contents(s)[t] else 0
  {
    ScanRun(opts, s, p, sign, |s.pages|);
    var s' := ScanAt(s, p, sign, |s.pages|);
    ReachesInv(opts, s, s');
    assert Bound(s'.pages, s'.inserted, s'.removed, s'.procs[p]);
    assert TuplesIn(s.pages, |s.pages|, |s.pages|) == multiset{};
  }
}
