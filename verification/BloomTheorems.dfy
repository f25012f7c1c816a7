/**
 The main results about the Bloom index, over whole runs: conservation, exactly
 once insertion, complete bulk deletes, scans without false negatives, and
 termination of the slow insert path.
 */
module BloomTheorems {
  import opened Common
  import opened BloomSignature
  import opened BloomPage
  import opened BloomProtocol
  import opened BloomSafety

  lemma InitialInv(opts: Options, s: State)
    requires Initial(opts, s)
    ensures Inv(opts, s)
  {
  }

  /** The invariant holds in every state of every run of every interleaving. */
  lemma {:induction false} RunInv(opts: Options, states: seq<State>, actions: seq<Action>, n: nat)
    requires opts.Legal() && Run(opts, states, actions) && Initial(opts, states[0]) && n < |states|
    ensures Inv(opts, states[n])
  {
    if n == 0 {
      InitialInv(opts, states[0]);
    } else {
      RunInv(opts, states, actions, n - 1);
      assert Linked(opts, states, actions, n - 1);
      StepInv(opts, states[n - 1], actions[n - 1]);
    }
  }

  /** Conservation: the index holds the inserted tuples minus the removed ones, each exactly as often. */
  lemma Conservation(opts: Options, states: seq<State>, actions: seq<Action>, n: nat)
    requires opts.Legal() && Run(opts, states, actions) && Initial(opts, states[0]) && n < |states|
    ensures Contents(states[n]) + states[n].removed == states[n].inserted
  {
    RunInv(opts, states, actions, n);
  }

  // ------------------------------------------------------------ refinement of a plain multiset

  /** Backend `p` finishes inserting `t`. */
  ghost predicate AbstractInsert(s: State, s': State, p: nat) {
    && p in s.procs && Inserting(s.procs[p]) && s'.procs == s.procs[p := InsDone(s.procs[p].t)]
    && Contents(s') == Contents(s) + multiset{s.procs[p].t}
    && s'.inserted == s.inserted + multiset{s.procs[p].t} && s'.removed == s.removed
  }

  /** Bulk delete `p` takes away some tuples, all of them accepted by its callback. */
  ghost predicate AbstractDelete(s: State, s': State, p: nat, gone: Live) {
    && p in s.procs && s.procs[p].Vacuum? && (forall t :: t in gone ==> t.heapPtr in s.procs[p].dead)
    && Contents(s') + gone == Contents(s)
    && s'.removed == s.removed + gone && s'.inserted == s.inserted
    && p in s'.procs && s'.procs[p].Vacuum? && s'.procs == s.procs[p := s'.procs[p]]
  }

  /** Nothing happens to the contents and no insert finishes. */
  ghost predicate AbstractStutter(s: State, s': State) {
    && Contents(s') == Contents(s) && s'.inserted == s.inserted && s'.removed == s.removed
    && (forall p :: p in s'.procs && s'.procs[p].InsDone? ==> p in s.procs && s.procs[p] == s'.procs[p])
    && (forall p :: p in s.procs && s.procs[p].InsDone? ==> p in s'.procs && s'.procs[p] == s.procs[p])
  }

  ghost function Gone(s: State, a: Action): Live {
    if a.VacuumPage? && a.p in s.procs && s.procs[a.p].Vacuum? && s.procs[a.p].blk < |s.pages|
    then Dropped(Tuples(s.pages[s.procs[a.p].blk]), s.procs[a.p].dead)
    else multiset{}
  }

  lemma ContentsFromHistory(s: State, s': State, add: Live, drop: Live)
    requires Conserved(s) && Conserved(s')
    requires s'.inserted == s.inserted + add && s'.removed == s.removed + drop
    ensures Contents(s') + drop == Contents(s) + add
  {
    forall t: BloomTuple
      ensures (Contents(s') + drop)[t] == (Contents(s) + add)[t]
    {
      assert (Contents(s') + s'.removed)[t] == s'.inserted[t];
      assert (Contents(s) + s.removed)[t] == s.inserted[t];
    }
  }

  /** A commit, described without pages. */
  lemma CommitRefines(opts: Options, s: State, s': State, p: nat, blk: nat)
    requires Conserved(s) && Conserved(s') && p in s.procs && Inserting(s.procs[p]) && DataBlock(s, blk)
    requires s' == CommitInsert(opts, s, p, s.procs[p].t, blk, s'.meta).(metaOwner := s'.metaOwner, fsm := s'.fsm)
    ensures AbstractInsert(s, s', p)
  {
    assert s.removed + multiset{} == s.removed;
    ContentsFromHistory(s, s', multiset{s.procs[p].t}, multiset{});
    assert Contents(s') + multiset{} == Contents(s');
  }

  lemma TryFirstRefines(opts: Options, s: State, p: nat)
    requires opts.Legal() && Inv(opts, s) && Enabled(opts, s, TryFirst(p))
    ensures AbstractInsert(s, DoTryFirst(opts, s, p), p) || AbstractStutter(s, DoTryFirst(opts, s, p))
  {
    hide Structure, Bounds, AddItem, HasRoom, TuplesIn;
    TryFirstInv(opts, s, p);
    if Accepts(opts, s.pages[s.procs[p].blk]) {
      CommitRefines(opts, s, DoTryFirst(opts, s, p), p, s.procs[p].blk);
    }
  }

  lemma TryListedRefines(opts: Options, s: State, p: nat)
    requires opts.Legal() && Inv(opts, s) && Enabled(opts, s, TryListed(p))
    ensures AbstractInsert(s, DoTryListed(opts, s, p), p) || AbstractStutter(s, DoTryListed(opts, s, p))
  {
    hide Structure, Bounds, AddItem, HasRoom, TuplesIn;
    TryListedInv(opts, s, p);
    var k := s.procs[p].k;
    if k < s.meta.nEnd && Accepts(opts, s.pages[s.meta.notFull[k]]) {
      CommitRefines(opts, s, DoTryListed(opts, s, p), p, s.meta.notFull[k]);
    }
  }

  lemma FillRefines(opts: Options, s: State, p: nat, blk: nat, fsm: set<nat>)
    requires opts.Legal() && Inv(opts, s) && p in s.procs && Inserting(s.procs[p]) && s.metaOwner == Some(p)
    requires DataBlock(s, blk) && s.pages[blk].Reusable() && |s.meta.notFull| > 0 && fsm <= s.fsm
    ensures AbstractInsert(s, DoFill(opts, s, p, s.procs[p].t, blk).(fsm := fsm), p)
  {
    FillInv(opts, s, p, blk, fsm);
    FillSucceeds(opts, s, p, s.procs[p].t, blk);
    CommitRefines(opts, s, DoFill(opts, s, p, s.procs[p].t, blk).(fsm := fsm), p, blk);
  }

  lemma DeleteRefines(opts: Options, s: State, p: nat)
    requires opts.Legal() && Inv(opts, s) && Enabled(opts, s, VacuumPage(p))
    ensures AbstractDelete(s, DoVacuumPage(opts, s, p), p, Gone(s, VacuumPage(p)))
  {
    var s', v := DoVacuumPage(opts, s, p), s.procs[p];
    VacuumPageInv(opts, s, p);
    VacuumPageForm(opts, s, p);
    KeptAndDropped(Tuples(s.pages[v.blk]), v.dead);
    assert s.inserted + multiset{} == s.inserted;
    ContentsFromHistory(s, s', multiset{}, Gone(s, VacuumPage(p)));
    assert Contents(s) + multiset{} == Contents(s);
  }

  /**
   Refinement: whatever the interleaving, each action acts on the plain multiset
   of tuples as one insert by a backend that thereby finishes, one removal of
   tuples its callback accepts, or not at all.
   */
  lemma StepRefines(opts: Options, s: State, a: Action)
    requires opts.Legal() && Inv(opts, s) && Enabled(opts, s, a)
    ensures var s' := Step(opts, s, a);
            AbstractInsert(s, s', a.p) || AbstractDelete(s, s', a.p, Gone(s, a)) || AbstractStutter(s, s')
  {
    if a.TryFirst? {
      TryFirstRefines(opts, s, a.p);
    } else if a.TryListed? {
      TryListedRefines(opts, s, a.p);
    } else if a.Recycle? {
      assert ProcOk(opts, s, a.p, s.procs[a.p]);
      FillRefines(opts, s, a.p, a.blk, s.fsm - {a.blk});
    } else if a.FillExtended? {
      assert ProcOk(opts, s, a.p, s.procs[a.p]);
      FillRefines(opts, s, a.p, s.procs[a.p].blk, s.fsm);
    } else if a.VacuumPage? {
      DeleteRefines(opts, s, a.p);
    } else {
      QuietForm(opts, s, a);
      Stutters(s, Step(opts, s, a), a.p);
    }
  }

  lemma Stutters(s: State, s': State, p: nat)
    requires s'.pages == s.pages || s'.pages == s.pages + [NewPage]
    requires s'.inserted == s.inserted && s'.removed == s.removed
    requires p in s'.procs && !s'.procs[p].InsDone? && s'.procs == s.procs[p := s'.procs[p]]
    requires p in s.procs ==> !s.procs[p].InsDone?
    ensures AbstractStutter(s, s')
  {
    AppendCount(s.pages);
  }

  /** The remaining actions change neither tuples nor history, and finish no insert. */
  lemma QuietForm(opts: Options, s: State, a: Action)
    requires Enabled(opts, s, a)
    requires !(a.TryFirst? || a.TryListed? || a.Recycle? || a.FillExtended? || a.VacuumPage?)
    ensures var s' := Step(opts, s, a);
            && s'.pages == (if a.Extend? then s.pages + [NewPage] else s.pages)
            && s'.inserted == s.inserted && s'.removed == s.removed
            && a.p in s'.procs && !s'.procs[a.p].InsDone? && s'.procs == s.procs[a.p := s'.procs[a.p]]
            && (a.p in s.procs ==> !s.procs[a.p].InsDone?)
  {
  }

  // ------------------------------------------------------------ bulk delete

  /** Only backend `p` may have moved. */
  ghost predicate OnlyMoved(s: State, s': State, p: nat) {
    p in s'.procs && s'.procs == s.procs[p := s'.procs[p]]
  }

  lemma InserterMoves(opts: Options, s: State, a: Action)
    requires Enabled(opts, s, a) && (a.TryFirst? || a.LockMeta? || a.TryListed? || a.Recycle? || a.FillExtended?)
    ensures OnlyMoved(s, Step(opts, s, a), a.p)
  {
    hide AddItem, HasRoom, TuplesIn;
  }

  lemma PassMoves(opts: Options, s: State, a: Action)
    requires Enabled(opts, s, a) && (a.VacuumPage? || a.VacuumMeta? || a.CleanupPage? || a.ScanPage?)
    ensures OnlyMoved(s, Step(opts, s, a), a.p)
  {
    hide HasRoom, Compact, Dropped, Matching, TuplesIn;
  }

  /** An action changes the program state of the backend that takes it, and of no other. */
  lemma OnlyActorMoves(opts: Options, s: State, a: Action)
    requires Enabled(opts, s, a)
    ensures OnlyMoved(s, Step(opts, s, a), a.p)
  {
    hide AddItem, HasRoom, Compact, Dropped, Matching, TuplesIn, DoTryFirst, DoLockMeta,
         DoTryListed, DoFill, DoVacuumPage, DoVacuumMeta, DoCleanupPage, DoScanPage;
    if a.TryFirst? || a.LockMeta? || a.TryListed? || a.Recycle? || a.FillExtended? {
      InserterMoves(opts, s, a);
    } else if a.VacuumPage? || a.VacuumMeta? || a.CleanupPage? || a.ScanPage? {
      PassMoves(opts, s, a);
    }
  }

  /** `proc` is the bulk delete for `dead` that began when `before` had been inserted. */
  ghost predicate IsVacuum(proc: Proc, dead: set<Tid>, before: Live) {
    (proc.Vacuum? || proc.VacDone?) && proc.dead == dead && proc.before == before
  }

  lemma VacuumKeeps(opts: Options, s: State, a: Action, p: nat, dead: set<Tid>, before: Live)
    requires Enabled(opts, s, a) && p in s.procs && IsVacuum(s.procs[p], dead, before)
    ensures var s' := Step(opts, s, a); p in s'.procs && IsVacuum(s'.procs[p], dead, before)
  {
    OnlyActorMoves(opts, s, a);
  }

  lemma VacuumBegins(opts: Options, states: seq<State>, actions: seq<Action>, i: nat, p: nat, dead: set<Tid>)
    requires Run(opts, states, actions) && i < |actions| && actions[i] == BeginVacuum(p, dead)
    ensures p in states[i + 1].procs && IsVacuum(states[i + 1].procs[p], dead, states[i].inserted)
  {
    assert Linked(opts, states, actions, i);
  }

  lemma VacuumStays(opts: Options, states: seq<State>, actions: seq<Action>, i: nat, p: nat, dead: set<Tid>,
                    before: Live)
    requires Run(opts, states, actions) && i < |actions| && p in states[i].procs
    requires IsVacuum(states[i].procs[p], dead, before)
    ensures p in states[i + 1].procs && IsVacuum(states[i + 1].procs[p], dead, before)
  {
    assert Linked(opts, states, actions, i);
    VacuumKeeps(opts, states[i], actions[i], p, dead, before);
  }

  lemma {:induction false} VacuumHistory(opts: Options, states: seq<State>, actions: seq<Action>, i: nat, j: nat,
                                         p: nat, dead: set<Tid>)
    requires Run(opts, states, actions) && i < j < |states| && actions[i] == BeginVacuum(p, dead)
    ensures p in states[j].procs && IsVacuum(states[j].procs[p], dead, states[i].inserted)
    decreases j
  {
    if j == i + 1 {
      VacuumBegins(opts, states, actions, i, p, dead);
    } else {
      VacuumHistory(opts, states, actions, i, j - 1, p, dead);
      VacuumStays(opts, states, actions, j - 1, p, dead, states[i].inserted);
    }
  }

  /**
   A finished bulk delete is complete: a tuple its callback accepts is in the
   index at most as often as it was inserted after the pass began, so every copy
   present at the start is gone, whatever else ran meanwhile.
   */
  lemma BulkDeleteComplete(opts: Options, states: seq<State>, actions: seq<Action>, i: nat, j: nat,
                           p: nat, dead: set<Tid>, t: BloomTuple)
    requires opts.Legal() && Run(opts, states, actions) && Initial(opts, states[0])
    requires i < j < |states| && actions[i] == BeginVacuum(p, dead) && t.heapPtr in dead
    requires p in states[j].procs && states[j].procs[p].VacDone?
    ensures Contents(states[j])[t] + states[i].inserted[t] <= states[j].inserted[t]
  {
    RunInv(opts, states, actions, j);
    VacuumHistory(opts, states, actions, i, j, p, dead);
    assert Bound(states[j].pages, states[j].inserted, states[j].removed, states[j].procs[p]);
  }

  /** No bulk delete started so far accepts `tid`. */
  ghost predicate Spared(s: State, tid: Tid) {
    forall p :: p in s.procs && s.procs[p].Vacuum? ==> tid !in s.procs[p].dead
  }

  lemma SparedKeeps(opts: Options, s: State, a: Action, tid: Tid)
    requires Enabled(opts, s, a) && Spared(s, tid)
    requires a.BeginVacuum? ==> tid !in a.dead
    ensures Spared(Step(opts, s, a), tid)
  {
    OnlyActorMoves(opts, s, a);
    var s' := Step(opts, s, a);
    assert s'.procs[a.p].Vacuum? ==> tid !in s'.procs[a.p].dead;
  }

  lemma {:induction false} SparedRun(opts: Options, states: seq<State>, actions: seq<Action>, n: nat, t: BloomTuple)
    requires opts.Legal() && Run(opts, states, actions) && Initial(opts, states[0]) && n < |states|
    requires forall i :: 0 <= i < n && actions[i].BeginVacuum? ==> t.heapPtr !in actions[i].dead
    ensures Spared(states[n], t.heapPtr) && states[n].removed[t] == 0
  {
    if n > 0 {
      SparedRun(opts, states, actions, n - 1, t);
      RunInv(opts, states, actions, n - 1);
      assert Linked(opts, states, actions, n - 1);
      SparedKeeps(opts, states[n - 1], actions[n - 1], t.heapPtr);
      StepRefines(opts, states[n - 1], actions[n - 1]);
    }
  }

  /** No tuple is lost: one that no bulk delete accepts is in the index exactly as often as it was inserted. */
  lemma NothingElseRemoved(opts: Options, states: seq<State>, actions: seq<Action>, n: nat, t: BloomTuple)
    requires opts.Legal() && Run(opts, states, actions) && Initial(opts, states[0]) && n < |states|
    requires forall i :: 0 <= i < n && actions[i].BeginVacuum? ==> t.heapPtr !in actions[i].dead
    ensures Contents(states[n])[t] == states[n].inserted[t]
  {
    SparedRun(opts, states, actions, n, t);
    Conservation(opts, states, actions, n);
    assert (Contents(states[n]) + states[n].removed)[t] == states[n].inserted[t];
  }

  // ------------------------------------------------------------ scans

  /** `proc` is the scan for `sign` that began in state `s0`. */
  ghost predicate IsScan(proc: Proc, sign: seq<Word>, s0: State) {
    && proc.Scan? && proc.sign == sign && proc.npages == |s0.pages|
    && proc.live == Contents(s0) && proc.inserted == s0.inserted && proc.removed == s0.removed
  }

  lemma ScanKeeps(opts: Options, s: State, a: Action, p: nat, sign: seq<Word>, s0: State)
    requires Enabled(opts, s, a) && p in s.procs && IsScan(s.procs[p], sign, s0)
    ensures var s' := Step(opts, s, a); p in s'.procs && IsScan(s'.procs[p], sign, s0)
  {
    OnlyActorMoves(opts, s, a);
  }

  lemma ScanBegins(opts: Options, states: seq<State>, actions: seq<Action>, i: nat, p: nat, sign: seq<Word>)
    requires Run(opts, states, actions) && i < |actions| && actions[i] == BeginScan(p, sign)
    ensures p in states[i + 1].procs && IsScan(states[i + 1].procs[p], sign, states[i])
  {
    assert Linked(opts, states, actions, i);
  }

  lemma ScanStays(opts: Options, states: seq<State>, actions: seq<Action>, i: nat, p: nat, sign: seq<Word>, s0: State)
    requires Run(opts, states, actions) && i < |actions| && p in states[i].procs && IsScan(states[i].procs[p], sign, s0)
    ensures p in states[i + 1].procs && IsScan(states[i + 1].procs[p], sign, s0)
  {
    assert Linked(opts, states, actions, i);
    ScanKeeps(opts, states[i], actions[i], p, sign, s0);
  }

  lemma {:induction false} ScanHistory(opts: Options, states: seq<State>, actions: seq<Action>, i: nat, j: nat, p: nat,
                                       sign: seq<Word>)
    requires Run(opts, states, actions) && i < j < |states| && actions[i] == BeginScan(p, sign)
    ensures p in states[j].procs && IsScan(states[j].procs[p], sign, states[i])
    decreases j
  {
    if j == i + 1 {
      ScanBegins(opts, states, actions, i, p, sign);
    } else {
      ScanHistory(opts, states, actions, i, j - 1, p, sign);
      ScanStays(opts, states, actions, j - 1, p, sign, states[i]);
    }
  }

  /**
   A finished scan, started in state i: it found every matching tuple that was
   live when it began and not removed since, found nothing that does not match,
   and found no more copies than were live or inserted.
   */
  lemma ScanExact(opts: Options, states: seq<State>, actions: seq<Action>, i: nat, j: nat, p: nat, sign: seq<Word>,
                  t: BloomTuple)
    requires opts.Legal() && Run(opts, states, actions) && Initial(opts, states[0])
    requires i < j < |states| && actions[i] == BeginScan(p, sign)
    requires p in states[j].procs && states[j].procs[p].Scan? && states[j].procs[p].blk == states[j].procs[p].npages
    ensures Hits(t, sign) ==>
              Contents(states[i])[t] + states[i].removed[t] <= states[j].procs[p].found[t] + states[j].removed[t]
    ensures states[j].procs[p].found[t] + states[i].inserted[t] <= Contents(states[i])[t] + states[j].inserted[t]
    ensures t in states[j].procs[p].found ==> Hits(t, sign)
  {
    RunInv(opts, states, actions, j);
    ScanHistory(opts, states, actions, i, j, p, sign);
    var s, c := states[j], states[j].procs[p];
    assert ProcOk(opts, s, p, c);
    assert Bound(s.pages, s.inserted, s.removed, c);
    assert TuplesIn(s.pages, c.blk, c.npages) == multiset{};
  }

  /**
   No false negatives, end to end.  A row that agrees with every scan key, whose
   index entry was live when the scan began and was not removed while it ran, is
   returned, whatever inserts, bulk deletes and cleanups ran meanwhile.
   */
  lemma NoFalseNegatives(opts: Options, hashFn: HashFn, values: seq<Nullable>, keys: seq<ScanKey>, t: BloomTuple,
                         sign: seq<Word>, states: seq<State>, actions: seq<Action>, i: nat, j: nat, p: nat)
    requires opts.Legal() && Run(opts, states, actions) && Initial(opts, states[0])
    requires i < j < |states| && actions[i] == BeginScan(p, sign)
    requires p in states[j].procs && states[j].procs[p].Scan? && states[j].procs[p].blk == states[j].procs[p].npages
    requires HashesAgree(hashFn, values, keys)
    requires RowSigned(opts, hashFn, values, t.sign) && ScanSigned(opts, hashFn, keys, sign)
    requires t in Contents(states[i]) && states[j].removed[t] == states[i].removed[t]
    ensures t in states[j].procs[p].found
  {
    AgreeingRowMatches(opts, hashFn, values, keys, t.sign, sign);
    ScanExact(opts, states, actions, i, j, p, sign, t);
  }

  /** A tuple that lacks a position of one of the keys is not returned. */
  lemma LackingBitNotFound(opts: Options, hashFn: HashFn, keys: seq<ScanKey>, t: BloomTuple, sign: seq<Word>,
                           states: seq<State>, actions: seq<Action>, i: nat, j: nat, p: nat, k: nat, b: int)
    requires opts.Legal() && Run(opts, states, actions) && Initial(opts, states[0])
    requires i < j < |states| && actions[i] == BeginScan(p, sign) && ScanSigned(opts, hashFn, keys, sign)
    requires p in states[j].procs && states[j].procs[p].Scan? && states[j].procs[p].blk == states[j].procs[p].npages
    requires k < |keys| && KeySigns(opts, hashFn, keys[k], b) && b !in Positions(t.sign)
    ensures t !in states[j].procs[p].found
  {
    hide ScanSigned, KeySigns, Positions, Run, Initial;
    ScanExact(opts, states, actions, i, j, p, sign, t);
    if Hits(t, sign) {
      MatchIsEveryBit(opts, hashFn, keys, sign, t.sign);
    }
  }

  // ------------------------------------------------------------ exactly once

  /** The backends that have finished inserting `t`. */
  ghost function Finished(s: State, t: BloomTuple): set<nat> {
    set p | p in s.procs && s.procs[p] == InsDone(t)
  }

  lemma FinishedStep(s: State, s': State, p: nat, gone: Live, t: BloomTuple)
    requires AbstractInsert(s, s', p) || AbstractDelete(s, s', p, gone) || AbstractStutter(s, s')
    ensures |Finished(s', t)| - |Finished(s, t)| == s'.inserted[t] - s.inserted[t]
  {
    if AbstractInsert(s, s', p) {
      FinishedInsert(s, s', p, t);
    } else {
      assert Finished(s', t) == Finished(s, t);
    }
  }

  lemma FinishedInsert(s: State, s': State, p: nat, t: BloomTuple)
    requires AbstractInsert(s, s', p)
    ensures |Finished(s', t)| - |Finished(s, t)| == s'.inserted[t] - s.inserted[t]
  {
    if s.procs[p].t == t {
      assert Finished(s', t) == Finished(s, t) + {p};
    } else {
      assert Finished(s', t) == Finished(s, t);
    }
  }

  /**
   Beyond what the build loaded, each finished insert put its tuple in exactly once;
   unfinished and aborted ones never did.
   */
  lemma {:induction false} ExactlyOnce(opts: Options, states: seq<State>, actions: seq<Action>, n: nat, t: BloomTuple)
    requires opts.Legal() && Run(opts, states, actions) && Initial(opts, states[0]) && n < |states|
    ensures states[n].inserted[t] == states[0].inserted[t] + |Finished(states[n], t)|
  {
    if n == 0 {
      assert Finished(states[0], t) == {};
    } else {
      ExactlyOnce(opts, states, actions, n - 1, t);
      RunInv(opts, states, actions, n - 1);
      assert Linked(opts, states, actions, n - 1);
      StepRefines(opts, states[n - 1], actions[n - 1]);
      FinishedStep(states[n - 1], states[n], actions[n - 1].p, Gone(states[n - 1], actions[n - 1]), t);
    }
  }

  // ------------------------------------------------------------ pages, progress, errors

  /**
   Tuples never move between pages, and reinitialising a page never costs one:
   each page keeps its tuples, gains one at the end, or is filtered by a callback.
   */
  lemma TuplesStayPut(opts: Options, s: State, a: Action, i: nat)
    requires opts.Legal() && Inv(opts, s) && Enabled(opts, s, a) && i < |s.pages|
    ensures var s' := Step(opts, s, a);
            && i < |s'.pages|
            && (|| Tuples(s'.pages[i]) == Tuples(s.pages[i])
                || (Inserting(s.procs[a.p]) && Tuples(s'.pages[i]) == Tuples(s.pages[i]) + [s.procs[a.p].t])
                || (s.procs[a.p].Vacuum? && Tuples(s'.pages[i]) == Kept(Tuples(s.pages[i]), s.procs[a.p].dead)))
  {
    if a.VacuumPage? {
      VacuumPageForm(opts, s, a.p);
      KeptAll(Tuples(s.pages[i]), s.procs[a.p].dead);
    } else if a.TryFirst? || a.TryListed? || a.Recycle? || a.FillExtended? {
      InsertTuples(opts, s, a, i);
    } else {
      QuietForm(opts, s, a);
    }
  }

  /** Page `i` is as before, or has the tuple of the inserting backend `p` at its end. */
  ghost predicate MayGain(s: State, s': State, p: nat, i: nat) {
    && i < |s.pages| && i < |s'.pages| && p in s.procs && Inserting(s.procs[p])
    && (Tuples(s'.pages[i]) == Tuples(s.pages[i]) || Tuples(s'.pages[i]) == Tuples(s.pages[i]) + [s.procs[p].t])
  }

  lemma CommitTuples(opts: Options, s: State, s': State, p: nat, blk: nat, i: nat)
    requires PagesOk(opts, s.pages) && DataBlock(s, blk) && p in s.procs && Inserting(s.procs[p]) && i < |s.pages|
    requires s'.pages == s.pages[blk := AddItem(opts, Prepared(s.pages[blk]), s.procs[p].t)]
    ensures MayGain(s, s', p, i)
  {
    assert Tuples(Prepared(s.pages[blk])) == Tuples(s.pages[blk]);
  }

  lemma InsertTuples(opts: Options, s: State, a: Action, i: nat)
    requires opts.Legal() && Inv(opts, s) && Enabled(opts, s, a) && i < |s.pages|
    requires a.TryFirst? || a.TryListed? || a.Recycle? || a.FillExtended?
    ensures MayGain(s, Step(opts, s, a), a.p, i)
  {
    var s', t := Step(opts, s, a), s.procs[a.p].t;
    assert ProcOk(opts, s, a.p, s.procs[a.p]);
    if s'.pages != s.pages {
      var blk := match a
        case TryFirst(p) => s.procs[p].blk
        case TryListed(p) => s.meta.notFull[s.procs[p].k]
        case Recycle(_, b) => b
        case FillExtended(p) => s.procs[p].blk;
      if a.Recycle? || a.FillExtended? {
        FillSucceeds(opts, s, a.p, t, blk);
      }
      CommitTuples(opts, s, s', a.p, blk, i);
    }
  }

  /**
   The slow insert loop terminates: while it runs nobody else touches the
   metapage, and each pass leaves the loop or shortens the remaining list.
   */
  lemma SlowLoopProgress(opts: Options, s: State, a: Action, p: nat)
    requires opts.Legal() && Inv(opts, s) && Enabled(opts, s, a) && p in s.procs && s.procs[p].InsLoop?
    ensures var s' := Step(opts, s, a);
            && p in s'.procs
            && (a.p != p ==> s'.procs[p] == s.procs[p] && s'.meta == s.meta)
            && (a.p == p && s'.procs[p].InsLoop? ==>
                  s'.meta.nEnd == s.meta.nEnd && 0 <= s'.meta.nEnd - s'.procs[p].k < s.meta.nEnd - s.procs[p].k)
  {
    OnlyActorMoves(opts, s, a);
    assert ProcOk(opts, s, p, s.procs[p]);
    if a.p != p {
      MetaLockHolds(opts, s, a, p);
    } else {
      assert a.TryListed? || a.Abort?;
    }
  }

  /** While one backend owns the metapage, no action of another changes it. */
  lemma MetaLockHolds(opts: Options, s: State, a: Action, p: nat)
    requires Inv(opts, s) && Enabled(opts, s, a) && s.metaOwner == Some(p) && a.p != p
    ensures Step(opts, s, a).meta == s.meta && Step(opts, s, a).metaOwner == s.metaOwner
  {
    if a.p in s.procs {
      assert ProcOk(opts, s, a.p, s.procs[a.p]);
    }
  }

  /**
   Inserters wait only for locks: whenever the locks an action needs are free,
   the blocks it is about to read exist, are data pages, and fit the metapage array.
   */
  lemma OnlyLocksBlockInserts(opts: Options, s: State, p: nat)
    requires Structure(opts, s) && p in s.procs
    ensures s.procs[p].InsStart? ==> (Enabled(opts, s, ReadMeta(p)) <==> s.metaOwner == None)
    ensures s.procs[p].InsFirst? ==> (Enabled(opts, s, TryFirst(p)) <==> PageUnlocked(s, s.procs[p].blk))
    ensures s.procs[p].InsSlow? ==> (Enabled(opts, s, LockMeta(p)) <==> s.metaOwner == None)
    ensures s.procs[p].InsLoop? ==> Enabled(opts, s, TryListed(p))
    ensures s.procs[p].InsAlloc? ==> Enabled(opts, s, Extend(p))
    ensures s.procs[p].InsExtended? ==> Enabled(opts, s, FillExtended(p))
  {
    assert ProcOk(opts, s, p, s.procs[p]);
  }

  /** Bulk deletes, cleanups and scans wait only for locks, too. */
  lemma OnlyLocksBlockPasses(opts: Options, s: State, p: nat)
    requires Structure(opts, s) && p in s.procs
    ensures s.procs[p].Vacuum? && s.procs[p].blk < s.procs[p].npages ==>
              (Enabled(opts, s, VacuumPage(p)) <==> PageUnlocked(s, s.procs[p].blk))
    ensures s.procs[p].Vacuum? && s.procs[p].blk >= s.procs[p].npages ==>
              (Enabled(opts, s, VacuumMeta(p)) <==> s.metaOwner == None)
    ensures s.procs[p].Cleanup? && s.procs[p].blk < s.procs[p].npages ==>
              (Enabled(opts, s, CleanupPage(p)) <==> PageUnlocked(s, s.procs[p].blk))
    ensures s.procs[p].Scan? && s.procs[p].blk < s.procs[p].npages ==>
              (Enabled(opts, s, ScanPage(p)) <==> PageUnlocked(s, s.procs[p].blk))
  {
    assert ProcOk(opts, s, p, s.procs[p]);
  }

  /** "could not add new bloom tuple to empty page" is never reported, in any run. */
  lemma NoInsertError(opts: Options, states: seq<State>, actions: seq<Action>, n: nat, p: nat)
    requires opts.Legal() && Run(opts, states, actions) && Initial(opts, states[0]) && n < |states|
    requires p in states[n].procs
    ensures !states[n].procs[p].InsError?
  {
    RunInv(opts, states, actions, n);
    assert ProcOk(opts, states[n], p, states[n].procs[p]);
  }

  // ------------------------------------------------------------ reachability

  /** Some run leads from `s` to `s'`. */
  ghost predicate Reaches(opts: Options, s: State, s': State) {
    exists states, actions :: RunsFromTo(opts, s, s', states, actions)
  }

  ghost predicate RunsFromTo(opts: Options, s: State, s': State, states: seq<State>, actions: seq<Action>) {
    Run(opts, states, actions) && states[0] == s && states[|actions|] == s'
  }

  lemma ReachesSelf(opts: Options, s: State)
    ensures Reaches(opts, s, s)
  {
    assert RunsFromTo(opts, s, s, [s], []);
  }

  lemma ReachesStep(opts: Options, s: State, m: State, a: Action)
    requires Reaches(opts, s, m) && Enabled(opts, m, a)
    ensures Reaches(opts, s, Step(opts, m, a))
  {
    var states, actions :| RunsFromTo(opts, s, m, states, actions);
    RunAppend(opts, s, m, states, actions, a);
  }

  lemma RunAppend(opts: Options, s: State, m: State, states: seq<State>, actions: seq<Action>, a: Action)
    requires RunsFromTo(opts, s, m, states, actions) && Enabled(opts, m, a)
    ensures RunsFromTo(opts, s, Step(opts, m, a), states + [Step(opts, m, a)], actions + [a])
  {
    var next := Step(opts, m, a);
    var states', actions' := states + [next], actions + [a];
    forall i | 0 <= i < |actions'|
      ensures Linked(opts, states', actions', i)
    {
      if i < |actions| {
        assert Linked(opts, states, actions, i);
        assert states'[i] == states[i] && states'[i + 1] == states[i + 1] && actions'[i] == actions[i];
      } else {
        assert states'[i] == m && states'[i + 1] == next && actions'[i] == a;
      }
    }
  }

  lemma {:induction false} RunKeepsInv(opts: Options, states: seq<State>, actions: seq<Action>, n: nat)
    requires opts.Legal() && Run(opts, states, actions) && Inv(opts, states[0]) && n < |states|
    ensures Inv(opts, states[n])
  {
    if n > 0 {
      RunKeepsInv(opts, states, actions, n - 1);
      assert Linked(opts, states, actions, n - 1);
      StepInv(opts, states[n - 1], actions[n - 1]);
    }
  }

  lemma ReachesInv(opts: Options, s: State, s': State)
    requires opts.Legal() && Inv(opts, s) && Reaches(opts, s, s')
    ensures Inv(opts, s')
  {
    var states, actions :| RunsFromTo(opts, s, s', states, actions);
    RunKeepsInv(opts, states, actions, |actions|);
  }
}
