/**
 Walking a level from its leftmost page (`bt_check_level_from_leftmost`): when the walk
 succeeds, and what it then says about the level.
 */
module NbtreeLevel {
  import opened Common
  import opened NbtreePages
  import opened NbtreeLockstep
  import opened NbtreeTarget

  datatype Level = Level(level: nat, leftmost: nat, trueRoot: bool)

  predicate Live(ix: Index, b: nat) {
    b in ix && !ix[b].Ignore()
  }

  // ------------------------------------------------------------ what is carried along

  /** What the checker remembers between pages: the level below, the lockstep and the last high key. */
  datatype Seen = Seen(nextdown: nat, lag: Lag, lowkey: Option<Item>)

  function SeeMore(ix: Index, s: Seen, b: nat): Seen {
    if b !in ix then s
    else
      Seen(
        if Live(ix, b) && s.nextdown == INVALID_BLOCK then FirstDown(ix[b]) else s.nextdown,
        if Live(ix, b) then PageLag(ix, ix[b], s.lag) else s.lag,
        if ix[b].Rightmost() then None else Some(ix[b].hikey))
  }

  function FirstDown(p: Page): nat {
    if p.leaf || p.items == [] then P_NONE else p.items[0].child
  }

  /** What is remembered after `walk`. */
  function SeenBy(ix: Index, walk: seq<nat>): Seen {
    if walk == [] then Seen(INVALID_BLOCK, NO_LAG, None)
    else SeeMore(ix, SeenBy(ix, walk[..|walk| - 1]), walk[|walk| - 1])
  }

  lemma SeenNext(ix: Index, walk: seq<nat>, b: nat)
    ensures SeenBy(ix, walk + [b]) == SeeMore(ix, SeenBy(ix, walk), b)
  {
    hide SeeMore;
    assert (walk + [b])[..|walk|] == walk;
  }

  /**
   What is remembered comes from the page just visited: its high key, and after a live
   internal page the right link and split flag of the page below its last item, unless
   that is where the level below ends.
   */
  lemma RememberedFromLast(ix: Index, walk: seq<nat>, b: nat)
    requires Loads(ix, b)
    ensures var p, s := ix[b], SeenBy(ix, walk + [b]);
            && s.lowkey == (if p.next == P_NONE then None else Some(p.hikey))
            && (!p.deleted && !p.halfDead && !p.leaf ==>
                  var c := p.items[|p.items| - 1].child;
                  s.lag == if p.next == P_NONE || c == P_NONE || c !in ix then Lag(INVALID_BLOCK, false)
                           else Lag(ix[c].next, ix[c].incomplete))
  {
    SeenNext(ix, walk, b);
  }

  // ------------------------------------------------------------ when nothing is wrong

  /** Page `current` fits where it was found: after page `left`, if there is one. */
  ghost predicate Placed(ix: Index, lv: Level, left: Option<nat>, current: nat) {
    && Loads(ix, current) && !ix[current].deleted && ix[current].prev != current && left != Some(current)
    && (ix[current].Ignore() ==> !ix[current].Rightmost())
    && (Live(ix, current) ==> ix[current].level == lv.level && (left.Some? ==> ix[current].prev == left.value))
  }

  ghost predicate StartsLevel(ix: Index, lv: Level, b: nat) {
    IsLeftmost(ix, b) && b in ix && (lv.trueRoot ==> ix[b].root)
  }

  function LastOf(walk: seq<nat>): Option<nat> {
    if walk == [] then None else Some(walk[|walk| - 1])
  }

  /** Nothing is wrong with page `current`, visited after page `left` when `s` was remembered. */
  ghost predicate TurnClean(ix: Index, lv: Level, stray: Item, left: Option<nat>, current: nat, s: Seen) {
    && Placed(ix, lv, left, current)
    && (Live(ix, current) ==>
          && (s.nextdown == INVALID_BLOCK ==> StartsLevel(ix, lv, current))
          && TargetPasses(ix, current, s.lowkey, stray, s.lag))
  }

  ghost predicate WalkClean(ix: Index, lv: Level, stray: Item, walk: seq<nat>) {
    forall k :: 0 <= k < |walk| ==> TurnClean(ix, lv, stray, LastOf(walk[..k]), walk[k], SeenBy(ix, walk[..k]))
  }

  /** Nothing is wrong with the level. */
  ghost predicate LevelClean(ix: Index, lv: Level, stray: Item, walk: seq<nat>) {
    FullChain(ix, lv.leftmost, walk) && WalkClean(ix, lv, stray, walk)
  }

  lemma CleanSoFar(ix: Index, lv: Level, stray: Item, walk: seq<nat>, b: nat)
    requires WalkClean(ix, lv, stray, walk) && TurnClean(ix, lv, stray, LastOf(walk), b, SeenBy(ix, walk))
    ensures WalkClean(ix, lv, stray, walk + [b])
  {
    hide TurnClean, SeenBy;
    var w := walk + [b];
    assert w[..|walk|] == walk;
    forall k | 0 <= k < |w|
      ensures TurnClean(ix, lv, stray, LastOf(w[..k]), w[k], SeenBy(ix, w[..k]))
    {
      assert k < |walk| ==> w[..k] == walk[..k];
    }
  }

  lemma EachTurnClean(ix: Index, lv: Level, stray: Item, w: seq<nat>, walk: seq<nat>, current: nat)
    requires WalkClean(ix, lv, stray, w) && walk + [current] <= w
    ensures TurnClean(ix, lv, stray, LastOf(walk), current, SeenBy(ix, walk))
  {
    hide TurnClean, SeenBy;
    var n := |walk|;
    assert w[..n] == walk && w[n] == (walk + [current])[n];
    assert TurnClean(ix, lv, stray, LastOf(w[..n]), w[n], SeenBy(ix, w[..n]));
  }

  /** Every walk of the level begins with `walk` and goes on at `current`. */
  ghost predicate Forced(ix: Index, leftmost: nat, walk: seq<nat>, current: nat) {
    forall w :: FullChain(ix, leftmost, w) ==> BeginsWith(w, walk + [current])
  }

  ghost predicate BeginsWith(w: seq<nat>, walk: seq<nat>) {
    walk <= w
  }

  lemma NothingForced(ix: Index, leftmost: nat)
    ensures Forced(ix, leftmost, [], leftmost)
  {
  }

  lemma ForcedOn(ix: Index, leftmost: nat, walk: seq<nat>, current: nat)
    requires Forced(ix, leftmost, walk, current) && Loads(ix, current) && !ix[current].Rightmost()
    ensures Forced(ix, leftmost, walk + [current], ix[current].next)
  {
    forall w | FullChain(ix, leftmost, w)
      ensures BeginsWith(w, walk + [current] + [ix[current].next])
    {
      assert BeginsWith(w, walk + [current]);
      assert w[|walk|] == (walk + [current])[|walk|] == current;
      assert |w| > |walk| + 1 ==> ix[w[|walk| + 1 - 1]].next == w[|walk| + 1];
      assert w[..|walk| + 1] == walk + [current];
    }
  }

  /** Where something is wrong with a page, something is wrong with every walk of the level. */
  lemma NoWalkClean(ix: Index, lv: Level, stray: Item, walk: seq<nat>, current: nat)
    requires Forced(ix, lv.leftmost, walk, current)
    requires !TurnClean(ix, lv, stray, LastOf(walk), current, SeenBy(ix, walk))
    ensures forall w :: !LevelClean(ix, lv, stray, w)
  {
    hide TurnClean, FullChain, SeenBy, WalkClean;
    forall w
      ensures !LevelClean(ix, lv, stray, w)
    {
      if LevelClean(ix, lv, stray, w) {
        assert BeginsWith(w, walk + [current]);
        EachTurnClean(ix, lv, stray, w, walk, current);
      }
    }
  }

  // ------------------------------------------------------------ the walk

  /** One turn: a live page is checked, an ignorable one passed over. */
  method VisitPage(state: BtreeCheckState, lv: Level, current: nat, leftcurrent: nat, nextdown: nat, stray: Item,
                   fuel: nat, ghost left: Option<nat>)
    returns (r: Outcome, nextdown': nat)
    requires if left.None? then leftcurrent == P_NONE else leftcurrent == left.value != P_NONE
    modifies state`prevrightlink, state`previncompletesplit
    ensures var s := Seen(nextdown, old(state.Remembered()), state.lowkey);
            && (r.Ok? ==> TurnClean(state.ix, lv, stray, left, current, s))
            && (r.Corrupt? ==> !TurnClean(state.ix, lv, stray, left, current, s))
            && (r.Ok? ==> var t := SeeMore(state.ix, s, current);
                           nextdown' == t.nextdown && state.Remembered() == t.lag)
  {
    hide TargetPasses, IsLeftmost, PageLag;
    nextdown' := nextdown;
    if !Loads(state.ix, current) {
      return Corrupt, nextdown;
    }
    var page := state.ix[current];
    if page.Ignore() {
      if page.deleted || page.Rightmost() {
        return Corrupt, nextdown;
      }
    } else {
      if nextdown == INVALID_BLOCK {
        r := LeftmostIgnoringHalfDead(state.ix, current, fuel);
        if !r.Ok? {
          return;
        }
        if lv.trueRoot && !page.root {
          return Corrupt, nextdown;
        }
        nextdown' := if page.leaf then P_NONE else page.items[0].child;
      }
      if page.prev != leftcurrent && leftcurrent != P_NONE {
        return Corrupt, nextdown';
      }
      if lv.level != page.level {
        return Corrupt, nextdown';
      }
      r := TargetPageCheck(state, current, stray, fuel);
      if !r.Ok? {
        return;
      }
    }
    if current == leftcurrent || current == page.prev {
      return Corrupt, nextdown';
    }
    return Ok, nextdown';
  }

  /** `bt_check_level_from_leftmost`: the level passes exactly when nothing is wrong with it. */
  method CheckLevel(state: BtreeCheckState, lv: Level, stray: Item, fuel: nat)
    returns (r: Outcome, nextdown: nat, ghost walk: seq<nat>)
    requires state.lowkey == None
    modifies state
    ensures r.Ok? ==> LevelClean(state.ix, lv, stray, walk) &&
                      nextdown == SeenBy(state.ix, walk).nextdown && state.lowkey == None
    ensures r.Corrupt? ==> forall w :: !LevelClean(state.ix, lv, stray, w)
  {
    hide WalkClean, Forced, TargetPasses, StartsLevel, PageLag, Chain;
    state.Reset();
    walk, nextdown := [], INVALID_BLOCK;
    var leftcurrent, current, n := P_NONE, lv.leftmost, fuel;
    NothingForced(state.ix, lv.leftmost);
    NothingWalked(state.ix, lv, stray);
    while n > 0
      invariant Forced(state.ix, lv.leftmost, walk, current) && WalkClean(state.ix, lv, stray, walk)
      invariant Chain(state.ix, walk)
      invariant if walk == [] then leftcurrent == P_NONE && current == lv.leftmost
                   else leftcurrent == walk[|walk| - 1] != P_NONE
      invariant walk != [] ==>
                walk[0] == lv.leftmost && Loads(state.ix, leftcurrent) && state.ix[leftcurrent].next == current
      invariant Seen(nextdown, state.Remembered(), state.lowkey) == SeenBy(state.ix, walk)
    {
      r, nextdown := VisitPage(state, lv, current, leftcurrent, nextdown, stray, fuel, LastOf(walk));
      if !r.Ok? {
        if r.Corrupt? {
          NoWalkClean(state.ix, lv, stray, walk, current);
        }
        return;
      }
      var page := state.ix[current];
      if !page.Rightmost() {
        ForcedOn(state.ix, lv.leftmost, walk, current);
      }
      CleanSoFar(state.ix, lv, stray, walk, current);
      SeenNext(state.ix, walk, current);
      ChainSnoc(state.ix, walk, current);
      state.lowkey := if page.Rightmost() then None else Some(page.hikey);
      walk := walk + [current];
      leftcurrent, current := current, page.next;
      if current == P_NONE {
        return;
      }
      n := n - 1;
    }
    r := NoFuel;
  }

  lemma NothingWalked(ix: Index, lv: Level, stray: Item)
    ensures WalkClean(ix, lv, stray, []) && Chain(ix, [])
  {
  }

  // ------------------------------------------------------------ what it means that a level passed

  /** What is known about the page visited as number `k`. */
  ghost predicate VisitOk(ix: Index, lv: Level, walk: seq<nat>, k: nat)
    requires k < |walk|
  {
    && Placed(ix, lv, if k == 0 then None else Some(walk[k - 1]), walk[k])
    && (Live(ix, walk[k]) ==> PageOrdered(ix[walk[k]]) && CrossOrdered(ix, walk[k]))
  }

  /** The first live page of a walk. */
  ghost predicate FirstLive(ix: Index, walk: seq<nat>, k: nat) {
    k < |walk| && Live(ix, walk[k]) && forall i :: 0 <= i < k ==> !Live(ix, walk[i])
  }

  ghost predicate FirstLiveOk(ix: Index, lv: Level, walk: seq<nat>, k: nat) {
    FirstLive(ix, walk, k) && StartsLevel(ix, lv, walk[k])
  }

  /**
   The walk reached the rightmost page, every page was in place and in order,
   and the first live one starts the level.
   */
  ghost predicate LevelPassed(ix: Index, lv: Level, walk: seq<nat>) {
    && FullChain(ix, lv.leftmost, walk)
    && (forall k :: 0 <= k < |walk| ==> VisitOk(ix, lv, walk, k))
    && (forall k :: FirstLive(ix, walk, k) ==> FirstLiveOk(ix, lv, walk, k))
  }

  ghost predicate NoneLive(ix: Index, walk: seq<nat>) {
    forall k :: 0 <= k < |walk| ==> !Live(ix, walk[k])
  }

  /** As long as no page is live, the level below is not known. */
  lemma {:induction false} NoneSeen(ix: Index, walk: seq<nat>)
    requires NoneLive(ix, walk)
    ensures SeenBy(ix, walk).nextdown == INVALID_BLOCK
  {
    if walk != [] {
      NoneSeen(ix, walk[..|walk| - 1]);
    }
  }

  lemma LastBefore(walk: seq<nat>, k: nat)
    requires k < |walk|
    ensures LastOf(walk[..k]) == if k == 0 then None else Some(walk[k - 1])
  {
  }

  /** A clean level passed in this sense. */
  lemma CleanPassed(ix: Index, lv: Level, stray: Item, walk: seq<nat>)
    requires LevelClean(ix, lv, stray, walk)
    ensures LevelPassed(ix, lv, walk)
  {
    hide FullChain, SeenBy, PageOrdered, CrossOrdered, StartsLevel, TargetPasses, Placed;
    forall k | 0 <= k < |walk|
      ensures VisitOk(ix, lv, walk, k)
    {
      var s := SeenBy(ix, walk[..k]);
      assert TurnClean(ix, lv, stray, LastOf(walk[..k]), walk[k], s);
      LastBefore(walk, k);
      if Live(ix, walk[k]) {
        PlacedLoads(ix, lv, LastOf(walk[..k]), walk[k]);
        TargetOrdered(ix, walk[k], s.lowkey, stray, s.lag);
      }
    }
    forall k: nat | FirstLive(ix, walk, k)
      ensures FirstLiveOk(ix, lv, walk, k)
    {
      assert TurnClean(ix, lv, stray, LastOf(walk[..k]), walk[k], SeenBy(ix, walk[..k]));
      NoneSeen(ix, walk[..k]);
    }
  }

  lemma PlacedLoads(ix: Index, lv: Level, left: Option<nat>, b: nat)
    requires Placed(ix, lv, left, b)
    ensures Loads(ix, b)
  {
  }

  /** On the leaf level the level below is known, as none, as soon as a page was live. */
  lemma {:induction false} LeafSeen(ix: Index, lv: Level, walk: seq<nat>, k: nat)
    requires lv.level == 0 && k <= |walk| && forall i :: 0 <= i < |walk| ==> VisitOk(ix, lv, walk, i)
    ensures SeenBy(ix, walk[..k]).nextdown == if NoneLive(ix, walk[..k]) then INVALID_BLOCK else P_NONE
  {
    hide PageOrdered, CrossOrdered;
    if k > 0 {
      var w, b := walk[..k - 1], walk[k - 1];
      LeafSeen(ix, lv, walk, k - 1);
      assert walk[..k] == w + [b];
      SeenNext(ix, w, b);
      assert VisitOk(ix, lv, walk, k - 1);
      assert (w + [b])[k - 1] == b && forall i :: 0 <= i < k - 1 ==> (w + [b])[i] == w[i];
    }
  }

  /** On the leaf level that is all there is: it is clean exactly when it passed in this sense. */
  lemma LeafLevelExact(ix: Index, lv: Level, stray: Item, walk: seq<nat>)
    requires lv.level == 0
    ensures LevelClean(ix, lv, stray, walk) <==> LevelPassed(ix, lv, walk)
  {
    if LevelClean(ix, lv, stray, walk) {
      CleanPassed(ix, lv, stray, walk);
    }
    if LevelPassed(ix, lv, walk) {
      PassedClean(ix, lv, stray, walk);
    }
  }

  lemma PassedClean(ix: Index, lv: Level, stray: Item, walk: seq<nat>)
    requires lv.level == 0 && LevelPassed(ix, lv, walk)
    ensures LevelClean(ix, lv, stray, walk)
  {
    hide FullChain, SeenBy, PageOrdered, CrossOrdered, StartsLevel;
    forall k | 0 <= k < |walk|
      ensures TurnClean(ix, lv, stray, LastOf(walk[..k]), walk[k], SeenBy(ix, walk[..k]))
    {
      assert VisitOk(ix, lv, walk, k);
      LastBefore(walk, k);
      LeafSeen(ix, lv, walk, k);
      if Live(ix, walk[k]) && NoneLive(ix, walk[..k]) {
        assert forall i :: 0 <= i < k ==> walk[..k][i] == walk[i];
        assert FirstLive(ix, walk, k);
        assert FirstLiveOk(ix, lv, walk, k);
      }
    }
  }
}
