/**
 Downlink connectivity (`bt_child_highkey_check`, `bt_downlink_missing_check`): while a
 parent level is walked, the child level is followed in lockstep along its right links,
 with the last right link and incomplete-split flag kept from call to call.
 */
module NbtreeLockstep {
  import opened Common
  import opened NbtreePages

  // ------------------------------------------------------------ missing downlinks

  /** Block `b` is an internal page with a first downlink. */
  ghost predicate Internal(ix: Index, b: nat) {
    Loads(ix, b) && !ix[b].leaf && ix[b].items != []
  }

  /** `path[k]` is the page below the first downlink of the page before it, one level down. */
  ghost predicate DescentStep(ix: Index, top: nat, path: seq<nat>, k: nat)
    requires k < |path| && Internal(ix, top)
  {
    var above := if k == 0 then top else path[k - 1];
    Internal(ix, above) && Internal(ix, path[k]) && path[k] == ix[above].items[0].child &&
    ix[path[k]].level == ix[above].level - 1
  }

  /** From the internal page `top` the first downlinks lead through the internal pages `path` to block `b`. */
  ghost predicate DescendedTo(ix: Index, top: nat, path: seq<nat>, b: nat, level: int) {
    && Internal(ix, top) && (forall k :: 0 <= k < |path| ==> DescentStep(ix, top, path, k))
    && var last := if path == [] then top else path[|path| - 1];
       Internal(ix, last) && b == ix[last].items[0].child && level == ix[last].level
  }

  /** An interrupted multi-level deletion rooted at `top`: the leaf below is half-dead and names `top`. */
  ghost predicate DeletionRoot(ix: Index, top: nat, path: seq<nat>, b: nat, level: int) {
    && DescendedTo(ix, top, path, b, level) && Loads(ix, b)
    && ix[b].leaf && !ix[b].deleted && ix[b].halfDead && !ix[b].Rightmost() && ix[b].hikey.topParent == top
  }

  /** A live page may lack a downlink. */
  ghost predicate Excused(ix: Index, b: nat, leftSplit: bool) {
    Loads(ix, b) && (ix[b].root || leftSplit || exists path, leaf, level :: DeletionRoot(ix, b, path, leaf, level))
  }

  /** `bt_downlink_missing_check`. */
  method DownlinkMissingCheck(ix: Index, rightsplit: bool, blkno: nat, fuel: nat) returns (r: Outcome)
    requires Loads(ix, blkno) && !ix[blkno].Ignore()
    ensures r.Ok? ==> Excused(ix, blkno, rightsplit)
    ensures r.Corrupt? ==> !Excused(ix, blkno, rightsplit)
  {
    hide DescendedTo;
    var page := ix[blkno];
    if page.root || rightsplit {
      return Ok;
    }
    if page.leaf {
      LeafIsNoRoot(ix, blkno);
      return Corrupt;
    }
    var level: int := page.level;
    var childblk := page.items[0].child;
    ghost var path: seq<nat> := [];
    DescentStarts(ix, blkno);
    var n := fuel;
    while n > 0
      invariant DescendedTo(ix, blkno, path, childblk, level)
    {
      if !Loads(ix, childblk) {
        StuckDown(ix, blkno, path, childblk, level);
        return Corrupt;
      }
      var child := ix[childblk];
      if child.leaf {
        break;
      }
      if child.level != level - 1 || child.items == [] {
        StuckDown(ix, blkno, path, childblk, level);
        return Corrupt;
      }
      DescendOne(ix, blkno, path, childblk, level);
      path := path + [childblk];
      level := child.level;
      childblk := child.items[0].child;
      n := n - 1;
    }
    if n == 0 {
      return NoFuel;
    }
    var child := ix[childblk];
    if child.deleted {
      StuckDown(ix, blkno, path, childblk, level);
      return Corrupt;
    }
    if child.halfDead && !child.Rightmost() && child.hikey.topParent == blkno {
      assert DeletionRoot(ix, blkno, path, childblk, level);
      return Ok;
    }
    StuckDown(ix, blkno, path, childblk, level);
    return Corrupt;
  }

  lemma DescentStarts(ix: Index, top: nat)
    requires Loads(ix, top) && !ix[top].leaf && ix[top].items != []
    ensures DescendedTo(ix, top, [], ix[top].items[0].child, ix[top].level)
  {
  }

  /** The way down is forced by the first downlinks. */
  lemma {:induction false} DescentForced(ix: Index, top: nat, path: seq<nat>, b: nat, level: int, other: seq<nat>,
                                         leaf: nat, lowest: int, k: nat)
    requires DescendedTo(ix, top, path, b, level) && DeletionRoot(ix, top, other, leaf, lowest) && k <= |path|
    ensures k <= |other| && (k > 0 ==> other[k - 1] == path[k - 1])
  {
    if k > 0 {
      DescentForced(ix, top, path, b, level, other, leaf, lowest, k - 1);
      assert DescentStep(ix, top, path, k - 1);
      assert k - 1 < |other| ==> DescentStep(ix, top, other, k - 1);
    }
  }

  lemma LeafIsNoRoot(ix: Index, b: nat)
    requires Loads(ix, b) && ix[b].leaf
    ensures forall path, leaf, level :: !DeletionRoot(ix, b, path, leaf, level)
  {
  }

  /** Neither can the descent go on nor does it end at the leaf of an interrupted deletion. */
  ghost predicate Stuck(ix: Index, top: nat, b: nat, level: int) {
    Loads(ix, b) ==>
      if ix[b].leaf then ix[b].deleted || !ix[b].halfDead || ix[b].Rightmost() || ix[b].hikey.topParent != top
      else ix[b].level != level - 1 || ix[b].items == []
  }

  lemma StuckDown(ix: Index, top: nat, path: seq<nat>, b: nat, level: int)
    requires DescendedTo(ix, top, path, b, level) && Stuck(ix, top, b, level)
    ensures forall other, leaf, lowest :: !DeletionRoot(ix, top, other, leaf, lowest)
  {
    hide DescendedTo;
    forall other, leaf, lowest
      ensures !DeletionRoot(ix, top, other, leaf, lowest)
    {
      StuckDownOn(ix, top, path, b, level, other, leaf, lowest);
    }
  }

  lemma StuckDownOn(ix: Index, top: nat, path: seq<nat>, b: nat, level: int, other: seq<nat>, leaf: nat, lowest: int)
    requires DescendedTo(ix, top, path, b, level) && Stuck(ix, top, b, level)
    ensures !DeletionRoot(ix, top, other, leaf, lowest)
  {
    if DeletionRoot(ix, top, other, leaf, lowest) {
      assert |path| < |other| ==> DescentStep(ix, top, other, |path|);
      DescentForced(ix, top, path, b, level, other, leaf, lowest, |path|);
    }
  }

  lemma DescendOne(ix: Index, top: nat, path: seq<nat>, b: nat, level: int)
    requires DescendedTo(ix, top, path, b, level) && Internal(ix, b) && ix[b].level == level - 1
    ensures DescendedTo(ix, top, path + [b], ix[b].items[0].child, ix[b].level)
  {
    forall k | 0 <= k < |path + [b]|
      ensures DescentStep(ix, top, path + [b], k)
    {
      assert k < |path| ==> DescentStep(ix, top, path, k);
    }
  }

  // ------------------------------------------------------------ leftmost pages

  /** The page before `lefts[k]`, or `start`, links left to it, and it is half-dead and links back. */
  ghost predicate HalfDeadLeft(ix: Index, start: nat, prev: nat, lefts: seq<nat>, k: nat)
    requires k < |lefts|
  {
    && Loads(ix, lefts[k]) && ix[lefts[k]].halfDead && lefts[k] != start
    && (k == 0 ==> lefts[0] == prev && ix[lefts[0]].next == start)
    && (k > 0 ==> Loads(ix, lefts[k - 1]) && lefts[k] == ix[lefts[k - 1]].prev &&
                  ix[lefts[k]].next == lefts[k - 1] && lefts[k] != lefts[k - 1])
  }

  /** Only half-dead pages lie to the left of `start`, mutually linked. */
  ghost predicate HalfDeadLefts(ix: Index, start: nat, prev: nat, lefts: seq<nat>) {
    forall k :: 0 <= k < |lefts| ==> HalfDeadLeft(ix, start, prev, lefts, k)
  }

  ghost predicate Leftmost(ix: Index, start: nat, prev: nat, lefts: seq<nat>) {
    && HalfDeadLefts(ix, start, prev, lefts)
    && (if lefts == [] then prev == P_NONE else Loads(ix, lefts[|lefts| - 1]) && ix[lefts[|lefts| - 1]].prev == P_NONE)
  }

  ghost predicate IsLeftmost(ix: Index, b: nat) {
    Loads(ix, b) && exists lefts :: Leftmost(ix, b, ix[b].prev, lefts)
  }

  lemma LeftsGrow(ix: Index, start: nat, prev: nat, lefts: seq<nat>, b: nat)
    requires HalfDeadLefts(ix, start, prev, lefts) && Loads(ix, b) && ix[b].halfDead && b != start
    requires lefts == [] ==> b == prev && ix[b].next == start
    requires lefts != [] ==> Loads(ix, lefts[|lefts| - 1]) && b == ix[lefts[|lefts| - 1]].prev
    requires lefts != [] ==> ix[b].next == lefts[|lefts| - 1] && b != lefts[|lefts| - 1]
    ensures HalfDeadLefts(ix, start, prev, lefts + [b])
  {
    forall k | 0 <= k < |lefts + [b]|
      ensures HalfDeadLeft(ix, start, prev, lefts + [b], k)
    {
      assert k < |lefts| ==> HalfDeadLeft(ix, start, prev, lefts, k);
    }
  }

  lemma EmptyLefts(ix: Index, start: nat, prev: nat)
    ensures HalfDeadLefts(ix, start, prev, [])
  {
  }

  /** The way to the left is forced by the left links. */
  lemma {:induction false} LeftsForced(ix: Index, start: nat, prev: nat, lefts: seq<nat>, other: seq<nat>, k: nat)
    requires HalfDeadLefts(ix, start, prev, lefts) && Leftmost(ix, start, prev, other) && k <= |lefts|
    ensures k <= |other| && (k > 0 ==> other[k - 1] == lefts[k - 1])
  {
    if k > 0 {
      LeftsForced(ix, start, prev, lefts, other, k - 1);
      assert HalfDeadLeft(ix, start, prev, lefts, k - 1);
      if k - 1 < |other| {
        assert HalfDeadLeft(ix, start, prev, other, k - 1);
      }
    }
  }

  /** If the next page to the left does not qualify, the start is not leftmost. */
  lemma StuckLeft(ix: Index, start: nat, lefts: seq<nat>, reached: nat, reachedFrom: nat)
    requires Loads(ix, start) && HalfDeadLefts(ix, start, ix[start].prev, lefts) && reached != P_NONE
    requires lefts != [] ==> Loads(ix, lefts[|lefts| - 1])
    requires reached == (if lefts == [] then ix[start].prev else ix[lefts[|lefts| - 1]].prev)
    requires reachedFrom == (if lefts == [] then start else lefts[|lefts| - 1])
    requires !(Loads(ix, reached) && ix[reached].halfDead && reached != start &&
               reached != reachedFrom && ix[reached].next == reachedFrom)
    ensures !IsLeftmost(ix, start)
  {
    hide HalfDeadLefts;
    forall other | Leftmost(ix, start, ix[start].prev, other)
      ensures false
    {
      StuckLeftOf(ix, start, lefts, reached, reachedFrom, other);
    }
  }

  lemma StuckLeftOf(ix: Index, start: nat, lefts: seq<nat>, reached: nat, reachedFrom: nat, other: seq<nat>)
    requires Loads(ix, start) && HalfDeadLefts(ix, start, ix[start].prev, lefts) && reached != P_NONE
    requires lefts != [] ==> Loads(ix, lefts[|lefts| - 1])
    requires reached == (if lefts == [] then ix[start].prev else ix[lefts[|lefts| - 1]].prev)
    requires reachedFrom == (if lefts == [] then start else lefts[|lefts| - 1])
    requires !(Loads(ix, reached) && ix[reached].halfDead && reached != start &&
               reached != reachedFrom && ix[reached].next == reachedFrom)
    ensures !Leftmost(ix, start, ix[start].prev, other)
  {
    if Leftmost(ix, start, ix[start].prev, other) {
      assert |lefts| < |other| ==> HalfDeadLeft(ix, start, ix[start].prev, other, |lefts|);
      LeftsForced(ix, start, ix[start].prev, lefts, other, |lefts|);
    }
  }

  /** `bt_leftmost_ignoring_half_dead`. */
  method LeftmostIgnoringHalfDead(ix: Index, start: nat, fuel: nat) returns (r: Outcome)
    requires Loads(ix, start)
    ensures r.Ok? ==> IsLeftmost(ix, start)
    ensures r.Corrupt? ==> !IsLeftmost(ix, start)
  {
    hide HalfDeadLefts;
    EmptyLefts(ix, start, ix[start].prev);
    var reached, reachedFrom := ix[start].prev, start;
    ghost var lefts: seq<nat> := [];
    var n := fuel;
    while reached != P_NONE
      invariant HalfDeadLefts(ix, start, ix[start].prev, lefts)
      invariant lefts != [] ==> Loads(ix, lefts[|lefts| - 1])
      invariant reached == (if lefts == [] then ix[start].prev else ix[lefts[|lefts| - 1]].prev)
      invariant reachedFrom == (if lefts == [] then start else lefts[|lefts| - 1])
      decreases n
    {
      if n == 0 {
        return NoFuel;
      }
      if !Loads(ix, reached) {
        StuckLeft(ix, start, lefts, reached, reachedFrom);
        return Corrupt;
      }
      var page := ix[reached];
      if !(page.halfDead && reached != start && reached != reachedFrom && page.next == reachedFrom) {
        StuckLeft(ix, start, lefts, reached, reachedFrom);
        return Corrupt;
      }
      LeftsGrow(ix, start, ix[start].prev, lefts, reached);
      lefts := lefts + [reached];
      reachedFrom := reached;
      reached := page.prev;
      n := n - 1;
    }
    assert Leftmost(ix, start, ix[start].prev, lefts);
    return Ok;
  }

  // ------------------------------------------------------------ the lockstep invariant

  /** A visited page without a downlink is ignorable or excused by its left neighbour or itself. */
  ghost predicate Skippable(ix: Index, path: seq<nat>, k: nat)
    requires Chain(ix, path) && k < |path|
  {
    ix[path[k]].Ignore() || Excused(ix, path[k], k > 0 && ix[path[k - 1]].incomplete)
  }

  /** `path` are the child pages visited so far, `links` the downlinks handled, `pos` where they are on the path. */
  ghost predicate Lockstep(ix: Index, path: seq<nat>, pos: seq<nat>, links: seq<nat>) {
    && Chain(ix, path) && |pos| == |links|
    && (forall i :: 0 <= i < |pos| ==> pos[i] < |path| && path[pos[i]] == links[i])
    && (forall i, j :: 0 <= i < j < |pos| ==> pos[i] < pos[j])
    && (forall k :: 0 <= k < |path| && k !in pos ==> Skippable(ix, path, k))
    && (path != [] ==> links != [] && pos[0] == 0 && IsLeftmost(ix, path[0]))
  }

  lemma SkippableKept(ix: Index, path: seq<nat>, b: nat, k: nat)
    requires Chain(ix, path) && Chain(ix, path + [b]) && k < |path| && Skippable(ix, path, k)
    ensures Skippable(ix, path + [b], k)
  {
    hide Chain, Excused;
    assert (path + [b])[k] == path[k];
    assert k > 0 ==> (path + [b])[k - 1] == path[k - 1];
  }

  /** The next page on the child level is the one the downlink points to. */
  lemma ReachDownlink(ix: Index, path: seq<nat>, pos: seq<nat>, links: seq<nat>, b: nat)
    requires Lockstep(ix, path, pos, links) && Loads(ix, b) && (path != [] ==> ix[path[|path| - 1]].next == b)
    requires path == [] ==> IsLeftmost(ix, b)
    ensures Lockstep(ix, path + [b], pos + [|path|], links + [b])
  {
    hide Excused, IsLeftmost, Chain, Skippable;
    ChainSnoc(ix, path, b);
    var p, q := path + [b], pos + [|path|];
    assert q[|pos|] == |path|;
    forall k | 0 <= k < |p| && k !in q
      ensures Skippable(ix, p, k)
    {
      SkippableKept(ix, path, b, k);
    }
  }

  /** The next page has no downlink but may be skipped. */
  lemma SkipPage(ix: Index, path: seq<nat>, pos: seq<nat>, links: seq<nat>, b: nat)
    requires Lockstep(ix, path, pos, links) && Loads(ix, b) && path != [] && ix[path[|path| - 1]].next == b
    requires ix[b].Ignore() || Excused(ix, b, ix[path[|path| - 1]].incomplete)
    ensures Lockstep(ix, path + [b], pos, links)
  {
    hide Excused, IsLeftmost, Chain;
    ChainSnoc(ix, path, b);
    var p := path + [b];
    forall k | 0 <= k < |p| && k !in pos
      ensures Skippable(ix, p, k)
    {
      if k < |path| {
        SkippableKept(ix, path, b, k);
      }
    }
  }

  // ------------------------------------------------------------ one call

  /** The separator key a child page's high key must equal; `j` is its place among the target's items. */
  function Pivot(target: Page, j: nat, lowkey: Option<Item>): Option<Item> {
    if j == 0 then lowkey
    else if j < |target.items| then Some(target.items[j])
    else if target.Rightmost() then None
    else Some(target.hikey)
  }

  /** A child page without incomplete split that is not rightmost ends where the parent says. */
  ghost predicate HighKeyMatches(ix: Index, target: Page, i: nat, lowkey: Option<Item>)
    requires i < |target.items| && Loads(ix, target.items[i].child)
  {
    var child := ix[target.items[i].child];
    !child.incomplete && !child.Rightmost() ==>
      Pivot(target, i + 1, lowkey).Some? && child.hikey.key == Pivot(target, i + 1, lowkey).value.key
  }

  /** What a call to `bt_child_highkey_check` works with. */
  datatype Call = Call(target: Page, i: nat, lowkey: Option<Item>, stray: Item, prevrightlink: nat) {
    /** The downlink to reach; none once the items are used up. */
    function Downlink(): nat {
      if i < |target.items| then target.items[i].child else P_NONE
    }

    /** The key to compare with the high key of page `b`. */
    function Separator(b: nat): Option<Item> {
      if i >= |target.items| then Some(stray) else Pivot(target, if b == Downlink() then i + 1 else i, lowkey)
    }
  }

  /** The child level may be followed through page `b`. */
  ghost predicate TurnAllowed(ix: Index, c: Call, b: nat, first: bool, rightsplit: bool) {
    && Loads(ix, b)
    && (first && c.prevrightlink == INVALID_BLOCK ==> IsLeftmost(ix, b))
    && (!ix[b].deleted || ix[b].fullXid ==> ix[b].level == c.target.level - 1)
    && (first || b != c.prevrightlink) && b != ix[b].prev
    && (b != c.Downlink() ==> ix[b].Ignore() || Excused(ix, b, rightsplit))
    && (!ix[b].incomplete && !ix[b].Rightmost() ==> c.Separator(b).Some? && c.Separator(b).value.key == ix[b].hikey.key)
  }

  /** From page `b` on, at most `n` allowed turns lead to the downlink, or to the end of the level if there is none. */
  ghost predicate CallOk(ix: Index, c: Call, b: nat, first: bool, rightsplit: bool, n: nat)
    decreases n
  {
    if b == P_NONE then c.Downlink() == P_NONE
    else
      n > 0 && TurnAllowed(ix, c, b, first, rightsplit)
      && (b == c.Downlink() || CallOk(ix, c, ix[b].next, false, ix[b].incomplete, n - 1))
  }

  /** The right link and incomplete-split flag kept from one call to the next. */
  datatype Lag = Lag(link: nat, split: bool)

  const NO_LAG := Lag(INVALID_BLOCK, false)

  ghost predicate Arrives(ix: Index, c: Call, start: nat, split: bool) {
    exists n: nat :: CallOk(ix, c, start, true, split, n)
  }

  /** From what is remembered, the child level can be followed to the downlink of item `i`, or to its end. */
  ghost predicate CallPasses(ix: Index, target: Page, i: nat, lowkey: Option<Item>, stray: Item, lag: Lag) {
    var c, anew := Call(target, i, lowkey, stray, lag.link), lag.link == INVALID_BLOCK;
    Arrives(ix, c, if anew then c.Downlink() else lag.link, !anew && lag.split)
  }

  /** What is remembered after a call that reached `downlink`. */
  function LagAfter(ix: Index, downlink: nat): Lag {
    if downlink == P_NONE || downlink !in ix then NO_LAG else Lag(ix[downlink].next, ix[downlink].incomplete)
  }

  class BtreeCheckState {
    const ix: Index
    var prevrightlink: nat
    var previncompletesplit: bool
    var lowkey: Option<Item>

    function Remembered(): Lag
      reads this
    {
      Lag(prevrightlink, previncompletesplit)
    }

    constructor (ix: Index)
      ensures this.ix == ix && Remembered() == NO_LAG && lowkey == None
    {
      this.ix := ix;
      prevrightlink, previncompletesplit, lowkey := INVALID_BLOCK, false, None;
    }

    /** Begin a level: nothing is remembered. */
    method Reset()
      modifies this`prevrightlink, this`previncompletesplit
      ensures Remembered() == NO_LAG
    {
      prevrightlink, previncompletesplit := INVALID_BLOCK, false;
    }

    /** One loop turn on page `blkno`. */
    method VisitChild(c: Call, blkno: nat, first: bool, rightsplit: bool, fuel: nat) returns (r: Outcome)
      ensures r.Ok? ==> TurnAllowed(ix, c, blkno, first, rightsplit)
      ensures r.Corrupt? ==> !TurnAllowed(ix, c, blkno, first, rightsplit)
    {
      hide IsLeftmost, Excused;
      if !Loads(ix, blkno) {
        return Corrupt;
      }
      var page := ix[blkno];
      if first && c.prevrightlink == INVALID_BLOCK {
        r := LeftmostIgnoringHalfDead(ix, blkno, fuel);
        if !r.Ok? {
          return;
        }
      }
      if (!page.deleted || page.fullXid) && page.level != c.target.level - 1 {
        return Corrupt;
      }
      if (!first && blkno == c.prevrightlink) || blkno == page.prev {
        return Corrupt;
      }
      if blkno != c.Downlink() && !page.Ignore() {
        r := DownlinkMissingCheck(ix, rightsplit, blkno, fuel);
        if !r.Ok? {
          return;
        }
      }
      if !page.incomplete && !page.Rightmost() {
        var pivot := c.Separator(blkno);
        if pivot.None? || pivot.value.key != page.hikey.key {
          return Corrupt;
        }
      }
      return Ok;
    }

    /**
     `bt_child_highkey_check` for data item `i` of the target; without such an item the
     level is finished.  It succeeds exactly when the child level can be followed from
     what is remembered to the downlink, or to its end.
     */
    method ChildHighkeyCheck(target: Page, i: nat, stray: Item, fuel: nat) returns (r: Outcome)
      modifies this`prevrightlink, this`previncompletesplit
      ensures r.Ok? ==> CallPasses(ix, target, i, lowkey, stray, old(Remembered()))
      ensures r.Ok? ==> Remembered() == LagAfter(ix, Call(target, i, lowkey, stray, 0).Downlink())
      ensures r.Corrupt? ==> !CallPasses(ix, target, i, lowkey, stray, old(Remembered()))
    {
      hide IsLeftmost, Excused, TurnAllowed, CallOk, Continues, Arrives;
      var c := Call(target, i, lowkey, stray, prevrightlink);
      var downlink := c.Downlink();
      var blkno: nat, rightsplit: bool := prevrightlink, previncompletesplit;
      if prevrightlink == INVALID_BLOCK {
        blkno, rightsplit := downlink, false;
      }
      ghost var start, split := blkno, rightsplit;
      CallStarts(ix, c, start, split);
      assert CallPasses(ix, target, i, lowkey, stray, Remembered()) == Arrives(ix, c, start, split);
      var first, n := true, fuel;
      while n > 0
        invariant Continues(ix, c, start, split, blkno, first, rightsplit, fuel - n)
        invariant n <= fuel && prevrightlink == old(prevrightlink)
      {
        if blkno == P_NONE && downlink == P_NONE {
          CallEnds(ix, c, start, split, blkno, first, rightsplit, fuel - n, fuel);
          prevrightlink, previncompletesplit := INVALID_BLOCK, false;
          return Ok;
        }
        if blkno == P_NONE {
          CallFails(ix, c, start, split, blkno, first, rightsplit, fuel - n);
          return Corrupt;
        }
        r := VisitChild(c, blkno, first, rightsplit, fuel);
        if !r.Ok? {
          if r.Corrupt? {
            CallFails(ix, c, start, split, blkno, first, rightsplit, fuel - n);
          }
          return;
        }
        TurnMeans(ix, c, blkno, first, rightsplit);
        if blkno == downlink {
          CallEnds(ix, c, start, split, blkno, first, rightsplit, fuel - n, fuel);
          rightsplit := ix[blkno].incomplete;
          prevrightlink, previncompletesplit := ix[blkno].next, rightsplit;
          return Ok;
        }
        CallGoesOn(ix, c, start, split, blkno, first, rightsplit, fuel - n);
        rightsplit := ix[blkno].incomplete;
        blkno := ix[blkno].next;
        first := false;
        n := n - 1;
      }
      return NoFuel;
    }
  }

  /** What the call says about the page below item `i`: it loads, is one level down and ends at the next separator. */
  ghost predicate LinkChecked(ix: Index, target: Page, i: nat, lowkey: Option<Item>)
    requires i < |target.items|
  {
    && Loads(ix, target.items[i].child) && HighKeyMatches(ix, target, i, lowkey)
    && var child := ix[target.items[i].child];
       !child.deleted || child.fullXid ==> child.level == target.level - 1
  }

  lemma TurnMeans(ix: Index, c: Call, b: nat, first: bool, rightsplit: bool)
    requires TurnAllowed(ix, c, b, first, rightsplit)
    ensures Loads(ix, b) && (first && c.prevrightlink == INVALID_BLOCK ==> IsLeftmost(ix, b))
    ensures b != c.Downlink() ==> ix[b].Ignore() || Excused(ix, b, rightsplit)
    ensures b == c.Downlink() && c.i < |c.target.items| ==> LinkChecked(ix, c.target, c.i, c.lowkey)
  {
    hide IsLeftmost, Excused;
  }

  /**
   In its own fields, when the child level may be followed through a page: it is one
   level down, not its own left sibling and not where the call began again, lacks a
   downlink only with an excuse, and ends at the separator its parent has for it.
   The page below item `i` must end at item `i + 1` or, below the last item, at the
   parent's high key; a page passed over before it at item `i`, or at the high key of
   the parent's left sibling when `i` is the first.
   */
  lemma TurnExactly(ix: Index, c: Call, b: nat, first: bool, rightsplit: bool)
    requires Loads(ix, b) && c.i < |c.target.items|
    ensures var p, t, below := ix[b], c.target, c.target.items[c.i].child;
            TurnAllowed(ix, c, b, first, rightsplit) <==>
            && (first && c.prevrightlink == 0xFFFF_FFFF ==> IsLeftmost(ix, b))
            && ((p.deleted && !p.fullXid) || p.level == t.level - 1)
            && p.prev != b && (first || b != c.prevrightlink)
            && (b != below && !p.deleted && !p.halfDead ==> Excused(ix, b, rightsplit))
            && (!p.incomplete && p.next != P_NONE ==>
                  if b == below then
                    if c.i + 1 < |t.items| then p.hikey.key == t.items[c.i + 1].key
                    else t.next != P_NONE && p.hikey.key == t.hikey.key
                  else if c.i == 0 then c.lowkey.Some? && p.hikey.key == c.lowkey.value.key
                  else p.hikey.key == t.items[c.i].key)
  {
    hide IsLeftmost, Excused, Sane;
  }

  /** After `done` turns the call that started at `start` goes on at `b`. */
  ghost predicate Continues(ix: Index, c: Call, start: nat, split: bool, b: nat, first: bool, rightsplit: bool,
                            done: nat) {
    forall m: nat :: CallOk(ix, c, start, true, split, m) <==>
      m >= done && CallOk(ix, c, b, first, rightsplit, m - done)
  }

  lemma CallStarts(ix: Index, c: Call, start: nat, split: bool)
    ensures Continues(ix, c, start, split, start, true, split, 0)
  {
  }

  lemma CallGoesOn(ix: Index, c: Call, start: nat, split: bool, b: nat, first: bool, rightsplit: bool, done: nat)
    requires Continues(ix, c, start, split, b, first, rightsplit, done) && TurnAllowed(ix, c, b, first, rightsplit)
    requires b != P_NONE && b in ix && b != c.Downlink()
    ensures Continues(ix, c, start, split, ix[b].next, false, ix[b].incomplete, done + 1)
  {
    hide TurnAllowed;
    forall m: nat
      ensures CallOk(ix, c, start, true, split, m) <==>
                m >= done + 1 && CallOk(ix, c, ix[b].next, false, ix[b].incomplete, m - (done + 1))
    {
      assert m >= done ==> (CallOk(ix, c, b, first, rightsplit, m - done) <==>
                            m - done > 0 && CallOk(ix, c, ix[b].next, false, ix[b].incomplete, m - done - 1));
    }
  }

  lemma CallEnds(ix: Index, c: Call, start: nat, split: bool, b: nat, first: bool, rightsplit: bool, done: nat,
                 fuel: nat)
    requires Continues(ix, c, start, split, b, first, rightsplit, done) && done < fuel && b == c.Downlink()
    requires b != P_NONE ==> TurnAllowed(ix, c, b, first, rightsplit)
    ensures Arrives(ix, c, start, split)
  {
    hide TurnAllowed;
    assert CallOk(ix, c, b, first, rightsplit, fuel - done);
    assert CallOk(ix, c, start, true, split, fuel);
  }

  lemma CallFails(ix: Index, c: Call, start: nat, split: bool, b: nat, first: bool, rightsplit: bool, done: nat)
    requires Continues(ix, c, start, split, b, first, rightsplit, done)
    requires if b == P_NONE then c.Downlink() != P_NONE else !TurnAllowed(ix, c, b, first, rightsplit)
    ensures !Arrives(ix, c, start, split)
  {
    hide TurnAllowed;
    forall n: nat
      ensures !CallOk(ix, c, start, true, split, n)
    {
      assert n >= done ==> !CallOk(ix, c, b, first, rightsplit, n - done);
    }
  }

  // ------------------------------------------------------------ what a call that passes means

  /** The call's walk extends the lockstep walk to the downlink, or to the end of the child level. */
  lemma {:induction false} CallWalks(ix: Index, c: Call, b: nat, first: bool, split: bool, n: nat, path: seq<nat>,
                                     pos: seq<nat>, links: seq<nat>)
    returns (path': seq<nat>, pos': seq<nat>)
    requires CallOk(ix, c, b, first, split, n) && Lockstep(ix, path, pos, links)
    requires path == [] ==> first && b == c.Downlink() != P_NONE && c.prevrightlink == INVALID_BLOCK
    requires path != [] ==>
              Loads(ix, path[|path| - 1]) && b == ix[path[|path| - 1]].next && split == ix[path[|path| - 1]].incomplete
    ensures path' != [] && Loads(ix, path'[|path'| - 1])
    ensures c.Downlink() != P_NONE ==>
              Lockstep(ix, path', pos', links + [c.Downlink()]) && path'[|path'| - 1] == c.Downlink()
    ensures c.Downlink() == P_NONE ==> Lockstep(ix, path', pos', links) && ix[path'[|path'| - 1]].next == P_NONE
    decreases n
  {
    hide Lockstep, TurnAllowed, Excused, IsLeftmost;
    if b == P_NONE {
      return path, pos;
    }
    TurnMeans(ix, c, b, first, split);
    if b == c.Downlink() {
      ReachDownlink(ix, path, pos, links, b);
      return path + [b], pos + [|path|];
    }
    SkipPage(ix, path, pos, links, b);
    path', pos' := CallWalks(ix, c, ix[b].next, false, ix[b].incomplete, n - 1, path + [b], pos, links);
  }

  /** A call that reaches its downlink has checked the page there. */
  lemma {:induction false} CallChecks(ix: Index, c: Call, b: nat, first: bool, split: bool, n: nat)
    requires CallOk(ix, c, b, first, split, n) && c.i < |c.target.items| && c.Downlink() != P_NONE
    ensures LinkChecked(ix, c.target, c.i, c.lowkey)
    decreases n
  {
    hide TurnAllowed, LinkChecked;
    TurnMeans(ix, c, b, first, split);
    if b != c.Downlink() {
      CallChecks(ix, c, ix[b].next, false, ix[b].incomplete, n - 1);
    }
  }
}
