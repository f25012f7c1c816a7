/**
 Key order in a whole tree: the check guarantees that one leaf item is below another, for
 every choice of keys, exactly when the comparisons it makes lead from the one to the other.
 */
module NbtreeCompared {
  import opened Common
  import opened NbtreePages
  import opened NbtreeLockstep
  import opened NbtreeTarget
  import opened NbtreeLevel
  import opened NbtreeTree
  import opened NbtreeRekey
  import opened NbtreeShift

  // ------------------------------------------------------------ closed sets do not depend on keys

  lemma SameReal(ix: Index, ix': Index, b: nat)
    requires Rekeyed(ix, ix') && b in ix
    ensures b in ix' && |Real(ix'[b])| == |Real(ix[b])| && |ix'[b].items| == |ix[b].items|
    ensures ix'[b].Rightmost() == ix[b].Rightmost() && ix'[b].leaf == ix[b].leaf && ix'[b].next == ix[b].next
    ensures ix'[b].incomplete == ix[b].incomplete && forall i: nat :: RealSlot(ix'[b], b, i) == RealSlot(ix[b], b, i)
  {
    hide Rekeyed;
    SamePage(ix, ix', b);
    SameItems(ix, ix', b);
  }

  lemma Symmetric(ix: Index, ix': Index)
    requires Rekeyed(ix, ix')
    ensures Rekeyed(ix', ix)
  {
    forall b | b in ix'
      ensures SameShape(ix'[b], ix[b])
    {
      assert b in ix.Keys && SameShape(ix[b], ix'[b]);
    }
  }

  lemma SameItemClosed(ix: Index, ix': Index, b: nat, i: nat, up: iset<Slot>)
    requires Rekeyed(ix, ix') && b in ix && i < |ix[b].items| && ItemClosed(ix, b, i, up)
    ensures b in ix' && i < |ix'[b].items| && ItemClosed(ix', b, i, up)
  {
    hide Rekeyed;
    SameReal(ix, ix', b);
  }

  lemma SameCrossClosed(ix: Index, ix': Index, b: nat, up: iset<Slot>)
    requires Rekeyed(ix, ix') && b in ix && CrossClosed(ix, b, up)
    ensures b in ix' && CrossClosed(ix', b, up)
  {
    hide Rekeyed, Real, Chain;
    SameReal(ix, ix', b);
    Symmetric(ix, ix');
    if Real(ix'[b]) != [] {
      forall skipped, q | RightOf(ix', b, skipped, q) && Real(ix'[q]) != []
        ensures Leads(up, RealSlot(ix'[b], b, |Real(ix'[b])| - 1), RealSlot(ix'[q], q, 0))
      {
        SameRight(ix', ix, b, skipped, q);
        SameReal(ix', ix, q);
      }
    }
  }

  lemma SameAboveClosed(ix: Index, ix': Index, b: nat, i: nat, up: iset<Slot>)
    requires Rekeyed(ix, ix') && b in ix && i < |ix[b].items| && AboveClosed(ix, b, i, up)
    ensures b in ix' && i < |ix'[b].items| && AboveClosed(ix', b, i, up)
  {
    hide Rekeyed, Real;
    SamePage(ix, ix', b);
    SameItems(ix, ix', b);
    var c := ix[b].items[i].child;
    SamePage(ix, ix', c);
    if c in ix {
      SameReal(ix, ix', c);
    }
  }

  lemma {:induction false} SameWayClosed(ix: Index, ix': Index, t: Target, c: nat, n: nat, up: iset<Slot>)
    requires Rekeyed(ix, ix') && IsTarget(ix, t) && t.block in ix' && WayClosed(ix, t, c, n, up)
    ensures WayClosed(ix', t, c, n, up)
    decreases n
  {
    hide Rekeyed, SepSlot, DownlinkOf;
    SepSame(ix, ix', t, c);
    SamePage(ix, ix', c);
    if n > 0 && c != P_NONE && c in ix && c != DownlinkOf(ix, t) {
      SameWayClosed(ix, ix', t, ix[c].next, n - 1, up);
    }
  }

  lemma SameCallClosed(ix: Index, ix': Index, t: Target, lag: Lag, up: iset<Slot>)
    requires Rekeyed(ix, ix') && IsTarget(ix, t) && CallClosed(ix, t, lag, up)
    ensures t.block in ix' && CallClosed(ix', t, lag, up)
  {
    hide Rekeyed, WayClosed, DownlinkOf;
    SepSame(ix, ix', t, 0);
    var c := if lag.link == INVALID_BLOCK then DownlinkOf(ix, t) else lag.link;
    forall n: nat
      ensures WayClosed(ix', t, c, n, up)
    {
      SameWayClosed(ix, ix', t, c, n, up);
    }
  }

  lemma SameOffsetClosed(ix: Index, ix': Index, b: nat, i: nat, low: Option<nat>, lag: Lag, up: iset<Slot>)
    requires Rekeyed(ix, ix') && IsTarget(ix, Target(b, i, low)) && i < |ix[b].items|
    requires OffsetClosed(ix, b, i, low, lag, up)
    ensures b in ix' && i < |ix'[b].items| && OffsetClosed(ix', b, i, low, lag, up)
  {
    hide Rekeyed, ItemClosed, AboveClosed, CrossClosed, CallClosed, LagAt;
    SamePage(ix, ix', b);
    SameItems(ix, ix', b);
    SameLag(ix, ix', b, lag, i);
    SameCallClosed(ix, ix', Target(b, i, low), LagAt(ix, ix[b], lag, i), up);
    if i > 0 {
      SameItemClosed(ix, ix', b, i, up);
      SameAboveClosed(ix, ix', b, i, up);
      if i + 1 == |ix[b].items| {
        SameCrossClosed(ix, ix', b, up);
      }
    }
  }

  lemma SamePageClosed(ix: Index, ix': Index, b: nat, low: Option<nat>, lag: Lag, up: iset<Slot>)
    requires Rekeyed(ix, ix') && IsTarget(ix, Target(b, 0, low)) && PageClosed(ix, b, low, lag, up)
    ensures b in ix' && PageClosed(ix', b, low, lag, up)
  {
    hide Rekeyed, ItemClosed, OffsetClosed, CrossClosed, CallClosed, LagAt;
    SamePage(ix, ix', b);
    SameItems(ix, ix', b);
    if ix[b].leaf {
      SameCrossClosed(ix, ix', b, up);
      forall i | 0 <= i < |ix'[b].items|
        ensures ItemClosed(ix', b, i, up)
      {
        SameItemClosed(ix, ix', b, i, up);
      }
    } else {
      forall i | 0 <= i < |ix'[b].items|
        ensures OffsetClosed(ix', b, i, low, lag, up)
      {
        SameOffsetClosed(ix, ix', b, i, low, lag, up);
      }
      var n := |ix[b].items|;
      SameLag(ix, ix', b, lag, n);
      if ix[b].Rightmost() {
        SameCallClosed(ix, ix', Target(b, n, low), LagAt(ix, ix[b], lag, n), up);
      }
    }
  }

  lemma SameLevelClosed(ix: Index, ix': Index, walk: seq<nat>, up: iset<Slot>)
    requires Rekeyed(ix, ix') && LevelClosed(ix, walk, up)
    ensures LevelClosed(ix', walk, up)
  {
    hide Rekeyed, PageClosed, SeenBy;
    forall k | 0 <= k < |walk| && Live(ix', walk[k])
      ensures PageClosed(ix', walk[k], LowAt(ix', walk, k), SeenBy(ix', walk[..k]).lag, up)
    {
      SamePage(ix, ix', walk[k]);
      SameSeen(ix, ix', walk[..k]);
      if k > 0 {
        SamePage(ix, ix', walk[k - 1]);
      }
      SamePageClosed(ix, ix', walk[k], LowAt(ix, walk, k), SeenBy(ix, walk[..k]).lag, up);
    }
  }

  // ------------------------------------------------------------ the keys not below an item

  ghost predicate LeafItem(ix: Index, s: Slot) {
    s.ItemSlot? && HasSlot(ix, s) && ix[s.block].leaf
  }

  /** `x` itself, the leaf items above it, and all other keys not below it. */
  ghost predicate NotBelow(ix: Index, stray: Item, x: Slot, s: Slot)
    requires HasSlot(ix, x)
  {
    s == x || (HasSlot(ix, s) &&
      if LeafItem(ix, s) then KeyAt(ix, s, stray) > KeyAt(ix, x, stray) else KeyAt(ix, s, stray) >= KeyAt(ix, x, stray))
  }

  ghost function UpFrom(ix: Index, stray: Item, x: Slot): iset<Slot>
    requires HasSlot(ix, x)
  {
    iset s: Slot | NotBelow(ix, stray, x, s)
  }

  lemma LeadsStrictly(ix: Index, stray: Item, x: Slot, s: Slot, t: Slot)
    requires HasSlot(ix, x) && HasSlot(ix, s) && HasSlot(ix, t) && KeyAt(ix, s, stray) < KeyAt(ix, t, stray)
    ensures Leads(UpFrom(ix, stray, x), s, t)
  {
  }

  lemma LeadsWeakly(ix: Index, stray: Item, x: Slot, s: Slot, t: Slot)
    requires HasSlot(ix, x) && HasSlot(ix, s) && HasSlot(ix, t) && !LeafItem(ix, t)
    requires KeyAt(ix, s, stray) <= KeyAt(ix, t, stray)
    ensures Leads(UpFrom(ix, stray, x), s, t)
  {
  }

  lemma TiesEqual(ix: Index, stray: Item, x: Slot, s: Slot, t: Slot)
    requires HasSlot(ix, x) && HasSlot(ix, s) && HasSlot(ix, t) && !LeafItem(ix, s) && !LeafItem(ix, t)
    requires KeyAt(ix, s, stray) == KeyAt(ix, t, stray)
    ensures Ties(UpFrom(ix, stray, x), s, t)
  {
    hide UpFrom;
    LeadsWeakly(ix, stray, x, s, t);
    LeadsWeakly(ix, stray, x, t, s);
  }

  lemma ItemUp(ix: Index, stray: Item, x: Slot, b: nat, i: nat)
    requires HasSlot(ix, x) && b in ix && i < |ix[b].items| && ItemOk(ix[b], i)
    ensures ItemClosed(ix, b, i, UpFrom(ix, stray, x))
  {
    hide UpFrom;
    if !ix[b].Rightmost() {
      LeadsWeakly(ix, stray, x, ItemSlot(b, i), HighSlot(b));
    }
    if i + 1 < |ix[b].items| {
      LeadsStrictly(ix, stray, x, ItemSlot(b, i), ItemSlot(b, i + 1));
    }
  }

  lemma RealKey(ix: Index, stray: Item, b: nat, i: nat)
    requires b in ix && i < |Real(ix[b])|
    ensures HasSlot(ix, RealSlot(ix[b], b, i)) && KeyAt(ix, RealSlot(ix[b], b, i), stray) == Real(ix[b])[i].key
  {
    RealAt(ix[b], i);
  }

  lemma RightIsOrdered(ix: Index, b: nat, skipped: seq<nat>, q: nat)
    requires CrossOrdered(ix, b) && Real(ix[b]) != [] && RightOf(ix, b, skipped, q)
    ensures LastBelowFirst(ix[b], ix[q])
  {
    var path := [b] + skipped + [q];
    assert ix[path[0]].next == path[1] && Loads(ix, path[1]);
    if !LastBelowFirst(ix[b], ix[q]) {
      NotCrossOrdered(ix, b, skipped, q);
    }
  }

  lemma CrossUp(ix: Index, stray: Item, x: Slot, b: nat)
    requires HasSlot(ix, x) && b in ix && CrossOrdered(ix, b)
    ensures CrossClosed(ix, b, UpFrom(ix, stray, x))
  {
    hide UpFrom, Real, Chain, HasSlot, KeyAt;
    if Real(ix[b]) != [] {
      forall skipped, q | RightOf(ix, b, skipped, q) && Real(ix[q]) != []
        ensures Leads(UpFrom(ix, stray, x), RealSlot(ix[b], b, |Real(ix[b])| - 1), RealSlot(ix[q], q, 0))
      {
        RightIsOrdered(ix, b, skipped, q);
        RealKey(ix, stray, b, |Real(ix[b])| - 1);
        RealKey(ix, stray, q, 0);
        LeadsStrictly(ix, stray, x, RealSlot(ix[b], b, |Real(ix[b])| - 1), RealSlot(ix[q], q, 0));
      }
    }
  }

  lemma AboveUp(ix: Index, stray: Item, x: Slot, b: nat, i: nat)
    requires HasSlot(ix, x) && b in ix && i < |ix[b].items| && ChildAbove(ix, ix[b], i)
    ensures AboveClosed(ix, b, i, UpFrom(ix, stray, x))
  {
    hide UpFrom, Real;
    var c := ix[b].items[i].child;
    forall j | 0 <= j < |Real(ix[c])|
      ensures Leads(UpFrom(ix, stray, x), ItemSlot(b, i), RealSlot(ix[c], c, j))
    {
      RealKey(ix, stray, c, j);
      LeadsStrictly(ix, stray, x, ItemSlot(b, i), RealSlot(ix[c], c, j));
    }
  }

  lemma TurnUp(ix: Index, stray: Item, x: Slot, t: Target, link: nat, c: nat, first: bool, split: bool)
    requires HasSlot(ix, x) && IsTarget(ix, t) && !ix[t.block].leaf
    requires TurnAllowed(ix, CallOf(ix, t, stray, link), c, first, split)
    ensures TurnClosed(ix, t, c, UpFrom(ix, stray, x))
  {
    hide UpFrom, IsLeftmost, Excused;
    SepMeans(ix, t, stray, link, c);
    if !ix[c].incomplete && !ix[c].Rightmost() {
      TiesEqual(ix, stray, x, HighSlot(c), SepSlot(ix, t, c).value);
    }
  }

  lemma {:induction false} WayUp(ix: Index, stray: Item, x: Slot, t: Target, link: nat, c: nat, first: bool,
                                 split: bool, m: nat, n: nat)
    requires HasSlot(ix, x) && IsTarget(ix, t) && !ix[t.block].leaf
    requires CallOk(ix, CallOf(ix, t, stray, link), c, first, split, m)
    ensures WayClosed(ix, t, c, n, UpFrom(ix, stray, x))
    decreases n
  {
    hide UpFrom, TurnAllowed, TurnClosed, SepSlot, DownlinkOf;
    SepMeans(ix, t, stray, link, c);
    if n > 0 && c != P_NONE && c in ix {
      TurnUp(ix, stray, x, t, link, c, first, split);
      if c != DownlinkOf(ix, t) {
        WayUp(ix, stray, x, t, link, ix[c].next, false, ix[c].incomplete, m - 1, n - 1);
      }
    }
  }

  lemma CallUp(ix: Index, stray: Item, x: Slot, t: Target, lag: Lag)
    requires HasSlot(ix, x) && IsTarget(ix, t) && !ix[t.block].leaf
    requires CallPasses(ix, ix[t.block], t.i, LowItem(ix, t.low), stray, lag)
    ensures CallClosed(ix, t, lag, UpFrom(ix, stray, x))
  {
    hide UpFrom, CallOk, WayClosed, DownlinkOf;
    SepMeans(ix, t, stray, lag.link, 0);
    var anew := lag.link == INVALID_BLOCK;
    var c, split := if anew then DownlinkOf(ix, t) else lag.link, !anew && lag.split;
    assert Arrives(ix, CallOf(ix, t, stray, lag.link), c, split);
    var m: nat :| CallOk(ix, CallOf(ix, t, stray, lag.link), c, true, split, m);
    forall n: nat
      ensures WayClosed(ix, t, c, n, UpFrom(ix, stray, x))
    {
      WayUp(ix, stray, x, t, lag.link, c, true, split, m, n);
    }
  }

  lemma PageUp(ix: Index, stray: Item, x: Slot, b: nat, low: Option<nat>, lag: Lag)
    requires HasSlot(ix, x) && IsTarget(ix, Target(b, 0, low)) && Loads(ix, b)
    requires TargetPasses(ix, b, LowItem(ix, low), stray, lag)
    ensures PageClosed(ix, b, low, lag, UpFrom(ix, stray, x))
  {
    hide UpFrom, ItemClosed, ItemOk, CrossClosed, CrossOrdered, AboveClosed,
         ChildAbove, CallClosed, CallPasses, PageOrdered, LagAt;
    if ix[b].leaf {
      CrossUp(ix, stray, x, b);
      forall i | 0 <= i < |ix[b].items|
        ensures ItemClosed(ix, b, i, UpFrom(ix, stray, x))
      {
        LeafItemOk(ix[b], i);
        ItemUp(ix, stray, x, b, i);
      }
    } else {
      forall i | 0 <= i < |ix[b].items|
        ensures OffsetClosed(ix, b, i, low, lag, UpFrom(ix, stray, x))
      {
        assert OffsetPasses(ix, b, i, LowItem(ix, low), stray, lag);
        CallUp(ix, stray, x, Target(b, i, low), LagAt(ix, ix[b], lag, i));
        if i > 0 {
          ItemUp(ix, stray, x, b, i);
          AboveUp(ix, stray, x, b, i);
          if i + 1 == |ix[b].items| {
            CrossUp(ix, stray, x, b);
          }
        }
      }
      if ix[b].Rightmost() {
        CallUp(ix, stray, x, Target(b, |ix[b].items|, low), LagAt(ix, ix[b], lag, |ix[b].items|));
      }
    }
  }

  /** On a clean level the keys not below an item are closed. */
  lemma LevelUp(ix: Index, stray: Item, x: Slot, lv: Level, walk: seq<nat>)
    requires HasSlot(ix, x) && LevelClean(ix, lv, stray, walk)
    ensures LevelClosed(ix, walk, UpFrom(ix, stray, x))
  {
    hide UpFrom, PageClosed, TargetPasses, StartsLevel, SeenBy;
    forall k | 0 <= k < |walk| && Live(ix, walk[k])
      ensures PageClosed(ix, walk[k], LowAt(ix, walk, k), SeenBy(ix, walk[..k]).lag, UpFrom(ix, stray, x))
    {
      var s := SeenBy(ix, walk[..k]);
      assert TurnClean(ix, lv, stray, LastOf(walk[..k]), walk[k], s);
      LowkeySeen(ix, walk, k);
      PageUp(ix, stray, x, walk[k], LowAt(ix, walk, k), s.lag);
    }
  }

  // ------------------------------------------------------------ whole trees

  /** Every comparison made on the tree stays inside. */
  ghost predicate TreeClosed(ix: Index, walks: seq<seq<nat>>, up: iset<Slot>) {
    forall i :: 0 <= i < |walks| ==> LevelClosed(ix, walks[i], up)
  }

  /** Comparisons lead from `x` to `y`: whatever contains `x` and all that is compared from there contains `y`. */
  ghost predicate Compared(ix: Index, walks: seq<seq<nat>>, x: Slot, y: Slot) {
    forall up :: TreeClosed(ix, walks, up) && x in up ==> y in up
  }

  /** Whatever the keys are, if the tree passes then `x` is below `y`. */
  ghost predicate AlwaysBelow(ix: Index, top: Level, stray: Item, walks: seq<seq<nat>>, x: Slot, y: Slot) {
    forall ix' :: Rekeyed(ix, ix') && TreeClean(ix', top, stray, walks) ==>
      HasSlot(ix', x) && HasSlot(ix', y) && KeyAt(ix', x, stray) < KeyAt(ix', y, stray)
  }

  lemma {:induction false} TreeStaysClean(ix: Index, sh: Shift, top: Level, stray: Item, walks: seq<seq<nat>>)
    requires Upward(sh) && TreeClosed(ix, walks, sh.up) && TreeClean(ix, top, stray, walks)
    ensures TreeClean(Shifted(ix, sh), top, stray, walks)
    decreases |walks|
  {
    hide LevelClosed, LevelClean, SeenBy, Shifted;
    if top.leftmost != P_NONE {
      LevelStaysClean(ix, sh, top, stray, walks[0]);
      SameSeen(ix, Shifted(ix, sh), walks[0]);
      if top.level > 0 {
        TreeStaysClean(ix, sh, Below(ix, top, walks[0]), stray, walks[1..]);
      }
    }
  }

  lemma TreeUp(ix: Index, stray: Item, x: Slot, top: Level, walks: seq<seq<nat>>)
    requires HasSlot(ix, x) && TreeClean(ix, top, stray, walks)
    ensures TreeClosed(ix, walks, UpFrom(ix, stray, x))
  {
    hide UpFrom, LevelClosed, LevelClean, TreeClean, SeenBy;
    forall i | 0 <= i < |walks|
      ensures LevelClosed(ix, walks[i], UpFrom(ix, stray, x))
    {
      LevelsClean(ix, top, stray, walks, i);
      LevelUp(ix, stray, x, LevelAt(ix, top, walks, i), walks[i]);
    }
  }

  lemma SameSlot(ix: Index, ix': Index, s: Slot)
    requires Rekeyed(ix, ix') && LeafItem(ix, s)
    ensures LeafItem(ix', s)
  {
    hide Rekeyed;
    SamePage(ix, ix', s.block);
    SameItems(ix, ix', s.block);
  }

  /** If comparisons lead from one leaf item to another, every tree that passes has them in order. */
  lemma ComparedBelow(ix: Index, ix': Index, top: Level, stray: Item, walks: seq<seq<nat>>, x: Slot, y: Slot)
    requires Compared(ix, walks, x, y) && LeafItem(ix, x) && LeafItem(ix, y) && x != y
    requires Rekeyed(ix, ix') && TreeClean(ix', top, stray, walks)
    ensures HasSlot(ix', x) && HasSlot(ix', y) && KeyAt(ix', x, stray) < KeyAt(ix', y, stray)
  {
    hide TreeClean, LevelClosed, Rekeyed;
    SameSlot(ix, ix', x);
    SameSlot(ix, ix', y);
    var up := UpFrom(ix', stray, x);
    TreeUp(ix', stray, x, top, walks);
    Symmetric(ix, ix');
    forall i | 0 <= i < |walks|
      ensures LevelClosed(ix, walks[i], up)
    {
      SameLevelClosed(ix', ix, walks[i], up);
    }
    assert TreeClosed(ix, walks, up) && x in up;
  }

  /** If not, the keys can be shifted so that the tree still passes and the two are not in order. */
  lemma NotComparedShifts(ix: Index, top: Level, stray: Item, walks: seq<seq<nat>>, x: Slot, y: Slot, up: iset<Slot>)
    returns (ix': Index)
    requires TreeClean(ix, top, stray, walks) && HasSlot(ix, x) && HasSlot(ix, y)
    requires TreeClosed(ix, walks, up) && x in up && y !in up
    ensures Rekeyed(ix, ix') && TreeClean(ix', top, stray, walks)
    ensures HasSlot(ix', x) && HasSlot(ix', y) && KeyAt(ix', x, stray) >= KeyAt(ix', y, stray)
  {
    hide TreeClean, TreeClosed, Rekeyed, KeyAt;
    var kx, ky := KeyAt(ix, x, stray), KeyAt(ix, y, stray);
    var d := if ky > kx then ky - kx else 0;
    var sh := if StraySlot in up then Shift(up, 0, -d) else Shift(up, d, 0);
    TreeStaysClean(ix, sh, top, stray, walks);
    KeyShifted(ix, sh, x, stray);
    KeyShifted(ix, sh, y, stray);
    ix' := Shifted(ix, sh);
  }

  /**
   For any two leaf items of a tree that passes: the check guarantees that the first is
   below the second, for every choice of keys, exactly when comparisons lead from the
   first to the second.
   */
  lemma LeafOrderExactly(ix: Index, top: Level, stray: Item, walks: seq<seq<nat>>, x: Slot, y: Slot)
    requires TreeClean(ix, top, stray, walks) && LeafItem(ix, x) && LeafItem(ix, y) && x != y
    ensures AlwaysBelow(ix, top, stray, walks, x, y) <==> Compared(ix, walks, x, y)
  {
    hide TreeClean, TreeClosed, Rekeyed;
    if Compared(ix, walks, x, y) {
      forall ix' | Rekeyed(ix, ix') && TreeClean(ix', top, stray, walks)
        ensures HasSlot(ix', x) && HasSlot(ix', y) && KeyAt(ix', x, stray) < KeyAt(ix', y, stray)
      {
        ComparedBelow(ix, ix', top, stray, walks, x, y);
      }
    } else {
      var up :| TreeClosed(ix, walks, up) && x in up && y !in up;
      var ix' := NotComparedShifts(ix, top, stray, walks, x, y, up);
    }
  }

  // ------------------------------------------------------------ leaf pages nothing is compared with

  /** No live page on the walk compares its last item, or a separator, with the items of page `b`. */
  ghost predicate NotReached(ix: Index, walk: seq<nat>, b: nat) {
    forall k :: 0 <= k < |walk| && Live(ix, walk[k]) ==>
      && (Real(ix[walk[k]]) != [] ==> forall skipped :: !RightOf(ix, walk[k], skipped, b))
      && (!ix[walk[k]].leaf ==> forall i :: 0 < i < |ix[walk[k]].items| ==> ix[walk[k]].items[i].child != b)
  }

  ghost function AllBut(b: nat): iset<Slot> {
    iset s: Slot | !s.ItemSlot? || s.block != b
  }

  lemma {:induction false} WayAllBut(ix: Index, t: Target, c: nat, n: nat, b: nat)
    requires t.block in ix && t.block != b
    ensures WayClosed(ix, t, c, n, AllBut(b))
    decreases n
  {
    if n > 0 && c != P_NONE && c in ix && c != DownlinkOf(ix, t) {
      WayAllBut(ix, t, ix[c].next, n - 1, b);
    }
  }

  lemma CallAllBut(ix: Index, t: Target, lag: Lag, b: nat)
    requires t.block in ix && t.block != b
    ensures CallClosed(ix, t, lag, AllBut(b))
  {
    hide WayClosed, AllBut, DownlinkOf;
    var c := if lag.link == INVALID_BLOCK then DownlinkOf(ix, t) else lag.link;
    forall n: nat
      ensures WayClosed(ix, t, c, n, AllBut(b))
    {
      WayAllBut(ix, t, c, n, b);
    }
  }

  lemma CrossAllBut(ix: Index, p: nat, b: nat)
    requires p in ix && (Real(ix[p]) != [] ==> forall skipped :: !RightOf(ix, p, skipped, b))
    ensures CrossClosed(ix, p, AllBut(b))
  {
    hide RightOf, Real;
  }

  lemma LevelAllBut(ix: Index, walk: seq<nat>, b: nat)
    requires NotReached(ix, walk, b) && b in ix && ix[b].leaf
    ensures LevelClosed(ix, walk, AllBut(b))
  {
    hide CrossClosed, CallClosed, SeenBy, LagAt, RightOf, Real;
    forall k | 0 <= k < |walk| && Live(ix, walk[k])
      ensures PageClosed(ix, walk[k], LowAt(ix, walk, k), SeenBy(ix, walk[..k]).lag, AllBut(b))
    {
      var p, low, lag := walk[k], LowAt(ix, walk, k), SeenBy(ix, walk[..k]).lag;
      CrossAllBut(ix, p, b);
      if !ix[p].leaf {
        forall i | 0 <= i < |ix[p].items|
          ensures OffsetClosed(ix, p, i, low, lag, AllBut(b))
        {
          CallAllBut(ix, Target(p, i, low), LagAt(ix, ix[p], lag, i), b);
        }
        CallAllBut(ix, Target(p, |ix[p].items|, low), LagAt(ix, ix[p], lag, |ix[p].items|), b);
      }
    }
  }

  /**
   The items of a leaf page that is the first child of its parent, with an empty page before
   it, are guaranteed to be above no item of another leaf page.
   */
  lemma FirstChildUnguarded(ix: Index, top: Level, stray: Item, walks: seq<seq<nat>>, x: Slot, y: Slot)
    requires TreeClean(ix, top, stray, walks) && LeafItem(ix, x) && LeafItem(ix, y) && x.block != y.block
    requires forall i :: 0 <= i < |walks| ==> NotReached(ix, walks[i], y.block)
    ensures !AlwaysBelow(ix, top, stray, walks, x, y)
  {
    hide TreeClean, LevelClosed, NotReached;
    forall i | 0 <= i < |walks|
      ensures LevelClosed(ix, walks[i], AllBut(y.block))
    {
      LevelAllBut(ix, walks[i], y.block);
    }
    assert TreeClosed(ix, walks, AllBut(y.block)) && x in AllBut(y.block) && y !in AllBut(y.block);
    LeafOrderExactly(ix, top, stray, walks, x, y);
  }
}
