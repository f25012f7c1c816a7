/**
 What it means that `bt_index_parent_check` found nothing wrong with a tree, and two
 things it does not find.
 */
module NbtreeTheorems {
  import opened Common
  import opened NbtreePages
  import opened NbtreeLockstep
  import opened NbtreeTarget
  import opened NbtreeLevel
  import opened NbtreeTree
  import opened NbtreeOrder
  import opened NbtreeDownlinks

  // ------------------------------------------------------------ a tree that passed

  /** Every level of a clean tree passed: pages in place and in order, up to the rightmost one. */
  lemma TreePassed(ix: Index, top: Level, stray: Item, walks: seq<seq<nat>>, i: nat)
    requires TreeClean(ix, top, stray, walks) && i < |walks|
    ensures i <= top.level && LevelPassed(ix, LevelAt(ix, top, walks, i), walks[i])
  {
    hide TreeClean, LevelClean, LevelPassed, SeenBy;
    LevelsClean(ix, top, stray, walks, i);
    CleanPassed(ix, LevelAt(ix, top, walks, i), stray, walks[i]);
  }

  /** Two levels of a clean tree, one above the other. */
  lemma TreeStacked(ix: Index, top: Level, stray: Item, walks: seq<seq<nat>>, i: nat)
    requires TreeClean(ix, top, stray, walks) && i + 1 < |walks| && NoMarks(ix, walks[i])
    ensures i + 1 <= top.level && Stacked(ix, LevelAt(ix, top, walks, i), stray, walks[i], walks[i + 1])
  {
    hide TreeClean, LevelClean, SeenBy, NoMarks;
    LevelsClean(ix, top, stray, walks, i);
    LevelsClean(ix, top, stray, walks, i + 1);
  }

  /**
   The downlinks of a level, all of them in order, are places on the chain of the next
   level exactly when no live page of the level has zero as its first downlink.
   */
  lemma TreeConnected(ix: Index, top: Level, stray: Item, walks: seq<seq<nat>>, i: nat)
    requires INVALID_BLOCK !in ix && TreeClean(ix, top, stray, walks) && i + 1 < |walks|
    ensures Connected(ix, walks[i + 1], DownlinksOf(ix, walks[i])) <==> NoMarks(ix, walks[i])
  {
    hide TreeClean, WalkClean, SeenBy, NoMarks, Connected, DownlinksOf, FullChain;
    LevelsClean(ix, top, stray, walks, i);
    LevelsClean(ix, top, stray, walks, i + 1);
    ConnectedBelow(ix, LevelAt(ix, top, walks, i), stray, walks[i], walks[i + 1]);
  }

  // ------------------------------------------------------------ how far down a tree is checked

  /** The first downlink of the first live page of a level. */
  ghost function FirstDownOf(ix: Index, walk: seq<nat>): nat {
    if walk == [] then P_NONE else if Live(ix, walk[0]) then FirstDown(ix[walk[0]]) else FirstDownOf(ix, walk[1..])
  }

  lemma {:induction false} FirstDownAt(ix: Index, walk: seq<nat>) returns (k: nat)
    requires walk != [] && Live(ix, walk[|walk| - 1])
    ensures FirstLive(ix, walk, k) && FirstDownOf(ix, walk) == FirstDown(ix[walk[k]])
  {
    if Live(ix, walk[0]) {
      k := 0;
    } else {
      var rest := walk[1..];
      assert rest[|rest| - 1] == walk[|walk| - 1];
      var j := FirstDownAt(ix, rest);
      k := j + 1;
      forall i | 0 <= i < k
        ensures !Live(ix, walk[i])
      {
        assert i > 0 ==> walk[i] == rest[i - 1];
      }
    }
  }

  lemma {:induction false} NothingSeen(ix: Index, walk: seq<nat>)
    requires NoneLive(ix, walk)
    ensures SeenBy(ix, walk).lag == NO_LAG
  {
    if walk != [] {
      NothingSeen(ix, walk[..|walk| - 1]);
    }
  }

  /** It is where the check goes on. */
  lemma NextdownIs(ix: Index, lv: Level, stray: Item, walk: seq<nat>)
    requires INVALID_BLOCK !in ix && LevelClean(ix, lv, stray, walk) && lv.level > 0
    ensures SeenBy(ix, walk).nextdown == FirstDownOf(ix, walk)
  {
    hide FullChain, CallPasses, StartsLevel, FirstDownOf, ChildAbove, ItemOk, CrossOrdered, PageLag;
    LastPage(ix, lv, stray, walk);
    var k := FirstDownAt(ix, walk);
    var b, s := walk[k], SeenBy(ix, walk[..k]);
    assert NoneLive(ix, walk[..k]);
    NoneSeen(ix, walk[..k]);
    NothingSeen(ix, walk[..k]);
    assert TurnClean(ix, lv, stray, LastOf(walk[..k]), b, s);
    assert OffsetPasses(ix, b, 0, s.lowkey, stray, s.lag);
    if ix[b].items[0].child != P_NONE {
      FirstLoads(ix, ix[b], s.lowkey, stray);
    }
    assert walk[..k + 1] == walk[..k] + [b];
    SeenNext(ix, walk[..k], b);
    NextdownStays(ix, walk, k + 1);
  }

  /** On every level above the leaves the first live page has a first downlink other than zero. */
  ghost predicate Descends(ix: Index, top: Level, walks: seq<seq<nat>>) {
    forall i :: 0 <= i < |walks| && i < top.level ==> FirstDownOf(ix, walks[i]) != P_NONE
  }

  /** A tree that passes was checked down to the leaves exactly then. */
  lemma {:induction false} TreeHeight(ix: Index, top: Level, stray: Item, walks: seq<seq<nat>>)
    requires INVALID_BLOCK !in ix && TreeClean(ix, top, stray, walks) && top.leftmost != P_NONE
    ensures |walks| == top.level + 1 <==> Descends(ix, top, walks)
    decreases top.level
  {
    hide LevelClean, SeenBy, FirstDownOf;
    if top.level > 0 {
      NextdownIs(ix, top, stray, walks[0]);
      var rest := walks[1..];
      if FirstDownOf(ix, walks[0]) == P_NONE {
        assert !Descends(ix, top, walks);
      } else {
        TreeHeight(ix, Below(ix, top, walks[0]), stray, rest);
        DescendsOn(ix, top, walks);
      }
    }
  }

  lemma DescendsOn(ix: Index, top: Level, walks: seq<seq<nat>>)
    requires top.level > 0 && walks != [] && FirstDownOf(ix, walks[0]) != P_NONE
    ensures Descends(ix, top, walks) <==> Descends(ix, Below(ix, top, walks[0]), walks[1..])
  {
    hide FirstDownOf, SeenBy;
    var below, rest := Below(ix, top, walks[0]), walks[1..];
    if Descends(ix, below, rest) {
      forall i | 0 <= i < |walks| && i < top.level
        ensures FirstDownOf(ix, walks[i]) != P_NONE
      {
        assert i > 0 ==> rest[i - 1] == walks[i];
      }
    }
    if Descends(ix, top, walks) {
      forall i | 0 <= i < |rest| && i < below.level
        ensures FirstDownOf(ix, rest[i]) != P_NONE
      {
        assert rest[i] == walks[i + 1];
      }
    }
  }

  // ------------------------------------------------------------ order below a level

  /** Downlink `j` of page number `k` points to block `c`. */
  ghost predicate LinkTo(ix: Index, walk: seq<nat>, k: nat, j: nat, c: nat) {
    k < |walk| && Live(ix, walk[k]) && j < |ix[walk[k]].items| && ix[walk[k]].items[j].child == c
  }

  /**
   The separators above keep two pages apart: the right one is not the first child of its
   page, and the separator after the left one is an item of the level above.
   */
  ghost predicate KeptApart(ix: Index, walk: seq<nat>, c: nat, d: nat, k: nat, i: nat, l: nat, j: nat) {
    && LinkTo(ix, walk, k, i, c) && LinkTo(ix, walk, l, j, d) && j > 0
    && ((k == l && i < j) || (k < l && i + 1 < |ix[walk[k]].items|))
  }

  ghost predicate GapsCovered(ix: Index, walk: seq<nat>, below: seq<nat>) {
    forall a: nat, b: nat :: NextFilled(ix, below, a, b) && !NextLive(ix, below, a, b) ==>
      && !ix[below[a]].incomplete
      && exists k: nat, i: nat, l: nat, j: nat :: KeptApart(ix, walk, below[a], below[b], k, i, l, j)
  }

  /** Then order on the level above gives order on the level below, across its empty pages, too. */
  lemma OrderBelow(ix: Index, lv: Level, stray: Item, walk: seq<nat>, below: seq<nat>)
    requires Stacked(ix, lv, stray, walk, below) && GapsCovered(ix, walk, below) && LevelOrdered(ix, walk)
    ensures LevelOrdered(ix, below)
  {
    hide LevelClean, SeenBy, NoMarks, NextLive, LevelOrdered, LevelPassed, Real, KeptApart;
    forall a: nat, b: nat | NextFilled(ix, below, a, b) && !NextLive(ix, below, a, b)
      ensures LastBelowFirst(ix[below[a]], ix[below[b]])
    {
      var k: nat, i: nat, l: nat, j: nat :| KeptApart(ix, walk, below[a], below[b], k, i, l, j);
      PagesApart(ix, lv, stray, walk, below, below[a], below[b], k, i, l, j);
    }
    var lower := Level(lv.level - 1, SeenBy(ix, walk).nextdown, false);
    CleanPassed(ix, lower, stray, below);
    LevelIncreasing(ix, lower, below);
  }

  lemma PagesApart(ix: Index, lv: Level, stray: Item, walk: seq<nat>, below: seq<nat>, c: nat, d: nat,
                   k: nat, i: nat, l: nat, j: nat)
    requires Stacked(ix, lv, stray, walk, below) && LevelOrdered(ix, walk) && KeptApart(ix, walk, c, d, k, i, l, j)
    requires Filled(ix, c) && Filled(ix, d) && !ix[c].incomplete
    ensures LastBelowFirst(ix[c], ix[d])
  {
    hide LevelClean, SeenBy, NoMarks, PagePasses;
    var m := |Real(ix[c])| - 1;
    if k == l {
      SiblingsOrdered(ix, lv, stray, walk, below, k, i, j, m, 0);
    } else {
      ChildBetween(ix, lv, stray, walk, below, k, i, m);
      var s := UpperPage(ix, lv, stray, walk, below, l);
      var s' := UpperPage(ix, lv, stray, walk, below, k);
      LinkMeans(ix, walk[l], s.lowkey, stray, s.lag, j);
      RealIs(ix[walk[k]], i);
      RealIs(ix[walk[l]], j - 1);
      assert Before(ix, walk, k, i, l, j - 1);
    }
  }

  lemma RealIs(p: Page, i: nat)
    requires !p.leaf && i + 1 < |p.items|
    ensures i < |Real(p)| && Real(p)[i] == p.items[i + 1]
  {
  }

  // ------------------------------------------------------------ what is not found

  function Leaf(prev: nat, next: nat, hikey: int, items: seq<Item>): Page {
    Page(prev, next, 0, true, false, false, false, false, false, false, Item(hikey, 0, 0), items)
  }

  /** An internal page with two downlinks, the first without a usable key. */
  function Inner(prev: nat, next: nat, level: nat, root: bool, hikey: int, left: nat, key: int, right: nat): Page {
    Page(prev, next, level, false, root, false, false, false, false, false, Item(hikey, 0, 0),
         [Item(0, left, 0), Item(key, right, 0)])
  }

  /**
   A tree of three levels without incomplete splits.  Below the first internal page the
   second leaf is empty; the leaf after it is the first child of the next internal page.
   The leaves hold 5, nothing, 4 and 13.
   */
  const GAPPED: Index :=
    map[1 := Inner(0, 0, 2, true, 0, 2, 9, 3),
        2 := Inner(0, 3, 1, false, 9, 4, 7, 5), 3 := Inner(2, 0, 1, false, 0, 6, 12, 7),
        4 := Leaf(0, 5, 7, [Item(5, 0, 0)]), 5 := Leaf(4, 6, 9, []),
        6 := Leaf(5, 7, 12, [Item(4, 0, 0)]), 7 := Leaf(6, 0, 0, [Item(13, 0, 0)])]

  const ROOT_LEVEL: Level := Level(2, 1, true)
  const INNER_LEVEL: Level := Level(1, 2, false)
  const LEAF_LEVEL: Level := Level(0, 4, false)

  /** A call whose first page is the downlink. */
  lemma DirectCall(ix: Index, target: Page, i: nat, lowkey: Option<Item>, stray: Item, lag: Lag)
    requires i < |target.items| && Loads(ix, target.items[i].child)
    requires var c := ix[target.items[i].child];
             && !c.deleted && c.level == target.level - 1 && c.prev != target.items[i].child
             && (c.Rightmost() || (Pivot(target, i + 1, lowkey).Some? &&
                                   Pivot(target, i + 1, lowkey).value.key == c.hikey.key))
    requires lag.link == (if lag == NO_LAG then INVALID_BLOCK else target.items[i].child) && INVALID_BLOCK !in ix
    requires lag == NO_LAG ==> ix[target.items[i].child].prev == P_NONE
    ensures CallPasses(ix, target, i, lowkey, stray, lag)
  {
    hide Excused;
    var b, c := target.items[i].child, Call(target, i, lowkey, stray, lag.link);
    if lag == NO_LAG {
      assert Leftmost(ix, b, P_NONE, []);
    }
    var split := lag != NO_LAG && lag.split;
    assert CallOk(ix, c, b, true, split, 1);
    assert Arrives(ix, c, b, split);
  }

  /** The call after the last downlink, when that was the rightmost page. */
  lemma EndCall(ix: Index, target: Page, lowkey: Option<Item>, stray: Item, split: bool)
    ensures CallPasses(ix, target, |target.items|, lowkey, stray, Lag(P_NONE, split))
  {
    var c := Call(target, |target.items|, lowkey, stray, P_NONE);
    assert CallOk(ix, c, P_NONE, true, split, 0);
    assert Arrives(ix, c, P_NONE, split);
  }

  lemma RootPasses(stray: Item)
    ensures PagePasses(GAPPED, 1, None, stray, NO_LAG)
  {
    hide CallPasses, RightOf;
    var p := GAPPED[1];
    DirectCall(GAPPED, p, 0, None, stray, NO_LAG);
    DirectCall(GAPPED, p, 1, None, stray, Lag(3, false));
    EndCall(GAPPED, p, None, stray, false);
    assert OffsetPasses(GAPPED, 1, 0, None, stray, NO_LAG) && OffsetPasses(GAPPED, 1, 1, None, stray, NO_LAG);
  }

  lemma RightNeighbour(ix: Index, b: nat, q: nat)
    requires Loads(ix, b) && Loads(ix, q) && ix[b].next == q && !ix[q].Ignore()
    ensures RightOf(ix, b, [], q)
  {
    assert [b] + [] + [q] == [b, q];
    assert Chain(ix, [b, q]);
  }

  lemma FirstInnerPasses(stray: Item)
    ensures PagePasses(GAPPED, 2, None, stray, NO_LAG)
  {
    hide CallPasses, RightOf;
    var p := GAPPED[2];
    DirectCall(GAPPED, p, 0, None, stray, NO_LAG);
    DirectCall(GAPPED, p, 1, None, stray, Lag(5, false));
    RightNeighbour(GAPPED, 2, 3);
    assert LastBelowFirst(GAPPED[2], GAPPED[3]);
    assert OffsetPasses(GAPPED, 2, 0, None, stray, NO_LAG) && OffsetPasses(GAPPED, 2, 1, None, stray, NO_LAG);
  }

  lemma SecondInnerPasses(stray: Item)
    ensures PagePasses(GAPPED, 3, Some(GAPPED[2].hikey), stray, Lag(6, false))
  {
    hide CallPasses, RightOf;
    var p, low := GAPPED[3], Some(GAPPED[2].hikey);
    DirectCall(GAPPED, p, 0, low, stray, Lag(6, false));
    DirectCall(GAPPED, p, 1, low, stray, Lag(7, false));
    EndCall(GAPPED, p, low, stray, false);
    assert OffsetPasses(GAPPED, 3, 0, low, stray, Lag(6, false));
    assert OffsetPasses(GAPPED, 3, 1, low, stray, Lag(6, false));
  }

  lemma RootLevelClean(stray: Item)
    ensures LevelClean(GAPPED, ROOT_LEVEL, stray, [1]) && SeenBy(GAPPED, [1]).nextdown == 2
  {
    hide PagePasses;
    RootPasses(stray);
    assert Leftmost(GAPPED, 1, 0, []);
    var walk := [1];
    assert walk[..0] == [];
    assert TurnClean(GAPPED, ROOT_LEVEL, stray, LastOf(walk[..0]), walk[0], SeenBy(GAPPED, walk[..0]));
    SeenNext(GAPPED, [], 1);
    assert [] + [1] == walk;
  }

  lemma InnerSeen()
    ensures SeenBy(GAPPED, []) == Seen(INVALID_BLOCK, NO_LAG, None)
    ensures SeenBy(GAPPED, [2]) == Seen(4, Lag(6, false), Some(GAPPED[2].hikey)) && SeenBy(GAPPED, [2, 3]).nextdown == 4
  {
    SeenNext(GAPPED, [], 2);
    SeenNext(GAPPED, [2], 3);
    assert [] + [2] == [2] && [2] + [3] == [2, 3];
  }

  lemma FirstInnerClean(stray: Item)
    ensures TurnClean(GAPPED, INNER_LEVEL, stray, None, 2, Seen(INVALID_BLOCK, NO_LAG, None))
  {
    hide PagePasses;
    FirstInnerPasses(stray);
    assert Leftmost(GAPPED, 2, 0, []);
  }

  lemma SecondInnerClean(stray: Item)
    ensures TurnClean(GAPPED, INNER_LEVEL, stray, Some(2), 3, Seen(4, Lag(6, false), Some(GAPPED[2].hikey)))
  {
    hide PagePasses, IsLeftmost;
    SecondInnerPasses(stray);
  }

  lemma InnerLevelClean(stray: Item)
    ensures LevelClean(GAPPED, INNER_LEVEL, stray, [2, 3]) && SeenBy(GAPPED, [2, 3]).nextdown == 4
  {
    hide SeenBy, TurnClean;
    InnerSeen();
    FirstInnerClean(stray);
    SecondInnerClean(stray);
    var walk := [2, 3];
    assert walk[..0] == [] && walk[..1] == [2];
    assert LastOf(walk[..0]) == None && LastOf(walk[..1]) == Some(2);
  }

  lemma LeafVisited(k: nat)
    requires k < 4
    ensures VisitOk(GAPPED, LEAF_LEVEL, [4, 5, 6, 7], k)
  {
    hide RightOf;
    RightNeighbour(GAPPED, 4, 5);
    RightNeighbour(GAPPED, 6, 7);
    assert LastBelowFirst(GAPPED[4], GAPPED[5]) && LastBelowFirst(GAPPED[6], GAPPED[7]);
  }

  lemma LeafLevelPasses()
    ensures LevelPassed(GAPPED, LEAF_LEVEL, [4, 5, 6, 7])
  {
    hide VisitOk;
    assert Leftmost(GAPPED, 4, 0, []);
    var walk := [4, 5, 6, 7];
    forall k | 0 <= k < |walk|
      ensures VisitOk(GAPPED, LEAF_LEVEL, walk, k)
    {
      LeafVisited(k);
    }
    forall k: nat | FirstLive(GAPPED, walk, k)
      ensures k == 0
    {
      assert Live(GAPPED, walk[0]);
    }
  }

  lemma LeafLevelClean(stray: Item)
    ensures LevelClean(GAPPED, LEAF_LEVEL, stray, [4, 5, 6, 7])
    ensures SeenBy(GAPPED, [4, 5, 6, 7]).nextdown != INVALID_BLOCK
  {
    hide LevelClean, VisitOk, SeenBy, LevelPassed;
    var walk := [4, 5, 6, 7];
    LeafLevelPasses();
    forall k | 0 <= k < |walk|
      ensures VisitOk(GAPPED, LEAF_LEVEL, walk, k)
    {
      LeafVisited(k);
    }
    LeafLevelExact(GAPPED, LEAF_LEVEL, stray, walk);
    LeafSeen(GAPPED, LEAF_LEVEL, walk, 4);
    assert walk[..4] == walk && Live(GAPPED, walk[0]);
  }

  /** The whole check passes on it although the leaf items are out of order. */
  lemma EmptyPageHidesDisorder(stray: Item)
    ensures TreeClean(GAPPED, ROOT_LEVEL, stray, [[1], [2, 3], [4, 5, 6, 7]]) && !LevelOrdered(GAPPED, [4, 5, 6, 7])
  {
    hide LevelClean, SeenBy;
    RootLevelClean(stray);
    InnerLevelClean(stray);
    LeafLevelClean(stray);
    LastLevel(GAPPED, LEAF_LEVEL, stray, [4, 5, 6, 7]);
    var walks: seq<seq<nat>> := [[1], [2, 3], [4, 5, 6, 7]];
    assert walks[1..] == [[2, 3], [4, 5, 6, 7]] && walks[1..][1..] == [[4, 5, 6, 7]];
    assert TreeClean(GAPPED, INNER_LEVEL, stray, walks[1..]);
    assert Before(GAPPED, [4, 5, 6, 7], 0, 0, 2, 0);
  }

  /** A root page whose only downlink is zero. */
  ghost predicate HollowRoot(ix: Index, root: nat) {
    && Loads(ix, root) && Live(ix, root) && ix[root].root && !ix[root].leaf
    && ix[root].prev == P_NONE && ix[root].Rightmost() && |ix[root].items| == 1 && ix[root].items[0].child == P_NONE
  }

  /** The check passes on it, whatever the level, and looks at nothing below. */
  lemma HollowRootPasses(ix: Index, root: nat, stray: Item)
    requires HollowRoot(ix, root)
    ensures TreeClean(ix, Level(ix[root].level, root, true), stray, [[root]])
  {
    hide LevelClean;
    var lv, walk := Level(ix[root].level, root, true), [root];
    HollowLevel(ix, root, stray);
    assert walk[..0] == [];
    SeenNext(ix, walk[..0], root);
    assert walk[..0] + [root] == walk;
    NoMoreLevels(ix, Below(ix, lv, walk), stray);
    assert [walk][1..] == [];
  }

  lemma HollowLevel(ix: Index, root: nat, stray: Item)
    requires HollowRoot(ix, root)
    ensures LevelClean(ix, Level(ix[root].level, root, true), stray, [root])
  {
    hide PagePasses;
    var lv, walk := Level(ix[root].level, root, true), [root];
    assert walk[..0] == [];
    assert Leftmost(ix, root, P_NONE, []);
    HollowPage(ix, root, stray);
    assert TurnClean(ix, lv, stray, LastOf(walk[..0]), walk[0], SeenBy(ix, walk[..0]));
  }

  lemma HollowPage(ix: Index, root: nat, stray: Item)
    requires HollowRoot(ix, root)
    ensures PagePasses(ix, root, None, stray, NO_LAG)
  {
    hide CrossOrdered, ItemOk, ChildAbove, TurnAllowed;
    var p := ix[root];
    assert CallOk(ix, Call(p, 0, None, stray, INVALID_BLOCK), P_NONE, true, false, 0);
    assert CallOk(ix, Call(p, 1, None, stray, INVALID_BLOCK), P_NONE, true, false, 0);
    assert OffsetPasses(ix, root, 0, None, stray, NO_LAG);
  }
}
