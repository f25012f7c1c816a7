/**
 `bt_check_every_level`: the levels of a tree from the true root down, and when the whole
 check succeeds.
 */
module NbtreeTree {
  import opened Common
  import opened NbtreePages
  import opened NbtreeLockstep
  import opened NbtreeLevel

  /** Nothing is wrong with the levels from `lv` down, walked as `walks`. */
  ghost predicate TreeClean(ix: Index, lv: Level, stray: Item, walks: seq<seq<nat>>)
    decreases |walks|
  {
    if lv.leftmost == P_NONE then walks == []
    else
      && walks != [] && LevelClean(ix, lv, stray, walks[0]) && SeenBy(ix, walks[0]).nextdown != INVALID_BLOCK
      && if lv.level == 0 then |walks| == 1 else TreeClean(ix, Below(ix, lv, walks[0]), stray, walks[1..])
  }

  ghost function Below(ix: Index, lv: Level, walk: seq<nat>): Level
    requires lv.level > 0
  {
    Level(lv.level - 1, SeenBy(ix, walk).nextdown, false)
  }

  /** A clean tree from `top` has these walks first, and is clean from `lv` down. */
  ghost predicate Onward(ix: Index, top: Level, stray: Item, walks: seq<seq<nat>>, lv: Level) {
    forall ws :: TreeClean(ix, top, stray, ws) <==> walks <= ws && TreeClean(ix, lv, stray, ws[|walks|..])
  }

  lemma CleanUnique(ix: Index, lv: Level, stray: Item, a: seq<nat>, b: seq<nat>)
    requires LevelClean(ix, lv, stray, a) && LevelClean(ix, lv, stray, b)
    ensures a == b
  {
    hide WalkClean, FullChain;
    SameChain(ix, lv.leftmost, a, b);
  }

  lemma OnwardStarts(ix: Index, top: Level, stray: Item)
    ensures Onward(ix, top, stray, [], top)
  {
    hide TreeClean;
    forall ws: seq<seq<nat>>
      ensures ws[0..] == ws
    {
    }
  }

  /** One level further down: its walk is the only one. */
  lemma OnwardOn(ix: Index, top: Level, stray: Item, walks: seq<seq<nat>>, lv: Level, walk: seq<nat>)
    requires Onward(ix, top, stray, walks, lv) && lv.leftmost != P_NONE && lv.level > 0
    requires LevelClean(ix, lv, stray, walk) && SeenBy(ix, walk).nextdown != INVALID_BLOCK
    ensures Onward(ix, top, stray, walks + [walk], Below(ix, lv, walk))
  {
    hide LevelClean, SeenBy;
    var n, below := |walks|, Below(ix, lv, walk);
    forall ws
      ensures TreeClean(ix, top, stray, ws) <==> walks + [walk] <= ws && TreeClean(ix, below, stray, ws[n + 1..])
    {
      if walks <= ws {
        var rest := ws[n..];
        assert |ws| > n ==> rest[1..] == ws[n + 1..] && rest[0] == ws[n];
        if TreeClean(ix, lv, stray, rest) {
          CleanUnique(ix, lv, stray, walk, rest[0]);
          assert walks + [walk] <= ws;
        }
        if walks + [walk] <= ws {
          assert ws[n] == (walks + [walk])[n];
        }
      }
    }
  }

  /** A clean rest makes the whole tree clean. */
  lemma OnwardEnds(ix: Index, top: Level, stray: Item, walks: seq<seq<nat>>, lv: Level, rest: seq<seq<nat>>)
    requires Onward(ix, top, stray, walks, lv) && TreeClean(ix, lv, stray, rest)
    ensures TreeClean(ix, top, stray, walks + rest)
  {
    hide TreeClean;
    assert (walks + rest)[|walks|..] == rest;
  }

  /** Where a level has no clean walk that finds the level below, the tree is not clean. */
  lemma OnwardFails(ix: Index, top: Level, stray: Item, walks: seq<seq<nat>>, lv: Level)
    requires Onward(ix, top, stray, walks, lv) && lv.leftmost != P_NONE
    requires forall w :: LevelClean(ix, lv, stray, w) ==> SeenBy(ix, w).nextdown == INVALID_BLOCK
    ensures forall ws :: !TreeClean(ix, top, stray, ws)
  {
    hide LevelClean, SeenBy;
    forall ws
      ensures !TreeClean(ix, top, stray, ws)
    {
      assert walks <= ws ==> !TreeClean(ix, lv, stray, ws[|walks|..]);
    }
  }

  /** `bt_check_every_level` passes exactly when nothing is wrong with any level from the true root down. */
  method CheckEveryLevel(ix: Index, root: nat, rootLevel: nat, stray: Item, fuel: nat) returns (r: Outcome)
    ensures r.Ok? ==> exists walks :: TreeClean(ix, Level(rootLevel, root, true), stray, walks)
    ensures r.Corrupt? ==> forall walks :: !TreeClean(ix, Level(rootLevel, root, true), stray, walks)
  {
    hide LevelClean, SeenBy, TreeClean, Onward;
    r := Ok;
    ghost var walks: seq<seq<nat>>, whole := [], Level(rootLevel, root, true);
    var state := new BtreeCheckState(ix);
    var current, level, top := root, rootLevel, true;
    OnwardStarts(ix, whole, stray);
    while current != P_NONE
      invariant r.Ok? && fresh(state) && state.ix == ix && state.lowkey == None
      invariant Onward(ix, whole, stray, walks, Level(level, current, top))
      decreases level
    {
      ghost var lv := Level(level, current, top);
      var nextdown;
      ghost var walk;
      r, nextdown, walk := CheckLevel(state, Level(level, current, top), stray, fuel);
      if !r.Ok? {
        if r.Corrupt? {
          OnwardFails(ix, whole, stray, walks, lv);
        }
        return;
      }
      if nextdown == INVALID_BLOCK {
        OnlyWalk(ix, lv, stray, walk);
        OnwardFails(ix, whole, stray, walks, lv);
        return Corrupt;
      }
      if level == 0 {
        LastLevel(ix, lv, stray, walk);
        OnwardEnds(ix, whole, stray, walks, lv, [walk]);
        return;
      }
      OnwardOn(ix, whole, stray, walks, lv, walk);
      walks := walks + [walk];
      current, level, top := nextdown, level - 1, false;
    }
    NoMoreLevels(ix, Level(level, current, top), stray);
    OnwardEnds(ix, whole, stray, walks, Level(level, current, top), []);
  }

  lemma NoMoreLevels(ix: Index, lv: Level, stray: Item)
    requires lv.leftmost == P_NONE
    ensures TreeClean(ix, lv, stray, [])
  {
  }

  lemma LastLevel(ix: Index, lv: Level, stray: Item, walk: seq<nat>)
    requires lv.leftmost != P_NONE && lv.level == 0 && LevelClean(ix, lv, stray, walk)
    requires SeenBy(ix, walk).nextdown != INVALID_BLOCK
    ensures TreeClean(ix, lv, stray, [walk])
  {
  }

  lemma OnlyWalk(ix: Index, lv: Level, stray: Item, walk: seq<nat>)
    requires LevelClean(ix, lv, stray, walk)
    ensures forall w :: LevelClean(ix, lv, stray, w) ==> w == walk
  {
    hide LevelClean;
    forall w | LevelClean(ix, lv, stray, w)
      ensures w == walk
    {
      CleanUnique(ix, lv, stray, walk, w);
    }
  }

  // ------------------------------------------------------------ the levels of a clean tree

  /** Level number `i` from the top. */
  ghost function LevelAt(ix: Index, top: Level, walks: seq<seq<nat>>, i: nat): Level
    requires i < |walks| && i <= top.level
  {
    if i == 0 then top else Level(top.level - i, SeenBy(ix, walks[i - 1]).nextdown, false)
  }

  /** Each level of a clean tree is clean and begins where the level above says. */
  lemma {:induction false} LevelsClean(ix: Index, top: Level, stray: Item, walks: seq<seq<nat>>, i: nat)
    requires TreeClean(ix, top, stray, walks) && i < |walks|
    ensures i <= top.level && LevelClean(ix, LevelAt(ix, top, walks, i), stray, walks[i])
    decreases i
  {
    hide LevelClean, SeenBy;
    if i > 0 {
      var rest, below := walks[1..], Below(ix, top, walks[0]);
      LevelsClean(ix, below, stray, rest, i - 1);
      assert rest[i - 1] == walks[i] && (i > 1 ==> rest[i - 2] == walks[i - 1]);
      assert LevelAt(ix, below, rest, i - 1) == LevelAt(ix, top, walks, i);
    }
  }
}
