/**
 What a passed check says about two levels, one above the other: the downlinks above are
 places on the chain of right links below, in order, and the items below lie between the
 separators above.
 */
module NbtreeDownlinks {
  import opened Common
  import opened NbtreePages
  import opened NbtreeLockstep
  import opened NbtreeTarget
  import opened NbtreeLevel

  // ------------------------------------------------------------ downlinks of a level

  ghost function ChildrenOf(items: seq<Item>): (r: seq<nat>)
    ensures |r| == |items| && forall i :: 0 <= i < |items| ==> r[i] == items[i].child
  {
    seq(|items|, i requires 0 <= i < |items| => items[i].child)
  }

  /** The downlinks of all live pages on a path, in order. */
  ghost function DownlinksOf(ix: Index, path: seq<nat>): seq<nat> {
    if path == [] then [] else
      var b := path[|path| - 1];
      DownlinksOf(ix, path[..|path| - 1]) + (if Live(ix, b) then ChildrenOf(ix[b].items) else [])
  }

  lemma DownlinksNext(ix: Index, walk: seq<nat>, b: nat)
    ensures DownlinksOf(ix, walk + [b]) == DownlinksOf(ix, walk) + (if Live(ix, b) then ChildrenOf(ix[b].items) else [])
  {
    assert (walk + [b])[..|walk|] == walk;
  }

  /** Where downlink `j` of page number `k` is among all downlinks, and whether it is the last. */
  lemma {:induction false} ChildIndex(ix: Index, walk: seq<nat>, k: nat, j: nat)
    requires k < |walk| && Live(ix, walk[k]) && j < |ix[walk[k]].items|
    ensures var links, n := DownlinksOf(ix, walk), |DownlinksOf(ix, walk[..k])| + j;
            && n < |links| && links[n] == ix[walk[k]].items[j].child
            && (j + 1 < |ix[walk[k]].items| ==> n + 1 < |links|)
            && (k + 1 < |walk| && Live(ix, walk[|walk| - 1]) && ix[walk[|walk| - 1]].items != [] ==> n + 1 < |links|)
    decreases |walk|
  {
    var w := walk[..|walk| - 1];
    if k + 1 < |walk| {
      assert w[..k] == walk[..k];
      ChildIndex(ix, w, k, j);
    }
  }

  /** The first downlink is not the block number that stands for "none". */
  predicate FirstNonZero(p: Page) {
    p.items != [] ==> p.items[0].child != P_NONE
  }

  /**
   The two block numbers that the checker uses as marks: no live page of the level has
   zero as first downlink, and the other is no block.
   */
  ghost predicate NoMarks(ix: Index, walk: seq<nat>) {
    INVALID_BLOCK !in ix && forall k :: 0 <= k < |walk| && Live(ix, walk[k]) ==> FirstNonZero(ix[walk[k]])
  }

  /** No chain of right links from `start` leads to the mark for "nothing remembered". */
  ghost predicate Unmarked(ix: Index, start: nat) {
    forall p :: Chain(ix, p) && p != [] && p[0] == start ==> ix[p[|p| - 1]].next != INVALID_BLOCK
  }

  /** That is so if the level can be walked to its end. */
  lemma WalkUnmarked(ix: Index, start: nat, walk: seq<nat>)
    requires FullChain(ix, start, walk) && INVALID_BLOCK !in ix
    ensures Unmarked(ix, start)
  {
    forall p | Chain(ix, p) && p != [] && p[0] == start
      ensures ix[p[|p| - 1]].next != INVALID_BLOCK
    {
      ChainUnmarked(ix, walk, p);
    }
  }

  lemma ChainUnmarked(ix: Index, walk: seq<nat>, p: seq<nat>)
    requires Chain(ix, walk) && walk != [] && ix[walk[|walk| - 1]].next == P_NONE && INVALID_BLOCK !in ix
    requires Chain(ix, p) && p != [] && p[0] == walk[0]
    ensures ix[p[|p| - 1]].next != INVALID_BLOCK
  {
    var d := |p| - 1;
    if d < |walk| {
      RunTogether(ix, p, walk, d);
      assert d + 1 < |walk| ==> ix[walk[d + 1 - 1]].next == walk[d + 1] && Loads(ix, walk[d + 1]);
    } else {
      var e := |walk| - 1;
      assert ix[p[e + 1 - 1]].next == p[e + 1] && Loads(ix, p[e + 1]);
      RunTogether(ix, p, walk, e);
    }
  }

  // ------------------------------------------------------------ following the level below

  /** The child level was followed in lockstep from `start` to the last of `links`, which `lag` remembers. */
  ghost predicate Follows(ix: Index, start: nat, path: seq<nat>, pos: seq<nat>, links: seq<nat>, lag: Lag) {
    && Lockstep(ix, path, pos, links) && (path == [] <==> links == [])
    && (path == [] ==> lag == NO_LAG)
    && (path != [] ==> path[0] == start && links[|links| - 1] == path[|path| - 1] &&
                           lag == LagAfter(ix, links[|links| - 1]))
  }

  lemma FollowsMeans(ix: Index, start: nat, path: seq<nat>, pos: seq<nat>, links: seq<nat>, lag: Lag)
    requires Follows(ix, start, path, pos, links, lag) && Unmarked(ix, start)
    ensures Lockstep(ix, path, pos, links)
    ensures path == [] ==> lag == NO_LAG
    ensures path != [] ==>
              Loads(ix, path[|path| - 1]) && lag == Lag(ix[path[|path| - 1]].next, ix[path[|path| - 1]].incomplete)
    ensures path != [] ==> lag.link != INVALID_BLOCK
  {
    hide Skippable, IsLeftmost;
  }

  lemma LockstepStarts(ix: Index, path: seq<nat>, pos: seq<nat>, links: seq<nat>)
    requires Lockstep(ix, path, pos, links) && path != []
    ensures links != [] && path[0] == links[0]
  {
  }

  /** One more downlink. */
  lemma CallFollows(ix: Index, start: nat, target: Page, i: nat, lowkey: Option<Item>, stray: Item, lag: Lag,
                    path: seq<nat>, pos: seq<nat>, links: seq<nat>)
    returns (path': seq<nat>, pos': seq<nat>)
    requires Follows(ix, start, path, pos, links, lag) && Unmarked(ix, start)
    requires CallPasses(ix, target, i, lowkey, stray, lag) && i < |target.items| && target.items[i].child != P_NONE
    requires path == [] ==> target.items[i].child == start
    ensures Follows(ix, start, path', pos', links + [target.items[i].child], LagAfter(ix, target.items[i].child))
  {
    hide Lockstep, CallOk, Unmarked;
    FollowsMeans(ix, start, path, pos, links, lag);
    var c, anew := Call(target, i, lowkey, stray, lag.link), lag.link == INVALID_BLOCK;
    var b, split := if anew then c.Downlink() else lag.link, !anew && lag.split;
    assert Arrives(ix, c, b, split);
    var n: nat :| CallOk(ix, c, b, true, split, n);
    path', pos' := CallWalks(ix, c, b, true, split, n, path, pos, links);
    LockstepStarts(ix, path', pos', links + [c.Downlink()]);
    if path != [] {
      LockstepStarts(ix, path, pos, links);
    } else {
      assert links == [];
    }
  }

  /** The call that ends the level. */
  lemma CallFinishes(ix: Index, start: nat, target: Page, lowkey: Option<Item>, stray: Item, lag: Lag,
                     path: seq<nat>, pos: seq<nat>, links: seq<nat>)
    returns (path': seq<nat>, pos': seq<nat>)
    requires Follows(ix, start, path, pos, links, lag) && Unmarked(ix, start) && path != []
    requires CallPasses(ix, target, |target.items|, lowkey, stray, lag)
    ensures Lockstep(ix, path', pos', links) && FullChain(ix, start, path')
  {
    hide Lockstep, CallOk, Unmarked;
    FollowsMeans(ix, start, path, pos, links, lag);
    var c := Call(target, |target.items|, lowkey, stray, lag.link);
    assert Arrives(ix, c, lag.link, lag.split);
    var n: nat :| CallOk(ix, c, lag.link, true, lag.split, n);
    path', pos' := CallWalks(ix, c, lag.link, true, lag.split, n, path, pos, links);
    LockstepStarts(ix, path', pos', links);
    LockstepStarts(ix, path, pos, links);
    LockstepChain(ix, path', pos', links);
  }

  lemma LockstepChain(ix: Index, path: seq<nat>, pos: seq<nat>, links: seq<nat>)
    requires Lockstep(ix, path, pos, links)
    ensures Chain(ix, path)
  {
  }

  /** No downlink of an internal page that passes is zero, if its first one is not. */
  lemma NonZeroChild(ix: Index, b: nat, lowkey: Option<Item>, stray: Item, lag: Lag, i: nat)
    requires Loads(ix, b) && FirstNonZero(ix[b]) && !ix[b].leaf && PagePasses(ix, b, lowkey, stray, lag)
    requires i < |ix[b].items|
    ensures ix[b].items[i].child != P_NONE
  {
    assert OffsetPasses(ix, b, i, lowkey, stray, lag);
  }

  /** The downlinks of a page, up to number `i`. */
  lemma {:induction false} PageFollows(ix: Index, start: nat, b: nat, lowkey: Option<Item>, stray: Item, lag: Lag,
                                       i: nat, path: seq<nat>, pos: seq<nat>, links: seq<nat>)
    returns (path': seq<nat>, pos': seq<nat>)
    requires Unmarked(ix, start) && Loads(ix, b) && FirstNonZero(ix[b]) && !ix[b].leaf
    requires PagePasses(ix, b, lowkey, stray, lag)
    requires i <= |ix[b].items| && Follows(ix, start, path, pos, links, lag)
    requires path == [] && ix[b].items != [] ==> ix[b].items[0].child == start
    ensures Follows(ix, start, path', pos', links + ChildrenOf(ix[b].items)[..i], LagAt(ix, ix[b], lag, i))
    decreases i
  {
    hide Follows, Unmarked, FirstNonZero, ChildAbove, CallPasses, ItemOk, CrossOrdered, LagAfter;
    path', pos' := path, pos;
    var children := ChildrenOf(ix[b].items);
    if i == 0 {
      assert links + children[..0] == links;
    } else {
      path', pos' := PageFollows(ix, start, b, lowkey, stray, lag, i - 1, path, pos, links);
      assert OffsetPasses(ix, b, i - 1, lowkey, stray, lag);
      NonZeroChild(ix, b, lowkey, stray, lag, i - 1);
      var so := links + children[..i - 1];
      FollowsEmpty(ix, start, path', pos', so, LagAt(ix, ix[b], lag, i - 1));
      FollowsEmpty(ix, start, path, pos, links, lag);
      path', pos' := CallFollows(ix, start, ix[b], i - 1, lowkey, stray, LagAt(ix, ix[b], lag, i - 1), path', pos', so);
      assert so + [children[i - 1]] == links + children[..i];
    }
  }

  lemma FollowsEmpty(ix: Index, start: nat, path: seq<nat>, pos: seq<nat>, links: seq<nat>, lag: Lag)
    requires Follows(ix, start, path, pos, links, lag)
    ensures path == [] <==> links == []
  {
  }

  /** The level below is known from the first live page on. */
  lemma {:induction false} NextdownStays(ix: Index, walk: seq<nat>, k: nat)
    requires k <= |walk| && SeenBy(ix, walk[..k]).nextdown != INVALID_BLOCK
    ensures SeenBy(ix, walk).nextdown == SeenBy(ix, walk[..k]).nextdown
    decreases |walk|
  {
    if k == |walk| {
      assert walk[..k] == walk;
    } else {
      var w := walk[..|walk| - 1];
      assert w[..k] == walk[..k];
      NextdownStays(ix, w, k);
    }
  }

  /** The first downlink of the first live page is where the level below begins. */
  lemma FirstDownlink(ix: Index, lv: Level, stray: Item, walk: seq<nat>, k: nat)
    requires NoMarks(ix, walk) && LevelClean(ix, lv, stray, walk) && lv.level > 0 && k < |walk| && Live(ix, walk[k])
    requires SeenBy(ix, walk[..k]).nextdown == INVALID_BLOCK && SeenBy(ix, walk[..k]).lag == NO_LAG
    ensures ix[walk[k]].items != [] && ix[walk[k]].items[0].child == SeenBy(ix, walk).nextdown
  {
    hide FullChain, CallOk, IsLeftmost, ItemOk, ChildAbove, CrossOrdered;
    var s, b := SeenBy(ix, walk[..k]), walk[k];
    assert TurnClean(ix, lv, stray, LastOf(walk[..k]), b, s);
    assert OffsetPasses(ix, b, 0, s.lowkey, stray, s.lag);
    FirstLoads(ix, ix[b], s.lowkey, stray);
    assert walk[..k + 1] == walk[..k] + [b];
    SeenNext(ix, walk[..k], b);
    NextdownStays(ix, walk, k + 1);
  }

  lemma FirstLoads(ix: Index, target: Page, lowkey: Option<Item>, stray: Item)
    requires CallPasses(ix, target, 0, lowkey, stray, NO_LAG) && target.items != [] && target.items[0].child != P_NONE
    ensures Loads(ix, target.items[0].child)
  {
    hide CallOk, IsLeftmost, Excused;
    var c := Call(target, 0, lowkey, stray, INVALID_BLOCK);
    assert Arrives(ix, c, c.Downlink(), false);
    var n: nat :| CallOk(ix, c, c.Downlink(), true, false, n);
    OneTurn(ix, c, c.Downlink(), true, false, n);
  }

  lemma OneTurn(ix: Index, c: Call, b: nat, first: bool, split: bool, n: nat)
    requires CallOk(ix, c, b, first, split, n) && b != P_NONE
    ensures Loads(ix, b)
  {
  }

  /** The pages of the level before number `k`. */
  lemma {:induction false} LevelFollows(ix: Index, lv: Level, stray: Item, walk: seq<nat>, k: nat)
    returns (path: seq<nat>, pos: seq<nat>)
    requires NoMarks(ix, walk) && LevelClean(ix, lv, stray, walk) && lv.level > 0 && k < |walk|
    requires Unmarked(ix, SeenBy(ix, walk).nextdown)
    ensures Follows(ix, SeenBy(ix, walk).nextdown, path, pos, DownlinksOf(ix, walk[..k]), SeenBy(ix, walk[..k]).lag)
    ensures path == [] ==> SeenBy(ix, walk[..k]).nextdown == INVALID_BLOCK && SeenBy(ix, walk[..k]).lag == NO_LAG
    decreases k
  {
    hide Unmarked, NoMarks, LevelClean, Follows, SeenBy, DownlinksOf, LagAt;
    if k == 0 {
      path, pos := [], [];
      FollowsNothing(ix, SeenBy(ix, walk).nextdown, walk[..0]);
    } else {
      path, pos := LevelFollows(ix, lv, stray, walk, k - 1);
      var w, b := walk[..k - 1], walk[k - 1];
      assert walk[..k] == w + [b];
      SeenNext(ix, w, b);
      DownlinksNext(ix, w, b);
      NotTheLast(ix, lv, stray, walk, k - 1);
      if Live(ix, b) {
        path, pos := LivePageFollows(ix, lv, stray, walk, k - 1, path, pos);
      } else {
        assert DownlinksOf(ix, w) + [] == DownlinksOf(ix, w);
      }
    }
  }

  lemma FollowsNothing(ix: Index, start: nat, none: seq<nat>)
    requires none == []
    ensures Follows(ix, start, [], [], DownlinksOf(ix, none), SeenBy(ix, none).lag)
    ensures SeenBy(ix, none) == Seen(INVALID_BLOCK, NO_LAG, None)
  {
  }

  lemma NotTheLast(ix: Index, lv: Level, stray: Item, walk: seq<nat>, k: nat)
    requires LevelClean(ix, lv, stray, walk) && lv.level > 0 && k + 1 < |walk|
    ensures walk[k] in ix && !ix[walk[k]].Rightmost() && (Live(ix, walk[k]) ==> !ix[walk[k]].leaf)
  {
    hide SeenBy, TargetPasses, StartsLevel;
    assert ix[walk[k + 1 - 1]].next == walk[k + 1] && Loads(ix, walk[k + 1]);
    assert TurnClean(ix, lv, stray, LastOf(walk[..k]), walk[k], SeenBy(ix, walk[..k]));
  }

  /** One live page of the level. */
  lemma LivePageFollows(ix: Index, lv: Level, stray: Item, walk: seq<nat>, k: nat, path: seq<nat>, pos: seq<nat>)
    returns (path': seq<nat>, pos': seq<nat>)
    requires NoMarks(ix, walk) && LevelClean(ix, lv, stray, walk) && lv.level > 0 && k < |walk| && Live(ix, walk[k])
    requires Unmarked(ix, SeenBy(ix, walk).nextdown)
    requires Follows(ix, SeenBy(ix, walk).nextdown, path, pos, DownlinksOf(ix, walk[..k]), SeenBy(ix, walk[..k]).lag)
    requires path == [] ==> SeenBy(ix, walk[..k]).nextdown == INVALID_BLOCK && SeenBy(ix, walk[..k]).lag == NO_LAG
    ensures var p, lag := ix[walk[k]], SeenBy(ix, walk[..k]).lag;
            Follows(ix, SeenBy(ix, walk).nextdown, path', pos',
                    DownlinksOf(ix, walk[..k]) + ChildrenOf(p.items), LagAt(ix, p, lag, |p.items|))
    ensures path' != []
  {
    hide Follows, Unmarked, FirstNonZero, FullChain, StartsLevel, SeenBy, PagePasses, LagAt;
    var start, s, b, links := SeenBy(ix, walk).nextdown, SeenBy(ix, walk[..k]), walk[k], DownlinksOf(ix, walk[..k]);
    assert TurnClean(ix, lv, stray, LastOf(walk[..k]), b, s);
    if path == [] {
      FirstDownlink(ix, lv, stray, walk, k);
    }
    path', pos' := PageFollows(ix, start, b, s.lowkey, stray, s.lag, |ix[b].items|, path, pos, links);
    var children := ChildrenOf(ix[b].items);
    assert children[..|ix[b].items|] == children;
    FollowsEmpty(ix, start, path', pos', links + children, LagAt(ix, ix[b], s.lag, |ix[b].items|));
  }

  // ------------------------------------------------------------ two levels

  /** `links` occur in order on the right-link chain `path`, and every other live page on it is excused. */
  ghost predicate Connected(ix: Index, path: seq<nat>, links: seq<nat>) {
    path != [] && exists pos :: Lockstep(ix, path, pos, links)
  }

  /**
   A pass over a level alone shows that the level below can be walked to its end and that
   the downlinks, all of them in order, are connected on it.
   */
  lemma LevelConnected(ix: Index, lv: Level, stray: Item, walk: seq<nat>) returns (below: seq<nat>)
    requires NoMarks(ix, walk) && LevelClean(ix, lv, stray, walk) && lv.level > 0
    requires Unmarked(ix, SeenBy(ix, walk).nextdown)
    ensures FullChain(ix, SeenBy(ix, walk).nextdown, below) && Connected(ix, below, DownlinksOf(ix, walk))
  {
    hide NoMarks, Unmarked, Follows, Lockstep, LagAt, LevelClean, SeenBy, DownlinksOf, FullChain;
    var start, k := SeenBy(ix, walk).nextdown, |walk| - 1;
    LastPage(ix, lv, stray, walk);
    var path, pos := LevelFollows(ix, lv, stray, walk, k);
    var p, s := ix[walk[k]], SeenBy(ix, walk[..k]);
    path, pos := LivePageFollows(ix, lv, stray, walk, k, path, pos);
    DownlinksNext(ix, walk[..k], walk[k]);
    assert walk[..k] + [walk[k]] == walk;
    path, pos := CallFinishes(ix, start, p, s.lowkey, stray, LagAt(ix, p, s.lag, |p.items|),
                              path, pos, DownlinksOf(ix, walk));
    ChainUsed(ix, start, path);
    below := path;
  }

  lemma ChainUsed(ix: Index, start: nat, walk: seq<nat>)
    requires FullChain(ix, start, walk)
    ensures walk != []
  {
  }

  /** On the walk of the level below the downlinks are connected exactly when none of them is zero. */
  lemma ConnectedBelow(ix: Index, lv: Level, stray: Item, walk: seq<nat>, below: seq<nat>)
    requires INVALID_BLOCK !in ix && LevelClean(ix, lv, stray, walk) && lv.level > 0
    requires FullChain(ix, SeenBy(ix, walk).nextdown, below)
    ensures Connected(ix, below, DownlinksOf(ix, walk)) <==> NoMarks(ix, walk)
  {
    hide Unmarked, LevelClean, SeenBy, DownlinksOf, FullChain, Connected, FirstNonZero;
    if NoMarks(ix, walk) {
      WalkUnmarked(ix, SeenBy(ix, walk).nextdown, below);
      var path := LevelConnected(ix, lv, stray, walk);
      SameChain(ix, SeenBy(ix, walk).nextdown, path, below);
    }
    if Connected(ix, below, DownlinksOf(ix, walk)) {
      forall k | 0 <= k < |walk| && Live(ix, walk[k])
        ensures FirstNonZero(ix[walk[k]])
      {
        FirstConnected(ix, walk, below, k);
      }
    }
  }

  lemma FirstConnected(ix: Index, walk: seq<nat>, below: seq<nat>, k: nat)
    requires Connected(ix, below, DownlinksOf(ix, walk)) && k < |walk| && Live(ix, walk[k])
    ensures FirstNonZero(ix[walk[k]])
  {
    hide Connected, DownlinksOf;
    if ix[walk[k]].items != [] {
      ChildIndex(ix, walk, k, 0);
      LinkPlaced(ix, below, DownlinksOf(ix, walk), |DownlinksOf(ix, walk[..k])|);
    }
  }

  /** The rightmost page of a level is live, and after it the level below is followed to its end. */
  lemma LastPage(ix: Index, lv: Level, stray: Item, walk: seq<nat>)
    requires LevelClean(ix, lv, stray, walk) && lv.level > 0
    ensures walk != [] && Live(ix, walk[|walk| - 1]) && ix[walk[|walk| - 1]].items != []
    ensures var p, s := ix[walk[|walk| - 1]], SeenBy(ix, walk[..|walk| - 1]);
            CallPasses(ix, p, |p.items|, s.lowkey, stray, LagAt(ix, p, s.lag, |p.items|))
  {
    hide SeenBy, TargetPasses, StartsLevel;
    var k := |walk| - 1;
    var b, s := walk[k], SeenBy(ix, walk[..k]);
    assert TurnClean(ix, lv, stray, LastOf(walk[..k]), b, s);
    LastCall(ix, b, s.lowkey, stray, s.lag);
  }

  lemma LastCall(ix: Index, b: nat, lowkey: Option<Item>, stray: Item, lag: Lag)
    requires Loads(ix, b) && !ix[b].leaf && TargetPasses(ix, b, lowkey, stray, lag) && ix[b].Rightmost()
    ensures CallPasses(ix, ix[b], |ix[b].items|, lowkey, stray, LagAt(ix, ix[b], lag, |ix[b].items|))
  {
  }

  /** Each downlink leads to a page of the level below, and only the last one may lead to the rightmost page. */
  lemma LinkPlaced(ix: Index, path: seq<nat>, links: seq<nat>, n: nat)
    requires Connected(ix, path, links) && n < |links|
    ensures links[n] in path && Loads(ix, links[n]) && (n + 1 < |links| ==> !ix[links[n]].Rightmost())
  {
    hide Skippable, IsLeftmost;
    var pos :| Lockstep(ix, path, pos, links);
    var i := pos[n];
    assert path[i] == links[n];
    if n + 1 < |links| {
      assert pos[n] < pos[n + 1];
      assert ix[path[i + 1 - 1]].next == path[i + 1] && Loads(ix, path[i + 1]);
    }
  }

  /** No two downlinks of the level above point to the same page. */
  lemma DownlinksDistinct(ix: Index, path: seq<nat>, links: seq<nat>, i: nat, j: nat)
    requires Connected(ix, path, links) && ix[path[|path| - 1]].next == P_NONE && i < j < |links|
    ensures links[i] != links[j]
  {
    hide Skippable, IsLeftmost;
    var pos :| Lockstep(ix, path, pos, links);
    ChainDistinct(ix, path, pos[i], pos[j]);
  }

  // ------------------------------------------------------------ separators

  /** The key lies between the separators around downlink `j`. */
  ghost predicate Between(target: Page, j: nat, key: int)
    requires j < |target.items|
  {
    && (j > 0 ==> target.items[j].key < key)
    && (j + 1 < |target.items| ==> key <= target.items[j + 1].key)
    && (j + 1 == |target.items| && !target.Rightmost() ==> key <= target.hikey.key)
  }

  /** What passing says about the page below downlink `j`. */
  lemma LinkMeans(ix: Index, b: nat, lowkey: Option<Item>, stray: Item, lag: Lag, j: nat)
    requires Loads(ix, b) && FirstNonZero(ix[b]) && !ix[b].leaf && PagePasses(ix, b, lowkey, stray, lag)
    requires j < |ix[b].items|
    ensures LinkChecked(ix, ix[b], j, lowkey) && (j > 0 ==> ChildAbove(ix, ix[b], j))
  {
    hide CallOk, LinkChecked, ChildAbove, ItemOk, CrossOrdered;
    NonZeroChild(ix, b, lowkey, stray, lag, j);
    assert OffsetPasses(ix, b, j, lowkey, stray, lag);
    var l := LagAt(ix, ix[b], lag, j);
    var c, anew := Call(ix[b], j, lowkey, stray, l.link), l.link == INVALID_BLOCK;
    var start, split := if anew then c.Downlink() else l.link, !anew && l.split;
    assert Arrives(ix, c, start, split);
    var n: nat :| CallOk(ix, c, start, true, split, n);
    CallChecks(ix, c, start, true, split, n);
  }

  lemma MarksMean(ix: Index, walk: seq<nat>)
    requires NoMarks(ix, walk)
    ensures INVALID_BLOCK !in ix
  {
  }

  /** Two levels of a tree that passed. */
  ghost predicate Stacked(ix: Index, lv: Level, stray: Item, walk: seq<nat>, below: seq<nat>) {
    && NoMarks(ix, walk) && lv.level > 0 && LevelClean(ix, lv, stray, walk)
    && LevelClean(ix, Level(lv.level - 1, SeenBy(ix, walk).nextdown, false), stray, below)
  }

  /** A live page of the upper level, with what was remembered when it was visited. */
  lemma UpperPage(ix: Index, lv: Level, stray: Item, walk: seq<nat>, below: seq<nat>, k: nat) returns (s: Seen)
    requires Stacked(ix, lv, stray, walk, below) && k < |walk| && Live(ix, walk[k])
    ensures Loads(ix, walk[k]) && !ix[walk[k]].leaf && PagePasses(ix, walk[k], s.lowkey, stray, s.lag)
    ensures FirstNonZero(ix[walk[k]]) && PageOrdered(ix[walk[k]]) && (k + 1 == |walk| <==> ix[walk[k]].Rightmost())
  {
    hide SeenBy, PagePasses, PageOrdered, CrossOrdered, StartsLevel, FirstNonZero;
    s := SeenBy(ix, walk[..k]);
    assert TurnClean(ix, lv, stray, LastOf(walk[..k]), walk[k], s);
    TargetOrdered(ix, walk[k], s.lowkey, stray, s.lag);
    if k + 1 < |walk| {
      assert ix[walk[k + 1 - 1]].next == walk[k + 1] && Loads(ix, walk[k + 1]);
    }
  }

  /** The page below downlink `j` of page number `k` is on the level below; only the very last one may be rightmost. */
  lemma LowerPage(ix: Index, lv: Level, stray: Item, walk: seq<nat>, below: seq<nat>, k: nat, j: nat)
    requires Stacked(ix, lv, stray, walk, below) && k < |walk| && Live(ix, walk[k]) && j < |ix[walk[k]].items|
    ensures var c, p := ix[walk[k]].items[j].child, ix[walk[k]];
            && c in below && Loads(ix, c)
            && (j + 1 < |p.items| || !p.Rightmost() ==> !ix[c].Rightmost())
            && (Live(ix, c) ==> PageOrdered(ix[c]))
  {
    hide SeenBy, PageOrdered, CrossOrdered, NoMarks, Connected, DownlinksOf, TargetPasses, StartsLevel;
    MarksMean(ix, walk);
    ConnectedBelow(ix, lv, stray, walk, below);
    ChildIndex(ix, walk, k, j);
    LinkPlaced(ix, below, DownlinksOf(ix, walk), |DownlinksOf(ix, walk[..k])| + j);
    var c := ix[walk[k]].items[j].child;
    var i :| 0 <= i < |below| && below[i] == c;
    var lower := Level(lv.level - 1, SeenBy(ix, walk).nextdown, false);
    CleanPassed(ix, lower, stray, below);
    assert VisitOk(ix, lower, below, i);
    var s := UpperPage(ix, lv, stray, walk, below, k);
    if k + 1 < |walk| {
      LastPage(ix, lv, stray, walk);
    }
  }

  /**
   The usable items of a live child without incomplete split lie above the separator at
   its downlink, unless that is the page's first, and at most at the next one.
   */
  lemma ChildBetween(ix: Index, lv: Level, stray: Item, walk: seq<nat>, below: seq<nat>, k: nat, j: nat, m: nat)
    requires Stacked(ix, lv, stray, walk, below) && k < |walk| && Live(ix, walk[k]) && j < |ix[walk[k]].items|
    requires var c := ix[walk[k]].items[j].child; Live(ix, c) && !ix[c].incomplete && m < |Real(ix[c])|
    ensures Between(ix[walk[k]], j, Real(ix[ix[walk[k]].items[j].child])[m].key)
  {
    hide PagePasses, NoMarks, Real, LevelClean, SeenBy;
    var s := UpperPage(ix, lv, stray, walk, below, k);
    LowerPage(ix, lv, stray, walk, below, k, j);
    LinkMeans(ix, walk[k], s.lowkey, stray, s.lag, j);
    var child := ix[ix[walk[k]].items[j].child];
    assert BelowHighKey(child, Real(child)[m].key);
  }

  /** Children of one page are in order, whatever lies between them. */
  lemma SiblingsOrdered(ix: Index, lv: Level, stray: Item, walk: seq<nat>, below: seq<nat>, k: nat, i: nat, j: nat,
                        m: nat, n: nat)
    requires Stacked(ix, lv, stray, walk, below) && k < |walk| && Live(ix, walk[k]) && i < j < |ix[walk[k]].items|
    requires var c := ix[walk[k]].items[i].child; Live(ix, c) && !ix[c].incomplete && m < |Real(ix[c])|
    requires var d := ix[walk[k]].items[j].child; Live(ix, d) && n < |Real(ix[d])|
    ensures Real(ix[ix[walk[k]].items[i].child])[m].key < Real(ix[ix[walk[k]].items[j].child])[n].key
  {
    hide PagePasses, NoMarks, LevelClean, SeenBy;
    var p := ix[walk[k]];
    var s := UpperPage(ix, lv, stray, walk, below, k);
    ChildBetween(ix, lv, stray, walk, below, k, i, m);
    LinkMeans(ix, walk[k], s.lowkey, stray, s.lag, j);
    assert i + 1 < j ==> Real(p)[i] == p.items[i + 1] && Real(p)[j - 1] == p.items[j];
  }
}
