/**
 Key order along one level: the check of a level guarantees it, for every choice of keys,
 exactly when no empty live page lies between two live pages with usable items.  Where one
 does, the part of the level left of it, with what belongs to it on the level below, can be
 shifted against the rest.
 */
module NbtreeGaps {
  import opened NbtreePages
  import opened NbtreeLockstep
  import opened NbtreeTarget
  import opened NbtreeLevel
  import opened NbtreeOrder
  import opened NbtreeDownlinks
  import opened NbtreeRekey
  import opened NbtreeShift

  // ------------------------------------------------------------ gaps

  /** Two pages with usable items have an empty live page between them. */
  ghost predicate GapAt(ix: Index, walk: seq<nat>, a: nat, gap: nat, b: nat) {
    && a < gap < b < |walk| && Filled(ix, walk[a]) && Filled(ix, walk[b])
    && Live(ix, walk[gap]) && !Filled(ix, walk[gap])
  }

  ghost predicate Gapless(ix: Index, walk: seq<nat>) {
    forall a: nat, gap: nat, b: nat :: !GapAt(ix, walk, a, gap, b)
  }

  /** Whatever the keys are, if the level passes they are in order. */
  ghost predicate OrderGuaranteed(ix: Index, lv: Level, stray: Item, walk: seq<nat>) {
    forall ix' :: Rekeyed(ix, ix') && LevelClean(ix', lv, stray, walk) ==> LevelOrdered(ix', walk)
  }

  /** Without a gap there is nothing the level check does not compare. */
  lemma GaplessOrdered(ix: Index, ix': Index, walk: seq<nat>)
    requires Rekeyed(ix, ix') && Gapless(ix, walk)
    ensures GapsOrdered(ix', walk)
  {
    hide Rekeyed, Real, NextLive;
    forall a: nat, b: nat | NextFilled(ix', walk, a, b)
      ensures NextLive(ix', walk, a, b)
    {
      if !NextLive(ix', walk, a, b) {
        var gap := GapBetween(ix, ix', walk, a, b);
      }
    }
  }

  /** Pages with items that are no neighbours have a gap between them. */
  lemma GapBetween(ix: Index, ix': Index, walk: seq<nat>, a: nat, b: nat) returns (gap: nat)
    requires Rekeyed(ix, ix') && NextFilled(ix', walk, a, b) && !NextLive(ix', walk, a, b)
    ensures GapAt(ix, walk, a, gap, b)
  {
    hide Rekeyed, Real;
    gap :| a < gap < b && Live(ix', walk[gap]);
    SamePage(ix, ix', walk[a]);
    SamePage(ix, ix', walk[b]);
    SamePage(ix, ix', walk[gap]);
  }

  /** The first live page after the gap. */
  lemma AfterGap(ix: Index, walk: seq<nat>, a: nat, gap: nat, b: nat) returns (cut: nat)
    requires GapAt(ix, walk, a, gap, b)
    ensures cut <= b && NextLive(ix, walk, gap, cut)
  {
    cut := gap + 1;
    while !Live(ix, walk[cut])
      invariant gap < cut <= b && forall k :: gap < k < cut ==> !Live(ix, walk[k])
      decreases b - cut
    {
      cut := cut + 1;
    }
  }

  // ------------------------------------------------------------ the keys of some blocks

  ghost function SlotsOf(left: seq<nat>): iset<Slot> {
    iset s: Slot | !s.StraySlot? && s.block in left
  }

  lemma ItemsStay(ix: Index, left: seq<nat>, b: nat, i: nat)
    requires b in ix && i < |ix[b].items|
    ensures ItemClosed(ix, b, i, SlotsOf(left))
  {
  }

  /** Across pages comparisons stay on the left, because the page at the gap is empty. */
  lemma CrossStays(ix: Index, walk: seq<nat>, gap: nat, cut: nat, left: seq<nat>, k: nat)
    requires walk != [] && FullChain(ix, walk[0], walk) && NextLive(ix, walk, gap, cut) && !Filled(ix, walk[gap])
    requires k < |walk| && Live(ix, walk[k])
    requires forall i :: 0 <= i < |walk| ==> (walk[i] in left <==> i < cut)
    requires Live(ix, walk[|walk| - 1])
    ensures CrossClosed(ix, walk[k], SlotsOf(left))
  {
    hide Chain, Real;
    if Real(ix[walk[k]]) != [] {
      forall skipped, q | RightOf(ix, walk[k], skipped, q) && Real(ix[q]) != []
        ensures Leads(SlotsOf(left), RealSlot(ix[walk[k]], walk[k], |Real(ix[walk[k]])| - 1), RealSlot(ix[q], q, 0))
      {
        RightNotLast(ix, walk, k, skipped, q);
        var l := NextLiveOn(ix, walk, k);
        NextOnChain(ix, walk, k, l, skipped, q);
        assert k < cut ==> l < cut;
      }
    }
  }

  lemma RightNotLast(ix: Index, walk: seq<nat>, k: nat, skipped: seq<nat>, q: nat)
    requires walk != [] && FullChain(ix, walk[0], walk) && k < |walk| && RightOf(ix, walk[k], skipped, q)
    ensures k + 1 < |walk|
  {
    var path := [walk[k]] + skipped + [q];
    assert ix[path[0]].next == path[1] && Loads(ix, path[1]);
  }

  lemma NextLiveOn(ix: Index, walk: seq<nat>, k: nat) returns (l: nat)
    requires k + 1 < |walk| && Live(ix, walk[k]) && Live(ix, walk[|walk| - 1])
    ensures NextLive(ix, walk, k, l)
  {
    l := k + 1;
    while !Live(ix, walk[l])
      invariant k < l < |walk| && forall i :: k < i < l ==> !Live(ix, walk[i])
      decreases |walk| - l
    {
      l := l + 1;
    }
  }

  lemma LastIsLive(ix: Index, lv: Level, stray: Item, walk: seq<nat>)
    requires LevelClean(ix, lv, stray, walk)
    ensures Live(ix, walk[|walk| - 1])
  {
    hide SeenBy, TargetPasses, StartsLevel, Chain;
    var k := |walk| - 1;
    assert TurnClean(ix, lv, stray, LastOf(walk[..k]), walk[k], SeenBy(ix, walk[..k]));
  }

  // ------------------------------------------------------------ the leaf level

  lemma {:induction false} PositionsDiffer(ix: Index, walk: seq<nat>, i: nat, n: nat)
    requires walk != [] && FullChain(ix, walk[0], walk) && i < |walk| && n <= |walk|
    ensures walk[i] in walk[..n] <==> i < n
  {
    if i < n {
      assert walk[..n][i] == walk[i];
    } else if walk[i] in walk[..n] {
      var j :| 0 <= j < n && walk[..n][j] == walk[i];
      ChainDistinct(ix, walk, j, i);
    }
  }

  lemma LeafLevelStays(ix: Index, lv: Level, stray: Item, walk: seq<nat>, gap: nat, cut: nat)
    requires LevelClean(ix, lv, stray, walk) && lv.level == 0 && NextLive(ix, walk, gap, cut) && !Filled(ix, walk[gap])
    ensures LevelClosed(ix, walk, SlotsOf(walk[..cut]))
  {
    hide SeenBy, TargetPasses, StartsLevel, SlotsOf, CrossClosed, ItemClosed, Filled, Chain;
    var left := walk[..cut];
    LastIsLive(ix, lv, stray, walk);
    forall i | 0 <= i < |walk|
      ensures walk[i] in left <==> i < cut
    {
      PositionsDiffer(ix, walk, i, cut);
    }
    forall k | 0 <= k < |walk| && Live(ix, walk[k])
      ensures PageClosed(ix, walk[k], LowAt(ix, walk, k), SeenBy(ix, walk[..k]).lag, SlotsOf(left))
    {
      assert TurnClean(ix, lv, stray, LastOf(walk[..k]), walk[k], SeenBy(ix, walk[..k]));
      CrossStays(ix, walk, gap, cut, left, k);
      forall i | 0 <= i < |ix[walk[k]].items|
        ensures ItemClosed(ix, walk[k], i, SlotsOf(left))
      {
        ItemsStay(ix, left, walk[k], i);
      }
    }
  }

  // ------------------------------------------------------------ an internal level and the one below

  /** A level that passed, the level below as it was followed, and a live page at which to cut. */
  ghost predicate Setting(ix: Index, lv: Level, stray: Item, walk: seq<nat>, below: seq<nat>, pos: seq<nat>, cut: nat) {
    && NoMarks(ix, walk) && LevelClean(ix, lv, stray, walk) && lv.level > 0 && Unmarked(ix, SeenBy(ix, walk).nextdown)
    && FullChain(ix, SeenBy(ix, walk).nextdown, below) && Lockstep(ix, below, pos, DownlinksOf(ix, walk))
    && cut < |walk| && Live(ix, walk[cut])
  }

  /** Number of downlinks before page number `k`. */
  ghost function LinksBefore(ix: Index, walk: seq<nat>, k: nat): nat
    requires k <= |walk|
  {
    |DownlinksOf(ix, walk[..k])|
  }

  /** The first downlink of the page at the cut: its number, and its place on the level below. */
  ghost predicate CutAt(ix: Index, walk: seq<nat>, below: seq<nat>, pos: seq<nat>, cut: nat, place: nat) {
    cut < |walk| && LinksBefore(ix, walk, cut) < |pos| && place == pos[LinksBefore(ix, walk, cut)] && place < |below|
  }

  lemma CutPlace(ix: Index, lv: Level, stray: Item, walk: seq<nat>, below: seq<nat>, pos: seq<nat>, cut: nat)
    returns (place: nat)
    requires Setting(ix, lv, stray, walk, below, pos, cut)
    ensures CutAt(ix, walk, below, pos, cut, place)
  {
    hide NoMarks, Unmarked, FullChain, SeenBy, TargetPasses, StartsLevel, DownlinksOf, Skippable, IsLeftmost;
    assert TurnClean(ix, lv, stray, LastOf(walk[..cut]), walk[cut], SeenBy(ix, walk[..cut]));
    ChildIndex(ix, walk, cut, 0);
    place := pos[LinksBefore(ix, walk, cut)];
  }

  /** No page is on both levels: from there on they would be the same, but the levels of their last pages differ. */
  lemma LevelsApart(ix: Index, lv: Level, stray: Item, walk: seq<nat>, below: seq<nat>, pos: seq<nat>, cut: nat, i: nat,
                    j: nat)
    requires Setting(ix, lv, stray, walk, below, pos, cut) && i < |walk| && j < |below|
    ensures walk[i] != below[j]
  {
    hide NoMarks, Unmarked, SeenBy, WalkClean, DownlinksOf, Lockstep, Live, Chain;
    if walk[i] == below[j] {
      Suffix(ix, walk, i);
      Suffix(ix, below, j);
      SameChain(ix, walk[i], walk[i..], below[j..]);
      assert walk[i..][|walk| - i - 1] == walk[|walk| - 1] && below[j..][|below| - j - 1] == below[|below| - 1];
      LastLevels(ix, lv, stray, walk, below, pos, cut);
    }
  }

  lemma Suffix(ix: Index, walk: seq<nat>, i: nat)
    requires Chain(ix, walk) && i < |walk| && ix[walk[|walk| - 1]].next == P_NONE
    ensures FullChain(ix, walk[i], walk[i..])
  {
    ChainSuffix(ix, walk, i);
    assert walk[i..][|walk| - i - 1] == walk[|walk| - 1];
  }

  lemma LastLevels(ix: Index, lv: Level, stray: Item, walk: seq<nat>, below: seq<nat>, pos: seq<nat>, cut: nat)
    requires Setting(ix, lv, stray, walk, below, pos, cut)
    ensures walk[|walk| - 1] != below[|below| - 1]
  {
    hide NoMarks, Unmarked, SeenBy, StartsLevel, TargetPasses, DownlinksOf, Lockstep, Chain;
    var k := |walk| - 1;
    assert TurnClean(ix, lv, stray, LastOf(walk[..k]), walk[k], SeenBy(ix, walk[..k]));
    BelowEnds(ix, lv, stray, walk, below, pos, cut);
  }

  /** A page passed through has the level of the child level, unless that field is not to be trusted. */
  ghost predicate OnLevel(ix: Index, b: nat, level: int) {
    b in ix && (!ix[b].deleted ==> ix[b].level == level)
  }

  /** What the final call passes through ends on the child level. */
  lemma {:induction false} WayEnds(ix: Index, c: Call, first: bool, split: bool, n: nat, path: seq<nat>)
    requires path != [] && CallOk(ix, c, path[0], first, split, n) && c.Downlink() == P_NONE
    requires FullChain(ix, path[0], path)
    ensures OnLevel(ix, path[|path| - 1], c.target.level - 1)
    decreases n
  {
    hide IsLeftmost, Excused;
    assert Loads(ix, path[0]);
    if |path| > 1 {
      Suffix(ix, path, 1);
      assert ix[path[1 - 1]].next == path[1] && Loads(ix, path[1]);
      WayEnds(ix, c, false, ix[path[0]].incomplete, n - 1, path[1..]);
    }
  }

  lemma BelowEnds(ix: Index, lv: Level, stray: Item, walk: seq<nat>, below: seq<nat>, pos: seq<nat>, cut: nat)
    requires Setting(ix, lv, stray, walk, below, pos, cut)
    ensures OnLevel(ix, below[|below| - 1], lv.level - 1)
  {
    hide Unmarked, StartsLevel, SeenBy, DownlinksOf, Lockstep, Chain, CallOk, PagePasses, FirstNonZero;
    var k := |walk| - 1;
    var b, s := walk[k], SeenBy(ix, walk[..k]);
    var n := |ix[b].items|;
    LastPage(ix, lv, stray, walk);
    assert TurnClean(ix, lv, stray, LastOf(walk[..k]), b, s);
    ChildIndex(ix, walk, k, n - 1);
    LinkMeans(ix, b, s.lowkey, stray, s.lag, n - 1);
    var m := LinksBefore(ix, walk, k) + n - 1;
    LastLink(ix, walk, k);
    var p := LinkPosition(ix, below, pos, DownlinksOf(ix, walk), m);
    var lag := LagAt(ix, ix[b], s.lag, n);
    if p + 1 < |below| {
      NextPosition(ix, below, p);
      LinkUnmarked(ix, below, p, SeenBy(ix, walk).nextdown);
      var c := Call(ix[b], n, s.lowkey, stray, lag.link);
      assert Arrives(ix, c, lag.link, lag.split);
      var t: nat :| CallOk(ix, c, lag.link, true, lag.split, t);
      Suffix(ix, below, p + 1);
      WayEnds(ix, c, true, lag.split, t, below[p + 1..]);
    }
  }

  lemma LastLink(ix: Index, walk: seq<nat>, k: nat)
    requires k + 1 == |walk| && Live(ix, walk[k])
    ensures |DownlinksOf(ix, walk)| == LinksBefore(ix, walk, k) + |ix[walk[k]].items|
  {
    assert walk[..k] == walk[..|walk| - 1];
  }

  lemma LinkPosition(ix: Index, below: seq<nat>, pos: seq<nat>, links: seq<nat>, m: nat) returns (p: nat)
    requires Lockstep(ix, below, pos, links) && m < |links|
    ensures m < |pos| && p == pos[m] && p < |below| && below[p] == links[m] && Loads(ix, below[p])
  {
    p := pos[m];
  }

  lemma NextPosition(ix: Index, below: seq<nat>, p: nat)
    requires Chain(ix, below) && p + 1 < |below|
    ensures below[p] in ix && ix[below[p]].next == below[p + 1]
  {
    assert ix[below[p + 1 - 1]].next == below[p + 1];
  }

  lemma LinkUnmarked(ix: Index, below: seq<nat>, p: nat, start: nat)
    requires Chain(ix, below) && p < |below| && below[0] == start && Unmarked(ix, start)
    ensures below[p] in ix && ix[below[p]].next != INVALID_BLOCK
  {
    var path := below[..p + 1];
    forall k | 0 < k < |path|
      ensures ix[path[k - 1]].next == path[k]
    {
      assert ix[below[k - 1]].next == below[k];
    }
    assert Chain(ix, path) && path[|path| - 1] == below[p];
  }

  // ------------------------------------------------------------ where calls start

  lemma {:induction false} DownlinksPrefix(ix: Index, walk: seq<nat>, k: nat)
    requires k <= |walk|
    ensures DownlinksOf(ix, walk[..k]) <= DownlinksOf(ix, walk)
    decreases |walk|
  {
    if k == |walk| {
      assert walk[..k] == walk;
    } else {
      var w := walk[..|walk| - 1];
      assert w[..k] == walk[..k];
      DownlinksPrefix(ix, w, k);
    }
  }

  /** What is remembered before downlink number `n`: the downlink before it. */
  lemma LagBefore(ix: Index, lv: Level, stray: Item, walk: seq<nat>, below: seq<nat>, pos: seq<nat>, cut: nat, k: nat,
                  i: nat)
    requires Setting(ix, lv, stray, walk, below, pos, cut) && k < |walk| && Live(ix, walk[k])
    requires i <= |ix[walk[k]].items|
    ensures var n, links := LinksBefore(ix, walk, k) + i, DownlinksOf(ix, walk);
            && n <= |links|
            && LagAt(ix, ix[walk[k]], SeenBy(ix, walk[..k]).lag, i) ==
                 if n == 0 then NO_LAG else LagAfter(ix, links[n - 1])
  {
    hide NoMarks, Unmarked, SeenBy, LevelClean, FullChain, DownlinksOf, Lockstep, LagAfter;
    DownlinksPrefix(ix, walk, k);
    var path, p := LevelFollows(ix, lv, stray, walk, k);
    if i > 0 {
      ChildIndex(ix, walk, k, i - 1);
    }
  }

  /** The place on the level below from which downlink number `n` is sought. */
  ghost function StartOf(pos: seq<nat>, n: nat): nat {
    if n == 0 || n > |pos| then 0 else pos[n - 1] + 1
  }

  lemma CallStart(ix: Index, lv: Level, stray: Item, walk: seq<nat>, below: seq<nat>, pos: seq<nat>, cut: nat, k: nat,
                  i: nat)
    requires Setting(ix, lv, stray, walk, below, pos, cut) && k < |walk| && Live(ix, walk[k])
    requires i <= |ix[walk[k]].items|
    ensures LinksBefore(ix, walk, k) + i <= |pos| == |DownlinksOf(ix, walk)|
    ensures var n, lag := LinksBefore(ix, walk, k) + i, LagAt(ix, ix[walk[k]], SeenBy(ix, walk[..k]).lag, i);
            var p := StartOf(pos, n);
            && p <= |below|
            && (n == 0 ==> lag.link == INVALID_BLOCK)
            && (n > 0 ==> lag.link == if p < |below| then below[p] else P_NONE)
            && (n > 0 ==> lag.link != INVALID_BLOCK)
  {
    hide NoMarks, Unmarked, SeenBy, LevelClean, DownlinksOf, LagAt, Skippable, IsLeftmost;
    var n, links := LinksBefore(ix, walk, k) + i, DownlinksOf(ix, walk);
    LagBefore(ix, lv, stray, walk, below, pos, cut, k, i);
    if n > 0 {
      var p := LinkPosition(ix, below, pos, links, n - 1);
      LinkUnmarked(ix, below, p, SeenBy(ix, walk).nextdown);
      if p + 1 < |below| {
        NextPosition(ix, below, p);
      }
    }
  }

  /** From place `p` on to the downlink at place `q`, or to the end of the level. */
  lemma {:induction false} WayAlong(ix: Index, t: Target, below: seq<nat>, p: nat, q: nat, n: nat, up: iset<Slot>)
    requires t.block in ix && Chain(ix, below) && p <= q < |below|
    requires below[q] == DownlinkOf(ix, t) || (q == |below| - 1 && ix[below[q]].next == P_NONE)
    requires forall r :: p <= r <= q ==> TurnClosed(ix, t, below[r], up)
    ensures WayClosed(ix, t, below[p], n, up)
    decreases n
  {
    hide TurnClosed, DownlinkOf;
    if n > 0 {
      if p < q {
        NextPosition(ix, below, p);
        WayAlong(ix, t, below, p + 1, q, n - 1, up);
      }
    }
  }

  // ------------------------------------------------------------ the cut is closed

  /** Everything before the cut: pages of the level, and pages of the level below. */
  ghost function LeftOf(walk: seq<nat>, below: seq<nat>, cut: nat, place: nat): seq<nat>
    requires cut <= |walk| && place <= |below|
  {
    walk[..cut] + below[..place]
  }

  lemma OnTheLeft(ix: Index, lv: Level, stray: Item, walk: seq<nat>, below: seq<nat>, pos: seq<nat>, cut: nat,
                  place: nat)
    requires Setting(ix, lv, stray, walk, below, pos, cut) && place <= |below|
    ensures forall i :: 0 <= i < |walk| ==> (walk[i] in LeftOf(walk, below, cut, place) <==> i < cut)
    ensures forall j :: 0 <= j < |below| ==> (below[j] in LeftOf(walk, below, cut, place) <==> j < place)
  {
    hide NoMarks, Unmarked, SeenBy, WalkClean, DownlinksOf, Lockstep, Chain, Live;
    forall i | 0 <= i < |walk|
      ensures walk[i] in LeftOf(walk, below, cut, place) <==> i < cut
    {
      PositionsDiffer(ix, walk, i, cut);
      if walk[i] in below[..place] {
        var j :| 0 <= j < place && below[..place][j] == walk[i];
        LevelsApart(ix, lv, stray, walk, below, pos, cut, i, j);
      }
    }
    forall j | 0 <= j < |below|
      ensures below[j] in LeftOf(walk, below, cut, place) <==> j < place
    {
      PositionsDiffer(ix, below, j, place);
      if below[j] in walk[..cut] {
        var i :| 0 <= i < cut && walk[..cut][i] == below[j];
        LevelsApart(ix, lv, stray, walk, below, pos, cut, i, j);
      }
    }
  }

  /** The left side as it is used: by position on either level. */
  ghost predicate Splits(walk: seq<nat>, below: seq<nat>, cut: nat, place: nat, left: seq<nat>) {
    && (forall i :: 0 <= i < |walk| ==> (walk[i] in left <==> i < cut))
    && (forall j :: 0 <= j < |below| ==> (below[j] in left <==> j < place))
  }

  lemma {:induction false} LinksGrow(ix: Index, walk: seq<nat>, k: nat, l: nat)
    requires k < l <= |walk| && Live(ix, walk[k])
    ensures LinksBefore(ix, walk, k) + |ix[walk[k]].items| <= LinksBefore(ix, walk, l)
    decreases l
  {
    assert walk[..l][..l - 1] == walk[..l - 1];
    if k + 1 < l {
      LinksGrow(ix, walk, k, l - 1);
    }
  }

  lemma SamePlace(ix: Index, below: seq<nat>, r: nat, q: nat)
    requires below != [] && FullChain(ix, below[0], below) && r <= q < |below|
    ensures below[r] == below[q] <==> r == q
  {
    if r < q {
      ChainDistinct(ix, below, r, q);
    }
  }

  lemma HasLinks(ix: Index, lv: Level, stray: Item, walk: seq<nat>, k: nat)
    requires LevelClean(ix, lv, stray, walk) && lv.level > 0 && k < |walk| && Live(ix, walk[k])
    ensures Loads(ix, walk[k]) && !ix[walk[k]].leaf && |ix[walk[k]].items| > 0
    ensures ix[walk[k]].Rightmost() <==> k + 1 == |walk|
  {
    hide SeenBy, TargetPasses, StartsLevel;
    assert TurnClean(ix, lv, stray, LastOf(walk[..k]), walk[k], SeenBy(ix, walk[..k]));
    if k + 1 < |walk| {
      assert ix[walk[k + 1 - 1]].next == walk[k + 1] && Loads(ix, walk[k + 1]);
    }
  }

  /** Where page number `k` and its downlink `i` are as seen from the cut. */
  lemma CutOrder(ix: Index, lv: Level, stray: Item, walk: seq<nat>, below: seq<nat>, pos: seq<nat>, cut: nat,
                 place: nat, k: nat, i: nat)
    requires Setting(ix, lv, stray, walk, below, pos, cut) && CutAt(ix, walk, below, pos, cut, place)
    requires k < |walk| && Live(ix, walk[k]) && i <= |ix[walk[k]].items| && LinksBefore(ix, walk, k) + i <= |pos|
    ensures var n := LinksBefore(ix, walk, k) + i;
            && (k < cut && n < |pos| && i < |ix[walk[k]].items| ==> pos[n] < place)
            && (k == cut && i == 0 ==> n < |pos| && pos[n] == place)
            && (k > cut || (k == cut && i > 0) ==> StartOf(pos, n) > place)
  {
    hide NoMarks, Unmarked, SeenBy, LevelClean, DownlinksOf, FullChain, LinksBefore, Skippable, IsLeftmost;
    var n, m := LinksBefore(ix, walk, k) + i, LinksBefore(ix, walk, cut);
    HasLinks(ix, lv, stray, walk, cut);
    if k < cut {
      LinksGrow(ix, walk, k, cut);
    } else if k > cut {
      LinksGrow(ix, walk, cut, k);
    }
    assert k > cut || (k == cut && i > 0) ==> m <= n - 1 < |pos|;
  }

  /**
   A page passed through on the way to downlink `i` of page number `k`
   is left of the cut exactly when its separator is.
   */
  lemma TurnStays(ix: Index, lv: Level, stray: Item, walk: seq<nat>, below: seq<nat>, pos: seq<nat>, cut: nat,
                  place: nat, left: seq<nat>, k: nat, i: nat, r: nat)
    requires Setting(ix, lv, stray, walk, below, pos, cut) && CutAt(ix, walk, below, pos, cut, place)
    requires Splits(walk, below, cut, place, left) && k < |walk| && Live(ix, walk[k]) && i < |ix[walk[k]].items|
    requires var n := LinksBefore(ix, walk, k) + i; n < |pos| && StartOf(pos, n) <= r <= pos[n] < |below|
    requires below[pos[LinksBefore(ix, walk, k) + i]] == ix[walk[k]].items[i].child
    ensures TurnClosed(ix, Target(walk[k], i, LowAt(ix, walk, k)), below[r], SlotsOf(left))
  {
    hide NoMarks, Unmarked, SeenBy, WalkClean, DownlinksOf, LinksBefore, Lockstep, Chain;
    var n := LinksBefore(ix, walk, k) + i;
    CutOrder(ix, lv, stray, walk, below, pos, cut, place, k, i);
    SamePlace(ix, below, r, pos[n]);
    assert r < place <==> k < cut || (k == cut && i == 0 && r < pos[n]);
  }

  /** The search for a downlink stays where it is. */
  lemma CallStays(ix: Index, lv: Level, stray: Item, walk: seq<nat>, below: seq<nat>, pos: seq<nat>, cut: nat,
                  place: nat, left: seq<nat>, k: nat, i: nat)
    requires Setting(ix, lv, stray, walk, below, pos, cut) && CutAt(ix, walk, below, pos, cut, place)
    requires Splits(walk, below, cut, place, left) && k < |walk| && Live(ix, walk[k]) && i < |ix[walk[k]].items|
    ensures CallClosed(ix, Target(walk[k], i, LowAt(ix, walk, k)),
                       LagAt(ix, ix[walk[k]], SeenBy(ix, walk[..k]).lag, i), SlotsOf(left))
  {
    hide NoMarks, Unmarked, SeenBy, WalkClean, DownlinksOf, LinksBefore, LagAt,
         WayClosed, TurnClosed, SlotsOf, Skippable, IsLeftmost, Splits;
    var t, n := Target(walk[k], i, LowAt(ix, walk, k)), LinksBefore(ix, walk, k) + i;
    CallStart(ix, lv, stray, walk, below, pos, cut, k, i);
    ChildIndex(ix, walk, k, i);
    LinksAre(ix, walk, k);
    var q := LinkPosition(ix, below, pos, DownlinksOf(ix, walk), n);
    var p := StartOf(pos, n);
    assert p <= q;
    forall r | p <= r <= q
      ensures TurnClosed(ix, t, below[r], SlotsOf(left))
    {
      TurnStays(ix, lv, stray, walk, below, pos, cut, place, left, k, i, r);
    }
    forall m: nat
      ensures WayClosed(ix, t, below[p], m, SlotsOf(left))
    {
      WayAlong(ix, t, below, p, q, m, SlotsOf(left));
    }
  }

  lemma LinksAre(ix: Index, walk: seq<nat>, k: nat)
    requires k <= |walk|
    ensures LinksBefore(ix, walk, k) == |DownlinksOf(ix, walk[..k])|
  {
  }

  /** After the last downlink everything is right of the cut. */
  lemma FinalStays(ix: Index, lv: Level, stray: Item, walk: seq<nat>, below: seq<nat>, pos: seq<nat>, cut: nat,
                   place: nat, left: seq<nat>, k: nat)
    requires Setting(ix, lv, stray, walk, below, pos, cut) && CutAt(ix, walk, below, pos, cut, place)
    requires Splits(walk, below, cut, place, left) && k + 1 == |walk| && Live(ix, walk[k]) && |ix[walk[k]].items| > 0
    ensures var n := |ix[walk[k]].items|;
            CallClosed(ix, Target(walk[k], n, LowAt(ix, walk, k)),
                       LagAt(ix, ix[walk[k]], SeenBy(ix, walk[..k]).lag, n), SlotsOf(left))
  {
    hide NoMarks, Unmarked, SeenBy, WalkClean, DownlinksOf, LinksBefore, LagAt, WayClosed, Lockstep;
    var n := |ix[walk[k]].items|;
    var t, m := Target(walk[k], n, LowAt(ix, walk, k)), LinksBefore(ix, walk, k) + n;
    CallStart(ix, lv, stray, walk, below, pos, cut, k, n);
    CutOrder(ix, lv, stray, walk, below, pos, cut, place, k, n);
    var p := StartOf(pos, m);
    if p < |below| {
      forall r | p <= r < |below|
        ensures TurnClosed(ix, t, below[r], SlotsOf(left))
      {
        assert below[r] !in left;
      }
      forall j: nat
        ensures WayClosed(ix, t, below[p], j, SlotsOf(left))
      {
        WayAlong(ix, t, below, p, |below| - 1, j, SlotsOf(left));
      }
    } else {
      NothingLeft(ix, t, SlotsOf(left));
    }
  }

  lemma NothingLeft(ix: Index, t: Target, up: iset<Slot>)
    requires t.block in ix
    ensures WholeWayClosed(ix, t, P_NONE, up)
  {
  }

  /** Separators and the items below them are on the same side. */
  lemma AboveStays(ix: Index, lv: Level, stray: Item, walk: seq<nat>, below: seq<nat>, pos: seq<nat>, cut: nat,
                   place: nat, left: seq<nat>, k: nat, i: nat)
    requires Setting(ix, lv, stray, walk, below, pos, cut) && CutAt(ix, walk, below, pos, cut, place)
    requires Splits(walk, below, cut, place, left) && k < |walk| && Live(ix, walk[k]) && i < |ix[walk[k]].items|
    ensures AboveClosed(ix, walk[k], i, SlotsOf(left))
  {
    hide NoMarks, Unmarked, SeenBy, WalkClean, DownlinksOf, LinksBefore, Skippable, IsLeftmost;
    var n := LinksBefore(ix, walk, k) + i;
    ChildIndex(ix, walk, k, i);
    LinksAre(ix, walk, k);
    var p := LinkPosition(ix, below, pos, DownlinksOf(ix, walk), n);
    CutOrder(ix, lv, stray, walk, below, pos, cut, place, k, i);
  }

  lemma InternalPageStays(ix: Index, lv: Level, stray: Item, walk: seq<nat>, below: seq<nat>, pos: seq<nat>, gap: nat,
                          cut: nat, place: nat, left: seq<nat>, k: nat)
    requires Setting(ix, lv, stray, walk, below, pos, cut) && CutAt(ix, walk, below, pos, cut, place)
    requires Splits(walk, below, cut, place, left) && NextLive(ix, walk, gap, cut) && !Filled(ix, walk[gap])
    requires k < |walk| && Live(ix, walk[k])
    ensures PageClosed(ix, walk[k], LowAt(ix, walk, k), SeenBy(ix, walk[..k]).lag, SlotsOf(left))
  {
    hide NoMarks, Unmarked, SeenBy, WalkClean, DownlinksOf, Lockstep,
         SlotsOf, CrossClosed, ItemClosed, AboveClosed, CallClosed, LagAt, Filled;
    HasLinks(ix, lv, stray, walk, k);
    LastIsLive(ix, lv, stray, walk);
    CrossStays(ix, walk, gap, cut, left, k);
    forall i | 0 <= i < |ix[walk[k]].items|
      ensures OffsetClosed(ix, walk[k], i, LowAt(ix, walk, k), SeenBy(ix, walk[..k]).lag, SlotsOf(left))
    {
      ItemsStay(ix, left, walk[k], i);
      AboveStays(ix, lv, stray, walk, below, pos, cut, place, left, k, i);
      CallStays(ix, lv, stray, walk, below, pos, cut, place, left, k, i);
    }
    if ix[walk[k]].Rightmost() {
      FinalStays(ix, lv, stray, walk, below, pos, cut, place, left, k);
    }
  }

  lemma InternalLevelStays(ix: Index, lv: Level, stray: Item, walk: seq<nat>, gap: nat, cut: nat)
    returns (left: seq<nat>)
    requires LevelClean(ix, lv, stray, walk) && lv.level > 0 && NextLive(ix, walk, gap, cut) && !Filled(ix, walk[gap])
    requires NoMarks(ix, walk) && Unmarked(ix, SeenBy(ix, walk).nextdown)
    ensures LevelClosed(ix, walk, SlotsOf(left)) && forall i :: 0 <= i < |walk| ==> (walk[i] in left <==> i < cut)
  {
    hide NoMarks, Unmarked, SeenBy, WalkClean, DownlinksOf, Lockstep,
         SlotsOf, PageClosed, Filled, FullChain, LeftOf, CutAt;
    var below := LevelConnected(ix, lv, stray, walk);
    var pos :| Lockstep(ix, below, pos, DownlinksOf(ix, walk));
    var place := CutPlace(ix, lv, stray, walk, below, pos, cut);
    CutWithin(ix, walk, below, pos, cut, place);
    left := LeftOf(walk, below, cut, place);
    OnTheLeft(ix, lv, stray, walk, below, pos, cut, place);
    forall k | 0 <= k < |walk| && Live(ix, walk[k])
      ensures PageClosed(ix, walk[k], LowAt(ix, walk, k), SeenBy(ix, walk[..k]).lag, SlotsOf(left))
    {
      InternalPageStays(ix, lv, stray, walk, below, pos, gap, cut, place, left, k);
    }
  }

  lemma CutWithin(ix: Index, walk: seq<nat>, below: seq<nat>, pos: seq<nat>, cut: nat, place: nat)
    requires CutAt(ix, walk, below, pos, cut, place)
    ensures cut <= |walk| && place <= |below|
  {
  }

  // ------------------------------------------------------------ the result

  /** On an internal level, what the check uses as marks does not occur. */
  ghost predicate LevelUnmarked(ix: Index, lv: Level, walk: seq<nat>) {
    lv.level > 0 ==> NoMarks(ix, walk) && Unmarked(ix, SeenBy(ix, walk).nextdown)
  }

  /** A level with a gap also passes with keys that are not in order. */
  lemma GapHidesDisorder(ix: Index, lv: Level, stray: Item, walk: seq<nat>, a: nat, gap: nat, b: nat)
    returns (ix': Index)
    requires LevelClean(ix, lv, stray, walk) && LevelUnmarked(ix, lv, walk) && GapAt(ix, walk, a, gap, b)
    ensures Rekeyed(ix, ix') && LevelClean(ix', lv, stray, walk) && !LevelOrdered(ix', walk)
  {
    hide NoMarks, Unmarked, SeenBy, LevelClosed, Rekeyed, Filled, Chain, WalkClean, SlotsOf, NextLive;
    var cut := AfterGap(ix, walk, a, gap, b);
    var left := CutLeft(ix, lv, stray, walk, gap, cut);
    ix' := ShiftLeft(ix, lv, stray, walk, a, b, left);
  }

  lemma CutLeft(ix: Index, lv: Level, stray: Item, walk: seq<nat>, gap: nat, cut: nat) returns (left: seq<nat>)
    requires LevelClean(ix, lv, stray, walk) && LevelUnmarked(ix, lv, walk)
    requires NextLive(ix, walk, gap, cut) && !Filled(ix, walk[gap])
    ensures gap < cut && LevelClosed(ix, walk, SlotsOf(left)) &&
            forall i :: 0 <= i < |walk| ==> (walk[i] in left <==> i < cut)
  {
    hide NoMarks, Unmarked, SeenBy, LevelClosed, Filled, Chain, WalkClean, SlotsOf;
    if lv.level == 0 {
      LeafLevelStays(ix, lv, stray, walk, gap, cut);
      left := walk[..cut];
      forall i | 0 <= i < |walk|
        ensures walk[i] in left <==> i < cut
      {
        PositionsDiffer(ix, walk, i, cut);
      }
    } else {
      left := InternalLevelStays(ix, lv, stray, walk, gap, cut);
    }
  }

  /** Shift the left side up until an item there is not below one on the right. */
  lemma ShiftLeft(ix: Index, lv: Level, stray: Item, walk: seq<nat>, a: nat, b: nat, left: seq<nat>)
    returns (ix': Index)
    requires LevelClean(ix, lv, stray, walk) && LevelClosed(ix, walk, SlotsOf(left)) && a < b < |walk|
    requires Filled(ix, walk[a]) && Filled(ix, walk[b]) && walk[a] in left && walk[b] !in left
    ensures Rekeyed(ix, ix') && LevelClean(ix', lv, stray, walk) && !LevelOrdered(ix', walk)
  {
    hide LevelClosed, LevelClean, Rekeyed, Real;
    var x, y := Real(ix[walk[a]])[0].key, Real(ix[walk[b]])[0].key;
    var sh := Shift(SlotsOf(left), if y > x then y - x else 0, 0);
    LevelStaysClean(ix, sh, lv, stray, walk);
    ix' := Shifted(ix, sh);
    RealShifted(ix, sh, walk[a], 0);
    RealShifted(ix, sh, walk[b], 0);
    SamePage(ix, ix', walk[a]);
    SamePage(ix, ix', walk[b]);
    assert Before(ix', walk, a, 0, b, 0);
  }

  /**
   The check of a level guarantees key order, for every choice of keys, exactly when no
   empty live page lies between two live pages with usable items.
   */
  lemma OrderExactly(ix: Index, lv: Level, stray: Item, walk: seq<nat>)
    requires LevelClean(ix, lv, stray, walk) && LevelUnmarked(ix, lv, walk)
    ensures OrderGuaranteed(ix, lv, stray, walk) <==> Gapless(ix, walk)
  {
    hide LevelClean, LevelOrdered, GapAt, GapsOrdered, Rekeyed, LevelPassed, LevelUnmarked;
    if Gapless(ix, walk) {
      forall ix' | Rekeyed(ix, ix') && LevelClean(ix', lv, stray, walk)
        ensures LevelOrdered(ix', walk)
      {
        GaplessOrdered(ix, ix', walk);
        CleanPassed(ix', lv, stray, walk);
        LevelIncreasing(ix', lv, walk);
      }
    } else {
      var a: nat, gap: nat, b: nat :| GapAt(ix, walk, a, gap, b);
      var ix' := GapHidesDisorder(ix, lv, stray, walk, a, gap, b);
    }
  }
}
