/**
 Key order along a level that passed the check.  Neighbouring pages are compared, but an
 empty page has nothing to compare, so order across it is not guaranteed by the level.
 */
module NbtreeOrder {
  import opened NbtreePages
  import opened NbtreeLockstep
  import opened NbtreeTarget
  import opened NbtreeLevel

  /** `b` is the next live page after `a` on the walk. */
  ghost predicate NextLive(ix: Index, walk: seq<nat>, a: nat, b: nat) {
    && a < b < |walk| && Live(ix, walk[a]) && Live(ix, walk[b])
    && forall k :: a < k < b ==> !Live(ix, walk[k])
  }

  /** The page compared against is the next live page of the walk. */
  lemma RightOfIsNext(ix: Index, walk: seq<nat>, a: nat, b: nat, skipped: seq<nat>, q: nat)
    requires Chain(ix, walk) && NextLive(ix, walk, a, b) && RightOf(ix, walk[a], skipped, q)
    requires forall k :: a < k < b ==> !ix[walk[k]].Rightmost()
    ensures q == walk[b]
  {
    var rest, other, n := walk[a..], [walk[a]] + skipped + [q], |skipped| + 1;
    ChainSuffix(ix, walk, a);
    assert other[n] == q;
    if n < b - a {
      assert !Live(ix, walk[a + n]);
      RunTogether(ix, rest, other, n);
    } else {
      assert n > b - a ==> other[b - a] == skipped[b - a - 1];
      RunTogether(ix, rest, other, b - a);
    }
  }

  lemma ChainSuffix(ix: Index, walk: seq<nat>, a: nat)
    requires Chain(ix, walk) && a < |walk|
    ensures Chain(ix, walk[a..]) && walk[a..][0] == walk[a]
  {
    var rest := walk[a..];
    forall k | 0 < k < |rest|
      ensures ix[rest[k - 1]].next == rest[k]
    {
      assert rest[k] == walk[a + k] && rest[k - 1] == walk[a + k - 1];
    }
  }

  lemma NotRightmost(ix: Index, walk: seq<nat>, a: nat)
    requires Chain(ix, walk) && a + 1 < |walk|
    ensures !ix[walk[a]].Rightmost()
  {
    assert ix[walk[a + 1 - 1]].next == walk[a + 1] && Loads(ix, walk[a + 1]);
  }

  lemma NextOnChain(ix: Index, walk: seq<nat>, a: nat, b: nat, skipped: seq<nat>, q: nat)
    requires Chain(ix, walk) && NextLive(ix, walk, a, b) && RightOf(ix, walk[a], skipped, q)
    ensures q == walk[b]
  {
    hide RightOf;
    forall k | a < k < b
      ensures !ix[walk[k]].Rightmost()
    {
      NotRightmost(ix, walk, k);
    }
    RightOfIsNext(ix, walk, a, b, skipped, q);
  }

  lemma NeighboursOrdered(ix: Index, lv: Level, walk: seq<nat>, a: nat, b: nat)
    requires LevelPassed(ix, lv, walk) && NextLive(ix, walk, a, b)
    ensures LastBelowFirst(ix[walk[a]], ix[walk[b]])
  {
    hide PageOrdered, StartsLevel, Chain;
    assert VisitOk(ix, lv, walk, a);
    if Real(ix[walk[a]]) != [] {
      NotRightmost(ix, walk, a);
      var skipped, q :| RightOf(ix, walk[a], skipped, q) && LastBelowFirst(ix[walk[a]], ix[q]);
      NextOnChain(ix, walk, a, b, skipped, q);
    }
  }

  // ------------------------------------------------------------ order and gaps

  predicate Filled(ix: Index, b: nat) {
    Live(ix, b) && Real(ix[b]) != []
  }

  /** `b` is the next live page with usable items after `a`. */
  ghost predicate NextFilled(ix: Index, walk: seq<nat>, a: nat, b: nat) {
    && a < b < |walk| && Filled(ix, walk[a]) && Filled(ix, walk[b])
    && forall k :: a < k < b ==> !Filled(ix, walk[k])
  }

  /** Where only empty live pages lie between two pages with items, these are in order. */
  ghost predicate GapsOrdered(ix: Index, walk: seq<nat>) {
    forall a: nat, b: nat :: NextFilled(ix, walk, a, b) && !NextLive(ix, walk, a, b) ==>
      LastBelowFirst(ix[walk[a]], ix[walk[b]])
  }

  /** Item `i` of page `a` comes before item `j` of page `b`, reading from left to right. */
  ghost predicate Before(ix: Index, walk: seq<nat>, a: nat, i: nat, b: nat, j: nat) {
    && a < |walk| && b < |walk| && Live(ix, walk[a]) && Live(ix, walk[b])
    && i < |Real(ix[walk[a]])| && j < |Real(ix[walk[b]])| && (a < b || (a == b && i < j))
  }

  /** The usable items of the live pages, read from left to right, strictly increase. */
  ghost predicate LevelOrdered(ix: Index, walk: seq<nat>) {
    forall a: nat, i: nat, b: nat, j: nat :: Before(ix, walk, a, i, b, j) ==>
      Real(ix[walk[a]])[i].key < Real(ix[walk[b]])[j].key
  }

  /** The last page with items before position `b`. */
  lemma PreviousFilled(ix: Index, walk: seq<nat>, a: nat, b: nat) returns (c: nat)
    requires a < b < |walk| && Filled(ix, walk[a]) && Filled(ix, walk[b])
    ensures a <= c && NextFilled(ix, walk, c, b)
  {
    c := b - 1;
    while !Filled(ix, walk[c])
      invariant a <= c < b && forall k :: c < k < b ==> !Filled(ix, walk[k])
      decreases c
    {
      c := c - 1;
    }
  }

  /** On a level that passed and has its gaps in order, every two items are in order. */
  lemma {:induction false} ItemsOrdered(ix: Index, lv: Level, walk: seq<nat>, a: nat, i: nat, b: nat, j: nat)
    requires LevelPassed(ix, lv, walk) && GapsOrdered(ix, walk) && Before(ix, walk, a, i, b, j)
    ensures Real(ix[walk[a]])[i].key < Real(ix[walk[b]])[j].key
    decreases b
  {
    hide CrossOrdered, StartsLevel, FullChain, BelowHighKey, Real, NextLive, Placed;
    assert VisitOk(ix, lv, walk, a) && VisitOk(ix, lv, walk, b);
    if a < b {
      var c := PreviousFilled(ix, walk, a, b);
      if NextLive(ix, walk, c, b) {
        NeighboursOrdered(ix, lv, walk, c, b);
      }
      assert VisitOk(ix, lv, walk, c);
      var last := |Real(ix[walk[c]])| - 1;
      if a < c || i < last {
        ItemsOrdered(ix, lv, walk, a, i, c, last);
      }
    }
  }

  /**
   The items of a level that passed strictly increase from left to right exactly when
   they do across its empty pages, which the check does not look past.
   */
  lemma LevelIncreasing(ix: Index, lv: Level, walk: seq<nat>)
    requires LevelPassed(ix, lv, walk)
    ensures LevelOrdered(ix, walk) <==> GapsOrdered(ix, walk)
  {
    hide LevelPassed, Real, NextLive;
    if GapsOrdered(ix, walk) {
      forall a: nat, i: nat, b: nat, j: nat | Before(ix, walk, a, i, b, j)
        ensures Real(ix[walk[a]])[i].key < Real(ix[walk[b]])[j].key
      {
        ItemsOrdered(ix, lv, walk, a, i, b, j);
      }
    }
    if LevelOrdered(ix, walk) {
      forall a: nat, b: nat | NextFilled(ix, walk, a, b)
        ensures LastBelowFirst(ix[walk[a]], ix[walk[b]])
      {
        assert Before(ix, walk, a, |Real(ix[walk[a]])| - 1, b, 0);
      }
    }
  }

  /** Each item of a page that passed respects the page's high key. */
  lemma HighKeyRespected(ix: Index, lv: Level, walk: seq<nat>, a: nat, i: nat)
    requires LevelPassed(ix, lv, walk) && a < |walk| && Live(ix, walk[a]) && i < |Real(ix[walk[a]])|
    ensures var p := ix[walk[a]];
            && (p.next != P_NONE ==> Real(p)[i].key <= p.hikey.key)
            && (p.next != P_NONE && !p.leaf ==> Real(p)[i].key < p.hikey.key)
  {
    hide CrossOrdered, StartsLevel, FullChain;
    assert VisitOk(ix, lv, walk, a);
  }

  /** The item is out of bounds: above the high key, or on an internal page equal to it. */
  predicate OutOfBounds(p: Page, i: nat)
    requires i < |p.items|
  {
    p.next != P_NONE &&
    if p.leaf then p.items[i].key > p.hikey.key else i > 0 && p.items[i].key >= p.hikey.key
  }

  /** One such item anywhere on the level, and no check of the level passes. */
  lemma OutOfBoundsReported(ix: Index, lv: Level, stray: Item, walk: seq<nat>, a: nat, i: nat)
    requires FullChain(ix, lv.leftmost, walk) && a < |walk| && Live(ix, walk[a])
    requires i < |ix[walk[a]].items| && OutOfBounds(ix[walk[a]], i)
    ensures forall w :: !LevelClean(ix, lv, stray, w)
  {
    hide FullChain, WalkClean, LevelPassed;
    forall w
      ensures !LevelClean(ix, lv, stray, w)
    {
      if LevelClean(ix, lv, stray, w) {
        SameChain(ix, lv.leftmost, walk, w);
        CleanPassed(ix, lv, stray, w);
        var p := ix[walk[a]];
        assert Real(p)[if p.leaf then i else i - 1] == p.items[i];
        HighKeyRespected(ix, lv, w, a, if p.leaf then i else i - 1);
      }
    }
  }

  /**
   Where and what every page of a level that passed is: none is deleted or its own
   neighbour, live ones are on the level, pages are leaves exactly on level 0, only
   leaves that have a right sibling are half-dead, and a root level starts with the root.
   */
  lemma EveryPageInPlace(ix: Index, lv: Level, walk: seq<nat>, k: nat)
    requires LevelPassed(ix, lv, walk) && k < |walk|
    ensures walk[k] != P_NONE && walk[k] in ix
    ensures var p := ix[walk[k]];
            && !p.deleted && !p.fullXid && p.prev != walk[k] && p.next != walk[k]
            && (p.leaf <==> p.level == 0) && (!p.leaf ==> p.items != [] && !p.garbage)
            && (p.halfDead ==> p.leaf && p.next != P_NONE)
            && (!p.halfDead ==> p.level == lv.level)
            && (FirstLive(ix, walk, k) && lv.trueRoot ==> p.root)
  {
    hide CrossOrdered, IsLeftmost, PageOrdered;
    assert VisitOk(ix, lv, walk, k);
    assert FirstLive(ix, walk, k) ==> FirstLiveOk(ix, lv, walk, k);
    if k + 1 < |walk| {
      assert ix[walk[k + 1 - 1]].next == walk[k + 1];
      ChainDistinct(ix, walk, k, k + 1);
    }
  }

  /** Each live page but the first visited names the page visited just before it as its left sibling. */
  lemma SiblingsAgree(ix: Index, lv: Level, walk: seq<nat>, k: nat)
    requires LevelPassed(ix, lv, walk) && 0 < k < |walk| && Live(ix, walk[k])
    ensures ix[walk[k]].prev == walk[k - 1] && ix[walk[k - 1]].next == walk[k]
  {
    hide CrossOrdered, StartsLevel, PageOrdered;
    assert VisitOk(ix, lv, walk, k);
  }
}
