/**
 The checks of one target page (`bt_target_page_check`, `bt_right_page_check_scankey`,
 `bt_child_check`): item order, the page to the right, and the pages below.
 */
module NbtreeTarget {
  import opened Common
  import opened NbtreePages
  import opened NbtreeLockstep

  // ------------------------------------------------------------ what is checked on a page

  /** The items with a usable key: all but the first one on internal pages. */
  function Real(p: Page): seq<Item> {
    if p.leaf || p.items == [] then p.items else p.items[1..]
  }

  ghost predicate Increasing(items: seq<Item>) {
    forall i, j :: 0 <= i < j < |items| ==> items[i].key < items[j].key
  }

  /** Leaf items may equal the high key, separators may not. */
  predicate BelowHighKey(p: Page, key: int) {
    p.Rightmost() || key < p.hikey.key || (p.leaf && key == p.hikey.key)
  }

  ghost predicate PageOrdered(p: Page) {
    Increasing(Real(p)) && forall i :: 0 <= i < |Real(p)| ==> BelowHighKey(p, Real(p)[i].key)
  }

  /** From block `b` to the right, `skipped` are ignorable pages and `q` is the first that is not, or the last page. */
  ghost predicate RightOf(ix: Index, b: nat, skipped: seq<nat>, q: nat) {
    && Loads(ix, b) && Loads(ix, q) && Chain(ix, [b] + skipped + [q])
    && (forall k :: 0 <= k < |skipped| ==> Loads(ix, skipped[k]) && ix[skipped[k]].Ignore())
    && (!ix[q].Ignore() || ix[q].Rightmost())
  }

  /** The last item of `b` is below the first item of the next page, if both exist. */
  ghost predicate CrossOrdered(ix: Index, b: nat) {
    Loads(ix, b) && (!ix[b].Rightmost() && Real(ix[b]) != [] ==>
      exists skipped, q :: RightOf(ix, b, skipped, q) && LastBelowFirst(ix[b], ix[q]))
  }

  predicate LastBelowFirst(p: Page, q: Page) {
    Real(p) != [] && Real(q) != [] ==> Real(p)[|Real(p)| - 1].key < Real(q)[0].key
  }

  /** All usable keys of a child lie above the downlink's key. */
  ghost predicate ChildAbove(ix: Index, target: Page, i: nat)
    requires i < |target.items|
  {
    var c := target.items[i].child;
    Loads(ix, c) && !ix[c].deleted && forall j :: 0 <= j < |Real(ix[c])| ==> target.items[i].key < Real(ix[c])[j].key
  }

  // ------------------------------------------------------------ single pages

  datatype KeyOption = NoKey | Key(key: int)

  lemma RightStep(ix: Index, b: nat, skipped: seq<nat>, q: nat)
    requires Loads(ix, b) && Chain(ix, [b] + skipped) && Loads(ix, q)
    requires (skipped != [] ==> Loads(ix, skipped[|skipped| - 1]))
    requires ix[if skipped == [] then b else skipped[|skipped| - 1]].next == q
    ensures Chain(ix, [b] + skipped + [q])
  {
    var path := [b] + skipped;
    assert path[|path| - 1] == if skipped == [] then b else skipped[|skipped| - 1];
    ChainSnoc(ix, path, q);
  }

  /** `bt_right_page_check_scankey`: the first usable key to the right, if any. */
  method RightPageScankey(ix: Index, b: nat, fuel: nat)
    returns (r: Outcome, key: KeyOption, ghost skipped: seq<nat>, ghost q: nat)
    requires Loads(ix, b)
    ensures r.Ok? && !ix[b].Rightmost() ==> RightOf(ix, b, skipped, q)
    ensures r.Ok? && !ix[b].Rightmost() ==> key == if Real(ix[q]) == [] then NoKey else Key(Real(ix[q])[0].key)
    ensures r.Ok? && ix[b].Rightmost() ==> key == NoKey
    ensures r.Corrupt? ==> !ix[b].Rightmost() && forall s, p :: !RightOf(ix, b, s, p)
  {
    hide Chain;
    r, key, skipped, q := Ok, NoKey, [], 0;
    if ix[b].Rightmost() {
      return;
    }
    var targetnext, n := ix[b].next, fuel;
    assert Chain(ix, [b] + skipped) by {
      OneBlock(ix, b);
    }
    while n > 0
      invariant Chain(ix, [b] + skipped) && AllPassed(ix, skipped)
      invariant targetnext == ix[if skipped == [] then b else skipped[|skipped| - 1]].next
    {
      if !Loads(ix, targetnext) {
        StuckRight(ix, b, skipped);
        r := Corrupt;
        return;
      }
      RightStep(ix, b, skipped, targetnext);
      var right := ix[targetnext];
      if !right.Ignore() || right.Rightmost() {
        q := targetnext;
        if right.leaf && |right.items| >= 1 {
          key := Key(right.items[0].key);
        } else if !right.leaf && |right.items| >= 2 {
          key := Key(right.items[1].key);
        }
        return;
      }
      assert [b] + (skipped + [targetnext]) == [b] + skipped + [targetnext];
      skipped := skipped + [targetnext];
      targetnext := right.next;
      n := n - 1;
    }
    r := NoFuel;
  }

  /** Pages a walk to the right passes over: ignorable and not the last. */
  ghost predicate AllPassed(ix: Index, skipped: seq<nat>) {
    forall k :: 0 <= k < |skipped| ==> Loads(ix, skipped[k]) && ix[skipped[k]].Ignore() && !ix[skipped[k]].Rightmost()
  }

  /** Where the right link leads nowhere there is no next page. */
  lemma StuckRight(ix: Index, b: nat, skipped: seq<nat>)
    requires Loads(ix, b) && !ix[b].Rightmost() && Chain(ix, [b] + skipped) && AllPassed(ix, skipped)
    requires !Loads(ix, ix[if skipped == [] then b else skipped[|skipped| - 1]].next)
    ensures forall s, q :: !RightOf(ix, b, s, q)
  {
    hide Chain;
    forall s, q
      ensures !RightOf(ix, b, s, q)
    {
      StuckRightOf(ix, b, skipped, s, q);
    }
  }

  lemma StuckRightOf(ix: Index, b: nat, skipped: seq<nat>, s: seq<nat>, q: nat)
    requires Loads(ix, b) && !ix[b].Rightmost() && Chain(ix, [b] + skipped) && AllPassed(ix, skipped)
    requires !Loads(ix, ix[if skipped == [] then b else skipped[|skipped| - 1]].next)
    ensures !RightOf(ix, b, s, q)
  {
    if RightOf(ix, b, s, q) {
      var mine, other := [b] + skipped, [b] + s + [q];
      var m, n := |skipped|, |s| + 1;
      assert other[n] == q && mine[m] == if skipped == [] then b else skipped[m - 1];
      if n <= m {
        assert mine[n] == skipped[n - 1];
        RunTogether(ix, mine, other, n);
      } else {
        assert ix[other[m]].next == other[m + 1] && Loads(ix, other[m + 1]);
        RunTogether(ix, mine, other, m);
      }
    }
  }

  /** The next page to the right is unique. */
  lemma RightUnique(ix: Index, b: nat, s: seq<nat>, q: nat, s': seq<nat>, q': nat)
    requires RightOf(ix, b, s, q) && RightOf(ix, b, s', q') && |s| <= |s'|
    ensures q == q'
  {
    var x, y, n := [b] + s + [q], [b] + s' + [q'], |s| + 1;
    assert x[n] == q && y[|s'| + 1] == q';
    assert n < |s'| + 1 ==> y[n] == s'[n - 1] && ix[y[n + 1 - 1]].next == y[n + 1] && Loads(ix, y[n + 1]);
    RunTogether(ix, x, y, n);
  }

  /** If the keys are out of order across the page boundary, they are. */
  lemma NotCrossOrdered(ix: Index, b: nat, skipped: seq<nat>, q: nat)
    requires RightOf(ix, b, skipped, q) && !ix[b].Rightmost() && Real(ix[b]) != [] && !LastBelowFirst(ix[b], ix[q])
    ensures !CrossOrdered(ix, b)
  {
    hide RightOf;
    forall s, p | RightOf(ix, b, s, p)
      ensures p == q
    {
      if |s| <= |skipped| {
        RightUnique(ix, b, s, p, skipped, q);
      } else {
        RightUnique(ix, b, skipped, q, s, p);
      }
    }
  }

  lemma OneBlock(ix: Index, b: nat)
    requires Loads(ix, b)
    ensures Chain(ix, [b] + [])
  {
    assert [b] + [] == [b];
  }

  /** `bt_child_check`: connectivity, then the downlink's key against every item of the child. */
  method ChildCheck(state: BtreeCheckState, target: Page, i: nat, stray: Item, fuel: nat) returns (r: Outcome)
    requires i < |target.items|
    modifies state`prevrightlink, state`previncompletesplit
    ensures r.Ok? ==> ChildAbove(state.ix, target, i) &&
                      CallPasses(state.ix, target, i, state.lowkey, stray, old(state.Remembered()))
    ensures r.Ok? ==> state.Remembered() == LagAfter(state.ix, target.items[i].child)
    ensures r.Corrupt? ==> !ChildAbove(state.ix, target, i) ||
                           !CallPasses(state.ix, target, i, state.lowkey, stray, old(state.Remembered()))
  {
    hide CallPasses, Real;
    var childblock := target.items[i].child;
    if !Loads(state.ix, childblock) {
      return Corrupt;
    }
    r := state.ChildHighkeyCheck(target, i, stray, fuel);
    if !r.Ok? {
      return;
    }
    var child := state.ix[childblock];
    if child.deleted {
      return Corrupt;
    }
    var above := AllAbove(child, target.items[i].key);
    if !above {
      return Corrupt;
    }
  }

  /** The item loop of `bt_child_check`: is every item with a usable key above `key`? */
  method AllAbove(child: Page, key: int) returns (above: bool)
    ensures above <==> forall j :: 0 <= j < |Real(child)| ==> key < Real(child)[j].key
  {
    var first := if child.leaf || child.items == [] then 0 else 1;
    for j := first to |child.items|
      invariant forall k :: first <= k < j ==> key < child.items[k].key
    {
      if key >= child.items[j].key {
        assert Real(child)[j - first] == child.items[j];
        return false;
      }
    }
    assert forall k :: 0 <= k < |Real(child)| ==> Real(child)[k] == child.items[first + k];
    return true;
  }

  /** The high key, item order and last item checks for data item `i`. */
  method ItemCheck(ix: Index, b: nat, i: nat, fuel: nat) returns (r: Outcome)
    requires Loads(ix, b) && i < |ix[b].items| && (!ix[b].leaf ==> i > 0)
    ensures r.Ok? && !ix[b].Rightmost() ==> ix[b].items[i].key <= ix[b].hikey.key
    ensures r.Ok? && !ix[b].Rightmost() && !ix[b].leaf ==> ix[b].items[i].key < ix[b].hikey.key
    ensures r.Ok? && i + 1 < |ix[b].items| ==> ix[b].items[i].key < ix[b].items[i + 1].key
    ensures r.Ok? && i + 1 == |ix[b].items| ==> CrossOrdered(ix, b)
    ensures r.Corrupt? ==>
              || (!ix[b].Rightmost() && ix[b].hikey.key < ix[b].items[i].key)
              || (!ix[b].Rightmost() && !ix[b].leaf && ix[b].hikey.key == ix[b].items[i].key)
              || (i + 1 < |ix[b].items| && ix[b].items[i + 1].key <= ix[b].items[i].key)
              || (i + 1 == |ix[b].items| && !CrossOrdered(ix, b))
  {
    hide Chain;
    var target := ix[b];
    var key := target.items[i].key;
    if !target.Rightmost() && !(if target.leaf then key <= target.hikey.key else key < target.hikey.key) {
      return Corrupt;
    }
    if i + 1 < |target.items| && !(key < target.items[i + 1].key) {
      return Corrupt;
    }
    if i + 1 == |target.items| {
      assert Real(target)[|Real(target)| - 1] == target.items[i];
      var rightkey;
      ghost var skipped, q;
      r, rightkey, skipped, q := RightPageScankey(ix, b, fuel);
      if !r.Ok? {
        return;
      }
      if rightkey.Key? && !(rightkey.key > key) {
        NotCrossOrdered(ix, b, skipped, q);
        return Corrupt;
      }
      assert !target.Rightmost() ==> RightOf(ix, b, skipped, q) && LastBelowFirst(target, ix[q]);
    }
    return Ok;
  }

  // ------------------------------------------------------------ item order

  /** Item `i` is below the high key and below the next item. */
  predicate ItemOk(p: Page, i: nat)
    requires i < |p.items|
  {
    BelowHighKey(p, p.items[i].key) && (i + 1 < |p.items| ==> p.items[i].key < p.items[i + 1].key)
  }

  function FirstReal(p: Page): nat {
    if p.leaf || p.items == [] then 0 else 1
  }

  lemma {:induction false} ItemsIncrease(p: Page, i: nat, j: nat)
    requires forall k :: FirstReal(p) <= k < |p.items| ==> ItemOk(p, k)
    requires FirstReal(p) <= i < j < |p.items|
    ensures p.items[i].key < p.items[j].key
    decreases j
  {
    assert ItemOk(p, j - 1);
    if i + 1 < j {
      ItemsIncrease(p, i, j - 1);
    }
  }

  lemma RealAt(p: Page, k: nat)
    requires k < |Real(p)|
    ensures FirstReal(p) + k < |p.items| && Real(p)[k] == p.items[FirstReal(p) + k]
  {
  }

  lemma LeafItemOk(p: Page, i: nat)
    requires p.leaf && PageOrdered(p) && i < |p.items|
    ensures ItemOk(p, i)
  {
    assert Real(p) == p.items;
  }

  lemma AllItemsOrdered(p: Page)
    requires forall k :: FirstReal(p) <= k < |p.items| ==> ItemOk(p, k)
    ensures PageOrdered(p)
  {
    hide BelowHighKey, Real, FirstReal;
    forall i, j | 0 <= i < j < |Real(p)|
      ensures Real(p)[i].key < Real(p)[j].key
    {
      RealAt(p, i);
      RealAt(p, j);
      ItemsIncrease(p, FirstReal(p) + i, FirstReal(p) + j);
    }
    forall i | 0 <= i < |Real(p)|
      ensures BelowHighKey(p, Real(p)[i].key)
    {
      RealAt(p, i);
      assert ItemOk(p, FirstReal(p) + i);
    }
  }

  // ------------------------------------------------------------ when an internal page passes

  /** The downlink of item `i` passes. */
  ghost predicate LinkPasses(ix: Index, target: Page, i: nat, lowkey: Option<Item>, stray: Item, lag: Lag)
    requires i < |target.items|
  {
    CallPasses(ix, target, i, lowkey, stray, lag) && (i > 0 ==> ChildAbove(ix, target, i))
  }

  /** What is remembered when item `i` of a page begun with `lag` is reached. */
  function LagAt(ix: Index, target: Page, lag: Lag, i: nat): Lag
    requires i <= |target.items|
  {
    if i == 0 then lag else LagAfter(ix, target.items[i - 1].child)
  }

  /** Item `i` of the internal page `b` passes. */
  ghost predicate OffsetPasses(ix: Index, b: nat, i: nat, lowkey: Option<Item>, stray: Item, lag: Lag)
    requires Loads(ix, b) && i < |ix[b].items|
  {
    && (i > 0 ==> ItemOk(ix[b], i) && (i + 1 == |ix[b].items| ==> CrossOrdered(ix, b)))
    && LinkPasses(ix, ix[b], i, lowkey, stray, LagAt(ix, ix[b], lag, i))
  }

  /**
   Every item of the internal page `b` passes, and
   below a rightmost page the child level can be followed to its end.
   */
  ghost predicate PagePasses(ix: Index, b: nat, lowkey: Option<Item>, stray: Item, lag: Lag)
    requires Loads(ix, b)
  {
    && (forall i :: 0 <= i < |ix[b].items| ==> OffsetPasses(ix, b, i, lowkey, stray, lag))
    && (ix[b].Rightmost() ==> CallPasses(ix, ix[b], |ix[b].items|, lowkey, stray, LagAt(ix, ix[b], lag, |ix[b].items|)))
  }

  /** What is remembered after the page. */
  function PageLag(ix: Index, p: Page, lag: Lag): Lag {
    if p.leaf then lag else if p.Rightmost() then NO_LAG else LagAt(ix, p, lag, |p.items|)
  }

  /** The page passes: a leaf page by the order of its items, an internal page with its downlinks. */
  ghost predicate TargetPasses(ix: Index, b: nat, lowkey: Option<Item>, stray: Item, lag: Lag)
    requires Loads(ix, b)
  {
    if ix[b].leaf then PageOrdered(ix[b]) && CrossOrdered(ix, b) else PagePasses(ix, b, lowkey, stray, lag)
  }

  /** The order on one page, in its keys: the first item of an internal page has none. */
  lemma OrderedInKeys(p: Page)
    requires PageOrdered(p)
    ensures forall i, j :: (if p.leaf then 0 else 1) <= i < j < |p.items| ==> p.items[i].key < p.items[j].key
    ensures !p.Rightmost() && p.leaf ==> forall i :: 0 <= i < |p.items| ==> p.items[i].key <= p.hikey.key
    ensures !p.Rightmost() && !p.leaf ==> forall i :: 1 <= i < |p.items| ==> p.items[i].key < p.hikey.key
  {
    forall i | (if p.leaf then 0 else 1) <= i < |p.items|
      ensures Real(p)[i - FirstReal(p)] == p.items[i]
    {
      RealAt(p, i - FirstReal(p));
    }
  }

  /** In either case its items are in order, and in order with the page to the right. */
  lemma TargetOrdered(ix: Index, b: nat, lowkey: Option<Item>, stray: Item, lag: Lag)
    requires Loads(ix, b) && TargetPasses(ix, b, lowkey, stray, lag)
    ensures PageOrdered(ix[b]) && CrossOrdered(ix, b)
    ensures var p := ix[b];
            && (forall i, j :: (if p.leaf then 0 else 1) <= i < j < |p.items| ==> p.items[i].key < p.items[j].key)
            && (!p.Rightmost() && p.leaf ==> forall i :: 0 <= i < |p.items| ==> p.items[i].key <= p.hikey.key)
            && (!p.Rightmost() && !p.leaf ==> forall i :: 1 <= i < |p.items| ==> p.items[i].key < p.hikey.key)
  {
    hide PageOrdered, CrossOrdered, LinkPasses, ItemOk, CallPasses;
    var p := ix[b];
    if !p.leaf {
      forall k | FirstReal(p) <= k < |p.items|
        ensures ItemOk(p, k)
      {
        assert OffsetPasses(ix, b, k, lowkey, stray, lag);
      }
      AllItemsOrdered(p);
      NothingToCross(ix, b);
      if |p.items| > 1 {
        assert OffsetPasses(ix, b, |p.items| - 1, lowkey, stray, lag);
      }
    }
    OrderedInKeys(p);
  }

  /** The downlink part of the loop body of `bt_target_page_check`. */
  method DownlinkCheck(state: BtreeCheckState, target: Page, i: nat, stray: Item, fuel: nat) returns (r: Outcome)
    requires i < |target.items|
    modifies state`prevrightlink, state`previncompletesplit
    ensures r.Ok? ==> LinkPasses(state.ix, target, i, state.lowkey, stray, old(state.Remembered()))
    ensures r.Ok? ==> state.Remembered() == LagAfter(state.ix, target.items[i].child)
    ensures r.Corrupt? ==> !LinkPasses(state.ix, target, i, state.lowkey, stray, old(state.Remembered()))
  {
    hide ChildAbove, CallPasses;
    if i == 0 {
      r := state.ChildHighkeyCheck(target, 0, stray, fuel);
    } else {
      r := ChildCheck(state, target, i, stray, fuel);
    }
  }

  /** One turn of the item loop of `bt_target_page_check` on an internal page. */
  method CheckOffset(state: BtreeCheckState, b: nat, i: nat, stray: Item, fuel: nat, ghost lag: Lag)
    returns (r: Outcome)
    requires Loads(state.ix, b) && !state.ix[b].leaf && i < |state.ix[b].items|
    requires state.Remembered() == LagAt(state.ix, state.ix[b], lag, i)
    modifies state`prevrightlink, state`previncompletesplit
    ensures r.Ok? ==> OffsetPasses(state.ix, b, i, state.lowkey, stray, lag)
    ensures r.Ok? ==> state.Remembered() == LagAt(state.ix, state.ix[b], lag, i + 1)
    ensures r.Corrupt? ==> !OffsetPasses(state.ix, b, i, state.lowkey, stray, lag)
  {
    hide CrossOrdered, LinkPasses;
    if i > 0 {
      r := ItemCheck(state.ix, b, i, fuel);
      if !r.Ok? {
        return;
      }
    }
    r := DownlinkCheck(state, state.ix[b], i, stray, fuel);
  }

  /** `bt_target_page_check` on a leaf page. */
  method LeafPageCheck(ix: Index, b: nat, fuel: nat) returns (r: Outcome)
    requires Loads(ix, b) && ix[b].leaf
    ensures r.Ok? ==> PageOrdered(ix[b]) && CrossOrdered(ix, b)
    ensures r.Corrupt? ==> !PageOrdered(ix[b]) || !CrossOrdered(ix, b)
  {
    hide CrossOrdered, PageOrdered;
    var target := ix[b];
    for i := 0 to |target.items|
      invariant forall k :: 0 <= k < i ==> ItemOk(target, k)
      invariant i == |target.items| > 0 ==> CrossOrdered(ix, b)
    {
      r := ItemCheck(ix, b, i, fuel);
      if !r.Ok? {
        if PageOrdered(target) {
          LeafItemOk(target, i);
        }
        return;
      }
    }
    AllItemsOrdered(target);
    NothingToCross(ix, b);
    r := Ok;
  }

  /** `bt_target_page_check`. */
  method TargetPageCheck(state: BtreeCheckState, b: nat, stray: Item, fuel: nat) returns (r: Outcome)
    requires Loads(state.ix, b)
    modifies state`prevrightlink, state`previncompletesplit
    ensures r.Ok? ==> TargetPasses(state.ix, b, state.lowkey, stray, old(state.Remembered()))
    ensures r.Corrupt? ==> !TargetPasses(state.ix, b, state.lowkey, stray, old(state.Remembered()))
    ensures r.Ok? ==> state.Remembered() == PageLag(state.ix, state.ix[b], old(state.Remembered()))
  {
    hide CrossOrdered, PageOrdered, CallPasses, OffsetPasses;
    if state.ix[b].leaf {
      r := LeafPageCheck(state.ix, b, fuel);
      return;
    }
    var target := state.ix[b];
    ghost var lag := state.Remembered();
    for i := 0 to |target.items|
      invariant state.Remembered() == LagAt(state.ix, target, lag, i)
      invariant forall k :: 0 <= k < i ==> OffsetPasses(state.ix, b, k, state.lowkey, stray, lag)
    {
      r := CheckOffset(state, b, i, stray, fuel, lag);
      if !r.Ok? {
        return;
      }
    }
    r := Ok;
    if target.Rightmost() {
      r := state.ChildHighkeyCheck(target, |target.items|, stray, fuel);
    }
  }

  lemma NothingToCross(ix: Index, b: nat)
    requires Loads(ix, b)
    ensures |ix[b].items| <= FirstReal(ix[b]) ==> CrossOrdered(ix, b)
  {
  }
}
