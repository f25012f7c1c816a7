/**
 The same index with other keys: whatever the checker looks at besides keys stays as it is.
 */
module NbtreeRekey {
  import opened Common
  import opened NbtreePages
  import opened NbtreeLockstep
  import opened NbtreeTarget
  import opened NbtreeLevel
  import opened NbtreeOrder

  ghost predicate SameLinks(x: Item, y: Item) {
    x.child == y.child && x.topParent == y.topParent
  }

  /** The pages differ in the keys of their items only. */
  ghost predicate SameShape(p: Page, q: Page) {
    && q == p.(hikey := q.hikey, items := q.items) && SameLinks(p.hikey, q.hikey) && |p.items| == |q.items|
    && forall i :: 0 <= i < |p.items| ==> SameLinks(p.items[i], q.items[i])
  }

  /** The same index with other keys. */
  ghost predicate Rekeyed(ix: Index, ix': Index) {
    ix.Keys == ix'.Keys && forall b :: b in ix ==> SameShape(ix[b], ix'[b])
  }

  lemma SamePage(ix: Index, ix': Index, b: nat)
    requires Rekeyed(ix, ix')
    ensures Loads(ix, b) <==> Loads(ix', b)
    ensures Live(ix, b) <==> Live(ix', b)
    ensures Filled(ix, b) <==> Filled(ix', b)
    ensures b in ix <==> b in ix'
    ensures b in ix ==>
              ix'[b] == ix[b].(hikey := ix'[b].hikey, items := ix'[b].items) && |Real(ix'[b])| == |Real(ix[b])|
  {
    assert b in ix.Keys <==> b in ix'.Keys;
    if b in ix {
      assert SameShape(ix[b], ix'[b]);
    }
  }

  lemma SameChains(ix: Index, ix': Index, path: seq<nat>)
    requires Rekeyed(ix, ix') && Chain(ix, path)
    ensures Chain(ix', path)
  {
    hide Rekeyed, Loads;
    forall k | 0 <= k < |path|
      ensures Loads(ix', path[k]) && (k > 0 ==> path[k - 1] in ix' && ix'[path[k - 1]].next == path[k])
    {
      SamePage(ix, ix', path[k]);
      LoadsIn(ix, path[k]);
      if k > 0 {
        SamePage(ix, ix', path[k - 1]);
        LoadsIn(ix, path[k - 1]);
        assert ix[path[k - 1]].next == path[k];
      }
    }
  }

  lemma LoadsIn(ix: Index, b: nat)
    requires Loads(ix, b)
    ensures b in ix
  {
  }

  lemma SameLefts(ix: Index, ix': Index, start: nat, prev: nat, lefts: seq<nat>, k: nat)
    requires Rekeyed(ix, ix') && k < |lefts| && HalfDeadLeft(ix, start, prev, lefts, k)
    ensures HalfDeadLeft(ix', start, prev, lefts, k)
  {
    hide Rekeyed;
    SamePage(ix, ix', lefts[k]);
    if k > 0 {
      SamePage(ix, ix', lefts[k - 1]);
    }
  }

  lemma SameLeftmost(ix: Index, ix': Index, b: nat)
    requires Rekeyed(ix, ix') && IsLeftmost(ix, b)
    ensures IsLeftmost(ix', b)
  {
    hide Rekeyed, HalfDeadLeft;
    SamePage(ix, ix', b);
    var lefts :| Leftmost(ix, b, ix[b].prev, lefts);
    forall k | 0 <= k < |lefts|
      ensures HalfDeadLeft(ix', b, ix[b].prev, lefts, k)
    {
      SameLefts(ix, ix', b, ix[b].prev, lefts, k);
    }
    if lefts != [] {
      SamePage(ix, ix', lefts[|lefts| - 1]);
    }
    assert Leftmost(ix', b, ix'[b].prev, lefts);
  }

  lemma SameRight(ix: Index, ix': Index, b: nat, skipped: seq<nat>, q: nat)
    requires Rekeyed(ix, ix') && RightOf(ix, b, skipped, q)
    ensures RightOf(ix', b, skipped, q)
  {
    hide Rekeyed, Chain;
    SameChains(ix, ix', [b] + skipped + [q]);
    SamePage(ix, ix', b);
    SamePage(ix, ix', q);
    forall k | 0 <= k < |skipped|
      ensures Loads(ix', skipped[k]) && ix'[skipped[k]].Ignore()
    {
      SamePage(ix, ix', skipped[k]);
    }
  }

  lemma SameItems(ix: Index, ix': Index, b: nat)
    requires Rekeyed(ix, ix') && b in ix
    ensures b in ix' && SameLinks(ix[b].hikey, ix'[b].hikey) && |ix[b].items| == |ix'[b].items|
    ensures forall i :: 0 <= i < |ix[b].items| ==> ix[b].items[i].child == ix'[b].items[i].child
  {
    assert b in ix'.Keys && SameShape(ix[b], ix'[b]);
    forall i | 0 <= i < |ix[b].items|
      ensures ix[b].items[i].child == ix'[b].items[i].child
    {
      assert SameLinks(ix[b].items[i], ix'[b].items[i]);
    }
  }

  // ------------------------------------------------------------ excused pages

  lemma SameInternal(ix: Index, ix': Index, b: nat)
    requires Rekeyed(ix, ix') && Internal(ix, b)
    ensures Internal(ix', b) && ix'[b].items[0].child == ix[b].items[0].child && ix'[b].level == ix[b].level
  {
    hide Rekeyed;
    SamePage(ix, ix', b);
    SameItems(ix, ix', b);
  }

  lemma SameStep(ix: Index, ix': Index, top: nat, path: seq<nat>, k: nat)
    requires Rekeyed(ix, ix') && k < |path| && Internal(ix, top) && Internal(ix', top) && DescentStep(ix, top, path, k)
    ensures DescentStep(ix', top, path, k)
  {
    hide Rekeyed;
    SameInternal(ix, ix', if k == 0 then top else path[k - 1]);
    SameInternal(ix, ix', path[k]);
  }

  lemma SameDeletion(ix: Index, ix': Index, top: nat, path: seq<nat>, b: nat, level: int)
    requires Rekeyed(ix, ix') && DeletionRoot(ix, top, path, b, level)
    ensures DeletionRoot(ix', top, path, b, level)
  {
    hide Rekeyed, DescentStep;
    SameInternal(ix, ix', top);
    forall k | 0 <= k < |path|
      ensures DescentStep(ix', top, path, k)
    {
      SameStep(ix, ix', top, path, k);
    }
    SameInternal(ix, ix', if path == [] then top else path[|path| - 1]);
    SamePage(ix, ix', b);
    SameItems(ix, ix', b);
  }

  lemma SameExcused(ix: Index, ix': Index, b: nat, leftSplit: bool)
    requires Rekeyed(ix, ix') && Excused(ix, b, leftSplit)
    ensures Excused(ix', b, leftSplit)
  {
    hide Rekeyed, DeletionRoot;
    SamePage(ix, ix', b);
    if !ix[b].root && !leftSplit {
      var path, leaf, level :| DeletionRoot(ix, b, path, leaf, level);
      SameDeletion(ix, ix', b, path, leaf, level);
    }
  }

  // ------------------------------------------------------------ what is carried along

  lemma SameLag(ix: Index, ix': Index, b: nat, lag: Lag, i: nat)
    requires Rekeyed(ix, ix') && b in ix && b in ix' && i <= |ix[b].items| && |ix'[b].items| == |ix[b].items|
    ensures LagAt(ix', ix'[b], lag, i) == LagAt(ix, ix[b], lag, i)
    ensures PageLag(ix', ix'[b], lag) == PageLag(ix, ix[b], lag)
  {
    hide Rekeyed;
    SamePage(ix, ix', b);
    SameItems(ix, ix', b);
    if i > 0 {
      SamePage(ix, ix', ix[b].items[i - 1].child);
    }
    if ix[b].items != [] {
      SamePage(ix, ix', ix[b].items[|ix[b].items| - 1].child);
    }
  }

  lemma {:induction false} SameSeen(ix: Index, ix': Index, walk: seq<nat>)
    requires Rekeyed(ix, ix')
    ensures SeenBy(ix', walk).nextdown == SeenBy(ix, walk).nextdown && SeenBy(ix', walk).lag == SeenBy(ix, walk).lag
  {
    hide Rekeyed, PageLag;
    if walk != [] {
      var b := walk[|walk| - 1];
      SameSeen(ix, ix', walk[..|walk| - 1]);
      SamePage(ix, ix', b);
      if b in ix {
        SameItems(ix, ix', b);
        SameLag(ix, ix', b, SeenBy(ix, walk[..|walk| - 1]).lag, 0);
      }
    }
  }

  lemma SamePlaced(ix: Index, ix': Index, lv: Level, left: Option<nat>, b: nat)
    requires Rekeyed(ix, ix') && Placed(ix, lv, left, b)
    ensures Placed(ix', lv, left, b)
  {
    hide Rekeyed;
    SamePage(ix, ix', b);
  }

  lemma SameStart(ix: Index, ix': Index, lv: Level, b: nat)
    requires Rekeyed(ix, ix') && StartsLevel(ix, lv, b)
    ensures StartsLevel(ix', lv, b)
  {
    hide Rekeyed, IsLeftmost;
    SameLeftmost(ix, ix', b);
    SamePage(ix, ix', b);
  }

  lemma SameFullChain(ix: Index, ix': Index, leftmost: nat, walk: seq<nat>)
    requires Rekeyed(ix, ix') && FullChain(ix, leftmost, walk)
    ensures FullChain(ix', leftmost, walk)
  {
    hide Rekeyed;
    SameChains(ix, ix', walk);
    SamePage(ix, ix', walk[|walk| - 1]);
  }
}
