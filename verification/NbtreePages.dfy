/**
 B-tree pages as contrib/amcheck/verify_nbtree.c sees them in read-only mode: the index
 does not change while it is checked.  Keys are compared through their rank in the
 total order of the operator class.
 */
module NbtreePages {
  const P_NONE: nat := 0
  const INVALID_BLOCK: nat := 0xFFFF_FFFF

  /** A tuple: key, and for pivot tuples a downlink or, in a half-dead leaf's high key, the top parent link. */
  datatype Item = Item(key: int, child: nat, topParent: nat)

  /** `items` are the data items; `hikey` counts on pages that are not rightmost. */
  datatype Page = Page(
    prev: nat, next: nat, level: nat, leaf: bool, root: bool, deleted: bool, halfDead: bool,
    incomplete: bool, fullXid: bool, garbage: bool, hikey: Item, items: seq<Item>)
  {
    predicate Rightmost() {
      next == P_NONE
    }

    predicate Ignore() {
      deleted || halfDead
    }
  }

  type Index = map<nat, Page>

  datatype Outcome = Ok | Corrupt | NoFuel

  /** The page-level sanity checks of `palloc_btree_page`. */
  predicate Sane(p: Page) {
    && (!p.deleted || p.fullXid ==> (p.leaf <==> p.level == 0))
    && (!p.leaf && !p.deleted ==> p.items != [])
    && (!p.leaf ==> !p.halfDead && !p.garbage)
    && (p.fullXid ==> p.deleted)
    && !(p.deleted && p.halfDead)
  }

  /** The block can be read and is a sane B-tree page. */
  predicate Loads(ix: Index, b: nat) {
    b != P_NONE && b in ix && Sane(ix[b])
  }

  // ------------------------------------------------------------ right-link chains

  /** Consecutive blocks are linked by right links. */
  ghost predicate Chain(ix: Index, path: seq<nat>) {
    && (forall k :: 0 <= k < |path| ==> Loads(ix, path[k]))
    && (forall k :: 0 < k < |path| ==> ix[path[k - 1]].next == path[k])
  }

  /** `walk` follows the right links from `leftmost` to the rightmost page. */
  ghost predicate FullChain(ix: Index, leftmost: nat, walk: seq<nat>) {
    Chain(ix, walk) && walk != [] && walk[0] == leftmost && ix[walk[|walk| - 1]].next == P_NONE
  }

  lemma ChainSnoc(ix: Index, path: seq<nat>, b: nat)
    requires Chain(ix, path) && Loads(ix, b) && (path != [] ==> ix[path[|path| - 1]].next == b)
    ensures Chain(ix, path + [b])
  {
  }

  /** The blocks from position i on repeat those from position j on. */
  lemma {:induction false} ChainRepeats(ix: Index, path: seq<nat>, i: nat, j: nat, d: nat)
    requires Chain(ix, path) && i < j && j + d < |path| && path[i] == path[j]
    ensures path[i + d] == path[j + d]
  {
    if d > 0 {
      ChainRepeats(ix, path, i, j, d - 1);
      assert ix[path[i + d - 1]].next == path[i + d] && ix[path[j + d - 1]].next == path[j + d];
    }
  }

  /** A chain that reaches the rightmost page never visits a block twice. */
  lemma ChainDistinct(ix: Index, path: seq<nat>, i: nat, j: nat)
    requires Chain(ix, path) && i < j < |path| && ix[path[|path| - 1]].next == P_NONE
    ensures path[i] != path[j]
  {
    if path[i] == path[j] {
      var last := |path| - 1;
      var k := i + (last - j);
      assert ix[path[k]].next == path[k + 1] && Loads(ix, path[k + 1]);
      ChainRepeats(ix, path, i, j, last - j);
    }
  }

  /** Two chains from the same block that both reach the rightmost page are the same. */
  lemma {:induction false} ChainUnique(ix: Index, a: seq<nat>, b: seq<nat>, k: nat)
    requires Chain(ix, a) && Chain(ix, b) && a != [] && b != [] && a[0] == b[0]
    requires ix[a[|a| - 1]].next == P_NONE && k < |a|
    ensures k < |b| ==> a[k] == b[k]
    ensures ix[b[|b| - 1]].next == P_NONE ==> k < |b|
  {
    if k > 0 {
      ChainUnique(ix, a, b, k - 1);
      assert ix[a[k - 1]].next == a[k];
      if k < |b| {
        assert ix[b[k - 1]].next == b[k];
      }
    }
  }

  /** Two chains from the same block run together. */
  lemma {:induction false} RunTogether(ix: Index, a: seq<nat>, b: seq<nat>, d: nat)
    requires Chain(ix, a) && Chain(ix, b) && d < |a| && d < |b| && a[0] == b[0]
    ensures a[d] == b[d]
  {
    if d > 0 {
      RunTogether(ix, a, b, d - 1);
      assert ix[a[d - 1]].next == a[d] && ix[b[d - 1]].next == b[d];
    }
  }

  /** There is only one way along a level. */
  lemma SameChain(ix: Index, leftmost: nat, a: seq<nat>, b: seq<nat>)
    requires FullChain(ix, leftmost, a) && FullChain(ix, leftmost, b)
    ensures a == b
  {
    ChainUnique(ix, a, b, |a| - 1);
    ChainUnique(ix, b, a, |b| - 1);
    forall k | 0 <= k < |a|
      ensures a[k] == b[k]
    {
      ChainUnique(ix, a, b, k);
    }
  }
}
