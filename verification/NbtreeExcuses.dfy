/**
 What the two tests that look beyond the page at hand amount to
 (`bt_leftmost_ignoring_half_dead`, `bt_downlink_missing_check`), in terms of the
 links of the index alone.
 */
module NbtreeExcuses {
  import opened NbtreePages
  import opened NbtreeLockstep

  // ------------------------------------------------------------ the left edge of a level

  /** Page `k` of the path is half-dead and linked in both directions with the next; it is not the last page. */
  ghost predicate EdgeLink(ix: Index, path: seq<nat>, k: nat)
    requires k + 1 < |path|
  {
    && Loads(ix, path[k]) && Loads(ix, path[k + 1]) && ix[path[k]].halfDead && path[k] != path[|path| - 1]
    && ix[path[k]].next == path[k + 1] && ix[path[k + 1]].prev == path[k]
  }

  /** Half-dead pages, linked in both directions, lead from a page without left sibling to `b`. */
  ghost predicate LeftEdge(ix: Index, b: nat, path: seq<nat>) {
    && path != [] && path[|path| - 1] == b && Loads(ix, path[0]) && ix[path[0]].prev == P_NONE
    && forall k :: 0 <= k < |path| - 1 ==> EdgeLink(ix, path, k)
  }

  ghost function Reversed(s: seq<nat>): (r: seq<nat>)
    ensures |r| == |s| && forall i :: 0 <= i < |s| ==> r[i] == s[|s| - 1 - i]
  {
    seq(|s|, i requires 0 <= i < |s| => s[|s| - 1 - i])
  }

  lemma LeftsMakeEdge(ix: Index, b: nat, lefts: seq<nat>)
    requires Loads(ix, b) && Leftmost(ix, b, ix[b].prev, lefts)
    ensures LeftEdge(ix, b, Reversed(lefts) + [b])
  {
    hide Reversed, Sane;
    var path, n := Reversed(lefts) + [b], |lefts|;
    forall k | 0 <= k < n
      ensures EdgeLink(ix, path, k)
    {
      assert HalfDeadLeft(ix, b, ix[b].prev, lefts, n - 1 - k);
      assert path[k] == lefts[n - 1 - k] && path[k + 1] == if k == n - 1 then b else lefts[n - 2 - k];
    }
    assert n > 0 ==> path[0] == lefts[n - 1];
  }

  lemma EdgeMakesLefts(ix: Index, b: nat, path: seq<nat>)
    requires Loads(ix, b) && LeftEdge(ix, b, path)
    ensures Leftmost(ix, b, ix[b].prev, Reversed(path[..|path| - 1]))
  {
    hide Reversed, Sane;
    var n := |path| - 1;
    var lefts := Reversed(path[..n]);
    forall k | 0 <= k < n
      ensures HalfDeadLeft(ix, b, ix[b].prev, lefts, k)
    {
      var i := n - 1 - k;
      assert lefts[k] == path[i] && path[i + 1] == if k == 0 then b else lefts[k - 1];
      assert EdgeLink(ix, path, i);
      EdgeDistinct(ix, b, path, i);
    }
    assert n > 0 ==> lefts[n - 1] == path[0];
  }

  /** No page of the edge is its own neighbour: the left links come to an end. */
  lemma {:induction false} EdgeDistinct(ix: Index, b: nat, path: seq<nat>, i: nat)
    requires LeftEdge(ix, b, path) && i + 1 < |path|
    ensures path[i] != path[i + 1]
  {
    assert EdgeLink(ix, path, i);
    if i > 0 {
      assert EdgeLink(ix, path, i - 1);
      EdgeDistinct(ix, b, path, i - 1);
    }
  }

  /** A page passes as leftmost exactly when only half-dead pages, properly linked, lie to its left. */
  lemma LeftmostExactly(ix: Index, b: nat)
    requires Loads(ix, b)
    ensures IsLeftmost(ix, b) <==> exists path :: LeftEdge(ix, b, path)
  {
    hide Leftmost, LeftEdge;
    if lefts :| Leftmost(ix, b, ix[b].prev, lefts) {
      LeftsMakeEdge(ix, b, lefts);
    }
    if path :| LeftEdge(ix, b, path) {
      EdgeMakesLefts(ix, b, path);
    }
  }

  // ------------------------------------------------------------ interrupted deletions

  /** The block `n` first downlinks below `top`. */
  ghost function DownFrom(ix: Index, top: nat, n: nat): nat {
    if n == 0 then top
    else
      var above := DownFrom(ix, top, n - 1);
      if above in ix && ix[above].items != [] then ix[above].items[0].child else P_NONE
  }

  /** `n` levels below `top` the first downlinks end at a half-dead leaf that names `top` as its top parent. */
  ghost predicate DeletionBelow(ix: Index, top: nat, n: nat) {
    && n > 0 && Internal(ix, top)
    && (forall k: nat :: k < n ==>
          Internal(ix, DownFrom(ix, top, k)) && ix[DownFrom(ix, top, k)].level == ix[top].level - k)
    && var leaf := DownFrom(ix, top, n);
       && Loads(ix, leaf) && ix[leaf].leaf && ix[leaf].halfDead && !ix[leaf].deleted
       && ix[leaf].next != P_NONE && ix[leaf].hikey.topParent == top
  }

  lemma {:induction false} PathIsDown(ix: Index, top: nat, path: seq<nat>, b: nat, level: int, k: nat)
    requires DescendedTo(ix, top, path, b, level) && k <= |path|
    ensures var here := if k == 0 then top else path[k - 1];
            DownFrom(ix, top, k) == here && Internal(ix, here) && ix[here].level == ix[top].level - k
  {
    if k > 0 {
      PathIsDown(ix, top, path, b, level, k - 1);
      assert DescentStep(ix, top, path, k - 1);
    }
  }

  lemma RootHasDeletion(ix: Index, top: nat, path: seq<nat>, b: nat, level: int)
    requires DeletionRoot(ix, top, path, b, level)
    ensures DeletionBelow(ix, top, |path| + 1)
  {
    hide DescendedTo;
    PathIsDown(ix, top, path, b, level, 0);
    forall k: nat | k < |path| + 1
      ensures Internal(ix, DownFrom(ix, top, k)) && ix[DownFrom(ix, top, k)].level == ix[top].level - k
    {
      PathIsDown(ix, top, path, b, level, k);
    }
    PathIsDown(ix, top, path, b, level, |path|);
    assert DownFrom(ix, top, |path| + 1) == b by {
      LastStep(ix, top, path, b, level);
    }
  }

  lemma LastStep(ix: Index, top: nat, path: seq<nat>, b: nat, level: int)
    requires DescendedTo(ix, top, path, b, level)
    ensures b == ix[if path == [] then top else path[|path| - 1]].items[0].child
  {
  }

  lemma DeletionHasRoot(ix: Index, top: nat, n: nat) returns (path: seq<nat>)
    requires DeletionBelow(ix, top, n)
    ensures DeletionRoot(ix, top, path, DownFrom(ix, top, n), ix[top].level - (n - 1))
  {
    path := seq(n - 1, i requires 0 <= i < n - 1 => DownFrom(ix, top, i + 1));
    assert DownFrom(ix, top, 0) == top;
    forall k | 0 <= k < |path|
      ensures DescentStep(ix, top, path, k)
    {
      assert Internal(ix, DownFrom(ix, top, k)) && Internal(ix, DownFrom(ix, top, k + 1));
      assert k > 0 ==> path[k - 1] == DownFrom(ix, top, k);
    }
    assert Internal(ix, DownFrom(ix, top, n - 1));
    assert n > 1 ==> path[n - 2] == DownFrom(ix, top, n - 1);
  }

  /**
   A live page may lack a downlink exactly when it is the root, when its left sibling's
   split is incomplete, or when it tops a page deletion that was interrupted.
   */
  lemma ExcusedExactly(ix: Index, b: nat, leftSplit: bool)
    requires Loads(ix, b)
    ensures Excused(ix, b, leftSplit) <==> ix[b].root || leftSplit || exists n: nat :: DeletionBelow(ix, b, n)
  {
    hide DeletionRoot, DeletionBelow;
    if path, leaf, level :| DeletionRoot(ix, b, path, leaf, level) {
      RootHasDeletion(ix, b, path, leaf, level);
    }
    if n: nat :| DeletionBelow(ix, b, n) {
      var path := DeletionHasRoot(ix, b, n);
    }
  }
}
