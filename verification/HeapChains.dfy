/**
 The passes of `verify_heapam` over one heap page: line pointers, update chains and
 chain roots, kept in successor, predecessor and lp_valid arrays.
 */
module HeapChains {
  import opened HeapStatus

  const BLCKSZ: nat := 8192
  const MIN_HEADER: nat := 24

  /** What the passes read of a tuple header; `reports` is whether checking the tuple itself complains. */
  datatype Header = Header(
    ctidBlk: nat, ctidOff: nat, xmin: nat, updateXid: nat, hotUpdated: bool, heapOnly: bool,
    reports: bool, statusOk: bool, status: Status, stillRunning: bool)

  datatype Item =
    | Unused
    | Dead
    | Redirect(target: nat)
    | Normal(lpOff: nat, lpLen: nat, hdr: Header)

  /** Items 1..maxoff of block `blkno`; item 0 is not used. */
  datatype Page = Page(blkno: nat, items: seq<Item>)

  predicate Offset(p: Page, i: nat) {
    1 <= i < |p.items|
  }

  /** The line pointer's offset is aligned and the tuple fits the page. */
  predicate Sane(it: Item) {
    it.Normal? ==> it.lpOff % 8 == 0 && it.lpLen >= MIN_HEADER && it.lpOff + it.lpLen <= BLCKSZ
  }

  predicate GoodRedirect(p: Page, it: Item) {
    it.Redirect? ==> Offset(p, it.target) && p.items[it.target].Normal?
  }

  // ------------------------------------------------------------ what the arrays mean

  /** `lp_valid`. */
  predicate LpValid(p: Page, i: nat)
    requires Offset(p, i)
  {
    var it := p.items[i];
    (it.Redirect? && GoodRedirect(p, it)) || (it.Normal? && Sane(it))
  }

  /** `successor`; 0 stands for none. */
  function Successor(p: Page, i: nat): nat
    requires Offset(p, i)
  {
    var it := p.items[i];
    if it.Redirect? && GoodRedirect(p, it) then it.target
    else if it.Normal? && Sane(it) && it.hdr.ctidBlk == p.blkno && it.hdr.ctidOff != i &&
         Offset(p, it.hdr.ctidOff) then it.hdr.ctidOff
    else 0
  }

  /** `i` is followed by `j` in an update chain. */
  predicate Link(p: Page, i: nat, j: nat) {
    && Offset(p, i) && Offset(p, j) && Successor(p, i) == j && LpValid(p, j)
    && var a, b := p.items[i], p.items[j];
       || a.Redirect?
       || (a.Normal? && b.Normal? && a.hdr.updateXid != 0 && a.hdr.updateXid == b.hdr.xmin)
  }

  // ------------------------------------------------------------ a well-formed page

  /** Nothing wrong with the item by itself. */
  ghost predicate ItemOk(p: Page, i: nat)
    requires Offset(p, i)
  {
    GoodRedirect(p, p.items[i]) && Sane(p.items[i]) && (p.items[i].Normal? ==> !p.items[i].hdr.reports)
  }

  /** An update chain link is consistent: heap-only flags match, and transaction states are possible. */
  ghost predicate LinkOk(p: Page, i: nat, j: nat)
    requires Link(p, i, j)
  {
    var a, b := p.items[i], p.items[j];
    if a.Redirect? then b.Normal? && b.hdr.heapOnly
    else
      && (a.hdr.hotUpdated <==> b.hdr.heapOnly)
      && !(a.hdr.statusOk && a.hdr.status == InProgress &&
           b.hdr.statusOk && b.hdr.status == Committed && a.hdr.stillRunning)
      && !(a.hdr.statusOk && a.hdr.status == Aborted &&
           b.hdr.statusOk && (b.hdr.status == InProgress || b.hdr.status == Committed))
  }

  /** The tuple's inserter is known to have committed or to be running. */
  ghost predicate KnownAlive(it: Item) {
    it.Normal? && Sane(it) && it.hdr.statusOk && (it.hdr.status == Committed || it.hdr.status == InProgress)
  }

  ghost predicate NoPredecessor(p: Page, j: nat) {
    forall i: nat :: Offset(p, i) ==> !Link(p, i, j)
  }

  ghost predicate RootOk(p: Page, j: nat)
    requires Offset(p, j)
  {
    KnownAlive(p.items[j]) && NoPredecessor(p, j) ==> !p.items[j].hdr.heapOnly
  }

  ghost predicate Injective(p: Page) {
    forall i: nat, k: nat, j: nat :: Link(p, i, j) && Link(p, k, j) ==> i == k
  }

  ghost predicate WellFormed(p: Page) {
    && (forall i: nat :: Offset(p, i) ==> ItemOk(p, i))
    && (forall i: nat, j: nat :: Link(p, i, j) ==> LinkOk(p, i, j))
    && Injective(p)
    && (forall j: nat :: Offset(p, j) ==> RootOk(p, j))
  }

  /**
   What a clean page means: links are injective, and a heap-only tuple whose inserter
   committed or is running has exactly one predecessor, a redirect or a HOT-updated
   tuple whose update xid is its xmin.
   */
  lemma HeapOnlyHasOnePredecessor(p: Page, j: nat) returns (i: nat)
    requires WellFormed(p) && Offset(p, j) && KnownAlive(p.items[j]) && p.items[j].hdr.heapOnly
    ensures Link(p, i, j) && forall k: nat :: Link(p, k, j) ==> k == i
    ensures p.items[i].Redirect? ||
            (p.items[i].Normal? && p.items[i].hdr.hotUpdated && p.items[i].hdr.updateXid == p.items[j].hdr.xmin)
  {
    assert RootOk(p, j);
    i :| Offset(p, i) && Link(p, i, j);
    assert LinkOk(p, i, j);
  }

  // ------------------------------------------------------------ chains of a clean page

  /** A tuple the line pointer check lets through, in its own fields. */
  ghost predicate Readable(it: Item) {
    it.Normal? && it.lpOff % 8 == 0 && it.lpLen >= 24 && it.lpOff + it.lpLen <= 8192
  }

  /** When one item follows another, in the fields of the two items. */
  lemma LinkExactly(p: Page, i: nat, j: nat)
    requires 1 <= i < |p.items| && 1 <= j < |p.items|
    ensures var a, b := p.items[i], p.items[j];
            Link(p, i, j) <==>
            && Readable(b)
            && (a == Redirect(j) ||
                (Readable(a) && i != j && (a.hdr.ctidBlk, a.hdr.ctidOff) == (p.blkno, j) &&
                 a.hdr.updateXid == b.hdr.xmin != 0))
  {
  }

  /** The inserter of item `i` is known to have ended, or not ended, with `status`. */
  ghost predicate KnownStatus(p: Page, i: nat, status: Status) {
    Offset(p, i) && p.items[i].Normal? && p.items[i].hdr.statusOk && p.items[i].hdr.status == status
  }

  /**
   What is wrong with a link between two tuples: heap-only flags that disagree, a
   successor of an aborted tuple that committed or runs, or a committed successor
   of a tuple whose inserter still runs; and nothing else.
   */
  lemma LinkOkExactly(p: Page, i: nat, j: nat)
    requires Link(p, i, j)
    ensures p.items[i].Redirect? ==> (LinkOk(p, i, j) <==> p.items[j].hdr.heapOnly)
    ensures p.items[i].Normal? ==>
              (!LinkOk(p, i, j) <==>
               || p.items[i].hdr.hotUpdated != p.items[j].hdr.heapOnly
               || (KnownStatus(p, i, Aborted) && KnownStatus(p, j, Committed))
               || (KnownStatus(p, i, Aborted) && KnownStatus(p, j, InProgress))
               || (KnownStatus(p, i, InProgress) && KnownStatus(p, j, Committed) && p.items[i].hdr.stillRunning))
  {
  }

  /** Successive items of an update chain. */
  ghost predicate Chain(p: Page, c: seq<nat>) {
    forall k :: 0 < k < |c| ==> Link(p, c[k - 1], c[k])
  }

  /** Every tuple's inserter is known to have aborted, to have committed or to be running elsewhere. */
  ghost predicate AllKnown(p: Page, c: seq<nat>) {
    forall k :: 0 <= k < |c| ==>
      KnownStatus(p, c[k], Aborted) || KnownStatus(p, c[k], Committed) || KnownStatus(p, c[k], InProgress)
  }

  /** On a clean page nothing that committed or runs follows a tuple whose inserter aborted, anywhere down the chain. */
  lemma {:induction false} NothingLiveAfterAborted(p: Page, c: seq<nat>, i: nat, j: nat)
    requires WellFormed(p) && Chain(p, c) && AllKnown(p, c) && i <= j < |c| && KnownStatus(p, c[i], Aborted)
    ensures KnownStatus(p, c[j], Aborted)
    decreases j
  {
    hide Link;
    if i < j {
      NothingLiveAfterAborted(p, c, i, j - 1);
      assert Link(p, c[j - 1], c[j]) && LinkOk(p, c[j - 1], c[j]);
    }
  }

  /** The next tuple alone, whatever is known of the rest. */
  lemma AbortedHasNoLiveSuccessor(p: Page, i: nat, j: nat)
    requires WellFormed(p) && Link(p, i, j) && KnownStatus(p, i, Aborted)
    ensures !KnownStatus(p, j, Committed) && !KnownStatus(p, j, InProgress)
  {
    assert LinkOk(p, i, j);
  }

  /** A tuple whose inserter still runs is not followed by a committed one. */
  lemma RunningHasNoCommittedSuccessor(p: Page, i: nat, j: nat)
    requires WellFormed(p) && Link(p, i, j) && KnownStatus(p, i, InProgress) && p.items[i].hdr.stillRunning
    ensures !KnownStatus(p, j, Committed)
  {
    assert LinkOk(p, i, j);
  }

  /** On a clean page chains do not merge: two of one length that end in the same tuple are the same. */
  lemma {:induction false} ChainsDoNotMerge(p: Page, c: seq<nat>, d: seq<nat>)
    requires WellFormed(p) && Chain(p, c) && Chain(p, d) && |c| == |d| > 0 && c[|c| - 1] == d[|d| - 1]
    ensures c == d
  {
    hide Link, LinkOk;
    var n := |c| - 1;
    if n > 0 {
      assert Link(p, c[n - 1], c[n]) && Link(p, d[n - 1], d[n]);
      assert Injective(p);
      ChainsDoNotMerge(p, c[..n], d[..n]);
      assert c == c[..n] + [c[n]] && d == d[..n] + [d[n]];
    }
  }

  // ------------------------------------------------------------ the passes

  /** First pass, one item: fill in `lp_valid` and `successor`, say whether there is corruption. */
  method CheckItem(p: Page, i: nat) returns (valid: bool, successor: nat, report: bool)
    requires Offset(p, i)
    ensures valid == LpValid(p, i) && successor == Successor(p, i) && (report <==> !ItemOk(p, i))
  {
    valid, successor, report := false, 0, false;
    var it := p.items[i];
    var maxoff := |p.items| - 1;
    match it
    case Unused => return;
    case Dead => return;
    case Redirect(rdoffnum) =>
      if rdoffnum < 1 {
        report := true;
        return;
      }
      if rdoffnum > maxoff {
        report := true;
        return;
      }
      var rditem := p.items[rdoffnum];
      if rditem.Unused? {
        report := true;
        return;
      } else if rditem.Dead? {
        report := true;
        return;
      } else if rditem.Redirect? {
        report := true;
        return;
      }
      valid, successor := true, rdoffnum;
    case Normal(lpOff, lpLen, hdr) =>
      if lpOff % 8 != 0 {
        report := true;
        return;
      }
      if lpLen < MIN_HEADER {
        report := true;
        return;
      }
      if lpOff + lpLen > BLCKSZ {
        report := true;
        return;
      }
      valid, report := true, hdr.reports;
      if hdr.ctidBlk == p.blkno && hdr.ctidOff != i && 1 <= hdr.ctidOff <= maxoff {
        successor := hdr.ctidOff;
      }
  }

  /** `predecessor` after the items below `n` have been visited: the first link to each item. */
  ghost predicate FirstLinks(p: Page, predecessor: seq<nat>, n: nat) {
    && |predecessor| == |p.items|
    && (forall j: nat :: Offset(p, j) && predecessor[j] != 0 ==> predecessor[j] < n && Link(p, predecessor[j], j))
    && (forall i: nat, j: nat :: Offset(p, j) && i < n && Link(p, i, j) ==> predecessor[j] != 0)
  }

  /** No two of the first `n` items link to the same item. */
  ghost predicate InjectiveTo(p: Page, n: nat) {
    forall i: nat, k: nat, j: nat :: i < n && k < n && Link(p, i, j) && Link(p, k, j) ==> i == k
  }

  ghost predicate LinksOkTo(p: Page, n: nat) {
    forall i: nat, j: nat :: i < n && Link(p, i, j) ==> LinkOk(p, i, j)
  }

  /** Second pass, one item with a valid successor: record the link, check it. */
  method CheckLink(p: Page, i: nat, j: nat, seen: nat) returns (linked: bool, report: bool)
    requires Offset(p, i) && Offset(p, j) && Successor(p, i) == j && LpValid(p, j)
    ensures linked <==> Link(p, i, j) && seen == 0
    ensures report <==> Link(p, i, j) && (seen != 0 || !LinkOk(p, i, j))
  {
    var curr, next := p.items[i], p.items[j];
    linked, report := false, false;
    if curr.Redirect? {
      if !next.hdr.heapOnly {
        report := true;
      }
      if seen != 0 {
        report := true;
        return;
      }
      linked := true;
      return;
    }
    if next.Redirect? {
      return;
    }
    if curr.hdr.updateXid == 0 || curr.hdr.updateXid != next.hdr.xmin {
      return;
    }
    if seen != 0 {
      report := true;
      return;
    }
    linked := true;
    if !curr.hdr.hotUpdated && next.hdr.heapOnly {
      report := true;
    }
    if curr.hdr.hotUpdated && !next.hdr.heapOnly {
      report := true;
    }
    if curr.hdr.statusOk && curr.hdr.status == InProgress && next.hdr.statusOk && next.hdr.status == Committed &&
         curr.hdr.stillRunning {
      report := true;
    }
    if curr.hdr.statusOk && curr.hdr.status == Aborted && next.hdr.statusOk {
      if next.hdr.status == InProgress {
        report := true;
      } else if next.hdr.status == Committed {
        report := true;
      }
    }
  }

  lemma LinkIsSuccessor(p: Page, i: nat, j: nat)
    requires Link(p, i, j)
    ensures Successor(p, i) == j && Offset(p, i) && Offset(p, j)
  {
  }

  /** Item `n` has no link: nothing changes. */
  lemma NoLinkStep(p: Page, predecessor: seq<nat>, n: nat)
    requires Offset(p, n) && FirstLinks(p, predecessor, n) && !Link(p, n, Successor(p, n))
    ensures FirstLinks(p, predecessor, n + 1)
    ensures InjectiveTo(p, n + 1) <==> InjectiveTo(p, n)
    ensures LinksOkTo(p, n + 1) <==> LinksOkTo(p, n)
  {
    hide Link, LinkOk;
    forall j: nat | Link(p, n, j)
      ensures false
    {
      LinkIsSuccessor(p, n, j);
    }
  }

  /** Item `n` links to `j` as the first one. */
  lemma LinkStep(p: Page, predecessor: seq<nat>, n: nat, j: nat)
    requires Offset(p, n) && FirstLinks(p, predecessor, n) && Link(p, n, j) && Offset(p, j) && predecessor[j] == 0
    ensures FirstLinks(p, predecessor[j := n], n + 1)
    ensures InjectiveTo(p, n + 1) <==> InjectiveTo(p, n)
    ensures LinksOkTo(p, n + 1) <==> LinksOkTo(p, n) && LinkOk(p, n, j)
  {
    hide Link, LinkOk;
    forall k: nat | Link(p, n, k)
      ensures k == j
    {
      LinkIsSuccessor(p, n, k);
      LinkIsSuccessor(p, n, j);
    }
  }

  /** Item `n` links to an item that already has a predecessor. */
  lemma ClashStep(p: Page, predecessor: seq<nat>, n: nat, j: nat)
    requires Offset(p, n) && FirstLinks(p, predecessor, n) && Link(p, n, j) && Offset(p, j) && predecessor[j] != 0
    ensures FirstLinks(p, predecessor, n + 1) && !InjectiveTo(p, n + 1)
  {
    hide Link;
    forall k: nat | Link(p, n, k)
      ensures k == j
    {
      LinkIsSuccessor(p, n, k);
      LinkIsSuccessor(p, n, j);
    }
    assert Link(p, predecessor[j], j) && Link(p, n, j) && predecessor[j] != n;
  }

  /** First pass. */
  method CheckItems(p: Page, successor: array<nat>, valid: array<bool>) returns (reports: nat)
    requires successor.Length == valid.Length == |p.items|
    modifies successor, valid
    ensures forall i: nat :: Offset(p, i) ==> valid[i] == LpValid(p, i) && successor[i] == Successor(p, i)
    ensures reports == 0 <==> forall i: nat :: Offset(p, i) ==> ItemOk(p, i)
  {
    hide LpValid, Successor, ItemOk;
    reports := 0;
    var i := 1;
    while i < |p.items|
      invariant 1 <= i
      invariant forall k: nat :: Offset(p, k) && k < i ==> valid[k] == LpValid(p, k) && successor[k] == Successor(p, k)
      invariant reports == 0 <==> forall k: nat :: Offset(p, k) && k < i ==> ItemOk(p, k)
    {
      var ok, next, report := CheckItem(p, i);
      valid[i], successor[i] := ok, next;
      if report {
        reports := reports + 1;
      }
      i := i + 1;
    }
  }

  /** Second pass. */
  method CheckChains(p: Page, successor: array<nat>, valid: array<bool>, predecessor: array<nat>) returns (reports: nat)
    requires successor.Length == valid.Length == predecessor.Length == |p.items| && successor != predecessor
    requires forall i: nat :: Offset(p, i) ==> valid[i] == LpValid(p, i) && successor[i] == Successor(p, i)
    requires forall j: nat :: Offset(p, j) ==> predecessor[j] == 0
    modifies predecessor
    ensures FirstLinks(p, predecessor[..], |p.items|)
    ensures reports == 0 <==> InjectiveTo(p, |p.items|) && LinksOkTo(p, |p.items|)
  {
    hide LpValid, Link, LinkOk, InjectiveTo, LinksOkTo;
    reports := 0;
    NothingVisited(p, predecessor[..]);
    var i := 1;
    while i < |p.items|
      invariant i == 1 || 1 <= i <= |p.items|
      invariant forall k: nat :: Offset(p, k) ==> valid[k] == LpValid(p, k) && successor[k] == Successor(p, k)
      invariant FirstLinks(p, predecessor[..], i)
      invariant reports == 0 <==> InjectiveTo(p, i) && LinksOkTo(p, i)
    {
      var report := CheckNext(p, i, successor, valid, predecessor);
      if report {
        reports := reports + 1;
      }
      i := i + 1;
    }
    if |p.items| == 0 {
      NothingVisited(p, predecessor[..]);
    }
  }

  lemma NothingVisited(p: Page, predecessor: seq<nat>)
    requires |predecessor| == |p.items| && forall j: nat :: Offset(p, j) ==> predecessor[j] == 0
    ensures FirstLinks(p, predecessor, 1) && InjectiveTo(p, 1) && LinksOkTo(p, 1)
    ensures FirstLinks(p, predecessor, 0) && InjectiveTo(p, 0) && LinksOkTo(p, 0)
  {
  }

  method CheckNext(p: Page, i: nat, successor: array<nat>, valid: array<bool>, predecessor: array<nat>)
    returns (report: bool)
    requires successor.Length == valid.Length == predecessor.Length == |p.items| && successor != predecessor
    requires Offset(p, i)
    requires forall k: nat :: Offset(p, k) ==> valid[k] == LpValid(p, k) && successor[k] == Successor(p, k)
    requires FirstLinks(p, predecessor[..], i)
    modifies predecessor
    ensures FirstLinks(p, predecessor[..], i + 1)
    ensures !report ==> (InjectiveTo(p, i + 1) <==> InjectiveTo(p, i)) && (LinksOkTo(p, i + 1) <==> LinksOkTo(p, i))
    ensures report ==> !InjectiveTo(p, i + 1) || !LinksOkTo(p, i + 1)
  {
    hide Link, LinkOk, InjectiveTo, LinksOkTo, FirstLinks, LpValid;
    report := false;
    var next := successor[i];
    if next == 0 || !valid[next] {
      assert !Link(p, i, Successor(p, i)) by {
        OnlyValidLinks(p, i);
      }
      NoLinkStep(p, predecessor[..], i);
      return;
    }
    var linked;
    linked, report := CheckLink(p, i, next, predecessor[next]);
    if !Link(p, i, next) {
      NoLinkStep(p, predecessor[..], i);
    } else if linked {
      LinkStep(p, predecessor[..], i, next);
    } else {
      ClashStep(p, predecessor[..], i, next);
    }
    if linked {
      ghost var was := predecessor[..];
      predecessor[next] := i;
      assert predecessor[..] == was[next := i];
    }
  }

  lemma OnlyValidLinks(p: Page, i: nat)
    requires Offset(p, i)
    ensures Link(p, i, Successor(p, i)) ==> Offset(p, Successor(p, i)) && LpValid(p, Successor(p, i))
  {
  }

  /** Third pass. */
  method CheckRoots(p: Page, predecessor: array<nat>) returns (reports: nat)
    requires predecessor.Length == |p.items| && FirstLinks(p, predecessor[..], |p.items|)
    ensures reports == 0 <==> forall j: nat :: Offset(p, j) ==> RootOk(p, j)
  {
    hide RootOk, FirstLinks;
    reports := 0;
    var j := 1;
    while j < |p.items|
      invariant 1 <= j
      invariant reports == 0 <==> forall k: nat :: Offset(p, k) && k < j ==> RootOk(p, k)
    {
      var it := p.items[j];
      RootTest(p, predecessor[..], j);
      if it.Normal? && Sane(it) && it.hdr.statusOk && (it.hdr.status == Committed || it.hdr.status == InProgress) &&
           predecessor[j] == 0 {
        if it.hdr.heapOnly {
          reports := reports + 1;
        }
      }
      j := j + 1;
    }
  }

  lemma RootTest(p: Page, predecessor: seq<nat>, j: nat)
    requires FirstLinks(p, predecessor, |p.items|) && Offset(p, j)
    ensures RootOk(p, j) <==> !(KnownAlive(p.items[j]) && predecessor[j] == 0 && p.items[j].hdr.heapOnly)
  {
    hide Link, KnownAlive;
    if predecessor[j] != 0 {
      assert Link(p, predecessor[j], j);
      LinkIsSuccessor(p, predecessor[j], j);
    }
  }

  /** The three passes over a page report nothing exactly when the page is well-formed. */
  method VerifyPage(p: Page) returns (reports: nat)
    ensures reports == 0 <==> WellFormed(p)
  {
    var successor := new nat[|p.items|](_ => 0);
    var valid := new bool[|p.items|](_ => false);
    var predecessor := new nat[|p.items|](_ => 0);
    var items := CheckItems(p, successor, valid);
    var chains := CheckChains(p, successor, valid, predecessor);
    var roots := CheckRoots(p, predecessor);
    AllLinks(p);
    reports := items + chains + roots;
  }

  lemma AllLinks(p: Page)
    ensures InjectiveTo(p, |p.items|) <==> Injective(p)
    ensures LinksOkTo(p, |p.items|) <==> forall i: nat, j: nat :: Link(p, i, j) ==> LinkOk(p, i, j)
  {
    hide LinkOk;
    forall i: nat, j: nat | Link(p, i, j)
      ensures i < |p.items|
    {
      LinkIsSuccessor(p, i, j);
    }
  }
}
