/**
 Which keys the checker compares.  A set of key slots is closed if every comparison the
 check makes from inside it stays inside; shifting the keys of a closed set upwards, or
 the others downwards, leaves every verdict as it is.
 */
module NbtreeShift {
  import opened Common
  import opened NbtreePages
  import opened NbtreeLockstep
  import opened NbtreeTarget
  import opened NbtreeLevel
  import opened NbtreeRekey

  /** Where a key is: an item of a page, its high key, or the item read when a level is finished. */
  datatype Slot = ItemSlot(block: nat, index: nat) | HighSlot(block: nat) | StraySlot

  ghost predicate HasSlot(ix: Index, s: Slot) {
    match s
    case ItemSlot(b, i) => b in ix && i < |ix[b].items|
    case HighSlot(b) => b in ix
    case StraySlot => true
  }

  ghost function KeyAt(ix: Index, s: Slot, stray: Item): int
    requires HasSlot(ix, s)
  {
    match s
    case ItemSlot(b, i) => ix[b].items[i].key
    case HighSlot(b) => ix[b].hikey.key
    case StraySlot => stray.key
  }

  // ------------------------------------------------------------ shifting keys

  /** Keys in `up` are shifted by `above`, all others by `below`. */
  datatype Shift = Shift(up: iset<Slot>, above: int, below: int)

  ghost function Amount(sh: Shift, s: Slot): int {
    if s in sh.up then sh.above else sh.below
  }

  /** The set moves up against the rest, and what is read at the end of a level stays. */
  ghost predicate Upward(sh: Shift) {
    sh.below <= sh.above && Amount(sh, StraySlot) == 0
  }

  ghost function Keyed(x: Item, key: int): Item {
    x.(key := key)
  }

  ghost function ShiftPage(p: Page, b: nat, sh: Shift): (q: Page)
    ensures SameShape(p, q) && q.hikey.key == p.hikey.key + Amount(sh, HighSlot(b))
    ensures forall i :: 0 <= i < |p.items| ==> q.items[i].key == p.items[i].key + Amount(sh, ItemSlot(b, i))
  {
    p.(hikey := Keyed(p.hikey, p.hikey.key + Amount(sh, HighSlot(b))),
       items := seq(|p.items|, i requires 0 <= i < |p.items| =>
         Keyed(p.items[i], p.items[i].key + Amount(sh, ItemSlot(b, i)))))
  }

  ghost function Shifted(ix: Index, sh: Shift): (r: Index)
    ensures Rekeyed(ix, r)
    ensures forall b :: b in ix ==> b in r && r[b] == ShiftPage(ix[b], b, sh)
  {
    var r := map b | b in ix :: ShiftPage(ix[b], b, sh);
    assert r.Keys == ix.Keys;
    r
  }

  lemma KeyShifted(ix: Index, sh: Shift, s: Slot, stray: Item)
    requires HasSlot(ix, s) && Upward(sh)
    ensures HasSlot(Shifted(ix, sh), s)
    ensures KeyAt(Shifted(ix, sh), s, stray) == KeyAt(ix, s, stray) + Amount(sh, s)
  {
    hide Rekeyed, SameShape;
    if !s.StraySlot? {
      var r := Shifted(ix, sh);
      assert r[s.block] == ShiftPage(ix[s.block], s.block, sh);
      SamePage(ix, r, s.block);
      SameItems(ix, r, s.block);
    }
  }

  // ------------------------------------------------------------ closed sets

  /** A comparison "`s` is not above `t`" stays inside. */
  ghost predicate Leads(up: iset<Slot>, s: Slot, t: Slot) {
    s in up ==> t in up
  }

  ghost predicate Ties(up: iset<Slot>, s: Slot, t: Slot) {
    s in up <==> t in up
  }

  lemma LeadsAmount(sh: Shift, s: Slot, t: Slot)
    requires Upward(sh) && Leads(sh.up, s, t)
    ensures Amount(sh, s) <= Amount(sh, t)
  {
  }

  /** The item is compared with the high key and the next item. */
  ghost predicate ItemClosed(ix: Index, b: nat, i: nat, up: iset<Slot>)
    requires b in ix && i < |ix[b].items|
  {
    && (!ix[b].Rightmost() ==> Leads(up, ItemSlot(b, i), HighSlot(b)))
    && (i + 1 < |ix[b].items| ==> Leads(up, ItemSlot(b, i), ItemSlot(b, i + 1)))
  }

  /** The slot of usable item number `i`. */
  function RealSlot(p: Page, b: nat, i: nat): Slot {
    ItemSlot(b, if p.leaf || p.items == [] then i else i + 1)
  }

  /** The last usable item is compared with the first one of the page to the right. */
  ghost predicate CrossClosed(ix: Index, b: nat, up: iset<Slot>)
    requires b in ix
  {
    Real(ix[b]) != [] ==>
      forall skipped, q :: RightOf(ix, b, skipped, q) && Real(ix[q]) != [] ==>
        Leads(up, RealSlot(ix[b], b, |Real(ix[b])| - 1), RealSlot(ix[q], q, 0))
  }

  /** The separator is compared with every usable item of the child. */
  ghost predicate AboveClosed(ix: Index, b: nat, i: nat, up: iset<Slot>)
    requires b in ix && i < |ix[b].items|
  {
    var c := ix[b].items[i].child;
    c in ix ==> forall j :: 0 <= j < |Real(ix[c])| ==> Leads(up, ItemSlot(b, i), RealSlot(ix[c], c, j))
  }

  // ------------------------------------------------------------ calls

  /** Item `i` of a target page, with the page before it on the level, if that has a high key. */
  datatype Target = Target(block: nat, i: nat, low: Option<nat>)

  ghost predicate IsTarget(ix: Index, t: Target) {
    t.block in ix && (t.low.Some? ==> t.low.value in ix)
  }

  function LowItem(ix: Index, low: Option<nat>): Option<Item>
    requires low.Some? ==> low.value in ix
  {
    if low.None? then None else Some(ix[low.value].hikey)
  }

  ghost function CallOf(ix: Index, t: Target, stray: Item, link: nat): Call
    requires IsTarget(ix, t)
  {
    Call(ix[t.block], t.i, LowItem(ix, t.low), stray, link)
  }

  ghost function DownlinkOf(ix: Index, t: Target): nat
    requires t.block in ix
  {
    if t.i < |ix[t.block].items| then ix[t.block].items[t.i].child else P_NONE
  }

  ghost function PivotSlot(ix: Index, b: nat, j: nat, low: Option<nat>): Option<Slot>
    requires b in ix
  {
    if j == 0 then if low.None? then None else Some(HighSlot(low.value))
    else if j < |ix[b].items| then Some(ItemSlot(b, j))
    else if ix[b].Rightmost() then None
    else Some(HighSlot(b))
  }

  /** Where the key is that the high key of page `c` must equal. */
  ghost function SepSlot(ix: Index, t: Target, c: nat): Option<Slot>
    requires t.block in ix
  {
    if t.i >= |ix[t.block].items| then Some(StraySlot)
    else PivotSlot(ix, t.block, if c == DownlinkOf(ix, t) then t.i + 1 else t.i, t.low)
  }

  /** The high key of a page passed through is compared with its separator. */
  ghost predicate TurnClosed(ix: Index, t: Target, c: nat, up: iset<Slot>)
    requires t.block in ix
  {
    c in ix && !ix[c].incomplete && !ix[c].Rightmost() && SepSlot(ix, t, c).Some? ==>
      Ties(up, HighSlot(c), SepSlot(ix, t, c).value)
  }

  /** The same for the first `n` pages from `c` on, up to the downlink. */
  ghost predicate WayClosed(ix: Index, t: Target, c: nat, n: nat, up: iset<Slot>)
    requires t.block in ix
    decreases n
  {
    n > 0 && c != P_NONE && c in ix ==>
      TurnClosed(ix, t, c, up) && (c == DownlinkOf(ix, t) || WayClosed(ix, t, ix[c].next, n - 1, up))
  }

  ghost predicate WholeWayClosed(ix: Index, t: Target, c: nat, up: iset<Slot>)
    requires t.block in ix
  {
    forall n: nat :: WayClosed(ix, t, c, n, up)
  }

  /** From where a call starts, given what is remembered. */
  ghost predicate CallClosed(ix: Index, t: Target, lag: Lag, up: iset<Slot>)
    requires t.block in ix
  {
    WholeWayClosed(ix, t, if lag.link == INVALID_BLOCK then DownlinkOf(ix, t) else lag.link, up)
  }

  lemma SepMeans(ix: Index, t: Target, stray: Item, link: nat, c: nat)
    requires IsTarget(ix, t)
    ensures CallOf(ix, t, stray, link).Downlink() == DownlinkOf(ix, t)
    ensures var sep, s := CallOf(ix, t, stray, link).Separator(c), SepSlot(ix, t, c);
            (sep.Some? <==> s.Some?) && (s.Some? ==> HasSlot(ix, s.value) && sep.value.key == KeyAt(ix, s.value, stray))
  {
  }

  lemma SepSame(ix: Index, ix': Index, t: Target, c: nat)
    requires Rekeyed(ix, ix') && IsTarget(ix, t)
    ensures IsTarget(ix', t) && DownlinkOf(ix', t) == DownlinkOf(ix, t) && SepSlot(ix', t, c) == SepSlot(ix, t, c)
  {
    hide Rekeyed;
    SamePage(ix, ix', t.block);
    SameItems(ix, ix', t.block);
    if t.low.Some? {
      SamePage(ix, ix', t.low.value);
    }
  }

  /** One page passed through. */
  lemma TurnShifts(ix: Index, sh: Shift, t: Target, stray: Item, link: nat, c: nat, first: bool, split: bool)
    requires IsTarget(ix, t) && IsTarget(Shifted(ix, sh), t) && Upward(sh) && TurnClosed(ix, t, c, sh.up)
    requires TurnAllowed(ix, CallOf(ix, t, stray, link), c, first, split)
    ensures TurnAllowed(Shifted(ix, sh), CallOf(Shifted(ix, sh), t, stray, link), c, first, split)
  {
    hide Rekeyed, Shifted, IsLeftmost, Excused, SepSlot, KeyAt, HasSlot;
    var r := Shifted(ix, sh);
    SamePage(ix, r, c);
    SamePage(ix, r, t.block);
    SepSame(ix, r, t, c);
    SepMeans(ix, t, stray, link, c);
    SepMeans(r, t, stray, link, c);
    if first && link == INVALID_BLOCK {
      SameLeftmost(ix, r, c);
    }
    if c != DownlinkOf(ix, t) && !ix[c].Ignore() {
      SameExcused(ix, r, c, split);
    }
    if !ix[c].incomplete && !ix[c].Rightmost() {
      HighShifts(ix, sh, c, SepSlot(ix, t, c).value, stray);
    }
  }

  lemma HighShifts(ix: Index, sh: Shift, c: nat, s: Slot, stray: Item)
    requires c in ix && c in Shifted(ix, sh) && HasSlot(ix, s) && Upward(sh) && Ties(sh.up, HighSlot(c), s)
    requires ix[c].hikey.key == KeyAt(ix, s, stray)
    ensures HasSlot(Shifted(ix, sh), s) && Shifted(ix, sh)[c].hikey.key == KeyAt(Shifted(ix, sh), s, stray)
  {
    hide Shifted;
    KeyShifted(ix, sh, HighSlot(c), stray);
    KeyShifted(ix, sh, s, stray);
  }

  lemma {:induction false} WayShifts(ix: Index, sh: Shift, t: Target, stray: Item, link: nat, c: nat, first: bool,
                                     split: bool, n: nat)
    requires IsTarget(ix, t) && IsTarget(Shifted(ix, sh), t) && Upward(sh) && WayClosed(ix, t, c, n, sh.up)
    requires CallOk(ix, CallOf(ix, t, stray, link), c, first, split, n)
    ensures CallOk(Shifted(ix, sh), CallOf(Shifted(ix, sh), t, stray, link), c, first, split, n)
    decreases n
  {
    hide Rekeyed, Shifted, TurnAllowed, TurnClosed;
    var r := Shifted(ix, sh);
    SepSame(ix, r, t, c);
    SepMeans(ix, t, stray, link, c);
    SepMeans(r, t, stray, link, c);
    if c != P_NONE {
      TurnMeans(ix, CallOf(ix, t, stray, link), c, first, split);
      TurnShifts(ix, sh, t, stray, link, c, first, split);
      SamePage(ix, r, c);
      if c != DownlinkOf(ix, t) {
        WayShifts(ix, sh, t, stray, link, ix[c].next, false, ix[c].incomplete, n - 1);
      }
    }
  }

  /** A call that passes still passes. */
  lemma CallShifts(ix: Index, sh: Shift, t: Target, stray: Item, lag: Lag)
    requires IsTarget(ix, t) && IsTarget(Shifted(ix, sh), t) && Upward(sh) && CallClosed(ix, t, lag, sh.up)
    requires CallPasses(ix, ix[t.block], t.i, LowItem(ix, t.low), stray, lag)
    ensures CallPasses(Shifted(ix, sh), Shifted(ix, sh)[t.block], t.i, LowItem(Shifted(ix, sh), t.low), stray, lag)
  {
    hide Rekeyed, Shifted, CallOk, WayClosed;
    var r, anew := Shifted(ix, sh), lag.link == INVALID_BLOCK;
    SepSame(ix, r, t, 0);
    SepMeans(ix, t, stray, lag.link, 0);
    SepMeans(r, t, stray, lag.link, 0);
    var c, split := if anew then DownlinkOf(ix, t) else lag.link, !anew && lag.split;
    assert Arrives(ix, CallOf(ix, t, stray, lag.link), c, split);
    var n: nat :| CallOk(ix, CallOf(ix, t, stray, lag.link), c, true, split, n);
    WayShifts(ix, sh, t, stray, lag.link, c, true, split, n);
    assert Arrives(r, CallOf(r, t, stray, lag.link), c, split);
  }

  // ------------------------------------------------------------ pages

  ghost predicate LeafClosed(ix: Index, b: nat, up: iset<Slot>)
    requires b in ix
  {
    (forall i :: 0 <= i < |ix[b].items| ==> ItemClosed(ix, b, i, up)) && CrossClosed(ix, b, up)
  }

  ghost predicate OffsetClosed(ix: Index, b: nat, i: nat, low: Option<nat>, lag: Lag, up: iset<Slot>)
    requires b in ix && i < |ix[b].items|
  {
    && (i > 0 ==>
          && ItemClosed(ix, b, i, up) && AboveClosed(ix, b, i, up)
          && (i + 1 == |ix[b].items| ==> CrossClosed(ix, b, up)))
    && CallClosed(ix, Target(b, i, low), LagAt(ix, ix[b], lag, i), up)
  }

  /** Every comparison made for the page stays inside. */
  ghost predicate PageClosed(ix: Index, b: nat, low: Option<nat>, lag: Lag, up: iset<Slot>)
    requires b in ix
  {
    if ix[b].leaf then LeafClosed(ix, b, up)
    else
      && (forall i :: 0 <= i < |ix[b].items| ==> OffsetClosed(ix, b, i, low, lag, up))
      && (ix[b].Rightmost() ==>
            CallClosed(ix, Target(b, |ix[b].items|, low), LagAt(ix, ix[b], lag, |ix[b].items|), up))
  }

  lemma ItemShifts(ix: Index, sh: Shift, b: nat, i: nat)
    requires b in ix && i < |ix[b].items| && Upward(sh) && ItemClosed(ix, b, i, sh.up) && ItemOk(ix[b], i)
    ensures b in Shifted(ix, sh) && i < |Shifted(ix, sh)[b].items| && ItemOk(Shifted(ix, sh)[b], i)
  {
    hide Rekeyed, SameShape;
    var r := Shifted(ix, sh);
    assert r[b] == ShiftPage(ix[b], b, sh);
    SamePage(ix, r, b);
    SameItems(ix, r, b);
    if !ix[b].Rightmost() {
      LeadsAmount(sh, ItemSlot(b, i), HighSlot(b));
    }
    if i + 1 < |ix[b].items| {
      LeadsAmount(sh, ItemSlot(b, i), ItemSlot(b, i + 1));
    }
  }

  lemma RealShifted(ix: Index, sh: Shift, b: nat, i: nat)
    requires b in ix && i < |Real(ix[b])|
    ensures b in Shifted(ix, sh) && |Real(Shifted(ix, sh)[b])| == |Real(ix[b])|
    ensures Real(Shifted(ix, sh)[b])[i].key == Real(ix[b])[i].key + Amount(sh, RealSlot(ix[b], b, i))
  {
    hide Rekeyed, SameShape;
    var r := Shifted(ix, sh);
    assert r[b] == ShiftPage(ix[b], b, sh);
    SamePage(ix, r, b);
    SameItems(ix, r, b);
    RealAt(ix[b], i);
    RealAt(r[b], i);
  }

  lemma CrossShifts(ix: Index, sh: Shift, b: nat)
    requires b in ix && Upward(sh) && CrossClosed(ix, b, sh.up) && CrossOrdered(ix, b)
    ensures CrossOrdered(Shifted(ix, sh), b)
  {
    hide Rekeyed, Shifted, RightOf, Real;
    var r := Shifted(ix, sh);
    SamePage(ix, r, b);
    if !ix[b].Rightmost() && Real(ix[b]) != [] {
      RightLoads(ix, b);
      var skipped, q :| RightOf(ix, b, skipped, q) && q in ix && LastBelowFirst(ix[b], ix[q]);
      SameRight(ix, r, b, skipped, q);
      SamePage(ix, r, q);
      if Real(ix[q]) != [] {
        var last := |Real(ix[b])| - 1;
        LeadsAmount(sh, RealSlot(ix[b], b, last), RealSlot(ix[q], q, 0));
        RealShifted(ix, sh, b, last);
        RealShifted(ix, sh, q, 0);
      }
      assert RightOf(r, b, skipped, q) && LastBelowFirst(r[b], r[q]);
    }
  }

  lemma RightLoads(ix: Index, b: nat)
    requires CrossOrdered(ix, b) && !ix[b].Rightmost() && Real(ix[b]) != []
    ensures exists skipped, q :: RightOf(ix, b, skipped, q) && q in ix && LastBelowFirst(ix[b], ix[q])
  {
    hide Chain, Real;
    var skipped, q :| RightOf(ix, b, skipped, q) && LastBelowFirst(ix[b], ix[q]);
  }

  lemma AboveShifts(ix: Index, sh: Shift, b: nat, i: nat)
    requires b in ix && i < |ix[b].items| && Upward(sh) && AboveClosed(ix, b, i, sh.up) && ChildAbove(ix, ix[b], i)
    ensures b in Shifted(ix, sh) && i < |Shifted(ix, sh)[b].items| && ChildAbove(Shifted(ix, sh), Shifted(ix, sh)[b], i)
  {
    hide Rekeyed, Shifted, Real;
    var r, c := Shifted(ix, sh), ix[b].items[i].child;
    SamePage(ix, r, b);
    SameItems(ix, r, b);
    SamePage(ix, r, c);
    forall j | 0 <= j < |Real(r[c])|
      ensures r[b].items[i].key < Real(r[c])[j].key
    {
      LeadsAmount(sh, ItemSlot(b, i), RealSlot(ix[c], c, j));
      RealShifted(ix, sh, c, j);
      KeyShifted(ix, sh, ItemSlot(b, i), Item(0, 0, 0));
    }
  }

  lemma OffsetShifts(ix: Index, sh: Shift, b: nat, i: nat, low: Option<nat>, stray: Item, lag: Lag)
    requires IsTarget(ix, Target(b, i, low)) && Loads(ix, b) && i < |ix[b].items| && Upward(sh)
    requires OffsetClosed(ix, b, i, low, lag, sh.up) && OffsetPasses(ix, b, i, LowItem(ix, low), stray, lag)
    ensures IsTarget(Shifted(ix, sh), Target(b, i, low)) && Loads(Shifted(ix, sh), b) && i < |Shifted(ix, sh)[b].items|
    ensures OffsetPasses(Shifted(ix, sh), b, i, LowItem(Shifted(ix, sh), low), stray, lag)
  {
    hide Rekeyed, Shifted, CallClosed, CallPasses, ItemClosed, ItemOk,
         AboveClosed, ChildAbove, CrossClosed, CrossOrdered, LagAt;
    var r := Shifted(ix, sh);
    SepSame(ix, r, Target(b, i, low), 0);
    SamePage(ix, r, b);
    SameItems(ix, r, b);
    SameLag(ix, r, b, lag, i);
    if i > 0 {
      ItemShifts(ix, sh, b, i);
      AboveShifts(ix, sh, b, i);
      if i + 1 == |ix[b].items| {
        CrossShifts(ix, sh, b);
      }
    }
    CallShifts(ix, sh, Target(b, i, low), stray, LagAt(ix, ix[b], lag, i));
  }

  lemma LeafShifts(ix: Index, sh: Shift, b: nat)
    requires Loads(ix, b) && ix[b].leaf && Upward(sh) && LeafClosed(ix, b, sh.up)
    requires PageOrdered(ix[b]) && CrossOrdered(ix, b)
    ensures b in Shifted(ix, sh) && PageOrdered(Shifted(ix, sh)[b]) && CrossOrdered(Shifted(ix, sh), b)
  {
    hide Rekeyed, Shifted, ItemClosed, ItemOk, CrossClosed, CrossOrdered, PageOrdered;
    var r := Shifted(ix, sh);
    SamePage(ix, r, b);
    SameItems(ix, r, b);
    forall i | FirstReal(r[b]) <= i < |r[b].items|
      ensures ItemOk(r[b], i)
    {
      LeafItemOk(ix[b], i);
      ItemShifts(ix, sh, b, i);
    }
    AllItemsOrdered(r[b]);
    CrossShifts(ix, sh, b);
  }

  /** A page that passes still passes. */
  lemma PageShifts(ix: Index, sh: Shift, b: nat, low: Option<nat>, stray: Item, lag: Lag)
    requires IsTarget(ix, Target(b, 0, low)) && Loads(ix, b) && Upward(sh) && PageClosed(ix, b, low, lag, sh.up)
    requires TargetPasses(ix, b, LowItem(ix, low), stray, lag)
    ensures IsTarget(Shifted(ix, sh), Target(b, 0, low)) && Loads(Shifted(ix, sh), b)
    ensures TargetPasses(Shifted(ix, sh), b, LowItem(Shifted(ix, sh), low), stray, lag)
  {
    hide Rekeyed, Shifted, OffsetClosed, OffsetPasses, LeafClosed,
         PageOrdered, CrossOrdered, CallClosed, CallPasses, LagAt;
    var r := Shifted(ix, sh);
    SepSame(ix, r, Target(b, 0, low), 0);
    SamePage(ix, r, b);
    SameItems(ix, r, b);
    if ix[b].leaf {
      LeafShifts(ix, sh, b);
    } else {
      forall i | 0 <= i < |r[b].items|
        ensures OffsetPasses(r, b, i, LowItem(r, low), stray, lag)
      {
        OffsetShifts(ix, sh, b, i, low, stray, lag);
      }
      if ix[b].Rightmost() {
        var n := |ix[b].items|;
        SameLag(ix, r, b, lag, n);
        CallShifts(ix, sh, Target(b, n, low), stray, LagAt(ix, ix[b], lag, n));
      }
    }
  }

  // ------------------------------------------------------------ levels

  /** The page before number `k`, if it has a high key. */
  ghost function LowAt(ix: Index, walk: seq<nat>, k: nat): Option<nat>
    requires k <= |walk|
  {
    if k == 0 || walk[k - 1] !in ix || ix[walk[k - 1]].Rightmost() then None else Some(walk[k - 1])
  }

  /** Every comparison made on the level stays inside. */
  ghost predicate LevelClosed(ix: Index, walk: seq<nat>, up: iset<Slot>) {
    forall k :: 0 <= k < |walk| && Live(ix, walk[k]) ==>
      PageClosed(ix, walk[k], LowAt(ix, walk, k), SeenBy(ix, walk[..k]).lag, up)
  }

  lemma LowkeySeen(ix: Index, walk: seq<nat>, k: nat)
    requires k <= |walk| && forall i :: 0 <= i < |walk| ==> walk[i] in ix
    ensures SeenBy(ix, walk[..k]).lowkey == LowItem(ix, LowAt(ix, walk, k))
  {
    if k > 0 {
      assert walk[..k][..k - 1] == walk[..k - 1];
    }
  }

  lemma TurnStaysClean(ix: Index, sh: Shift, lv: Level, stray: Item, walk: seq<nat>, k: nat)
    requires Upward(sh) && LevelClosed(ix, walk, sh.up) && LevelClean(ix, lv, stray, walk) && k < |walk|
    ensures TurnClean(Shifted(ix, sh), lv, stray, LastOf(walk[..k]), walk[k], SeenBy(Shifted(ix, sh), walk[..k]))
  {
    hide Rekeyed, Shifted, SeenBy, StartsLevel, TargetPasses, PageClosed, Placed;
    var r, s := Shifted(ix, sh), SeenBy(ix, walk[..k]);
    assert TurnClean(ix, lv, stray, LastOf(walk[..k]), walk[k], s);
    SamePlaced(ix, r, lv, LastOf(walk[..k]), walk[k]);
    SameSeen(ix, r, walk[..k]);
    SamePage(ix, r, walk[k]);
    if Live(ix, walk[k]) {
      PlacedLoads(ix, lv, LastOf(walk[..k]), walk[k]);
      if s.nextdown == INVALID_BLOCK {
        SameStart(ix, r, lv, walk[k]);
      }
      LowkeyShifted(ix, sh, walk, k);
      PageShifts(ix, sh, walk[k], LowAt(ix, walk, k), stray, s.lag);
    }
  }

  lemma LowkeyShifted(ix: Index, sh: Shift, walk: seq<nat>, k: nat)
    requires k <= |walk| && Chain(ix, walk)
    ensures var low, r := LowAt(ix, walk, k), Shifted(ix, sh);
            && (low.Some? ==> low.value in ix && low.value in r) && SeenBy(ix, walk[..k]).lowkey == LowItem(ix, low)
            && SeenBy(r, walk[..k]).lowkey == LowItem(r, low)
  {
    hide Rekeyed, Shifted, SeenBy;
    var r := Shifted(ix, sh);
    forall i | 0 <= i < |walk|
      ensures walk[i] in ix && walk[i] in r && (ix[walk[i]].Rightmost() <==> r[walk[i]].Rightmost())
    {
      SamePage(ix, r, walk[i]);
    }
    LowkeySeen(ix, walk, k);
    LowkeySeen(r, walk, k);
  }

  /** A level with nothing wrong stays so when a closed set of keys is shifted upwards. */
  lemma LevelStaysClean(ix: Index, sh: Shift, lv: Level, stray: Item, walk: seq<nat>)
    requires Upward(sh) && LevelClosed(ix, walk, sh.up) && LevelClean(ix, lv, stray, walk)
    ensures LevelClean(Shifted(ix, sh), lv, stray, walk)
  {
    hide Rekeyed, Shifted, SeenBy, TurnClean, FullChain, LevelClosed;
    SameFullChain(ix, Shifted(ix, sh), lv.leftmost, walk);
    forall k | 0 <= k < |walk|
      ensures TurnClean(Shifted(ix, sh), lv, stray, LastOf(walk[..k]), walk[k], SeenBy(Shifted(ix, sh), walk[..k]))
    {
      TurnStaysClean(ix, sh, lv, stray, walk, k);
    }
  }
}
