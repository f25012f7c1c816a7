/**
 Trees of boxes of any height and mixed dimension: every key is a stored box or comes
 from unions and page splits.  A search finds the stored boxes that match the query, and
 no key is farther from a query than a box below it.
 */
module CubeTree {
  import opened Common
  import opened CubeData
  import opened CubeGist
  import opened CubeDistance
  import opened CubeSplit

  // ------------------------------------------------------------ how keys come about

  /** A stored box, or the hull computed for the entries `chosen` from a page. */
  datatype Derivation = Stored(box: Box) | HullOf(hull: Box, page: seq<Derivation>, chosen: set<nat>)

  function KeyOf(d: Derivation): Box {
    match d
    case Stored(box) => box
    case HullOf(hull, _, _) => hull
  }

  function Keys(page: seq<Derivation>): (r: seq<Box>)
    ensures |r| == |page| && forall i :: 0 <= i < |page| ==> r[i] == KeyOf(page[i])
  {
    seq(|page|, i requires 0 <= i < |page| => KeyOf(page[i]))
  }

  /** Every step was a union or one side of a split. */
  ghost predicate Built(d: Derivation)
    decreases d
  {
    match d
    case Stored(box) => Valid(box)
    case HullOf(hull, page, chosen) =>
      && |page| >= 2 && (forall i :: 0 <= i < |page| ==> Built(page[i])) && (forall i :: i in chosen ==> i < |page|)
      && AllValid(Keys(page)) && IsHull(hull, Keys(page), chosen)
  }

  /** The stored boxes that went into a key. */
  ghost predicate Holds(d: Derivation, b: Box)
    decreases d
  {
    match d
    case Stored(box) => b == box
    case HullOf(_, page, chosen) => exists i :: 0 <= i < |page| && i in chosen && Holds(page[i], b)
  }

  lemma BuiltValid(d: Derivation)
    requires Built(d)
    ensures Valid(KeyOf(d))
  {
  }

  /** However often unions and splits were repeated, a key encloses every box that went into it. */
  lemma {:induction false} DerivedEncloses(d: Derivation, b: Box)
    requires Built(d) && Holds(d, b)
    ensures Encloses(KeyOf(d), b)
    decreases d
  {
    hide IsHull, Encloses;
    match d
    case Stored(box) => EnclosesSelf(box);
    case HullOf(hull, page, chosen) =>
      var i :| 0 <= i < |page| && i in chosen && Holds(page[i], b);
      DerivedEncloses(page[i], b);
      HullEncloses(hull, Keys(page), chosen, i);
      EnclosesTransitive(hull, KeyOf(page[i]), b);
  }

  lemma EnclosesSelf(b: Box)
    requires Valid(b)
    ensures Encloses(b, b)
  {
  }

  ghost predicate AllBuilt(page: seq<Derivation>) {
    forall i :: 0 <= i < |page| ==> Built(page[i])
  }

  lemma KeysValid(page: seq<Derivation>)
    requires AllBuilt(page)
    ensures AllValid(Keys(page))
  {
    forall i | 0 <= i < |page|
      ensures Valid(Keys(page)[i])
    {
      BuiltValid(page[i]);
    }
  }

  /** `g_cube_union` derives a key for everything below the entries of a page. */
  method UnionPage(page: seq<Derivation>) returns (key: Box, ghost d: Derivation)
    requires |page| >= 2 && AllBuilt(page)
    ensures Built(d) && KeyOf(d) == key
    ensures forall i, b :: 0 <= i < |page| && Holds(page[i], b) ==> Encloses(key, b)
    ensures forall i, b :: 0 <= i < |page| && Holds(page[i], b) ==> Holds(d, b)
  {
    hide IsHull, Encloses, Built;
    KeysValid(page);
    key := GistUnion(Keys(page));
    d := HullOf(key, page, Below(|page|));
    assert Built(d) by {
      HullBuilt(key, page, Below(|page|));
    }
    forall i, b | 0 <= i < |page| && Holds(page[i], b)
      ensures Holds(d, b) && Encloses(key, b)
    {
      DerivedEncloses(d, b);
    }
  }

  lemma HullBuilt(key: Box, page: seq<Derivation>, chosen: set<nat>)
    requires |page| >= 2 && AllBuilt(page) && (forall i :: i in chosen ==> i < |page|)
    requires AllValid(Keys(page)) && IsHull(key, Keys(page), chosen)
    ensures Built(HullOf(key, page, chosen))
  {
  }

  /** `g_cube_picksplit` derives two keys; everything below an entry is below exactly one of them. */
  method SplitPage(page: seq<Derivation>) returns (lkey: Box, rkey: Box, ghost l: Derivation, ghost r: Derivation)
    requires |page| >= 2 && AllBuilt(page)
    ensures Built(l) && KeyOf(l) == lkey && Built(r) && KeyOf(r) == rkey
    ensures l.HullOf? && r.HullOf? && l.page == r.page == [page[0]] + page
    ensures l.chosen !! r.chosen && forall o :: o in l.chosen || o in r.chosen <==> 1 <= o <= |page|
    ensures forall i, b :: 0 <= i < |page| && Holds(page[i], b) ==> Encloses(lkey, b) || Encloses(rkey, b)
    ensures forall i, b :: 0 <= i < |page| && Holds(page[i], b) ==> Holds(l, b) || Holds(r, b)
  {
    hide IsHull, Encloses, Built, Lists;
    var all := [page[0]] + page;
    KeysValid(all);
    var left, nleft, right, nright;
    ghost var lefts, rights;
    left, nleft, right, nright, lkey, rkey, lefts, rights := PickSplit(Keys(all));
    l, r := HullOf(lkey, all, lefts), HullOf(rkey, all, rights);
    HullBuilt(lkey, all, lefts);
    HullBuilt(rkey, all, rights);
    forall i, b | 0 <= i < |page| && Holds(page[i], b)
      ensures (Holds(l, b) && Encloses(lkey, b)) || (Holds(r, b) && Encloses(rkey, b))
    {
      assert all[i + 1] == page[i];
      if i + 1 in lefts {
        DerivedEncloses(l, b);
      } else {
        DerivedEncloses(r, b);
      }
    }
  }

  // ------------------------------------------------------------ matches

  /** The stored boxes a query asks for. */
  ghost predicate Matches(b: Box, query: Box, strategy: nat) {
    Valid(b) && Valid(query) && LeafMatch(b, query, strategy)
  }

  ghost predicate Enters(key: Box, query: Box, strategy: nat) {
    Valid(key) && Valid(query) && InternalMatch(key, query, strategy)
  }

  predicate IsContainedBy(strategy: nat) {
    strategy == CONTAINED_BY || strategy == OLD_CONTAINED_BY
  }

  /** No matching box is one that a contained-by query can miss. */
  ghost predicate SafeBox(b: Box, query: Box, strategy: nat) {
    Matches(b, query, strategy) && IsContainedBy(strategy) ==> MeetsZero(query, b.dim)
  }

  /** A stored box that matches is below matching keys only, at any height. */
  lemma MatchReachesKeys(d: Derivation, b: Box, query: Box, strategy: nat)
    requires Built(d) && Holds(d, b) && Matches(b, query, strategy) && SafeBox(b, query, strategy)
    ensures Enters(KeyOf(d), query, strategy)
  {
    hide Built, Holds, Encloses, MeetsZero, Overlap, Contains, Same;
    DerivedEncloses(d, b);
    BuiltValid(d);
    if IsContainedBy(strategy) {
      ContainedInherited(KeyOf(d), b, query);
    } else {
      MatchInherited(KeyOf(d), b, query, strategy);
    }
  }

  // ------------------------------------------------------------ trees

  datatype Tree = LeafPage(boxes: seq<Box>) | InnerPage(entries: Entries)

  /** Downlinks: each with its key, as it was derived, and the page below. */
  datatype Entries = Empty | Entry(key: Derivation, child: Tree, rest: Entries)

  ghost function Boxes(t: Tree): seq<Box> {
    match t
    case LeafPage(boxes) => boxes
    case InnerPage(entries) => BoxesBelow(entries)
  }

  ghost function BoxesBelow(entries: Entries): seq<Box> {
    if entries.Empty? then [] else Boxes(entries.child) + BoxesBelow(entries.rest)
  }

  /** Every downlink's key was derived from at least the boxes below it. */
  ghost predicate TreeOk(t: Tree) {
    match t
    case LeafPage(boxes) => AllValid(boxes)
    case InnerPage(entries) => EntriesOk(entries)
  }

  ghost predicate EntriesOk(entries: Entries) {
    entries.Entry? ==>
      && Built(entries.key) && TreeOk(entries.child) && EntriesOk(entries.rest)
      && (forall b :: b in Boxes(entries.child) ==> Holds(entries.key, b))
  }

  // ------------------------------------------------------------ searching

  ghost function Asked(query: Box, strategy: nat): Box -> bool {
    b => Matches(b, query, strategy)
  }

  /** What a search finds: it descends where the key is consistent and tests the leaf entries. */
  ghost function Found(t: Tree, query: Box, strategy: nat): seq<Box> {
    match t
    case LeafPage(boxes) => Filter(boxes, Asked(query, strategy))
    case InnerPage(entries) => FoundBelow(entries, query, strategy)
  }

  ghost function FoundBelow(entries: Entries, query: Box, strategy: nat): seq<Box> {
    if entries.Empty? then []
    else (if Enters(KeyOf(entries.key), query, strategy) then Found(entries.child, query, strategy) else [])
         + FoundBelow(entries.rest, query, strategy)
  }

  method Search(t: Tree, query: Box, strategy: nat) returns (found: seq<Box>)
    requires TreeOk(t) && Valid(query)
    ensures found == Found(t, query, strategy)
    decreases t
  {
    match t
    case LeafPage(boxes) => found := SearchLeaf(boxes, query, strategy);
    case InnerPage(entries) => found := SearchBelow(entries, query, strategy);
  }

  method SearchLeaf(boxes: seq<Box>, query: Box, strategy: nat) returns (found: seq<Box>)
    requires AllValid(boxes) && Valid(query)
    ensures found == Filter(boxes, Asked(query, strategy))
  {
    hide LeafMatch;
    found := [];
    for i := 0 to |boxes|
      invariant found == Filter(boxes[..i], Asked(query, strategy))
    {
      var res := LeafConsistent(boxes[i], query, strategy);
      assert boxes[..i + 1] == boxes[..i] + [boxes[i]];
      FilterConcat(boxes[..i], [boxes[i]], Asked(query, strategy));
      if res {
        found := found + [boxes[i]];
      }
    }
    assert boxes[..|boxes|] == boxes;
  }

  method SearchBelow(entries: Entries, query: Box, strategy: nat) returns (found: seq<Box>)
    requires EntriesOk(entries) && Valid(query)
    ensures found == FoundBelow(entries, query, strategy)
    decreases entries
  {
    hide LeafMatch, InternalMatch;
    if entries.Empty? {
      return [];
    }
    BuiltValid(entries.key);
    found := [];
    var res := InternalConsistent(KeyOf(entries.key), query, strategy);
    if res {
      found := Search(entries.child, query, strategy);
    }
    var more := SearchBelow(entries.rest, query, strategy);
    found := found + more;
  }

  ghost predicate SafeQuery(boxes: seq<Box>, query: Box, strategy: nat) {
    forall b :: b in boxes ==> SafeBox(b, query, strategy)
  }

  /** A rejected downlink has no matching box below it. */
  lemma RejectedIsEmpty(e: Entries, query: Box, strategy: nat)
    requires e.Entry? && Built(e.key) && (forall b :: b in Boxes(e.child) ==> Holds(e.key, b))
    requires SafeQuery(Boxes(e.child), query, strategy) && !Enters(KeyOf(e.key), query, strategy)
    ensures Filter(Boxes(e.child), Asked(query, strategy)) == []
  {
    hide Built, Holds, Matches, SafeBox, Enters;
    forall b | b in Boxes(e.child)
      ensures !Matches(b, query, strategy)
    {
      if Matches(b, query, strategy) {
        MatchReachesKeys(e.key, b, query, strategy);
      }
    }
    FilterNone(Boxes(e.child), Asked(query, strategy));
  }

  /** A search finds exactly the stored boxes that match, in order. */
  lemma {:induction false} SearchExact(t: Tree, query: Box, strategy: nat)
    requires TreeOk(t) && SafeQuery(Boxes(t), query, strategy)
    ensures Found(t, query, strategy) == Filter(Boxes(t), Asked(query, strategy))
    decreases t
  {
    if t.InnerPage? {
      SearchBelowExact(t.entries, query, strategy);
    }
  }

  lemma {:induction false} SearchBelowExact(entries: Entries, query: Box, strategy: nat)
    requires EntriesOk(entries) && SafeQuery(BoxesBelow(entries), query, strategy)
    ensures FoundBelow(entries, query, strategy) == Filter(BoxesBelow(entries), Asked(query, strategy))
    decreases entries
  {
    hide SafeBox, Enters, Built, Holds, Asked;
    if entries.Entry? {
      SearchBelowExact(entries.rest, query, strategy);
      FilterConcat(Boxes(entries.child), BoxesBelow(entries.rest), Asked(query, strategy));
      if Enters(KeyOf(entries.key), query, strategy) {
        SearchExact(entries.child, query, strategy);
      } else {
        RejectedIsEmpty(entries, query, strategy);
      }
    }
  }

  // ------------------------------------------------------------ exactly when searches are right

  /** Each box on a page of its own, as a split of two equal boxes leaves it: the key is the box itself. */
  ghost function Apart(boxes: seq<Box>): Entries {
    if boxes == [] then Empty
    else Entry(HullOf(boxes[0], [Stored(boxes[0]), Stored(boxes[0])], {0}), LeafPage([boxes[0]]), Apart(boxes[1..]))
  }

  lemma {:induction false} ApartOk(boxes: seq<Box>)
    requires AllValid(boxes)
    ensures EntriesOk(Apart(boxes)) && BoxesBelow(Apart(boxes)) == boxes
  {
    hide IsHull;
    if boxes != [] {
      var b, page := boxes[0], [Stored(boxes[0]), Stored(boxes[0])];
      ApartOk(boxes[1..]);
      KeysValid(page);
      HullOfOne(Keys(page), 0);
      HullBuilt(b, page, {0});
      assert Holds(page[0], b);
      assert boxes == [b] + boxes[1..];
    }
  }

  /** A box on a page of its own is found only if it enters as a key. */
  lemma {:induction false} ApartFinds(boxes: seq<Box>, query: Box, strategy: nat, b: Box)
    requires b in FoundBelow(Apart(boxes), query, strategy)
    ensures Enters(b, query, strategy)
  {
    hide Enters;
    if boxes != [] {
      FilterKeeps([boxes[0]], Asked(query, strategy), b);
      if b in FoundBelow(Apart(boxes[1..]), query, strategy) {
        ApartFinds(boxes[1..], query, strategy, b);
      }
    }
  }

  ghost predicate AlwaysExact(boxes: seq<Box>, query: Box, strategy: nat) {
    forall t :: TreeOk(t) && Boxes(t) == boxes ==> Found(t, query, strategy) == Filter(boxes, Asked(query, strategy))
  }

  /** Searches for a query are exact on every tree of these boxes if and only if no matching box can be missed. */
  lemma SearchExactly(boxes: seq<Box>, query: Box, strategy: nat)
    requires AllValid(boxes) && Valid(query)
    ensures AlwaysExact(boxes, query, strategy) <==> SafeQuery(boxes, query, strategy)
  {
    hide SafeBox, Enters, Matches;
    if SafeQuery(boxes, query, strategy) {
      forall t | TreeOk(t) && Boxes(t) == boxes
        ensures Found(t, query, strategy) == Filter(boxes, Asked(query, strategy))
      {
        SearchExact(t, query, strategy);
      }
    } else {
      var b :| b in boxes && !SafeBox(b, query, strategy);
      UnsafeStaysOut(b, query, strategy);
      var t := InnerPage(Apart(boxes));
      ApartOk(boxes);
      FilterKeeps(boxes, Asked(query, strategy), b);
      if b in Found(t, query, strategy) {
        ApartFinds(boxes, query, strategy, b);
      }
      assert TreeOk(t) && Boxes(t) == boxes && Found(t, query, strategy) != Filter(boxes, Asked(query, strategy));
    }
  }

  lemma UnsafeStaysOut(b: Box, query: Box, strategy: nat)
    requires !SafeBox(b, query, strategy)
    ensures Matches(b, query, strategy) && !Enters(b, query, strategy)
  {
    hide Contains;
    var i: nat :| b.dim <= i < query.dim && !(Lo(query, i) <= 0.0 <= Hi(query, i));
    assert Lo(b, i) == 0.0 && Hi(b, i) == 0.0;
  }

  // ------------------------------------------------------------ nearest neighbours

  /** By every metric and every coordinate, the key is no farther from the query than the box. */
  ghost predicate NoFarther(key: Box, b: Box, query: Box)
    requires Valid(key) && Valid(b) && Valid(query)
  {
    && Taxicab(key, query, MaxDim(key, query)) <= Taxicab(b, query, MaxDim(b, query))
    && Squared(key, query, MaxDim(key, query)) <= Squared(b, query, MaxDim(b, query))
    && Chebyshev(key, query, MaxDim(key, query)) <= Chebyshev(b, query, MaxDim(b, query))
    && forall coord :: coord != 0 ==> CoordNoFarther(key, b, coord)
  }

  ghost predicate CoordNoFarther(key: Box, b: Box, coord: int)
    requires Valid(key) && Valid(b) && coord != 0
  {
    CoordDistance(key, coord, false).v <= CoordDistance(b, coord, true).v
  }

  /** A derived key's distances are lower bounds for every box that went into it. */
  lemma DerivedAdmissible(d: Derivation, b: Box, query: Box)
    requires Built(d) && Holds(d, b) && Valid(query)
    ensures Valid(b) && Valid(KeyOf(d)) && NoFarther(KeyOf(d), b, query)
  {
    DerivedEncloses(d, b);
    DistanceAdmissible(KeyOf(d), b, query);
    forall coord | coord != 0
      ensures CoordNoFarther(KeyOf(d), b, coord)
    {
      CoordAdmissible(KeyOf(d), b, coord);
    }
  }

  /** `r` is the square root of `x`. */
  predicate IsRoot(r: real, x: real) {
    r >= 0.0 && r * r == x
  }

  /** The Euclidean distances themselves are in the same order. */
  lemma EuclideanAdmissible(d: Derivation, b: Box, query: Box, r: real, s: real)
    requires Built(d) && Holds(d, b) && Valid(query) && Valid(b) && Valid(KeyOf(d))
    requires IsRoot(r, Squared(KeyOf(d), query, MaxDim(KeyOf(d), query)))
    requires IsRoot(s, Squared(b, query, MaxDim(b, query)))
    ensures r <= s
  {
    hide Built, Holds;
    DerivedAdmissible(d, b, query);
    if r > s {
      StrictSquares(s, r);
    }
  }

  lemma StrictSquares(s: real, r: real)
    requires 0.0 <= s < r
    ensures s * s < r * r
  {
    var e := r - s;
    assert r * r == s * s + 2.0 * (s * e) + e * e;
    assert s * e >= 0.0 && e * e > 0.0;
  }

  /** Every downlink is no farther from the query than any box below it, on every level. */
  ghost predicate Admissible(t: Tree, query: Box)
    requires Valid(query)
  {
    t.InnerPage? ==> AdmissibleBelow(t.entries, query)
  }

  ghost predicate AdmissibleBelow(entries: Entries, query: Box)
    requires Valid(query)
  {
    entries.Entry? ==>
      && Admissible(entries.child, query) && AdmissibleBelow(entries.rest, query) && Valid(KeyOf(entries.key))
      && (forall b :: b in Boxes(entries.child) ==> Valid(b) && NoFarther(KeyOf(entries.key), b, query))
  }

  /** So a best-first search may trust the keys of a tree. */
  lemma {:induction false} KeysAdmissible(t: Tree, query: Box)
    requires TreeOk(t) && Valid(query)
    ensures Admissible(t, query)
    decreases t
  {
    if t.InnerPage? {
      KeysAdmissibleBelow(t.entries, query);
    }
  }

  lemma {:induction false} KeysAdmissibleBelow(entries: Entries, query: Box)
    requires EntriesOk(entries) && Valid(query)
    ensures AdmissibleBelow(entries, query)
    decreases entries
  {
    hide NoFarther, Built, Holds;
    if entries.Entry? {
      KeysAdmissible(entries.child, query);
      KeysAdmissibleBelow(entries.rest, query);
      BuiltValid(entries.key);
      forall b | b in Boxes(entries.child)
        ensures Valid(b) && NoFarther(KeyOf(entries.key), b, query)
      {
        DerivedAdmissible(entries.key, b, query);
      }
    }
  }
}
