/**
 Trees of any height over variable-length keys: every key comes from unions, leaf
 splits and internal splits that do not spill, and then a search finds exactly the
 stored values that satisfy the query.
 */
module VarKeyTree {
  import opened Common
  import opened ByteOrder
  import opened VarKey
  import opened VarKeySplit

  // ------------------------------------------------------------ how keys come about

  datatype Derivation =
    | Value(v: Bytes)
    | UnionOf(parts: seq<Derivation>)
    | LeafSplit(own: seq<Bytes>, other: seq<Bytes>)
    | InnerSplit(mine: seq<Derivation>, theirs: seq<Derivation>)

  function Leaves(values: seq<Bytes>): (r: seq<Key>)
    ensures |r| == |values| && forall i :: 0 <= i < |r| ==> r[i] == Leaf(values[i])
  {
    seq(|values|, i requires 0 <= i < |values| => Leaf(values[i]))
  }

  /** The key a derivation produces; a derivation over nothing stands for the empty value. */
  function KeyOf(d: Derivation): Key
    decreases d
  {
    match d
    case Value(v) => Leaf(v)
    case UnionOf(parts) => if parts == [] then Leaf([]) else UnionKey(Keys(parts))
    case LeafSplit(own, other) => if own == [] || other == [] then Leaf([]) else SplitKey(Leaves(own), Leaves(other))
    case InnerSplit(mine, theirs) => if mine == [] || theirs == [] then Leaf([]) else SplitKey(Keys(mine), Keys(theirs))
  }

  function Keys(ds: seq<Derivation>): (r: seq<Key>)
    ensures |r| == |ds|
    decreases ds
  {
    if ds == [] then [] else [KeyOf(ds[0])] + Keys(ds[1..])
  }

  lemma {:induction false} KeysAt(ds: seq<Derivation>, i: nat)
    requires i < |ds|
    ensures Keys(ds)[i] == KeyOf(ds[i])
  {
    if i > 0 {
      KeysAt(ds[1..], i - 1);
    }
  }

  /** Nothing is derived from no entries. */
  ghost predicate Formed(d: Derivation)
    decreases d
  {
    match d
    case Value(_) => true
    case UnionOf(parts) => parts != [] && forall i :: 0 <= i < |parts| ==> Formed(parts[i])
    case LeafSplit(own, other) => own != [] && other != []
    case InnerSplit(mine, theirs) => mine != [] && theirs != [] && forall i :: 0 <= i < |mine| ==> Formed(mine[i])
  }

  lemma {:induction false} DryFormed(d: Derivation)
    requires Dry(d)
    ensures Formed(d)
    decreases d
  {
    match d
    case Value(_) =>
    case UnionOf(parts) =>
      forall i | 0 <= i < |parts|
        ensures Formed(parts[i])
      {
        DryFormed(parts[i]);
      }
    case LeafSplit(_, _) =>
    case InnerSplit(mine, _) =>
      forall i | 0 <= i < |mine|
        ensures Formed(mine[i])
      {
        DryFormed(mine[i]);
      }
  }

  /** Internal splits along the way did not spill. */
  ghost predicate Dry(d: Derivation)
    decreases d
  {
    match d
    case Value(_) => true
    case UnionOf(parts) => parts != [] && forall i :: 0 <= i < |parts| ==> Dry(parts[i])
    case LeafSplit(own, other) => own != [] && other != []
    case InnerSplit(mine, theirs) =>
      && mine != [] && theirs != [] && NoneSpills(Keys(mine), Keys(theirs))
      && (forall i :: 0 <= i < |mine| ==> Dry(mine[i]))
  }

  /** The values that went into a key. */
  ghost predicate Holds(d: Derivation, v: Bytes)
    decreases d
  {
    match d
    case Value(w) => v == w
    case UnionOf(parts) => exists i :: 0 <= i < |parts| && Holds(parts[i], v)
    case LeafSplit(own, _) => v in own
    case InnerSplit(mine, _) => exists i :: 0 <= i < |mine| && Holds(mine[i], v)
  }

  lemma OrderedSplit(own: seq<Key>, other: seq<Key>, i: nat)
    requires i < |own| && other != [] && Ordered(own[i])
    ensures Ordered(SplitKey(own, other))
  {
    hide Leq;
    OrderedHull(own, i);
    TruncateOrdered(Hull(own), Max(Hull(own).Shared(), Hull(other).Shared()) + 1);
  }

  lemma {:induction false} DerivedOrdered(d: Derivation)
    requires Formed(d)
    ensures Ordered(KeyOf(d))
    decreases d
  {
    hide Leq, Hull, Take;
    match d
    case Value(v) => LeafCovers(v);
    case UnionOf(parts) =>
      DerivedOrdered(parts[0]);
      KeysAt(parts, 0);
      OrderedHull(Keys(parts), 0);
      TruncateOrdered(Hull(Keys(parts)), Hull(Keys(parts)).Shared() + 1);
    case LeafSplit(own, other) =>
      LeafCovers(own[0]);
      OrderedSplit(Leaves(own), Leaves(other), 0);
    case InnerSplit(mine, theirs) =>
      DerivedOrdered(mine[0]);
      KeysAt(mine, 0);
      OrderedSplit(Keys(mine), Keys(theirs), 0);
  }

  /** A derived key covers every value that went into it, however often bounds were cut. */
  lemma {:induction false} DerivedCovers(d: Derivation, v: Bytes)
    requires Dry(d) && Holds(d, v)
    ensures Covers(KeyOf(d), v)
    decreases d
  {
    hide Leq, Hull, Take, Covers, Ordered, UnionKey, SplitKey, Spills;
    match d
    case Value(w) => LeafCovers(w);
    case UnionOf(parts) =>
      var i :| 0 <= i < |parts| && Holds(parts[i], v);
      DerivedCovers(parts[i], v);
      DryFormed(parts[i]);
      DerivedOrdered(parts[i]);
      KeysAt(parts, i);
      UnionCovers(Keys(parts), i, v);
    case LeafSplit(own, other) =>
      var i :| 0 <= i < |own| && own[i] == v;
      LeafCovers(v);
      SplitCovers(Leaves(own), Leaves(other), i, v);
    case InnerSplit(mine, theirs) =>
      var i :| 0 <= i < |mine| && Holds(mine[i], v);
      DerivedCovers(mine[i], v);
      DryFormed(mine[i]);
      DerivedOrdered(mine[i]);
      KeysAt(mine, i);
      SideCutsAround(Keys(mine), Keys(theirs), i);
      SplitBounds(Keys(mine), Keys(theirs));
      DryCovers(SplitKey(Keys(mine), Keys(theirs)), Hull(Keys(mine)), Keys(mine)[i], v);
  }

  // ------------------------------------------------------------ trees

  datatype Tree = LeafPage(values: seq<Bytes>) | InnerPage(entries: Entries)

  /** Downlinks: each with its key, as it was derived, and the page below. */
  datatype Entries = Empty | Entry(key: Derivation, child: Tree, rest: Entries)

  function Values(t: Tree): seq<Bytes> {
    match t
    case LeafPage(values) => values
    case InnerPage(entries) => ValuesBelow(entries)
  }

  function ValuesBelow(entries: Entries): seq<Bytes> {
    if entries.Empty? then [] else Values(entries.child) + ValuesBelow(entries.rest)
  }

  /** Every downlink's key was derived from at least the values below it. */
  ghost predicate TreeOk(t: Tree) {
    match t
    case LeafPage(_) => true
    case InnerPage(entries) => EntriesOk(entries)
  }

  ghost predicate EntriesOk(entries: Entries) {
    entries.Entry? ==>
      && Dry(entries.key) && TreeOk(entries.child)
      && (forall v :: v in Values(entries.child) ==> Holds(entries.key, v))
      && EntriesOk(entries.rest)
  }

  /** What a query asks for. */
  function Asked(query: Bytes, strategy: nat): Bytes -> bool {
    v => Satisfies(v, query, strategy)
  }

  /** A GiST search: descend where the key is consistent, test the leaf entries. */
  function Search(t: Tree, query: Bytes, strategy: nat): seq<Bytes> {
    match t
    case LeafPage(values) => SearchLeaf(values, query, strategy)
    case InnerPage(entries) => SearchBelow(entries, query, strategy)
  }

  function SearchLeaf(values: seq<Bytes>, query: Bytes, strategy: nat): seq<Bytes> {
    if values == [] then []
    else (if Consistent(Leaf(values[0]), query, strategy, true) then [values[0]] else [])
         + SearchLeaf(values[1..], query, strategy)
  }

  function SearchBelow(entries: Entries, query: Bytes, strategy: nat): seq<Bytes> {
    if entries.Empty? then []
    else (if Consistent(KeyOf(entries.key), query, strategy, false)
          then Search(entries.child, query, strategy) else [])
         + SearchBelow(entries.rest, query, strategy)
  }

  lemma {:induction false} SearchLeafExact(values: seq<Bytes>, query: Bytes, strategy: nat)
    ensures SearchLeaf(values, query, strategy) == Filter(values, Asked(query, strategy))
  {
    hide Satisfies, Consistent;
    if values != [] {
      LeafExact(values[0], query, strategy);
      SearchLeafExact(values[1..], query, strategy);
    }
  }

  /** A rejected downlink has no matching value below it. */
  lemma RejectedIsEmpty(e: Entries, query: Bytes, strategy: nat)
    requires e.Entry? && Dry(e.key) && (forall v :: v in Values(e.child) ==> Holds(e.key, v))
    requires !Consistent(KeyOf(e.key), query, strategy, false)
    ensures forall v :: v in Values(e.child) ==> !Satisfies(v, query, strategy)
  {
    hide Satisfies, Consistent, Covers, Holds, Dry, KeyOf;
    forall v | v in Values(e.child)
      ensures !Satisfies(v, query, strategy)
    {
      if Satisfies(v, query, strategy) {
        DerivedCovers(e.key, v);
        CoveredConsistent(KeyOf(e.key), v, query, strategy);
      }
    }
  }

  /** A search returns exactly the stored values that satisfy the query: nothing missed, nothing extra. */
  lemma {:induction false} SearchExact(t: Tree, query: Bytes, strategy: nat)
    requires TreeOk(t)
    ensures Search(t, query, strategy) == Filter(Values(t), Asked(query, strategy))
    decreases t
  {
    match t
    case LeafPage(values) => SearchLeafExact(values, query, strategy);
    case InnerPage(entries) => SearchBelowExact(entries, query, strategy);
  }

  lemma {:induction false} SearchBelowExact(entries: Entries, query: Bytes, strategy: nat)
    requires EntriesOk(entries)
    ensures SearchBelow(entries, query, strategy) == Filter(ValuesBelow(entries), Asked(query, strategy))
    decreases entries
  {
    hide Satisfies, Consistent, Holds, Dry, KeyOf;
    if entries.Entry? {
      SearchBelowExact(entries.rest, query, strategy);
      FilterConcat(Values(entries.child), ValuesBelow(entries.rest), Asked(query, strategy));
      if Consistent(KeyOf(entries.key), query, strategy, false) {
        SearchExact(entries.child, query, strategy);
      } else {
        RejectedIsEmpty(entries, query, strategy);
        FilterNone(Values(entries.child), Asked(query, strategy));
      }
    }
  }

  // ------------------------------------------------------------ exactly when searches are right

  /** An equality search for the value passes the key, and a key for one value only is not for another one. */
  predicate Finds(k: Key, v: Bytes) {
    Consistent(k, v, EQUAL, false) && (k.Lower() == k.Upper() ==> v == k.Lower())
  }

  ghost predicate NeverRejected(k: Key, v: Bytes) {
    forall query, strategy :: Satisfies(v, query, strategy) ==> Consistent(k, query, strategy, false)
  }

  lemma FoundConsistent(k: Key, v: Bytes, query: Bytes, strategy: nat)
    requires Ordered(k) && Finds(k, v) && Satisfies(v, query, strategy)
    ensures Consistent(k, query, strategy, false)
  {
    hide Leq;
    FoundAbove(k, v);
    if strategy == LESS || strategy == LESS_EQUAL {
      LeqTransitive(k.Lower(), v, query);
    } else if strategy == GREATER || strategy == GREATER_EQUAL {
      if Leq(v, k.Upper()) {
        LeqTransitive(query, v, k.Upper());
      } else if !Leq(query, k.Upper()) {
        LeqTotal(query, k.Upper());
        LeqTransitive(k.Lower(), k.Upper(), query);
        if k.Upper() <= v {
          Between(k.Upper(), query, v);
        } else {
          Between(k.Lower(), query, v);
        }
      }
    }
  }

  /** A value that is found is not below the lower bound. */
  lemma FoundAbove(k: Key, v: Bytes)
    requires Ordered(k) && Finds(k, v)
    ensures Leq(k.Lower(), v) && (Leq(v, k.Upper()) || k.Upper() <= v || k.Lower() <= v)
  {
    hide Leq;
    if k.Lower() <= v {
      PrefixParts(k.Lower(), v);
    } else if k.Upper() <= v {
      PrefixParts(k.Upper(), v);
      LeqTransitive(k.Lower(), k.Upper(), v);
    }
  }

  /** A key never rejects a search that a value satisfies exactly when it finds the value. */
  lemma FindsExactly(k: Key, v: Bytes)
    requires Ordered(k)
    ensures NeverRejected(k, v) <==> Finds(k, v)
  {
    hide Leq, Consistent;
    if Finds(k, v) {
      forall query, strategy | Satisfies(v, query, strategy)
        ensures Consistent(k, query, strategy, false)
      {
        FoundConsistent(k, v, query, strategy);
      }
    }
    if NeverRejected(k, v) {
      assert Satisfies(v, v, EQUAL);
      if k.Lower() == k.Upper() && v != k.Lower() {
        assert Satisfies(v, k.Lower(), NOT_EQUAL);
        OneValueRejects(k);
      }
    }
  }

  lemma OneValueRejects(k: Key)
    requires k.Lower() == k.Upper()
    ensures !Consistent(k, k.Lower(), NOT_EQUAL, false)
  {
  }

  /** Every key was derived from something. */
  ghost predicate TreeFormed(t: Tree) {
    t.InnerPage? ==> EntriesFormed(t.entries)
  }

  ghost predicate EntriesFormed(entries: Entries) {
    entries.Entry? ==> Formed(entries.key) && TreeFormed(entries.child) && EntriesFormed(entries.rest)
  }

  /** Every key finds every value stored below it. */
  ghost predicate TreeFinds(t: Tree) {
    t.InnerPage? ==> EntriesFind(t.entries)
  }

  ghost predicate EntriesFind(entries: Entries) {
    entries.Entry? ==>
      && (forall v :: v in Values(entries.child) ==> Finds(KeyOf(entries.key), v))
      && TreeFinds(entries.child) && EntriesFind(entries.rest)
  }

  ghost predicate AlwaysExact(t: Tree) {
    forall query, strategy :: Search(t, query, strategy) == Filter(Values(t), Asked(query, strategy))
  }

  lemma RejectedHasNone(e: Entries, query: Bytes, strategy: nat)
    requires e.Entry? && Formed(e.key) && (forall v :: v in Values(e.child) ==> Finds(KeyOf(e.key), v))
    requires !Consistent(KeyOf(e.key), query, strategy, false)
    ensures Filter(Values(e.child), Asked(query, strategy)) == []
  {
    hide Satisfies, Consistent, Finds, Formed, KeyOf, Ordered;
    DerivedOrdered(e.key);
    forall v | v in Values(e.child)
      ensures !Satisfies(v, query, strategy)
    {
      if Satisfies(v, query, strategy) {
        FoundConsistent(KeyOf(e.key), v, query, strategy);
      }
    }
    FilterNone(Values(e.child), Asked(query, strategy));
  }

  lemma {:induction false} FoundExact(t: Tree, query: Bytes, strategy: nat)
    requires TreeFormed(t) && TreeFinds(t)
    ensures Search(t, query, strategy) == Filter(Values(t), Asked(query, strategy))
    decreases t
  {
    match t
    case LeafPage(values) => SearchLeafExact(values, query, strategy);
    case InnerPage(entries) => FoundBelowExact(entries, query, strategy);
  }

  lemma {:induction false} FoundBelowExact(entries: Entries, query: Bytes, strategy: nat)
    requires EntriesFormed(entries) && EntriesFind(entries)
    ensures SearchBelow(entries, query, strategy) == Filter(ValuesBelow(entries), Asked(query, strategy))
    decreases entries
  {
    hide Consistent, Finds, Formed, KeyOf, Asked;
    if entries.Entry? {
      FoundBelowExact(entries.rest, query, strategy);
      FilterConcat(Values(entries.child), ValuesBelow(entries.rest), Asked(query, strategy));
      if Consistent(KeyOf(entries.key), query, strategy, false) {
        FoundExact(entries.child, query, strategy);
      } else {
        RejectedHasNone(entries, query, strategy);
      }
    }
  }

  /** A search never finds more than is there. */
  lemma {:induction false} FindsNoMore(t: Tree, query: Bytes, strategy: nat)
    ensures |Search(t, query, strategy)| <= |Filter(Values(t), Asked(query, strategy))|
    decreases t
  {
    match t
    case LeafPage(values) => SearchLeafExact(values, query, strategy);
    case InnerPage(entries) => FindsNoMoreBelow(entries, query, strategy);
  }

  lemma {:induction false} FindsNoMoreBelow(entries: Entries, query: Bytes, strategy: nat)
    ensures |SearchBelow(entries, query, strategy)| <= |Filter(ValuesBelow(entries), Asked(query, strategy))|
    decreases entries
  {
    hide Consistent, KeyOf, Asked;
    if entries.Entry? {
      FilterConcat(Values(entries.child), ValuesBelow(entries.rest), Asked(query, strategy));
      FindsNoMore(entries.child, query, strategy);
      FindsNoMoreBelow(entries.rest, query, strategy);
    }
  }

  /** A value that a key does not find is missed by some search. */
  lemma MissedBy(k: Key, v: Bytes) returns (query: Bytes, strategy: nat)
    requires Ordered(k) && !Finds(k, v)
    ensures Satisfies(v, query, strategy) && !Consistent(k, query, strategy, false)
  {
    hide Satisfies, Consistent, Finds, Ordered;
    FindsExactly(k, v);
    query, strategy :| Satisfies(v, query, strategy) && !Consistent(k, query, strategy, false);
  }

  lemma {:induction false} Misses(t: Tree) returns (query: Bytes, strategy: nat)
    requires TreeFormed(t) && !TreeFinds(t)
    ensures |Search(t, query, strategy)| < |Filter(Values(t), Asked(query, strategy))|
    decreases t
  {
    query, strategy := MissesBelow(t.entries);
  }

  lemma {:induction false} MissesBelow(entries: Entries) returns (query: Bytes, strategy: nat)
    requires EntriesFormed(entries) && !EntriesFind(entries)
    ensures |SearchBelow(entries, query, strategy)| < |Filter(ValuesBelow(entries), Asked(query, strategy))|
    decreases entries
  {
    hide Satisfies, Consistent, Finds, Formed, KeyOf, Ordered;
    var values := Values(entries.child);
    if v :| v in values && !Finds(KeyOf(entries.key), v) {
      DerivedOrdered(entries.key);
      query, strategy := MissedBy(KeyOf(entries.key), v);
      FilterKeeps(values, Asked(query, strategy), v);
      FindsNoMoreBelow(entries.rest, query, strategy);
    } else if !TreeFinds(entries.child) {
      query, strategy := Misses(entries.child);
      FindsNoMoreBelow(entries.rest, query, strategy);
    } else {
      query, strategy := MissesBelow(entries.rest);
      FindsNoMore(entries.child, query, strategy);
    }
    FilterConcat(values, ValuesBelow(entries.rest), Asked(query, strategy));
  }

  /** All searches of a tree are exact if and only if every key finds every value stored below it. */
  lemma SearchExactly(t: Tree)
    requires TreeFormed(t)
    ensures AlwaysExact(t) <==> TreeFinds(t)
  {
    if TreeFinds(t) {
      forall query, strategy
        ensures Search(t, query, strategy) == Filter(Values(t), Asked(query, strategy))
      {
        FoundExact(t, query, strategy);
      }
    } else {
      var query, strategy := Misses(t);
    }
  }

  /** The key of a derivation above a leaf page of values that went into it. */
  function Above(d: Derivation, values: seq<Bytes>): Tree {
    InnerPage(Entry(d, LeafPage(values), Empty))
  }

  ghost predicate HoldsAll(d: Derivation, values: seq<Bytes>) {
    forall v :: v in values ==> Holds(d, v)
  }

  lemma AboveFinds(d: Derivation, values: seq<Bytes>)
    requires Formed(d)
    ensures TreeFormed(Above(d, values))
    ensures TreeFinds(Above(d, values)) <==> forall v :: v in values ==> Finds(KeyOf(d), v)
  {
    hide Finds, KeyOf, Formed;
    var leaf := LeafPage(values);
    assert Values(leaf) == values && TreeFinds(leaf) && TreeFormed(leaf) && EntriesFind(Empty) && EntriesFormed(Empty);
  }

  /** Every page of values that went into the key is searched exactly below it. */
  ghost predicate EveryTreeExact(d: Derivation) {
    forall values :: HoldsAll(d, values) ==> AlwaysExact(Above(d, values))
  }

  ghost predicate FindsAll(d: Derivation) {
    forall v :: Holds(d, v) ==> Finds(KeyOf(d), v)
  }

  /** That is so if and only if the key finds every value that went into it. */
  lemma DerivationExactly(d: Derivation)
    requires Formed(d)
    ensures EveryTreeExact(d) <==> FindsAll(d)
  {
    hide Finds, Holds, KeyOf, AlwaysExact, Formed, TreeFinds, TreeFormed, Above;
    if FindsAll(d) {
      forall values | HoldsAll(d, values)
        ensures AlwaysExact(Above(d, values))
      {
        AboveFinds(d, values);
        SearchExactly(Above(d, values));
      }
    }
    if EveryTreeExact(d) {
      forall v | Holds(d, v)
        ensures Finds(KeyOf(d), v)
      {
        assert HoldsAll(d, [v]);
        AboveFinds(d, [v]);
        SearchExactly(Above(d, [v]));
        assert v in [v];
      }
    }
  }

  // ------------------------------------------------------------ an internal split that spills

  /** "aa" and "ac9z" below one downlink, "ac9b" and "ac9c" below the next. */
  const WIDE: Derivation := UnionOf([Value([97, 97]), Value([97, 99, 57, 122])])
  const NARROW: Derivation := UnionOf([Value([97, 99, 57, 98]), Value([97, 99, 57, 99])])
  /** The two downlinks on the right share a long prefix. */
  const FAR: Derivation := UnionOf([Value([122, 122, 122, 122, 49]), Value([122, 122, 122, 122, 50])])
  const FARTHER: Derivation := UnionOf([Value([122, 122, 122, 122, 51]), Value([122, 122, 122, 122, 52])])

  /** The page that is split, and its two halves. */
  const PAGE: seq<Derivation> := [WIDE, NARROW, FAR, FARTHER]
  const LEFT_SIDE: Derivation := InnerSplit([WIDE, NARROW], [FAR, FARTHER])
  const RIGHT_SIDE: Derivation := InnerSplit([FAR, FARTHER], [WIDE, NARROW])

  lemma SampleKeys()
    ensures KeyOf(WIDE) == Node([97, 97], [97, 99, 57])
    ensures KeyOf(NARROW) == Node([97, 99, 57, 98], [97, 99, 57, 99])
    ensures KeyOf(FAR) == Node([122, 122, 122, 122, 49], [122, 122, 122, 122, 50])
    ensures KeyOf(FARTHER) == Node([122, 122, 122, 122, 51], [122, 122, 122, 122, 52])
  {
    hide KeyOf;
    PairKey([97, 97], [97, 99, 57, 122], 1);
    PairKey([97, 99, 57, 98], [97, 99, 57, 99], 3);
    PairKey([122, 122, 122, 122, 49], [122, 122, 122, 122, 50], 4);
    PairKey([122, 122, 122, 122, 51], [122, 122, 122, 122, 52], 4);
  }

  lemma PairKey(a: Bytes, b: Bytes, n: nat)
    requires Parts(a, b, n) && n < |a| && n < |b| && a[n] < b[n]
    ensures KeyOf(UnionOf([Value(a), Value(b)])) == Node(Take(a, n + 2), Take(b, n + 2))
  {
    PartsUnique(a, b, n);
    PairKeys(Value(a), Value(b));
    PairHull(Leaf(a), Leaf(b));
  }

  lemma PairKeys(x: Derivation, y: Derivation)
    ensures Keys([x, y]) == [KeyOf(x), KeyOf(y)]
  {
    hide KeyOf;
    KeysAt([x, y], 0);
    KeysAt([x, y], 1);
  }

  lemma PairHull(x: Key, y: Key)
    requires Leq(x.Lower(), y.Lower()) && Leq(x.Upper(), y.Upper())
    ensures Hull([x, y]) == Node(x.Lower(), y.Upper())
  {
    assert [x, y][..1] == [x];
    if Leq(y.Upper(), x.Upper()) {
      LeqAntisymmetric(x.Upper(), y.Upper());
    }
  }

  lemma LeftKey()
    ensures KeyOf(LEFT_SIDE) == Node([97, 97], [97, 99, 57, 99])
  {
    hide Leq, Hull, KeyOf;
    SampleKeys();
    PairKeys(WIDE, NARROW);
    PairKeys(FAR, FARTHER);
    LeftKeyFrom(KeyOf(WIDE), KeyOf(NARROW), KeyOf(FAR), KeyOf(FARTHER));
    InnerKey([WIDE, NARROW], [FAR, FARTHER]);
  }

  lemma RightKey()
    ensures KeyOf(RIGHT_SIDE) == Node([122, 122, 122, 122, 49], [122, 122, 122, 122, 52])
  {
    hide Leq, Hull, KeyOf;
    SampleKeys();
    PairKeys(WIDE, NARROW);
    PairKeys(FAR, FARTHER);
    LeftKeyFrom(KeyOf(WIDE), KeyOf(NARROW), KeyOf(FAR), KeyOf(FARTHER));
    InnerKey([FAR, FARTHER], [WIDE, NARROW]);
  }

  lemma InnerKey(mine: seq<Derivation>, theirs: seq<Derivation>)
    requires mine != [] && theirs != []
    ensures KeyOf(InnerSplit(mine, theirs)) == SplitKey(Keys(mine), Keys(theirs))
  {
  }

  lemma LeftKeyFrom(wide: Key, narrow: Key, far: Key, farther: Key)
    requires wide == Node([97, 97], [97, 99, 57]) && narrow == Node([97, 99, 57, 98], [97, 99, 57, 99])
    requires far == Node([122, 122, 122, 122, 49], [122, 122, 122, 122, 50])
    requires farther == Node([122, 122, 122, 122, 51], [122, 122, 122, 122, 52])
    ensures SplitKey([wide, narrow], [far, farther]) == Node([97, 97], [97, 99, 57, 99])
    ensures SplitKey([far, farther], [wide, narrow]) == Node([122, 122, 122, 122, 49], [122, 122, 122, 122, 52])
  {
    PartsUnique(wide.lo, narrow.lo, 1);
    PartsUnique(wide.hi, narrow.hi, 3);
    PairHull(wide, narrow);
    PartsUnique(far.lo, farther.lo, 4);
    PartsUnique(far.hi, farther.hi, 4);
    PairHull(far, farther);
    PartsUnique(wide.lo, narrow.hi, 1);
    PartsUnique(far.lo, farther.hi, 4);
  }

  lemma PageKeys()
    ensures Keys(PAGE) == [KeyOf(WIDE), KeyOf(NARROW), KeyOf(FAR), KeyOf(FARTHER)]
  {
    hide KeyOf;
    KeysAt(PAGE, 0);
    KeysAt(PAGE, 1);
    KeysAt(PAGE, 2);
    KeysAt(PAGE, 3);
  }

  /** The page is in sorted order, so its first two entries go left and its last two right. */
  lemma PageSplits()
    ensures Sorted(Keys(PAGE), [0, 1, 2, 3]) && [0, 1, 2, 3][..|PAGE| / 2] == [0, 1]
    ensures KeyOf(LEFT_SIDE) == SplitKey(Chosen(Keys(PAGE), [0, 1, 2, 3], 0, 2), Chosen(Keys(PAGE), [0, 1, 2, 3], 2, 4))
    ensures KeyOf(RIGHT_SIDE) ==
            SplitKey(Chosen(Keys(PAGE), [0, 1, 2, 3], 2, 4), Chosen(Keys(PAGE), [0, 1, 2, 3], 0, 2))
  {
    hide KeyOf, Hull, Leq, SplitKey;
    SampleKeys();
    PageKeys();
    PairKeys(WIDE, NARROW);
    PairKeys(FAR, FARTHER);
    InnerKey([WIDE, NARROW], [FAR, FARTHER]);
    InnerKey([FAR, FARTHER], [WIDE, NARROW]);
    assert Chosen(Keys(PAGE), [0, 1, 2, 3], 0, 2) == [KeyOf(WIDE), KeyOf(NARROW)];
    assert Chosen(Keys(PAGE), [0, 1, 2, 3], 2, 4) == [KeyOf(FAR), KeyOf(FARTHER)];
    SampleSorted();
  }

  lemma SampleSorted()
    ensures Sorted(Keys(PAGE), [0, 1, 2, 3])
  {
    hide KeyOf;
    SampleKeys();
    PageKeys();
    var a, b, c, d := KeyOf(WIDE).lo, KeyOf(NARROW).lo, KeyOf(FAR).lo, KeyOf(FARTHER).lo;
    PartsUnique(a, b, 1);
    PartsUnique(a, c, 0);
    PartsUnique(a, d, 0);
    PartsUnique(b, c, 0);
    PartsUnique(b, d, 0);
    PartsUnique(c, d, 4);
  }

  function Pair(a: Bytes, b: Bytes): Tree {
    LeafPage([a, b])
  }

  /** The tree after the split: two internal pages of two leaf pages each. */
  const SPLIT_TREE: Tree :=
    InnerPage(Entry(LEFT_SIDE,
                    InnerPage(Entry(WIDE, Pair([97, 97], [97, 99, 57, 122]),
                              Entry(NARROW, Pair([97, 99, 57, 98], [97, 99, 57, 99]), Empty))),
              Entry(RIGHT_SIDE,
                    InnerPage(Entry(FAR, Pair([122, 122, 122, 122, 49], [122, 122, 122, 122, 50]),
                              Entry(FARTHER, Pair([122, 122, 122, 122, 51], [122, 122, 122, 122, 52]), Empty))),
              Empty)))

  /** Both keys reject "ac9z": the left one ends at "ac9c", the right one begins beyond. */
  lemma BothReject()
    ensures !Consistent(KeyOf(LEFT_SIDE), [97, 99, 57, 122], EQUAL, false)
    ensures !Consistent(KeyOf(RIGHT_SIDE), [97, 99, 57, 122], EQUAL, false)
  {
    hide KeyOf;
    LeftKey();
    RightKey();
    PartsUnique([97, 99, 57, 122], [97, 99, 57, 99], 3);
    PartsUnique([122, 122, 122, 122, 49], [97, 99, 57, 122], 0);
  }

  /** The left half of the page keeps four bytes of "ac9c", so the stored "ac9z" is above it and is not found. */
  lemma InternalSplitLoses()
    ensures Holds(LEFT_SIDE, [97, 99, 57, 122]) && [97, 99, 57, 122] in Values(SPLIT_TREE)
    ensures Search(SPLIT_TREE, [97, 99, 57, 122], EQUAL) == []
  {
    hide KeyOf, Consistent;
    BothReject();
    assert Holds(WIDE.parts[1], [97, 99, 57, 122]);
    assert Holds(LEFT_SIDE.mine[0], [97, 99, 57, 122]);
    var wide := Pair([97, 97], [97, 99, 57, 122]);
    assert Values(wide)[1] == [97, 99, 57, 122];
    var left := Entry(WIDE, wide, Entry(NARROW, Pair([97, 99, 57, 98], [97, 99, 57, 99]), Empty));
    assert [97, 99, 57, 122] in ValuesBelow(left);
    assert [97, 99, 57, 122] in Values(InnerPage(left)) && SPLIT_TREE.entries.child == InnerPage(left);
    assert [97, 99, 57, 122] in ValuesBelow(SPLIT_TREE.entries);
    assert SearchBelow(SPLIT_TREE.entries.rest, [97, 99, 57, 122], EQUAL) == [];
  }
}
