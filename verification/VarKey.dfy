/**
 Variable-length GiST keys (contrib/btree_gist/btree_utils_var.c) for bytea: an
 internal key is an interval whose two bounds are cut to a short prefix, and the
 consistent method makes up for the cut by a prefix match.
 */
module VarKey {
  import opened ByteOrder

  // ------------------------------------------------------------ keys

  /** `GBT_VARKEY`: a leaf key holds one value, a node key a lower and an upper bound. */
  datatype Key = Leaf(value: Bytes) | Node(lo: Bytes, hi: Bytes) {
    /** `gbt_var_key_readable`. */
    function Lower(): Bytes {
      if Leaf? then value else lo
    }

    function Upper(): Bytes {
      if Leaf? then value else hi
    }

    /** `gbt_var_node_cp_len`. */
    function Shared(): nat {
      CommonPrefix(Lower(), Upper())
    }
  }

  /** `gbt_var_node_truncate`: keep one byte more than `cpfLength` of each bound. */
  function Truncate(k: Key, cpfLength: nat): Key {
    Node(Take(k.Lower(), cpfLength + 1), Take(k.Upper(), cpfLength + 1))
  }

  /** `gbt_var_bin_union` onto an existing key. */
  function BinUnion(u: Key, e: Key): Key {
    Node(if Leq(u.Lower(), e.Lower()) then u.Lower() else e.Lower(),
         if Leq(e.Upper(), u.Upper()) then u.Upper() else e.Upper())
  }

  /** The untruncated union of some entries. */
  function Hull(entries: seq<Key>): Key
    requires entries != []
  {
    if |entries| == 1 then Node(entries[0].Lower(), entries[0].Upper())
    else BinUnion(Hull(entries[..|entries| - 1]), entries[|entries| - 1])
  }

  /** `gbt_var_union`. */
  function UnionKey(entries: seq<Key>): Key
    requires entries != []
  {
    Truncate(Hull(entries), Hull(entries).Shared() + 1)
  }

  /** One side of `gbt_var_picksplit`; both sides keep the same number of bytes. */
  function SplitKey(own: seq<Key>, other: seq<Key>): Key
    requires own != [] && other != []
  {
    Truncate(Hull(own), Max(Hull(own).Shared(), Hull(other).Shared()) + 1)
  }

  function Max(a: nat, b: nat): nat {
    if a < b then b else a
  }

  // ------------------------------------------------------------ the consistent method

  const LESS: nat := 1
  const LESS_EQUAL: nat := 2
  const EQUAL: nat := 3
  const GREATER_EQUAL: nat := 4
  const GREATER: nat := 5
  const NOT_EQUAL: nat := 6

  /** The operator a strategy number stands for, applied to a stored value. */
  predicate Satisfies(v: Bytes, query: Bytes, strategy: nat) {
    || (strategy == LESS && Less(v, query))
    || (strategy == LESS_EQUAL && Leq(v, query))
    || (strategy == EQUAL && v == query)
    || (strategy == GREATER_EQUAL && Leq(query, v))
    || (strategy == GREATER && Less(query, v))
    || (strategy == NOT_EQUAL && v != query)
  }

  /** `gbt_var_node_pf_match`: a bound is a prefix of the query. */
  predicate PrefixMatch(k: Key, query: Bytes) {
    k.Lower() <= query || k.Upper() <= query
  }

  /** `gbt_var_consistent`. */
  predicate Consistent(k: Key, query: Bytes, strategy: nat, isLeaf: bool) {
    if strategy == LESS_EQUAL then
      if isLeaf then Leq(k.Lower(), query) else Leq(k.Lower(), query) || PrefixMatch(k, query)
    else if strategy == LESS then
      if isLeaf then Less(k.Lower(), query) else Leq(k.Lower(), query) || PrefixMatch(k, query)
    else if strategy == EQUAL then
      if isLeaf then query == k.Lower()
      else (Leq(k.Lower(), query) && Leq(query, k.Upper())) || PrefixMatch(k, query)
    else if strategy == GREATER then
      if isLeaf then Less(query, k.Upper()) else Leq(query, k.Upper()) || PrefixMatch(k, query)
    else if strategy == GREATER_EQUAL then
      if isLeaf then Leq(query, k.Upper()) else Leq(query, k.Upper()) || PrefixMatch(k, query)
    else if strategy == NOT_EQUAL then
      !(query == k.Lower() && query == k.Upper())
    else false
  }

  /** On leaf entries the method is exact. */
  lemma LeafExact(v: Bytes, query: Bytes, strategy: nat)
    ensures Consistent(Leaf(v), query, strategy, true) <==> Satisfies(v, query, strategy)
  {
  }

  // ------------------------------------------------------------ coverage

  ghost predicate Ordered(k: Key) {
    Leq(k.Lower(), k.Upper())
  }

  /** At least two bytes of the upper bound follow the common prefix, so it may stand for its extensions. */
  predicate Open(k: Key) {
    |k.Upper()| >= k.Shared() + 2
  }

  /** The values a key can account for. */
  ghost predicate Covers(k: Key, v: Bytes) {
    Leq(k.Lower(), v) && (Leq(v, k.Upper()) || (Open(k) && k.Upper() <= v))
  }

  lemma LeafCovers(v: Bytes)
    ensures Ordered(Leaf(v)) && !Open(Leaf(v)) && Covers(Leaf(v), v)
  {
    LeqTotal(v, v);
    CommonPrefixSelf(v);
  }

  /** A key that covers a value is never rejected by a query the value satisfies. */
  lemma CoveredConsistent(k: Key, v: Bytes, query: Bytes, strategy: nat)
    requires Covers(k, v) && Satisfies(v, query, strategy)
    ensures Consistent(k, query, strategy, false)
  {
    if strategy == LESS || strategy == LESS_EQUAL {
      LeqTransitive(k.Lower(), v, query);
    } else if strategy == GREATER || strategy == GREATER_EQUAL {
      AboveConsistent(k, v, query);
    } else if strategy == NOT_EQUAL && query == k.Lower() && query == k.Upper() {
      CommonPrefixSelf(query);
      LeqAntisymmetric(query, v);
    }
  }

  lemma AboveConsistent(k: Key, v: Bytes, query: Bytes)
    requires (Leq(v, k.Upper()) || k.Upper() <= v) && Leq(query, v)
    ensures Leq(query, k.Upper()) || PrefixMatch(k, query)
  {
    if Leq(v, k.Upper()) {
      LeqTransitive(query, v, k.Upper());
    } else if !Leq(query, k.Upper()) {
      LeqTotal(query, k.Upper());
      Between(k.Upper(), query, v);
    }
  }

  // ------------------------------------------------------------ what is rejected

  /** A bound on one side: some value at or above the lower bound is at or below the query. */
  ghost predicate ReachesDown(k: Key, query: Bytes) {
    exists v :: Leq(k.Lower(), v) && Leq(v, query)
  }

  /** A bound on the other: some value up to the upper bound, or extending it, is at or above the query. */
  ghost predicate ReachesUp(k: Key, query: Bytes) {
    exists v :: (Leq(v, k.Upper()) || k.Upper() <= v) && Leq(query, v)
  }

  lemma ReachesDownIs(k: Key, query: Bytes)
    ensures ReachesDown(k, query) <==> Leq(k.Lower(), query)
  {
    hide Leq;
    LeqTotal(query, query);
    if ReachesDown(k, query) {
      var v :| Leq(k.Lower(), v) && Leq(v, query);
      LeqTransitive(k.Lower(), v, query);
    }
  }

  lemma ReachesUpIs(k: Key, query: Bytes)
    ensures ReachesUp(k, query) <==> Leq(query, k.Upper()) || k.Upper() <= query
  {
    hide Leq;
    LeqTotal(query, query);
    if ReachesUp(k, query) && !Leq(query, k.Upper()) {
      var v :| (Leq(v, k.Upper()) || k.Upper() <= v) && Leq(query, v);
      if Leq(v, k.Upper()) {
        LeqTransitive(query, v, k.Upper());
      }
      LeqTotal(query, k.Upper());
      Between(k.Upper(), query, v);
    }
  }

  /**
   Exactly when an internal key is rejected, for every strategy and every key:
   no value its bounds allow can answer the query, and no bound is a prefix of it.
   */
  lemma RejectsExactly(k: Key, query: Bytes, strategy: nat)
    ensures strategy == LESS || strategy == LESS_EQUAL ==>
              (!Consistent(k, query, strategy, false) <==> !ReachesDown(k, query) && !(k.Upper() <= query))
    ensures strategy == GREATER || strategy == GREATER_EQUAL ==>
              (!Consistent(k, query, strategy, false) <==> !ReachesUp(k, query) && !(k.Lower() <= query))
    ensures strategy == EQUAL ==>
              (!Consistent(k, query, strategy, false) <==>
               && (Less(query, k.Lower()) || Less(k.Upper(), query))
               && !(k.Lower() <= query) && !(k.Upper() <= query))
    ensures strategy == NOT_EQUAL ==>
              (!Consistent(k, query, strategy, false) <==> {k.Lower(), k.Upper()} == {query})
    ensures !(LESS <= strategy <= NOT_EQUAL) ==> !Consistent(k, query, strategy, false)
  {
    hide Leq;
    ReachesDownIs(k, query);
    ReachesUpIs(k, query);
    LeqTotal(k.Lower(), query);
    LeqTotal(k.Upper(), query);
    LessIs(query, k.Lower());
    LessIs(k.Upper(), query);
    PrefixParts(k.Lower(), query);
  }

  lemma LessIs(a: Bytes, b: Bytes)
    ensures Less(a, b) <==> !Leq(b, a)
  {
    hide Leq;
    LeqTotal(a, b);
    if Leq(a, b) && Leq(b, a) {
      LeqAntisymmetric(a, b);
    }
  }

  // ------------------------------------------------------------ unions

  lemma BinUnionContains(u: Key, e: Key)
    ensures var k := BinUnion(u, e);
            && Leq(k.Lower(), u.Lower()) && Leq(k.Lower(), e.Lower())
            && Leq(u.Upper(), k.Upper()) && Leq(e.Upper(), k.Upper())
  {
    LeqTotal(u.Lower(), e.Lower());
    LeqTotal(u.Upper(), e.Upper());
    LeqTotal(BinUnion(u, e).Lower(), BinUnion(u, e).Lower());
    LeqTotal(BinUnion(u, e).Upper(), BinUnion(u, e).Upper());
  }

  /** Every entry lies inside the hull. */
  lemma {:induction false} HullContains(entries: seq<Key>, i: nat)
    requires i < |entries|
    ensures Leq(Hull(entries).Lower(), entries[i].Lower()) && Leq(entries[i].Upper(), Hull(entries).Upper())
  {
    hide Leq;
    var last := |entries| - 1;
    if last == 0 {
      LeqTotal(entries[0].Lower(), entries[0].Lower());
      LeqTotal(entries[0].Upper(), entries[0].Upper());
    } else {
      var rest := Hull(entries[..last]);
      BinUnionContains(rest, entries[last]);
      if i < last {
        HullContains(entries[..last], i);
        LeqTransitive(Hull(entries).Lower(), rest.Lower(), entries[i].Lower());
        LeqTransitive(entries[i].Upper(), rest.Upper(), Hull(entries).Upper());
      }
    }
  }

  /** The hull's bounds are bounds of entries `i` and `j`: it is the least interval. */
  lemma {:induction false} HullTight(entries: seq<Key>) returns (i: nat, j: nat)
    requires entries != []
    ensures i < |entries| && entries[i].Lower() == Hull(entries).Lower()
    ensures j < |entries| && entries[j].Upper() == Hull(entries).Upper()
  {
    var last := |entries| - 1;
    i, j := 0, 0;
    if last > 0 {
      i, j := HullTight(entries[..last]);
      i := if entries[last].Lower() == Hull(entries).Lower() then last else i;
      j := if entries[last].Upper() == Hull(entries).Upper() then last else j;
    }
  }

  lemma OrderedHull(entries: seq<Key>, i: nat)
    requires i < |entries| && Ordered(entries[i])
    ensures Ordered(Hull(entries))
  {
    hide Leq;
    HullContains(entries, i);
    LeqTransitive(Hull(entries).Lower(), entries[i].Lower(), entries[i].Upper());
    LeqTransitive(Hull(entries).Lower(), entries[i].Upper(), Hull(entries).Upper());
  }

  /**
   Cutting the hull of an entry keeps what the entry covers: always when the cut
   leaves exactly two bytes after the common prefix, and at any longer cut when
   the entry's upper bound is exact.
   */
  lemma TruncateCovers(h: Key, e: Key, v: Bytes, n: nat)
    requires Leq(h.Lower(), e.Lower()) && Leq(e.Upper(), h.Upper()) && Ordered(e) && Covers(e, v)
    requires n + 1 >= h.Shared() + 2 && (Open(e) ==> n + 1 == h.Shared() + 2)
    ensures Covers(Truncate(h, n), v)
  {
    hide Leq;
    var k := Truncate(h, n);
    LowerCovers(h, e, v, n);
    TakeKeepsCommonPrefix(h.Lower(), h.Upper(), n + 1);
    if Leq(v, h.Upper()) {
      BelowTake(v, h.Upper(), n + 1);
    } else {
      OpenAbove(h, e, v);
      HullCommonPrefix(h.Lower(), e.Lower(), e.Upper(), h.Upper());
      assert k.Upper() <= e.Upper();
    }
  }

  lemma LowerCovers(h: Key, e: Key, v: Bytes, n: nat)
    requires Leq(h.Lower(), e.Lower()) && Leq(e.Lower(), v)
    ensures Leq(Truncate(h, n).Lower(), v)
  {
    hide Leq;
    TakeLeq(h.Lower(), n + 1);
    LeqTransitive(Truncate(h, n).Lower(), h.Lower(), e.Lower());
    LeqTransitive(Truncate(h, n).Lower(), e.Lower(), v);
  }

  /** A covered value beyond the hull extends its entry's upper bound, and so does the hull's. */
  lemma OpenAbove(h: Key, e: Key, v: Bytes)
    requires Leq(e.Upper(), h.Upper()) && Covers(e, v) && !Leq(v, h.Upper())
    ensures Open(e) && e.Upper() <= v && e.Upper() <= h.Upper() && Leq(h.Upper(), v)
  {
    hide Leq;
    if Leq(v, e.Upper()) {
      LeqTransitive(v, e.Upper(), h.Upper());
    }
    LeqTotal(v, h.Upper());
    Between(e.Upper(), h.Upper(), v);
  }

  lemma TruncateOrdered(k: Key, n: nat)
    requires Ordered(k)
    ensures Ordered(Truncate(k, n))
  {
    TakeMonotone(k.Lower(), k.Upper(), n + 1);
  }

  /** A union key covers whatever its entries cover. */
  lemma UnionCovers(entries: seq<Key>, i: nat, v: Bytes)
    requires i < |entries| && Ordered(entries[i]) && Covers(entries[i], v)
    ensures Covers(UnionKey(entries), v) && Ordered(UnionKey(entries))
  {
    hide Leq;
    HullContains(entries, i);
    TruncateCovers(Hull(entries), entries[i], v, Hull(entries).Shared() + 1);
    OrderedHull(entries, i);
    TruncateOrdered(Hull(entries), Hull(entries).Shared() + 1);
  }

  /** So does a side of a split, for entries with exact upper bounds, leaf entries among them. */
  lemma SplitCovers(own: seq<Key>, other: seq<Key>, i: nat, v: Bytes)
    requires i < |own| && other != [] && Ordered(own[i]) && !Open(own[i]) && Covers(own[i], v)
    ensures Covers(SplitKey(own, other), v) && Ordered(SplitKey(own, other))
  {
    hide Leq;
    var h, n := Hull(own), Max(Hull(own).Shared(), Hull(other).Shared()) + 1;
    HullContains(own, i);
    TruncateCovers(h, own[i], v, n);
    OrderedHull(own, i);
    TruncateOrdered(h, n);
  }

  // ------------------------------------------------------------ building keys

  /** `gbt_var_union`: the loop over the entry vector, then the cut. */
  method Union(entries: seq<Key>) returns (key: Key)
    requires entries != []
    ensures key == UnionKey(entries)
  {
    hide Leq;
    var out := Node(entries[0].Lower(), entries[0].Upper());
    assert entries[..1] == [entries[0]];
    for i := 1 to |entries|
      invariant out == Hull(entries[..i])
    {
      assert entries[..i + 1][..i] == entries[..i];
      out := BinUnion(out, entries[i]);
    }
    assert entries[..|entries|] == entries;
    var plen := CommonPrefixLength(out.lo, out.hi);
    key := Truncate(out, plen + 1);
  }

  predicate InRange(offsets: seq<nat>, n: nat) {
    forall j :: 0 <= j < |offsets| ==> offsets[j] < n
  }

  /** The entries named by the offsets order[a..b]. */
  function Chosen(entries: seq<Key>, order: seq<nat>, a: nat, b: nat): (r: seq<Key>)
    requires InRange(order, |entries|) && a <= b <= |order|
    ensures |r| == b - a
  {
    if a == b then [] else Chosen(entries, order, a, b - 1) + [entries[order[b - 1]]]
  }

  lemma {:induction false} ChosenAt(entries: seq<Key>, order: seq<nat>, a: nat, b: nat, i: nat)
    requires InRange(order, |entries|) && a <= i < b <= |order|
    ensures Chosen(entries, order, a, b)[i - a] == entries[order[i]]
  {
    if i < b - 1 {
      ChosenAt(entries, order, a, b - 1, i);
    }
  }

  /** A union under construction, null at first. */
  datatype Datum = Null | Datum(key: Key)

  function HullDatum(entries: seq<Key>): Datum {
    if entries == [] then Null else Datum(Hull(entries))
  }

  /** `gbt_var_bin_union` onto a datum that may still be null. */
  method AddTo(datum: Datum, e: Key, ghost chosen: seq<Key>) returns (datum': Datum)
    requires datum == HullDatum(chosen)
    ensures datum' == HullDatum(chosen + [e])
  {
    assert (chosen + [e])[..|chosen|] == chosen;
    if datum.Null? {
      datum' := Datum(Node(e.Lower(), e.Upper()));
    } else {
      datum' := Datum(BinUnion(datum.key, e));
    }
  }

  lemma SliceSnoc(s: seq<nat>, a: nat, i: nat)
    requires a <= i < |s|
    ensures s[a..i + 1] == s[a..i] + [s[i]]
  {
  }

  /** The distribution loop: the first half goes left, the rest right. */
  method Distribute(entries: seq<Key>, order: seq<nat>) returns (left: seq<nat>, right: seq<nat>, l: Datum, r: Datum)
    requires InRange(order, |entries|)
    ensures left == order[..|order| / 2] && right == order[|order| / 2..]
    ensures l == HullDatum(Chosen(entries, order, 0, |order| / 2))
    ensures r == HullDatum(Chosen(entries, order, |order| / 2, |order|))
  {
    hide Leq, Hull;
    var half, m := |order| / 2, 0;
    left, right, l, r := [], [], Null, Null;
    for i := 0 to |order|
      invariant m == (if i <= half then i else half)
      invariant left == order[..m] && l == HullDatum(Chosen(entries, order, 0, m))
      invariant right == order[m..i] && r == HullDatum(Chosen(entries, order, m, i))
    {
      var o := order[i];
      if i + 1 <= half {
        SliceSnoc(order, 0, i);
        l := AddTo(l, entries[o], Chosen(entries, order, 0, m));
        left := left + [o];
        m := m + 1;
      } else {
        SliceSnoc(order, m, i);
        r := AddTo(r, entries[o], Chosen(entries, order, m, i));
        right := right + [o];
      }
    }
  }

  /** `gbt_vsrt_cmp`: lower bounds first, then upper bounds. */
  predicate SortsBefore(a: Key, b: Key) {
    if a.Lower() == b.Lower() then Leq(a.Upper(), b.Upper()) else Leq(a.Lower(), b.Lower())
  }

  /** What sorting leaves behind. */
  ghost predicate Sorted(entries: seq<Key>, order: seq<nat>)
    requires InRange(order, |entries|)
  {
    forall i, j :: 0 <= i < j < |order| ==> SortsBefore(entries[order[i]], entries[order[j]])
  }

  lemma SplitsByLower(entries: seq<Key>, order: seq<nat>, n: nat, i: nat, j: nat)
    requires InRange(order, |entries|) && Sorted(entries, order) && i < n <= j < |order|
    ensures Leq(entries[order[i]].Lower(), entries[order[j]].Lower())
  {
    assert SortsBefore(entries[order[i]], entries[order[j]]);
    LeqTotal(entries[order[i]].Lower(), entries[order[j]].Lower());
  }

  /**
   `gbt_var_picksplit` on at least two entries, once `order` has sorted them: both
   datums are the hulls of their sides, cut to one length.
   */
  method PickSplit(entries: seq<Key>, order: seq<nat>)
    returns (left: seq<nat>, right: seq<nat>, ldatum: Key, rdatum: Key)
    requires |entries| >= 2 && |order| == |entries| && InRange(order, |entries|)
    ensures left != [] && right != [] && left + right == order && |left| == |order| / 2
    ensures Sorted(entries, order) ==> forall i, j :: 0 <= i < |left| <= j < |order| ==>
              Leq(entries[order[i]].Lower(), entries[order[j]].Lower())
    ensures var lefts, rights := Chosen(entries, order, 0, |left|), Chosen(entries, order, |left|, |order|);
            ldatum == SplitKey(lefts, rights) && rdatum == SplitKey(rights, lefts)
  {
    hide Leq, Hull, Chosen, CommonPrefix, Truncate, Sorted;
    var l, r;
    left, right, l, r := Distribute(entries, order);
    if Sorted(entries, order) {
      forall i, j | 0 <= i < |left| <= j < |order|
        ensures Leq(entries[order[i]].Lower(), entries[order[j]].Lower())
      {
        SplitsByLower(entries, order, |left|, i, j);
      }
    }
    ldatum, rdatum := CutBoth(l.key, r.key);
  }

  /** Cut both datums to the longer of their common prefixes and two more bytes. */
  method CutBoth(l: Key, r: Key) returns (ldatum: Key, rdatum: Key)
    ensures ldatum == Truncate(l, Max(l.Shared(), r.Shared()) + 1)
    ensures rdatum == Truncate(r, Max(r.Shared(), l.Shared()) + 1)
  {
    var ll := CommonPrefixLength(l.Lower(), l.Upper());
    var lr := CommonPrefixLength(r.Lower(), r.Upper());
    ll := Max(ll, lr) + 1;
    ldatum, rdatum := Truncate(l, ll), Truncate(r, ll);
  }

  /** If `order` is a permutation of the offsets, the two sides partition them. */
  lemma SplitPartitions(n: nat, order: seq<nat>, left: seq<nat>, right: seq<nat>, o: nat)
    requires left + right == order && |order| == n && o < n
    requires multiset(order) == multiset(seq(n, i => i))
    ensures o in left <==> o !in right
    ensures multiset(left)[o] + multiset(right)[o] == 1
  {
    assert multiset(order) == multiset(left) + multiset(right);
    OffsetsOnce(n, o);
    assert multiset(left)[o] + multiset(right)[o] == 1;
  }

  lemma {:induction false} OffsetsOnce(n: nat, o: nat)
    ensures multiset(seq(n, i => i))[o] == if o < n then 1 else 0
  {
    if n > 0 {
      OffsetsOnce(n - 1, o);
      assert seq(n, i => i) == seq(n - 1, i => i) + [n - 1];
    }
  }
}
