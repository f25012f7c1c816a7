/**
 The GiST methods of contrib/cube: union keys and the consistent methods.
 */
module CubeGist {
  import opened CubeData
  import opened CubeOrder

  // ------------------------------------------------------------ hulls

  ghost predicate AllValid(boxes: seq<Box>) {
    forall j :: 0 <= j < |boxes| ==> Valid(boxes[j])
  }

  /** In dimension `i`, `d` spans exactly the boxes numbered by `s`. */
  ghost predicate SpansAt(d: Box, boxes: seq<Box>, s: set<nat>, i: nat)
    requires Valid(d) && AllValid(boxes) && forall j :: j in s ==> j < |boxes|
  {
    && (forall j :: j in s ==> Lo(d, i) <= Lo(boxes[j], i) && Hi(boxes[j], i) <= Hi(d, i))
    && (exists j :: j in s && Lo(boxes[j], i) == Lo(d, i))
    && (exists j :: j in s && Hi(boxes[j], i) == Hi(d, i))
  }

  /** `d` is the least box, zero-extended, around the boxes numbered by `s`. */
  ghost predicate IsHull(d: Box, boxes: seq<Box>, s: set<nat>)
    requires AllValid(boxes) && forall j :: j in s ==> j < |boxes|
  {
    && Valid(d)
    && (forall j :: j in s ==> boxes[j].dim <= d.dim) && (exists j :: j in s && boxes[j].dim == d.dim)
    && forall i: nat :: SpansAt(d, boxes, s, i)
  }

  lemma HullOfOne(boxes: seq<Box>, j: nat)
    requires AllValid(boxes) && j < |boxes|
    ensures IsHull(boxes[j], boxes, {j})
  {
    forall i: nat
      ensures SpansAt(boxes[j], boxes, {j}, i)
    {
      assert j in {j} && Lo(boxes[j], i) == Lo(boxes[j], i) && Hi(boxes[j], i) == Hi(boxes[j], i);
    }
    assert j in {j} && boxes[j].dim == boxes[j].dim;
  }

  lemma SpansMore(d: Box, u: Box, boxes: seq<Box>, s: set<nat>, o: nat, i: nat)
    requires AllValid(boxes) && (forall j :: j in s ==> j < |boxes|) && o < |boxes|
    requires IsUnion(d, boxes[o], u) && SpansAt(d, boxes, s, i)
    ensures SpansAt(u, boxes, s + {o}, i)
  {
    assert Lo(u, i) == Min(Lo(d, i), Lo(boxes[o], i)) && Hi(u, i) == Max(Hi(d, i), Hi(boxes[o], i));
    var j :| j in s && Lo(boxes[j], i) == Lo(d, i);
    var k :| k in s && Hi(boxes[k], i) == Hi(d, i);
    assert j in s + {o} && k in s + {o} && o in s + {o};
    assert Lo(boxes[j], i) == Lo(u, i) || Lo(boxes[o], i) == Lo(u, i);
    assert Hi(boxes[k], i) == Hi(u, i) || Hi(boxes[o], i) == Hi(u, i);
  }

  /** One more union extends the hull by one more box. */
  lemma HullGrows(d: Box, u: Box, boxes: seq<Box>, s: set<nat>, o: nat)
    requires AllValid(boxes) && (forall j :: j in s ==> j < |boxes|) && o < |boxes|
    requires IsHull(d, boxes, s) && IsUnion(d, boxes[o], u)
    ensures IsHull(u, boxes, s + {o})
  {
    forall i: nat
      ensures SpansAt(u, boxes, s + {o}, i)
    {
      SpansMore(d, u, boxes, s, o, i);
    }
    var j :| j in s && boxes[j].dim == d.dim;
    assert j in s + {o} && o in s + {o};
    assert boxes[j].dim == u.dim || boxes[o].dim == u.dim;
  }

  /** The numbers below `n`. */
  ghost function Below(n: nat): (s: set<nat>)
    ensures forall j :: j in s <==> 0 <= j < n
  {
    if n == 0 then {} else Below(n - 1) + {n - 1}
  }

  /** `g_cube_union` over at least two entries. */
  method GistUnion(entries: seq<Box>) returns (out: Box)
    requires |entries| >= 2 && AllValid(entries)
    ensures IsHull(out, entries, Below(|entries|))
  {
    out := entries[0];
    ghost var s: set<nat> := {0};
    HullOfOne(entries, 0);
    for i := 1 to |entries|
      invariant s == Below(i) && IsHull(out, entries, s)
    {
      var u := Union(out, entries[i], false);
      HullGrows(out, u, entries, s, i);
      out := u;
      s := s + {i};
    }
  }

  // ------------------------------------------------------------ consistent methods

  const OVERLAP: nat := 3
  const SAME: nat := 6
  const CONTAINS: nat := 7
  const CONTAINED_BY: nat := 8
  const OLD_CONTAINS: nat := 13
  const OLD_CONTAINED_BY: nat := 14

  /** The operator a strategy number stands for. */
  ghost predicate LeafMatch(leaf: Box, query: Box, strategy: nat)
    requires Valid(leaf) && Valid(query)
  {
    || (strategy == OVERLAP && Overlap(leaf, query))
    || (strategy == SAME && Same(leaf, query))
    || ((strategy == CONTAINS || strategy == OLD_CONTAINS) && Contains(leaf, query))
    || ((strategy == CONTAINED_BY || strategy == OLD_CONTAINED_BY) && Contains(query, leaf))
  }

  /** What an internal key is tested for instead. */
  ghost predicate InternalMatch(key: Box, query: Box, strategy: nat)
    requires Valid(key) && Valid(query)
  {
    || ((strategy == OVERLAP || strategy == CONTAINED_BY || strategy == OLD_CONTAINED_BY) && Overlap(key, query))
    || ((strategy == SAME || strategy == CONTAINS || strategy == OLD_CONTAINS) && Contains(key, query))
  }

  /** `g_cube_leaf_consistent`. */
  method LeafConsistent(key: Box, query: Box, strategy: nat) returns (res: bool)
    requires Valid(key) && Valid(query)
    ensures res <==> LeafMatch(key, query, strategy)
  {
    if strategy == OVERLAP {
      res := CubeOverlap(key, query);
    } else if strategy == SAME {
      var c := CubeCmp(key, query);
      CmpZero(key, query);
      res := c == 0;
    } else if strategy == CONTAINS || strategy == OLD_CONTAINS {
      res := CubeContains(key, query);
    } else if strategy == CONTAINED_BY || strategy == OLD_CONTAINED_BY {
      res := CubeContains(query, key);
    } else {
      res := false;
    }
  }

  /** `g_cube_internal_consistent`. */
  method InternalConsistent(key: Box, query: Box, strategy: nat) returns (res: bool)
    requires Valid(key) && Valid(query)
    ensures res <==> InternalMatch(key, query, strategy)
  {
    if strategy == OVERLAP {
      res := CubeOverlap(key, query);
    } else if strategy == SAME || strategy == CONTAINS || strategy == OLD_CONTAINS {
      res := CubeContains(key, query);
    } else if strategy == CONTAINED_BY || strategy == OLD_CONTAINED_BY {
      res := CubeOverlap(key, query);
    } else {
      res := false;
    }
  }

  // ------------------------------------------------------------ keys over subtrees

  /** What a hull guarantees about each box in it. */
  ghost predicate Encloses(key: Box, b: Box) {
    && Valid(key) && Valid(b) && b.dim <= key.dim
    && forall i: nat :: Lo(key, i) <= Lo(b, i) && Hi(b, i) <= Hi(key, i)
  }

  lemma HullEncloses(d: Box, boxes: seq<Box>, s: set<nat>, j: nat)
    requires AllValid(boxes) && (forall k :: k in s ==> k < |boxes|) && IsHull(d, boxes, s) && j in s
    ensures Encloses(d, boxes[j])
  {
    forall i: nat
      ensures Lo(d, i) <= Lo(boxes[j], i) && Hi(boxes[j], i) <= Hi(d, i)
    {
      assert SpansAt(d, boxes, s, i);
    }
  }

  lemma EnclosesTransitive(a: Box, b: Box, c: Box)
    requires Encloses(a, b) && Encloses(b, c)
    ensures Encloses(a, c)
  {
    forall i: nat
      ensures Lo(a, i) <= Lo(c, i) && Hi(c, i) <= Hi(a, i)
    {
      assert Lo(a, i) <= Lo(b, i) && Lo(b, i) <= Lo(c, i);
      assert Hi(b, i) <= Hi(a, i) && Hi(c, i) <= Hi(b, i);
    }
  }

  /** The union is the least box around both. */
  lemma UnionIsLeast(a: Box, b: Box, u: Box)
    requires IsUnion(a, b, u)
    ensures Encloses(u, a) && Encloses(u, b)
    ensures forall c :: Encloses(c, a) && Encloses(c, b) ==> Encloses(c, u)
  {
    forall i: nat
      ensures Lo(u, i) <= Lo(a, i) && Hi(a, i) <= Hi(u, i) && Lo(u, i) <= Lo(b, i) && Hi(b, i) <= Hi(u, i)
    {
      assert Lo(u, i) == Min(Lo(a, i), Lo(b, i)) && Hi(u, i) == Max(Hi(a, i), Hi(b, i));
    }
    forall c | Encloses(c, a) && Encloses(c, b)
      ensures Encloses(c, u)
    {
      forall i: nat
        ensures Lo(c, i) <= Lo(u, i) && Hi(u, i) <= Hi(c, i)
      {
        assert Lo(c, i) <= Lo(a, i) && Hi(a, i) <= Hi(c, i) && Lo(c, i) <= Lo(b, i) && Hi(b, i) <= Hi(c, i);
        assert Lo(u, i) == Min(Lo(a, i), Lo(b, i)) && Hi(u, i) == Max(Hi(a, i), Hi(b, i));
      }
    }
  }

  /** A point, given by a coordinate in every dimension. */
  type Point = nat -> real

  ghost predicate Within(p: Point, b: Box, i: nat)
    requires Valid(b)
  {
    Lo(b, i) <= p(i) <= Hi(b, i)
  }

  ghost predicate InBox(p: Point, b: Box)
    requires Valid(b)
  {
    forall i: nat :: Within(p, b, i)
  }

  /** Containment and overlap in terms of points; containment leaves the dimensions `b` does not have aside. */
  lemma OperatorsMean(a: Box, b: Box)
    requires Valid(a) && Valid(b)
    ensures Overlap(a, b) <==> exists p: Point :: InBox(p, a) && InBox(p, b)
    ensures Contains(a, b) <==>
            forall p: Point :: InBox(p, b) ==> forall i: nat :: i < b.dim ==> Within(p, a, i)
  {
    ContainsMeans(a, b);
    if Overlap(a, b) {
      var p: Point := (i: nat) => Max(Lo(a, i), Lo(b, i));
      assert InBox(p, a) && InBox(p, b) by {
        forall i: nat
          ensures Within(p, a, i) && Within(p, b, i)
        {
          assert Lo(a, i) <= Hi(b, i) && Lo(b, i) <= Hi(a, i);
          assert Lo(a, i) <= Hi(a, i) && Lo(b, i) <= Hi(b, i);
        }
      }
    }
    if p: Point :| InBox(p, a) && InBox(p, b) {
      forall i: nat
        ensures Lo(a, i) <= Hi(b, i) && Lo(b, i) <= Hi(a, i)
      {
        assert Within(p, a, i) && Within(p, b, i);
      }
    }
  }

  lemma ContainsMeans(a: Box, b: Box)
    requires Valid(a) && Valid(b)
    ensures Contains(a, b) <==>
            forall p: Point :: InBox(p, b) ==> forall i: nat :: i < b.dim ==> Within(p, a, i)
  {
    if Contains(a, b) {
      forall p: Point, i: nat | InBox(p, b) && i < b.dim
        ensures Within(p, a, i)
      {
        assert Within(p, b, i);
      }
    }
    var low: Point, high: Point := (i: nat) => Lo(b, i), (i: nat) => Hi(b, i);
    assert InBox(low, b) && InBox(high, b);
    if forall p: Point :: InBox(p, b) ==> forall i: nat :: i < b.dim ==> Within(p, a, i) {
      forall i: nat | i < b.dim
        ensures Lo(a, i) <= Lo(b, i) && Hi(b, i) <= Hi(a, i)
      {
        assert Within(low, a, i) && Within(high, a, i);
      }
    }
  }

  /** The query reaches zero in every dimension it has beyond `dim`. */
  ghost predicate MeetsZero(query: Box, dim: nat)
    requires Valid(query)
  {
    forall i: nat :: dim <= i < query.dim ==> Lo(query, i) <= 0.0 <= Hi(query, i)
  }

  /** A leaf match implies an internal match, for overlap, same and contains. */
  lemma MatchInherited(key: Box, leaf: Box, query: Box, strategy: nat)
    requires Encloses(key, leaf) && Valid(query) && LeafMatch(leaf, query, strategy)
    requires strategy == OVERLAP || strategy == SAME || strategy == CONTAINS || strategy == OLD_CONTAINS
    ensures InternalMatch(key, query, strategy)
  {
    if strategy == OVERLAP {
      forall i: nat
        ensures Lo(key, i) <= Hi(query, i) && Lo(query, i) <= Hi(key, i)
      {
        assert Lo(leaf, i) <= Hi(query, i) && Lo(query, i) <= Hi(leaf, i);
        assert Lo(key, i) <= Lo(leaf, i) && Hi(leaf, i) <= Hi(key, i);
      }
    } else {
      forall i: nat | i < query.dim
        ensures Lo(key, i) <= Lo(query, i) && Hi(query, i) <= Hi(key, i)
      {
        assert Lo(leaf, i) <= Lo(query, i) && Hi(query, i) <= Hi(leaf, i);
        assert Lo(key, i) <= Lo(leaf, i) && Hi(leaf, i) <= Hi(key, i);
      }
    }
  }

  lemma ContainedInherited(key: Box, leaf: Box, query: Box)
    requires Encloses(key, leaf) && Valid(query) && Contains(query, leaf) && MeetsZero(query, leaf.dim)
    ensures Overlap(key, query)
  {
    forall i: nat
      ensures Lo(key, i) <= Hi(query, i) && Lo(query, i) <= Hi(key, i)
    {
      assert Lo(key, i) <= Lo(leaf, i) && Hi(leaf, i) <= Hi(key, i);
      assert Lo(leaf, i) <= Hi(leaf, i);
      assert i < leaf.dim ==> Lo(query, i) <= Lo(leaf, i) && Hi(leaf, i) <= Hi(query, i);
      assert leaf.dim <= i < query.dim ==> Lo(query, i) <= 0.0 <= Hi(query, i);
    }
  }

  /** The point of the key nearest to the query's lower corner. */
  ghost function NearestPoint(key: Box, query: Box): (p: Box)
    requires Valid(key) && Valid(query)
    ensures Valid(p) && p.dim == key.dim
    ensures forall i: nat :: i < key.dim ==> Lo(p, i) == Hi(p, i) == Max(Lo(key, i), Lo(query, i))
  {
    Box(key.dim, true, seq(key.dim, i requires 0 <= i => Max(Lo(key, i), Lo(query, i))))
  }

  /**
   What an internal key rejects: exactly the queries that no box below it could
   match.  For "same" the test is that of "contains", and for "contained by" a box
   counts only when the query meets zero in the dimensions the box does not have.
   */
  lemma InternalExactly(key: Box, query: Box, strategy: nat)
    requires Valid(key) && Valid(query)
    ensures strategy == OVERLAP || strategy == CONTAINS || strategy == OLD_CONTAINS ==>
              (InternalMatch(key, query, strategy) <==>
               exists leaf :: Encloses(key, leaf) && LeafMatch(leaf, query, strategy))
    ensures strategy == SAME ==>
              (InternalMatch(key, query, strategy) <==> exists leaf :: Encloses(key, leaf) && Contains(leaf, query))
    ensures strategy == CONTAINED_BY || strategy == OLD_CONTAINED_BY ==>
              (InternalMatch(key, query, strategy) <==>
               exists leaf :: Encloses(key, leaf) && Contains(query, leaf) && MeetsZero(query, leaf.dim))
    ensures strategy !in {OVERLAP, SAME, CONTAINS, CONTAINED_BY, OLD_CONTAINS, OLD_CONTAINED_BY} ==>
              !InternalMatch(key, query, strategy)
  {
    hide Contains, Overlap, MeetsZero;
    assert Encloses(key, key);
    forall leaf | Encloses(key, leaf) && Contains(leaf, query)
      ensures Contains(key, query)
    {
      assert LeafMatch(leaf, query, CONTAINS);
      MatchInherited(key, leaf, query, CONTAINS);
    }
    forall leaf | Encloses(key, leaf) && Overlap(leaf, query)
      ensures Overlap(key, query)
    {
      assert LeafMatch(leaf, query, OVERLAP);
      MatchInherited(key, leaf, query, OVERLAP);
    }
    forall leaf | Encloses(key, leaf) && Contains(query, leaf) && MeetsZero(query, leaf.dim)
      ensures Overlap(key, query)
    {
      ContainedInherited(key, leaf, query);
    }
    if Overlap(key, query) {
      NearestContained(key, query);
    }
  }

  lemma NearestContained(key: Box, query: Box)
    requires Valid(key) && Valid(query) && Overlap(key, query)
    ensures var p := NearestPoint(key, query);
            Encloses(key, p) && Contains(query, p) && MeetsZero(query, p.dim)
  {
    hide NearestPoint;
    var p := NearestPoint(key, query);
    forall i: nat
      ensures Lo(key, i) <= Lo(p, i) && Hi(p, i) <= Hi(key, i)
      ensures i < p.dim ==> Lo(query, i) <= Lo(p, i) && Hi(p, i) <= Hi(query, i)
      ensures p.dim <= i ==> Lo(query, i) <= 0.0 <= Hi(query, i)
    {
      assert Lo(key, i) <= Hi(query, i) && Lo(query, i) <= Hi(key, i);
      assert Lo(key, i) <= Hi(key, i) && Lo(query, i) <= Hi(query, i);
    }
  }

  ghost predicate AlwaysFound(leaf: Box, query: Box)
    requires Valid(leaf) && Valid(query)
  {
    forall key :: Encloses(key, leaf) ==> Overlap(key, query)
  }

  /**
   Contained-by ignores excess dimensions of the query at the leaf but not at the
   internal keys.  A contained leaf is found below every key exactly when the query
   meets zero in the dimensions the leaf does not have.
   */
  lemma ContainedByExact(leaf: Box, query: Box)
    requires Valid(leaf) && Valid(query) && Contains(query, leaf)
    ensures AlwaysFound(leaf, query) <==> MeetsZero(query, leaf.dim)
  {
    if MeetsZero(query, leaf.dim) {
      forall key | Encloses(key, leaf)
        ensures Overlap(key, query)
      {
        ContainedInherited(key, leaf, query);
      }
    }
    if AlwaysFound(leaf, query) {
      assert Encloses(leaf, leaf);
      assert Overlap(leaf, query);
      forall i: nat | leaf.dim <= i < query.dim
        ensures Lo(query, i) <= 0.0 <= Hi(query, i)
      {
        assert Lo(leaf, i) <= Hi(query, i) && Lo(query, i) <= Hi(leaf, i);
      }
    }
  }

  /** In particular when the query has no more dimensions than the leaf. */
  lemma ContainedBySmallQuery(leaf: Box, query: Box)
    requires Valid(leaf) && Valid(query) && Contains(query, leaf) && query.dim <= leaf.dim
    ensures AlwaysFound(leaf, query)
  {
    ContainedByExact(leaf, query);
  }

  /** A one-dimensional point inside the query's first dimension, a query away from zero in the second. */
  lemma ContainedByMisses() returns (leaf: Box, query: Box)
    ensures Valid(leaf) && Valid(query)
    ensures LeafMatch(leaf, query, CONTAINED_BY) && !InternalMatch(leaf, query, CONTAINED_BY)
  {
    leaf := Box(1, true, [1.0]);
    query := Box(2, false, [0.0, 5.0, 2.0, 6.0]);
    assert Lo(query, 0) == 0.0 && Hi(query, 0) == 2.0 && Lo(leaf, 0) == 1.0 && Hi(leaf, 0) == 1.0;
    assert Lo(query, 1) == 5.0 && Hi(leaf, 1) == 0.0;
  }
}
