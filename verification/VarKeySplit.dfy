/**
 Splitting an internal page (`gbt_var_picksplit` on node keys).  Both sides keep
 the longer of their two common prefixes and two more bytes.  That can keep more
 of an upper bound than a child kept, and then values of the child get lost.
 Exactly when is stated here.
 */
module VarKeySplit {
  import opened ByteOrder
  import opened VarKey

  ghost predicate AllMaximal(s: Bytes) {
    forall j :: 0 <= j < |s| ==> s[j] == 255
  }

  /** How many bytes of the bounds of `own` a split against `other` keeps. */
  function KeptLength(own: seq<Key>, other: seq<Key>): nat
    requires own != [] && other != []
  {
    Max(Hull(own).Shared(), Hull(other).Shared()) + 2
  }

  /** The greatest upper and the least lower bound of the side's entries, cut to that length. */
  function KeptUpper(own: seq<Key>, other: seq<Key>): Bytes
    requires own != [] && other != []
  {
    Take(Hull(own).Upper(), KeptLength(own, other))
  }

  function KeptLower(own: seq<Key>, other: seq<Key>): Bytes
    requires own != [] && other != []
  {
    Take(Hull(own).Lower(), KeptLength(own, other))
  }

  lemma SplitBounds(own: seq<Key>, other: seq<Key>)
    requires own != [] && other != []
    ensures SplitKey(own, other).Upper() == KeptUpper(own, other)
    ensures SplitKey(own, other).Lower() == KeptLower(own, other)
  {
    hide Hull, Take;
  }

  /** The kept upper bound continues the entry's cut upper bound by something a value can exceed. */
  ghost predicate Spills(e: Key, upper: Bytes) {
    Open(e) && e.Upper() < upper && !AllMaximal(upper[|e.Upper()|..])
  }

  /** ... and the kept lower bound does not match as a prefix either. */
  ghost predicate Loses(e: Key, lower: Bytes, upper: Bytes) {
    Spills(e, upper) && !(lower <= e.Upper())
  }

  /** How a side's key lies around an entry of that side. */
  ghost predicate CutAround(k: Key, h: Key, e: Key) {
    && Leq(h.Lower(), e.Lower()) && Leq(e.Upper(), h.Upper()) && Ordered(e)
    && Leq(k.Lower(), h.Lower()) && k.Upper() <= h.Upper()
    && k.Shared() == h.Shared() && (|k.Upper()| >= k.Shared() + 2 || k.Upper() == h.Upper())
    && h.Shared() <= e.Shared()
  }

  lemma SideCutsAround(own: seq<Key>, other: seq<Key>, i: nat)
    requires i < |own| && other != [] && Ordered(own[i])
    ensures CutAround(SplitKey(own, other), Hull(own), own[i])
  {
    hide Leq, Hull, CommonPrefix;
    var h, n := Hull(own), Max(Hull(own).Shared(), Hull(other).Shared()) + 1;
    HullContains(own, i);
    TakeLeq(h.Lower(), n + 1);
    TakeLeq(h.Upper(), n + 1);
    TakeKeepsCommonPrefix(h.Lower(), h.Upper(), n + 1);
    HullCommonPrefix(h.Lower(), own[i].Lower(), own[i].Upper(), h.Upper());
  }

  lemma LowerBelow(k: Key, h: Key, e: Key, v: Bytes)
    requires CutAround(k, h, e) && Covers(e, v)
    ensures Leq(k.Lower(), v)
  {
    hide Leq;
    LeqTransitive(k.Lower(), h.Lower(), e.Lower());
    LeqTransitive(k.Lower(), e.Lower(), v);
  }

  lemma PrefixesNest(a: Bytes, b: Bytes, c: Bytes)
    requires a <= c && b <= c
    ensures |a| <= |b| ==> a <= b
    ensures |a| < |b| ==> a < b
    ensures |a| == |b| ==> a == b
  {
    assert a == c[..|a|] && b == c[..|b|];
  }

  /** An entry that does not spill stays covered. */
  lemma DryCovers(k: Key, h: Key, e: Key, v: Bytes)
    requires CutAround(k, h, e) && Covers(e, v) && !Spills(e, k.Upper())
    ensures Covers(k, v)
  {
    hide Leq;
    LowerBelow(k, h, e, v);
    if Leq(v, h.Upper()) {
      BelowTake(v, h.Upper(), |k.Upper()|);
      assert Take(h.Upper(), |k.Upper()|) == k.Upper();
    } else {
      OpenAbove(h, e, v);
      PrefixesNest(k.Upper(), e.Upper(), h.Upper());
      PrefixesNest(e.Upper(), k.Upper(), h.Upper());
      if |e.Upper()| < |k.Upper()| {
        PrefixParts(k.Upper(), h.Upper());
        LeqTransitive(k.Upper(), h.Upper(), v);
        MaximalPrefix(e.Upper(), k.Upper(), v);
      }
    }
  }

  /** Nothing but extensions lies above a string that continues a prefix by maximal bytes. */
  lemma MaximalPrefix(p: Bytes, u: Bytes, v: Bytes)
    requires p <= u && p <= v && AllMaximal(u[|p|..]) && Leq(u, v)
    ensures u <= v
  {
    forall n | |p| <= n < |u|
      ensures u[n] == 255
    {
      assert u[n] == u[|p|..][n - |p|];
    }
    PartsAt(u, v);
    PrefixParts(u, v);
  }

  /** A value above the new upper bound that still extends the child's. */
  ghost function Overflow(e: Key, k: Key): (v: Bytes)
    requires Spills(e, k.Upper())
    ensures e.Upper() <= v && Leq(k.Upper(), v) && !Leq(v, k.Upper()) && !(k.Upper() <= v)
  {
    var p, u := e.Upper(), k.Upper();
    assert exists j :: |p| <= j < |u| && u[j] != 255 by {
      var i :| 0 <= i < |u[|p|..]| && u[|p|..][i] != 255;
      assert u[|p| + i] != 255;
    }
    var j :| |p| <= j < |u| && u[j] != 255;
    var v := u[..j] + [u[j] + 1];
    PartsUnique(u, v, j);
    PartsUnique(v, u, j);
    PrefixParts(u, v);
    v
  }

  lemma OverflowCovered(e: Key, k: Key)
    requires Spills(e, k.Upper()) && Ordered(e)
    ensures Covers(e, Overflow(e, k)) && !Covers(k, Overflow(e, k))
  {
    hide Leq;
    var v := Overflow(e, k);
    PrefixParts(e.Upper(), v);
    LeqTransitive(e.Lower(), e.Upper(), v);
  }

  /** Every value an entry of the side covers is covered by the side's key. */
  ghost predicate KeepsCoverage(own: seq<Key>, k: Key) {
    forall i, v :: 0 <= i < |own| && Covers(own[i], v) ==> Covers(k, v)
  }

  ghost predicate NoneSpills(own: seq<Key>, other: seq<Key>)
    requires own != [] && other != []
  {
    forall i :: 0 <= i < |own| ==> !Spills(own[i], KeptUpper(own, other))
  }

  /** Splitting keeps coverage exactly when no entry of the side spills. */
  lemma SplitKeepsCoverage(own: seq<Key>, other: seq<Key>)
    requires own != [] && other != [] && forall i :: 0 <= i < |own| ==> Ordered(own[i])
    ensures KeepsCoverage(own, SplitKey(own, other)) <==> NoneSpills(own, other)
  {
    hide Leq, Hull, SplitKey, Covers, Spills, Ordered;
    var k := SplitKey(own, other);
    SplitBounds(own, other);
    if NoneSpills(own, other) {
      forall i, v | 0 <= i < |own| && Covers(own[i], v)
        ensures Covers(k, v)
      {
        SideCutsAround(own, other, i);
        DryCovers(k, Hull(own), own[i], v);
      }
    }
    if !NoneSpills(own, other) {
      var i :| 0 <= i < |own| && Spills(own[i], k.Upper());
      OverflowCovered(own[i], k);
    }
  }

  // ------------------------------------------------------------ what a search sees

  /** No query rejects the side's key while an entry of the side covers a match. */
  ghost predicate NeverRejects(own: seq<Key>, k: Key) {
    forall i, v, query, strategy :: 0 <= i < |own| && Covers(own[i], v) && Satisfies(v, query, strategy) ==>
      Consistent(k, query, strategy, false)
  }

  ghost predicate NoneLost(own: seq<Key>, other: seq<Key>)
    requires own != [] && other != []
  {
    forall i :: 0 <= i < |own| ==> !Loses(own[i], KeptLower(own, other), KeptUpper(own, other))
  }

  /** When the new lower bound is a prefix of the child's upper bound, the prefix match saves the search. */
  lemma SavedByLower(k: Key, h: Key, e: Key, v: Bytes, query: Bytes, strategy: nat)
    requires CutAround(k, h, e) && e.Upper() < k.Upper() && k.Lower() <= e.Upper()
    requires Covers(e, v) && Satisfies(v, query, strategy)
    ensures Consistent(k, query, strategy, false)
  {
    hide Leq;
    LowerBelow(k, h, e, v);
    PrefixParts(e.Upper(), k.Upper());
    if strategy == LESS || strategy == LESS_EQUAL {
      LeqTransitive(k.Lower(), v, query);
    } else if Leq(v, e.Upper()) {
      LeqTransitive(v, e.Upper(), k.Upper());
      if strategy == GREATER || strategy == GREATER_EQUAL {
        LeqTransitive(query, v, k.Upper());
      }
    } else if (strategy == GREATER || strategy == GREATER_EQUAL) && !Leq(query, k.Upper()) {
      LeqTotal(query, k.Upper());
      LeqTransitive(e.Upper(), k.Upper(), query);
      Between(e.Upper(), query, v);
    }
  }

  lemma OverflowRejected(k: Key, h: Key, e: Key)
    requires CutAround(k, h, e) && Loses(e, k.Lower(), k.Upper())
    ensures Covers(e, Overflow(e, k)) && !Consistent(k, Overflow(e, k), EQUAL, false)
  {
    hide Leq;
    var v := Overflow(e, k);
    OverflowCovered(e, k);
    if k.Lower() <= v {
      PrefixesNest(k.Lower(), e.Upper(), v);
      PrefixesNest(e.Upper(), k.Lower(), v);
      PrefixParts(e.Upper(), k.Lower());
      LeqTransitive(k.Lower(), h.Lower(), e.Lower());
      LeqTransitive(k.Lower(), e.Lower(), e.Upper());
      LeqAntisymmetric(k.Lower(), e.Upper());
    }
  }

  /**
   Splitting an internal page is safe exactly when no entry of the side loses
   values: otherwise an equality search misses one the entry covers.
   */
  lemma SplitNeverRejects(own: seq<Key>, other: seq<Key>)
    requires own != [] && other != [] && forall i :: 0 <= i < |own| ==> Ordered(own[i])
    ensures NeverRejects(own, SplitKey(own, other)) <==> NoneLost(own, other)
  {
    hide Leq, Hull, SplitKey, Covers, Spills, Ordered, Satisfies, Consistent;
    var k := SplitKey(own, other);
    SplitBounds(own, other);
    if NoneLost(own, other) {
      forall i, v, query, strategy | 0 <= i < |own| && Covers(own[i], v) && Satisfies(v, query, strategy)
        ensures Consistent(k, query, strategy, false)
      {
        SideCutsAround(own, other, i);
        KeptConsistent(k, Hull(own), own[i], v, query, strategy);
      }
    }
    if !NoneLost(own, other) {
      var i :| 0 <= i < |own| && Loses(own[i], k.Lower(), k.Upper());
      SideCutsAround(own, other, i);
      OverflowRejected(k, Hull(own), own[i]);
      assert Satisfies(Overflow(own[i], k), Overflow(own[i], k), EQUAL) by {
        EqualSatisfies(Overflow(own[i], k));
      }
    }
  }

  lemma EqualSatisfies(v: Bytes)
    ensures Satisfies(v, v, EQUAL)
  {
  }

  lemma KeptConsistent(k: Key, h: Key, e: Key, v: Bytes, query: Bytes, strategy: nat)
    requires CutAround(k, h, e) && !Loses(e, k.Lower(), k.Upper()) && Covers(e, v) && Satisfies(v, query, strategy)
    ensures Consistent(k, query, strategy, false)
  {
    hide Leq, Covers, Satisfies, Consistent;
    if Spills(e, k.Upper()) {
      SavedByLower(k, h, e, v, query, strategy);
    } else {
      DryCovers(k, h, e, v);
      CoveredConsistent(k, v, query, strategy);
    }
  }
}
