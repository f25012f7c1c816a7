/**
 `g_cube_picksplit`: Guttman's quadratic split.  Entry 0 of the vector is unused;
 the entries 1..n-1 are dealt out to two pages around two seeds.
 */
module CubeSplit {
  import opened CubeData
  import opened CubeGist

  // ------------------------------------------------------------ sizes

  function Abs(a: real): real {
    if a < 0.0 then -a else a
  }

  function Times(a: real, b: real): real {
    a * b
  }

  /** Product of the extents in the first `n` dimensions. */
  function Volume(b: Box, n: nat): real
    requires Valid(b) && n <= b.dim
  {
    if n == 0 then 1.0 else Times(Volume(b, n - 1), Abs(UR(b, n - 1) - LL(b, n - 1)))
  }

  function Size(b: Box): real
    requires Valid(b)
  {
    if b.point || b.dim == 0 then 0.0 else Volume(b, b.dim)
  }

  /** `rt_cube_size`. */
  method CubeSize(b: Box) returns (size: real)
    requires Valid(b)
    ensures size == Size(b)
  {
    if b.point || b.dim == 0 {
      return 0.0;
    }
    size := 1.0;
    for i := 0 to b.dim
      invariant size == Volume(b, i)
    {
      size := Times(size, Abs(UR(b, i) - LL(b, i)));
    }
  }

  /** `x` is the common part of `a` and `b` where they meet; elsewhere its corners are crossed. */
  ghost predicate IsInter(a: Box, b: Box, x: Box) {
    && Valid(a) && Valid(b) && Valid(x) && x.dim == MaxDim(a, b)
    && forall i: nat :: i < x.dim ==>
         LL(x, i) == Max(Lo(a, i), Lo(b, i)) && UR(x, i) == Min(Hi(a, i), Hi(b, i))
  }

  /** `cube_inter`. */
  method Inter(a: Box, b: Box) returns (x: Box)
    requires Valid(a) && Valid(b)
    ensures IsInter(a, b, x)
  {
    var p, q := if a.dim < b.dim then b else a, if a.dim < b.dim then a else b;
    var r := InterCorners(p, q);
    var point := IsPoint(p.dim, false, r);
    x := Box(p.dim, point, if point then r[..p.dim] else r[..]);
    forall i: nat | i < p.dim
      ensures LL(x, i) == Max(Lo(p, i), Lo(q, i)) && UR(x, i) == Min(Hi(p, i), Hi(q, i))
    {
      assert LL(x, i) == r[i] && UR(x, i) == r[i + p.dim];
    }
  }

  method InterCorners(a: Box, b: Box) returns (x: array<real>)
    requires Valid(a) && Valid(b) && b.dim <= a.dim
    ensures fresh(x) && x.Length == 2 * a.dim
    ensures forall i :: 0 <= i < a.dim ==>
              x[i] == Max(Lo(a, i), Lo(b, i)) && x[i + a.dim] == Min(Hi(a, i), Hi(b, i))
  {
    x := new real[2 * a.dim](_ => 0.0);
    for i := 0 to b.dim
      invariant forall k :: 0 <= k < i ==> x[k] == Max(Lo(a, k), Lo(b, k)) && x[k + a.dim] == Min(Hi(a, k), Hi(b, k))
    {
      x[i] := Max(Min(LL(a, i), UR(a, i)), Min(LL(b, i), UR(b, i)));
      x[i + a.dim] := Min(Max(LL(a, i), UR(a, i)), Max(LL(b, i), UR(b, i)));
    }
    for i := b.dim to a.dim
      invariant forall k :: 0 <= k < i ==> x[k] == Max(Lo(a, k), Lo(b, k)) && x[k + a.dim] == Min(Hi(a, k), Hi(b, k))
    {
      x[i] := Max(0.0, Min(LL(a, i), UR(a, i)));
      x[i + a.dim] := Min(0.0, Max(LL(a, i), UR(a, i)));
    }
  }

  // ------------------------------------------------------------ wasted space

  /** Volume of the least box around both, from the extents alone. */
  function AroundTo(a: Box, b: Box, n: nat): real
    requires Valid(a) && Valid(b)
  {
    if n == 0 then 1.0
    else Times(AroundTo(a, b, n - 1), Max(Hi(a, n - 1), Hi(b, n - 1)) - Min(Lo(a, n - 1), Lo(b, n - 1)))
  }

  function Around(a: Box, b: Box): real
    requires Valid(a) && Valid(b)
  {
    if MaxDim(a, b) == 0 then 0.0 else AroundTo(a, b, MaxDim(a, b))
  }

  /** Volume between the inner bounds of both. */
  function InsideTo(a: Box, b: Box, n: nat): real
    requires Valid(a) && Valid(b)
  {
    if n == 0 then 1.0
    else Times(InsideTo(a, b, n - 1), Abs(Min(Hi(a, n - 1), Hi(b, n - 1)) - Max(Lo(a, n - 1), Lo(b, n - 1))))
  }

  function Inside(a: Box, b: Box): real
    requires Valid(a) && Valid(b)
  {
    if MaxDim(a, b) == 0 then 0.0 else InsideTo(a, b, MaxDim(a, b))
  }

  function Waste(a: Box, b: Box): real
    requires Valid(a) && Valid(b)
  {
    Around(a, b) - Inside(a, b)
  }

  lemma {:induction false} UnionVolume(a: Box, b: Box, u: Box, n: nat)
    requires IsUnion(a, b, u) && n <= u.dim
    ensures Volume(u, n) == AroundTo(a, b, n)
  {
    hide Times;
    if n > 0 {
      UnionVolume(a, b, u, n - 1);
      assert Lo(u, n - 1) == Min(Lo(a, n - 1), Lo(b, n - 1)) && Hi(u, n - 1) == Max(Hi(a, n - 1), Hi(b, n - 1));
      assert Abs(UR(u, n - 1) - LL(u, n - 1)) == Hi(u, n - 1) - Lo(u, n - 1);
    }
  }

  lemma {:induction false} InterVolume(a: Box, b: Box, x: Box, n: nat)
    requires IsInter(a, b, x) && n <= x.dim
    ensures Volume(x, n) == InsideTo(a, b, n)
  {
    hide Times;
    if n > 0 {
      InterVolume(a, b, x, n - 1);
    }
  }

  lemma PointVolume(b: Box)
    requires Valid(b) && b.point && b.dim > 0
    ensures Volume(b, b.dim) == 0.0
  {
    assert UR(b, b.dim - 1) - LL(b, b.dim - 1) == 0.0;
  }

  lemma UnionSize(a: Box, b: Box, u: Box)
    requires IsUnion(a, b, u)
    ensures Size(u) == Around(a, b)
  {
    UnionVolume(a, b, u, u.dim);
    if u.point && u.dim > 0 {
      PointVolume(u);
    }
  }

  lemma InterSize(a: Box, b: Box, x: Box)
    requires IsInter(a, b, x)
    ensures Size(x) == Inside(a, b)
  {
    InterVolume(a, b, x, x.dim);
    if x.point && x.dim > 0 {
      PointVolume(x);
    }
  }

  // ------------------------------------------------------------ what a volume is

  /** Width of the box in dimension `i`. */
  function Width(b: Box, i: nat): real
    requires Valid(b)
  {
    Hi(b, i) - Lo(b, i)
  }

  lemma WidthIs(b: Box, i: nat)
    requires Valid(b) && i < b.dim
    ensures Width(b, i) == Abs(UR(b, i) - LL(b, i)) && Width(b, i) >= 0.0
  {
  }

  lemma TimesSwap(a: real, b: real, c: real)
    ensures Times(Times(a, b), c) == Times(Times(a, c), b)
  {
  }

  lemma TimesZero(a: real, b: real)
    ensures Times(a, b) == 0.0 <==> a == 0.0 || b == 0.0
  {
  }

  /** A box without extent in some dimension has no volume, and no other box has none. */
  lemma {:induction false} VolumeZero(b: Box, n: nat)
    requires Valid(b) && n <= b.dim
    ensures Volume(b, n) == 0.0 <==> exists i: nat :: i < n && Width(b, i) == 0.0
  {
    hide Times, Width;
    if n > 0 {
      VolumeZero(b, n - 1);
      WidthIs(b, n - 1);
      TimesZero(Volume(b, n - 1), Width(b, n - 1));
    }
  }

  lemma {:induction false} UnitVolume(b: Box, n: nat)
    requires Valid(b) && n <= b.dim && forall i: nat :: i < n ==> Width(b, i) == 1.0
    ensures Volume(b, n) == 1.0
  {
    hide Width;
    if n > 0 {
      UnitVolume(b, n - 1);
      WidthIs(b, n - 1);
    }
  }

  lemma {:induction false} SameVolume(b: Box, b': Box, n: nat)
    requires Valid(b) && Valid(b') && n <= b.dim && n <= b'.dim
    requires forall i: nat :: i < n ==> Width(b, i) == Width(b', i)
    ensures Volume(b, n) == Volume(b', n)
  {
    hide Width, Times;
    if n > 0 {
      SameVolume(b, b', n - 1);
      WidthIs(b, n - 1);
      WidthIs(b', n - 1);
    }
  }

  /** The volume is proportional to the width in each dimension. */
  lemma {:induction false} VolumeScales(b: Box, b': Box, i: nat, n: nat)
    requires Valid(b) && Valid(b') && n <= b.dim && n <= b'.dim && i < n
    requires forall j: nat :: j < n && j != i ==> Width(b, j) == Width(b', j)
    ensures Times(Volume(b, n), Width(b', i)) == Times(Volume(b', n), Width(b, i))
  {
    hide Width, Times;
    var w, w' := Width(b, i), Width(b', i);
    WidthIs(b, n - 1);
    WidthIs(b', n - 1);
    if i == n - 1 {
      SameVolume(b, b', i);
      TimesSwap(Volume(b, i), w, w');
    } else {
      VolumeScales(b, b', i, n - 1);
      TimesSwap(Volume(b, n - 1), Width(b, n - 1), w');
      TimesSwap(Volume(b', n - 1), Width(b, n - 1), w);
    }
  }

  /** The waste of a pair: the size of their union less the size of their intersection. */
  lemma WasteIs(a: Box, b: Box, u: Box, x: Box)
    requires IsUnion(a, b, u) && IsInter(a, b, x)
    ensures Waste(a, b) == Size(u) - Size(x)
    ensures Size(u) == if u.dim == 0 then 0.0 else Volume(u, u.dim)
    ensures Size(x) == if x.dim == 0 then 0.0 else Volume(x, x.dim)
  {
    UnionSize(a, b, u);
    InterSize(a, b, x);
    if u.point && u.dim > 0 {
      PointVolume(u);
    }
    if x.point && x.dim > 0 {
      PointVolume(x);
    }
  }

  // ------------------------------------------------------------ seeds

  method PairWaste(a: Box, b: Box) returns (w: real)
    requires Valid(a) && Valid(b)
    ensures w == Waste(a, b)
  {
    var union := Union(a, b, false);
    var sizeUnion := CubeSize(union);
    var inter := Inter(a, b);
    var sizeInter := CubeSize(inter);
    UnionSize(a, b, union);
    InterSize(a, b, inter);
    w := sizeUnion - sizeInter;
  }

  /** Among all pairs but those with the last entry, the seeds waste the most space when put together. */
  method PickSeeds(entries: seq<Box>) returns (seed1: nat, seed2: nat)
    requires |entries| >= 3 && AllValid(entries)
    ensures 1 <= seed1 < seed2 < |entries|
    ensures forall a, b :: 1 <= a < b <= |entries| - 2 ==>
              Waste(entries[a], entries[b]) <= Waste(entries[seed1], entries[seed2])
  {
    hide Waste;
    seed1, seed2 := 1, 2;
    var maxoff := |entries| - 2;
    var firsttime, waste := true, 0.0;
    for i := 1 to maxoff
      invariant 1 <= seed1 < seed2 < |entries|
      invariant firsttime <==> i == 1
      invariant !firsttime ==> waste == Waste(entries[seed1], entries[seed2])
      invariant forall a, b :: 1 <= a < i && a < b <= maxoff ==> Waste(entries[a], entries[b]) <= waste
    {
      for j := i + 1 to maxoff + 1
        invariant 1 <= seed1 < seed2 < |entries|
        invariant firsttime <==> i == 1 && j == 2
        invariant !firsttime ==> waste == Waste(entries[seed1], entries[seed2])
        invariant forall a, b :: 1 <= a < i && a < b <= maxoff ==> Waste(entries[a], entries[b]) <= waste
        invariant forall b :: i < b < j ==> Waste(entries[i], entries[b]) <= waste
      {
        var w := PairWaste(entries[i], entries[j]);
        if w > waste || firsttime {
          waste := w;
          seed1, seed2, firsttime := i, j, false;
        }
      }
    }
  }

  // ------------------------------------------------------------ the split

  /** The first `n` slots hold, in increasing order, exactly the offsets in `s`. */
  ghost predicate Lists(offsets: seq<nat>, s: set<nat>) {
    && (forall i, j :: 0 <= i < j < |offsets| ==> offsets[i] < offsets[j])
    && (forall o :: o in s <==> o in offsets)
  }

  lemma ListNext(offsets: seq<nat>, s: set<nat>, o: nat)
    requires Lists(offsets, s) && forall k :: k in s ==> k < o
    ensures Lists(offsets + [o], s + {o})
  {
    var next := offsets + [o];
    forall i, j | 0 <= i < j < |next|
      ensures next[i] < next[j]
    {
      assert offsets[i] in s;
    }
    forall k
      ensures k in s + {o} <==> k in next
    {
      if k in s {
        var i :| 0 <= i < |offsets| && offsets[i] == k;
        assert next[i] == k;
      }
      assert next[|offsets|] == o;
    }
  }

  /** Both sides so far: they list the offsets below `n`, and each datum is the hull of its side and its seed. */
  ghost predicate Dealt(entries: seq<Box>, n: nat, seed1: nat, seed2: nat, left: set<nat>, right: set<nat>, dl: Box,
                        dr: Box)
    requires AllValid(entries) && n <= |entries| && seed1 < |entries| && seed2 < |entries|
  {
    && (forall o :: o in left || o in right <==> 1 <= o < n) && left !! right
    && seed1 !in right && seed2 !in left
    && IsHull(dl, entries, left + {seed1}) && IsHull(dr, entries, right + {seed2})
  }

  /**
   Deal out one entry: a seed goes to its own side, any other to the side that
   needs the least enlargement.
   */
  method DealOne(entries: seq<Box>, i: nat, seed1: nat, seed2: nat, dl: Box, dr: Box, sizeL: real, sizeR: real,
                 ghost left: set<nat>, ghost right: set<nat>)
    returns (toLeft: bool, dl': Box, dr': Box, sizeL': real, sizeR': real)
    requires AllValid(entries) && 1 <= i < |entries| && 1 <= seed1 < seed2 < |entries|
    requires Dealt(entries, i, seed1, seed2, left, right, dl, dr) && sizeL == Size(dl) && sizeR == Size(dr)
    ensures i == seed1 ==> toLeft
    ensures i == seed2 ==> !toLeft
    ensures i != seed1 && i != seed2 ==>
              (toLeft <==> Around(dl, entries[i]) - Size(dl) < Around(dr, entries[i]) - Size(dr))
    ensures Valid(dl') && Valid(dr') && sizeL' == Size(dl') && sizeR' == Size(dr')
    ensures toLeft ==> Dealt(entries, i + 1, seed1, seed2, left + {i}, right, dl', dr')
    ensures !toLeft ==> Dealt(entries, i + 1, seed1, seed2, left, right + {i}, dl', dr')
  {
    hide SpansAt, IsUnion, Size, Around;
    dl', dr', sizeL', sizeR' := dl, dr, sizeL, sizeR;
    if i == seed1 {
      assert left + {i} + {seed1} == left + {seed1};
      return true, dl, dr, sizeL, sizeR;
    }
    if i == seed2 {
      assert right + {i} + {seed2} == right + {seed2};
      return false, dl, dr, sizeL, sizeR;
    }
    var unionL := Union(dl, entries[i], false);
    var unionR := Union(dr, entries[i], false);
    HullGrows(dl, unionL, entries, left + {seed1}, i);
    HullGrows(dr, unionR, entries, right + {seed2}, i);
    assert left + {i} + {seed1} == left + {seed1} + {i};
    assert right + {i} + {seed2} == right + {seed2} + {i};
    var sizeAlpha := CubeSize(unionL);
    var sizeBeta := CubeSize(unionR);
    UnionSize(dl, entries[i], unionL);
    UnionSize(dr, entries[i], unionR);
    toLeft := sizeAlpha - sizeL < sizeBeta - sizeR;
    if toLeft {
      dl', sizeL' := unionL, sizeAlpha;
    } else {
      dr', sizeR' := unionR, sizeBeta;
    }
  }

  /**
   `g_cube_picksplit` on at least two entries: the offsets 1..n-1 are partitioned
   into two non-empty increasing lists that fit the arrays with their sentinel, and
   each datum is the hull of its side.
   */
  method PickSplit(entries: seq<Box>)
    returns (left: array<nat>, nleft: nat, right: array<nat>, nright: nat, ldatum: Box, rdatum: Box,
             ghost lefts: set<nat>, ghost rights: set<nat>)
    requires |entries| >= 3 && AllValid(entries)
    ensures 0 < nleft < left.Length && 0 < nright < right.Length && left.Length == right.Length == |entries|
    ensures left[nleft] == 1 && right[nright] == 1
    ensures Lists(left[..nleft], lefts) && Lists(right[..nright], rights)
    ensures lefts !! rights && forall o :: o in lefts || o in rights <==> 1 <= o < |entries|
    ensures (forall o :: o in lefts || o in rights ==> o < |entries|)
            && IsHull(ldatum, entries, lefts) && IsHull(rdatum, entries, rights)
  {
    hide IsHull, Lists, Size, SpansAt, Around;
    var seed1, seed2 := PickSeeds(entries);
    left, right := new nat[|entries|](_ => 0), new nat[|entries|](_ => 0);
    nleft, nright, lefts, rights := 0, 0, {}, {};
    ldatum := Union(entries[seed1], entries[seed1], true);
    rdatum := Union(entries[seed2], entries[seed2], true);
    var sizeL := CubeSize(ldatum);
    var sizeR := CubeSize(rdatum);
    HullSame(entries, seed1, ldatum);
    HullSame(entries, seed2, rdatum);
    assert {} + {seed1} == {seed1} && {} + {seed2} == {seed2};
    ListNone(left[..0]);
    ListNone(right[..0]);
    for i := 1 to |entries|
      invariant nleft + nright == i - 1 && Valid(ldatum) && Valid(rdatum)
      invariant sizeL == Size(ldatum) && sizeR == Size(rdatum)
      invariant Lists(left[..nleft], lefts) && Lists(right[..nright], rights)
      invariant Dealt(entries, i, seed1, seed2, lefts, rights, ldatum, rdatum)
    {
      var toLeft;
      toLeft, ldatum, rdatum, sizeL, sizeR :=
        DealOne(entries, i, seed1, seed2, ldatum, rdatum, sizeL, sizeR, lefts, rights);
      if toLeft {
        Append(left, nleft, lefts, i);
        nleft, lefts := nleft + 1, lefts + {i};
      } else {
        Append(right, nright, rights, i);
        nright, rights := nright + 1, rights + {i};
      }
    }
    BothUsed(left[..nleft], lefts, seed1);
    BothUsed(right[..nright], rights, seed2);
    PutSentinel(left, nleft);
    PutSentinel(right, nright);
    assert lefts + {seed1} == lefts && rights + {seed2} == rights;
  }

  method PutSentinel(a: array<nat>, n: nat)
    requires n < a.Length
    modifies a
    ensures a[n] == 1 && a[..n] == old(a[..n])
  {
    a[n] := 1;
  }

  /** Store an offset in the next slot. */
  method Append(a: array<nat>, n: nat, ghost s: set<nat>, o: nat)
    requires n < a.Length && Lists(a[..n], s) && forall k :: k in s ==> k < o
    modifies a
    ensures Lists(a[..n + 1], s + {o})
  {
    hide Lists;
    ListNext(a[..n], s, o);
    ghost var before := a[..n];
    a[n] := o;
    assert a[..n + 1] == before + [o];
  }

  lemma ListNone(offsets: seq<nat>)
    requires offsets == []
    ensures Lists(offsets, {})
  {
  }

  lemma BothUsed(offsets: seq<nat>, s: set<nat>, seed: nat)
    requires Lists(offsets, s) && seed in s
    ensures |offsets| > 0
  {
  }

  lemma HullSame(entries: seq<Box>, j: nat, d: Box)
    requires AllValid(entries) && j < |entries| && IsUnion(entries[j], entries[j], d)
    ensures IsHull(d, entries, {j})
  {
    HullOfOne(entries, j);
    HullGrows(entries[j], d, entries, {j}, j);
    assert {j} + {j} == {j};
  }
}
