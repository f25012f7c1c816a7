/**
 Boxes of contrib/cube (cubedata.h, cube.c) over real coordinates.  The two corners
 may come in any order, a point stores one corner only, and dimensions a box does
 not have count as zero: `Lo` and `Hi` read a box that way in every dimension.
 */
module CubeData {
  /** `NDBOX`: dimension, point flag, corner coordinates. */
  datatype Box = Box(dim: nat, point: bool, x: seq<real>)

  ghost predicate Valid(b: Box) {
    |b.x| == if b.point then b.dim else 2 * b.dim
  }

  function Min(a: real, b: real): real {
    if a < b then a else b
  }

  function Max(a: real, b: real): real {
    if a > b then a else b
  }

  /** `LL_COORD` and `UR_COORD`. */
  function LL(b: Box, i: nat): real
    requires Valid(b) && i < b.dim
  {
    b.x[i]
  }

  function UR(b: Box, i: nat): real
    requires Valid(b) && i < b.dim
  {
    if b.point then b.x[i] else b.x[i + b.dim]
  }

  /** Extent of a box in any dimension; absent dimensions are zero. */
  function Lo(b: Box, i: nat): real
    requires Valid(b)
  {
    if i < b.dim then Min(LL(b, i), UR(b, i)) else 0.0
  }

  function Hi(b: Box, i: nat): real
    requires Valid(b)
  {
    if i < b.dim then Max(LL(b, i), UR(b, i)) else 0.0
  }

  function MaxDim(a: Box, b: Box): nat {
    if a.dim < b.dim then b.dim else a.dim
  }

  // ------------------------------------------------------------ what the operators mean

  /** `u` is the least box around `a` and `b`, in every dimension. */
  ghost predicate IsUnion(a: Box, b: Box, u: Box) {
    && Valid(a) && Valid(b) && Valid(u) && u.dim == MaxDim(a, b)
    && forall i: nat :: Lo(u, i) == Min(Lo(a, i), Lo(b, i)) && Hi(u, i) == Max(Hi(a, i), Hi(b, i))
  }

  /** The extents of `b` lie inside those of `a`, in the dimensions of `b`. */
  ghost predicate Contains(a: Box, b: Box)
    requires Valid(a) && Valid(b)
  {
    forall i: nat :: i < b.dim ==> Lo(a, i) <= Lo(b, i) && Hi(b, i) <= Hi(a, i)
  }

  /** The extents meet in every dimension. */
  ghost predicate Overlap(a: Box, b: Box)
    requires Valid(a) && Valid(b)
  {
    forall i: nat :: Lo(a, i) <= Hi(b, i) && Lo(b, i) <= Hi(a, i)
  }

  /** Same number of dimensions and same extents. */
  ghost predicate Same(a: Box, b: Box)
    requires Valid(a) && Valid(b)
  {
    a.dim == b.dim && forall i: nat :: Lo(a, i) == Lo(b, i) && Hi(a, i) == Hi(b, i)
  }

  // ------------------------------------------------------------ the operators

  /** `cube_is_point_internal`; `point` says that only one corner is stored. */
  method IsPoint(dim: nat, point: bool, x: array<real>) returns (res: bool)
    requires x.Length == if point then dim else 2 * dim
    ensures res <==> point || forall i :: 0 <= i < dim ==> x[i] == x[i + dim]
  {
    if point {
      return true;
    }
    for i := 0 to dim
      invariant forall k :: 0 <= k < i ==> x[k] == x[k + dim]
    {
      if x[i] != x[i + dim] {
        return false;
      }
    }
    return true;
  }

  /** The coordinate loops of `cube_union_v0`, with `a` the box of more dimensions. */
  method UnionCorners(a: Box, b: Box) returns (x: array<real>)
    requires Valid(a) && Valid(b) && b.dim <= a.dim
    ensures fresh(x) && x.Length == 2 * a.dim
    ensures forall i :: 0 <= i < a.dim ==>
              x[i] == Min(Lo(a, i), Lo(b, i)) && x[i + a.dim] == Max(Hi(a, i), Hi(b, i))
  {
    x := new real[2 * a.dim](_ => 0.0);
    for i := 0 to b.dim
      invariant forall k :: 0 <= k < i ==> x[k] == Min(Lo(a, k), Lo(b, k)) && x[k + a.dim] == Max(Hi(a, k), Hi(b, k))
    {
      x[i] := Min(Min(LL(a, i), UR(a, i)), Min(LL(b, i), UR(b, i)));
      x[i + a.dim] := Max(Max(LL(a, i), UR(a, i)), Max(LL(b, i), UR(b, i)));
    }
    for i := b.dim to a.dim
      invariant forall k :: 0 <= k < i ==> x[k] == Min(Lo(a, k), Lo(b, k)) && x[k + a.dim] == Max(Hi(a, k), Hi(b, k))
    {
      x[i] := Min(0.0, Min(LL(a, i), UR(a, i)));
      x[i + a.dim] := Max(0.0, Max(LL(a, i), UR(a, i)));
    }
  }

  /** `cube_union_v0`; `aliased` says that both arguments are one and the same object. */
  method Union(a: Box, b: Box, aliased: bool) returns (u: Box)
    requires Valid(a) && Valid(b) && (aliased ==> a == b)
    ensures IsUnion(a, b, u)
  {
    if aliased {
      return a;
    }
    var p, q := if a.dim < b.dim then b else a, if a.dim < b.dim then a else b;
    var x := UnionCorners(p, q);
    var point := IsPoint(p.dim, false, x);
    u := Box(p.dim, point, if point then x[..p.dim] else x[..]);
    forall i: nat | i < p.dim
      ensures LL(u, i) == Min(Lo(p, i), Lo(q, i)) && UR(u, i) == Max(Hi(p, i), Hi(q, i))
    {
      assert LL(u, i) == x[i] && UR(u, i) == x[i + p.dim];
    }
    UnionExtent(p, q, u);
  }

  lemma UnionExtent(a: Box, b: Box, u: Box)
    requires Valid(a) && Valid(b) && Valid(u) && b.dim <= a.dim && u.dim == a.dim
    requires forall i: nat :: i < a.dim ==> LL(u, i) == Min(Lo(a, i), Lo(b, i)) && UR(u, i) == Max(Hi(a, i), Hi(b, i))
    ensures IsUnion(a, b, u) && IsUnion(b, a, u)
  {
    forall i: nat
      ensures Lo(u, i) == Min(Lo(a, i), Lo(b, i)) && Hi(u, i) == Max(Hi(a, i), Hi(b, i))
    {
      if i < a.dim {
        assert Lo(a, i) <= Hi(a, i) && Lo(b, i) <= Hi(b, i);
      }
    }
  }

  /** `cube_contains_v0`. */
  method CubeContains(a: Box, b: Box) returns (res: bool)
    requires Valid(a) && Valid(b)
    ensures res <==> Contains(a, b)
  {
    if a.dim < b.dim {
      for i := a.dim to b.dim
        invariant forall k: nat :: a.dim <= k < i ==> Lo(b, k) == 0.0 && Hi(b, k) == 0.0
      {
        if LL(b, i) != 0.0 || UR(b, i) != 0.0 {
          assert !(Lo(a, i) <= Lo(b, i) && Hi(b, i) <= Hi(a, i));
          return false;
        }
      }
    }
    var dim := if a.dim < b.dim then a.dim else b.dim;
    for i := 0 to dim
      invariant forall k: nat :: k < i ==> Lo(a, k) <= Lo(b, k) && Hi(b, k) <= Hi(a, k)
    {
      if Min(LL(a, i), UR(a, i)) > Min(LL(b, i), UR(b, i)) {
        assert Lo(a, i) > Lo(b, i);
        return false;
      }
      if Max(LL(a, i), UR(a, i)) < Max(LL(b, i), UR(b, i)) {
        assert Hi(a, i) < Hi(b, i);
        return false;
      }
    }
    return true;
  }

  /** `cube_overlap_v0`. */
  method CubeOverlap(a: Box, b: Box) returns (res: bool)
    requires Valid(a) && Valid(b)
    ensures res <==> Overlap(a, b)
  {
    var p, q := if a.dim < b.dim then b else a, if a.dim < b.dim then a else b;
    for i := 0 to q.dim
      invariant forall k: nat :: k < i ==> Lo(p, k) <= Hi(q, k) && Lo(q, k) <= Hi(p, k)
    {
      if Min(LL(p, i), UR(p, i)) > Max(LL(q, i), UR(q, i)) {
        assert Lo(p, i) > Hi(q, i);
        return false;
      }
      if Max(LL(p, i), UR(p, i)) < Min(LL(q, i), UR(q, i)) {
        assert Hi(p, i) < Lo(q, i);
        return false;
      }
    }
    for i := q.dim to p.dim
      invariant forall k: nat :: k < i ==> Lo(p, k) <= Hi(q, k) && Lo(q, k) <= Hi(p, k)
    {
      if Min(LL(p, i), UR(p, i)) > 0.0 {
        assert Lo(p, i) > Hi(q, i);
        return false;
      }
      if Max(LL(p, i), UR(p, i)) < 0.0 {
        assert Hi(p, i) < Lo(q, i);
        return false;
      }
    }
    return true;
  }
}
