/**
 Nearest-neighbour ordering in contrib/cube: the distances computed for an internal
 key never exceed those of the boxes below it, so a best-first search may trust them.
 */
module CubeDistance {
  import opened CubeData
  import opened CubeGist

  /** Distance of two intervals, zero when they meet. */
  function Gap(alo: real, ahi: real, blo: real, bhi: real): real {
    if ahi <= blo then blo - ahi else if bhi <= alo then alo - bhi else 0.0
  }

  /** Distance of two boxes in one dimension. */
  function GapAt(a: Box, b: Box, i: nat): real
    requires Valid(a) && Valid(b)
  {
    Gap(Lo(a, i), Hi(a, i), Lo(b, i), Hi(b, i))
  }

  /** `distance_1D`. */
  function Distance1D(a1: real, a2: real, b1: real, b2: real): (d: real)
    ensures d == Gap(Min(a1, a2), Max(a1, a2), Min(b1, b2), Max(b1, b2)) && d >= 0.0
  {
    if a1 <= b1 && a2 <= b1 && a1 <= b2 && a2 <= b2 then Min(b1, b2) - Max(a1, a2)
    else if a1 > b1 && a2 > b1 && a1 > b2 && a2 > b2 then Min(a1, a2) - Max(b1, b2)
    else 0.0
  }

  // ------------------------------------------------------------ the metrics

  function Taxicab(a: Box, b: Box, n: nat): real
    requires Valid(a) && Valid(b)
  {
    if n == 0 then 0.0 else Taxicab(a, b, n - 1) + GapAt(a, b, n - 1)
  }

  /** The square of the Euclidean distance. */
  function Squared(a: Box, b: Box, n: nat): real
    requires Valid(a) && Valid(b)
  {
    if n == 0 then 0.0 else Squared(a, b, n - 1) + GapAt(a, b, n - 1) * GapAt(a, b, n - 1)
  }

  function Chebyshev(a: Box, b: Box, n: nat): real
    requires Valid(a) && Valid(b)
  {
    if n == 0 then 0.0 else Max(Chebyshev(a, b, n - 1), GapAt(a, b, n - 1))
  }

  /** One term of a distance loop, in a dimension both boxes have or only the larger one has. */
  method Term(p: Box, q: Box, i: nat) returns (d: real)
    requires Valid(p) && Valid(q) && q.dim <= p.dim && i < p.dim
    ensures d == GapAt(p, q, i) && d >= 0.0
  {
    if i < q.dim {
      d := Distance1D(LL(p, i), UR(p, i), LL(q, i), UR(q, i));
    } else {
      d := Distance1D(LL(p, i), UR(p, i), 0.0, 0.0);
    }
  }

  /** `distance_taxicab`. */
  method DistanceTaxicab(a: Box, b: Box) returns (distance: real)
    requires Valid(a) && Valid(b)
    ensures distance == Taxicab(a, b, MaxDim(a, b))
  {
    var p, q := if a.dim < b.dim then b else a, if a.dim < b.dim then a else b;
    distance := 0.0;
    for i := 0 to p.dim
      invariant distance == Taxicab(p, q, i)
    {
      var d := Term(p, q, i);
      distance := distance + d;
    }
    Symmetric(p, q, p.dim);
  }

  /** `cube_distance` before the square root. */
  method DistanceSquared(a: Box, b: Box) returns (distance: real)
    requires Valid(a) && Valid(b)
    ensures distance == Squared(a, b, MaxDim(a, b))
  {
    var p, q := if a.dim < b.dim then b else a, if a.dim < b.dim then a else b;
    distance := 0.0;
    for i := 0 to p.dim
      invariant distance == Squared(p, q, i)
    {
      var d := Term(p, q, i);
      distance := distance + d * d;
    }
    Symmetric(p, q, p.dim);
  }

  /** `distance_chebyshev`. */
  method DistanceChebyshev(a: Box, b: Box) returns (distance: real)
    requires Valid(a) && Valid(b)
    ensures distance == Chebyshev(a, b, MaxDim(a, b))
  {
    var p, q := if a.dim < b.dim then b else a, if a.dim < b.dim then a else b;
    distance := 0.0;
    for i := 0 to p.dim
      invariant distance == Chebyshev(p, q, i)
    {
      var d := Term(p, q, i);
      if d > distance {
        distance := d;
      }
    }
    Symmetric(p, q, p.dim);
  }

  lemma {:induction false} Symmetric(a: Box, b: Box, n: nat)
    requires Valid(a) && Valid(b)
    ensures Taxicab(a, b, n) == Taxicab(b, a, n)
    ensures Squared(a, b, n) == Squared(b, a, n)
    ensures Chebyshev(a, b, n) == Chebyshev(b, a, n)
  {
    if n > 0 {
      Symmetric(a, b, n - 1);
      assert GapAt(a, b, n - 1) == GapAt(b, a, n - 1);
    }
  }

  // ------------------------------------------------------------ what the metrics measure

  function Apart(x: real, y: real): real {
    if x < y then y - x else x - y
  }

  /** The gap is the distance of the two closest points of the intervals. */
  lemma GapIsDistance(alo: real, ahi: real, blo: real, bhi: real) returns (x: real, y: real)
    requires alo <= ahi && blo <= bhi
    ensures alo <= x <= ahi && blo <= y <= bhi && Apart(x, y) == Gap(alo, ahi, blo, bhi)
    ensures forall u, v :: alo <= u <= ahi && blo <= v <= bhi ==> Gap(alo, ahi, blo, bhi) <= Apart(u, v)
  {
    x, y := if ahi <= blo then ahi else if bhi <= alo then alo else Max(alo, blo),
            if ahi <= blo then blo else if bhi <= alo then bhi else Max(alo, blo);
  }

  lemma GapZero(a: Box, b: Box, i: nat)
    requires Valid(a) && Valid(b)
    ensures GapAt(a, b, i) >= 0.0
    ensures GapAt(a, b, i) == 0.0 <==> Lo(a, i) <= Hi(b, i) && Lo(b, i) <= Hi(a, i)
  {
    assert Lo(a, i) <= Hi(a, i) && Lo(b, i) <= Hi(b, i);
  }

  lemma ProductPositive(d: real, e: real, product: real)
    requires d >= 0.0 && e >= 0.0 && product == d * e
    ensures product >= 0.0 && (d > 0.0 && e > 0.0 ==> product > 0.0)
  {
  }

  /** No distance is less than its part in any one dimension. */
  lemma {:induction false} EveryDimension(a: Box, b: Box, n: nat, i: nat)
    requires Valid(a) && Valid(b) && i < n
    ensures GapAt(a, b, i) <= Taxicab(a, b, n)
    ensures GapAt(a, b, i) * GapAt(a, b, i) <= Squared(a, b, n)
    ensures GapAt(a, b, i) <= Chebyshev(a, b, n)
  {
    hide GapAt;
    GapZero(a, b, n - 1);
    var d := GapAt(a, b, n - 1);
    ProductPositive(d, d, d * d);
    if i < n - 1 {
      EveryDimension(a, b, n - 1, i);
    } else {
      NonNegative(a, b, n - 1);
    }
  }

  lemma {:induction false} NonNegative(a: Box, b: Box, n: nat)
    requires Valid(a) && Valid(b)
    ensures Taxicab(a, b, n) >= 0.0 && Squared(a, b, n) >= 0.0 && Chebyshev(a, b, n) >= 0.0
  {
    hide GapAt;
    if n > 0 {
      NonNegative(a, b, n - 1);
      GapZero(a, b, n - 1);
      var d := GapAt(a, b, n - 1);
      ProductPositive(d, d, d * d);
    }
  }

  lemma {:induction false} AllGapsZero(a: Box, b: Box, n: nat)
    requires Valid(a) && Valid(b) && forall i: nat :: i < n ==> GapAt(a, b, i) == 0.0
    ensures Taxicab(a, b, n) == Squared(a, b, n) == Chebyshev(a, b, n) == 0.0
  {
    hide GapAt;
    if n > 0 {
      AllGapsZero(a, b, n - 1);
    }
  }

  /** Each distance is zero exactly for boxes that overlap. */
  lemma ZeroIffOverlap(a: Box, b: Box)
    requires Valid(a) && Valid(b)
    ensures Taxicab(a, b, MaxDim(a, b)) == 0.0 <==> Overlap(a, b)
    ensures Squared(a, b, MaxDim(a, b)) == 0.0 <==> Overlap(a, b)
    ensures Chebyshev(a, b, MaxDim(a, b)) == 0.0 <==> Overlap(a, b)
  {
    hide GapAt, Taxicab, Squared, Chebyshev;
    if Overlap(a, b) {
      forall i: nat
        ensures GapAt(a, b, i) == 0.0
      {
        GapZero(a, b, i);
      }
      AllGapsZero(a, b, MaxDim(a, b));
    } else {
      var i := Separated(a, b);
      EveryDimension(a, b, MaxDim(a, b), i);
      var square := GapAt(a, b, i) * GapAt(a, b, i);
      ProductPositive(GapAt(a, b, i), GapAt(a, b, i), square);
    }
  }

  lemma Separated(a: Box, b: Box) returns (i: nat)
    requires Valid(a) && Valid(b) && !Overlap(a, b)
    ensures i < MaxDim(a, b) && GapAt(a, b, i) > 0.0
  {
    i :| !(Lo(a, i) <= Hi(b, i) && Lo(b, i) <= Hi(a, i));
    GapZero(a, b, i);
  }

  /** The boxes have the same extents in every dimension but `i`. */
  ghost predicate DifferOnlyIn(a: Box, a': Box, i: nat) {
    Valid(a) && Valid(a') && forall j: nat :: j != i ==> Lo(a, j) == Lo(a', j) && Hi(a, j) == Hi(a', j)
  }

  /** Each dimension adds its own gap, whatever the others are; the Euclidean distance adds the square. */
  lemma {:induction false} OneDimension(a: Box, a': Box, b: Box, i: nat, n: nat)
    requires DifferOnlyIn(a, a', i) && Valid(b)
    ensures var d, d' := GapAt(a, b, i), GapAt(a', b, i);
            && Taxicab(a, b, n) - Taxicab(a', b, n) == (if i < n then d - d' else 0.0)
            && Squared(a, b, n) - Squared(a', b, n) == (if i < n then d * d - d' * d' else 0.0)
  {
    hide GapAt, DifferOnlyIn;
    if n > 0 {
      OneDimension(a, a', b, i, n - 1);
      if i != n - 1 {
        SameGap(a, a', b, i, n - 1);
      }
    }
  }

  lemma SameGap(a: Box, a': Box, b: Box, i: nat, j: nat)
    requires DifferOnlyIn(a, a', i) && Valid(b) && j != i
    ensures GapAt(a, b, j) == GapAt(a', b, j)
  {
  }

  /** Some dimension attains the Chebyshev distance. */
  lemma {:induction false} ChebyshevAttained(a: Box, b: Box, n: nat) returns (i: nat)
    requires Valid(a) && Valid(b) && n > 0
    ensures i < n && Chebyshev(a, b, n) == GapAt(a, b, i)
  {
    hide GapAt;
    i := n - 1;
    if n > 1 {
      var j := ChebyshevAttained(a, b, n - 1);
      i := if Chebyshev(a, b, n) == GapAt(a, b, n - 1) then n - 1 else j;
    } else {
      GapZero(a, b, 0);
    }
  }

  // ------------------------------------------------------------ admissibility

  lemma GapInherited(key: Box, b: Box, query: Box, i: nat)
    requires Encloses(key, b) && Valid(query)
    ensures 0.0 <= GapAt(key, query, i) <= GapAt(b, query, i)
  {
    assert Lo(key, i) <= Lo(b, i) && Hi(b, i) <= Hi(key, i);
    assert Lo(b, i) <= Hi(b, i) && Lo(query, i) <= Hi(query, i);
  }

  lemma SquareMonotone(d: real, e: real)
    requires 0.0 <= d <= e
    ensures 0.0 <= d * d <= e * e
  {
    assert d * d <= d * e <= e * e;
  }

  /** Term by term, the key is at least as close as the box. */
  lemma {:induction false} TermsInherited(key: Box, b: Box, query: Box, n: nat)
    requires Encloses(key, b) && Valid(query)
    ensures Taxicab(key, query, n) <= Taxicab(b, query, n)
    ensures Squared(key, query, n) <= Squared(b, query, n)
    ensures Chebyshev(key, query, n) <= Chebyshev(b, query, n)
  {
    hide GapAt;
    if n > 0 {
      TermsInherited(key, b, query, n - 1);
      GapInherited(key, b, query, n - 1);
      SquareMonotone(GapAt(key, query, n - 1), GapAt(b, query, n - 1));
    }
  }

  /** Dimensions neither box has add nothing. */
  lemma {:induction false} TrailingZeros(a: Box, b: Box, m: nat, n: nat)
    requires Valid(a) && Valid(b) && MaxDim(a, b) <= m <= n
    ensures Taxicab(a, b, n) == Taxicab(a, b, m)
    ensures Squared(a, b, n) == Squared(a, b, m)
    ensures Chebyshev(a, b, n) == Chebyshev(a, b, m)
  {
    if m < n {
      TrailingZeros(a, b, m, n - 1);
      assert GapAt(a, b, n - 1) == 0.0;
      NonNegative(a, b, n - 1);
    }
  }

  /** A key's taxicab, squared Euclidean and Chebyshev distance to the query is a lower bound for its subtree. */
  lemma DistanceAdmissible(key: Box, b: Box, query: Box)
    requires Encloses(key, b) && Valid(query)
    ensures Taxicab(key, query, MaxDim(key, query)) <= Taxicab(b, query, MaxDim(b, query))
    ensures Squared(key, query, MaxDim(key, query)) <= Squared(b, query, MaxDim(b, query))
    ensures Chebyshev(key, query, MaxDim(key, query)) <= Chebyshev(b, query, MaxDim(b, query))
  {
    TermsInherited(key, b, query, MaxDim(key, query));
    TrailingZeros(b, query, MaxDim(b, query), MaxDim(key, query));
  }

  // ------------------------------------------------------------ a single coordinate

  datatype Result = Value(v: real) | Error

  /** `g_cube_distance` for the coordinate strategy; coordinate zero is an error. */
  function CoordDistance(b: Box, coord: int, isLeaf: bool): Result
    requires Valid(b)
  {
    if coord == 0 then Error
    else
      var inverse, c := coord < 0, if coord < 0 then -coord else coord;
      var v :=
        if c <= 2 * b.dim then
          var index, upper := (c - 1) / 2, (c - 1) % 2 == 1;
          if b.point then b.x[index]
          else if isLeaf then
            if upper then Max(b.x[index], b.x[index + b.dim]) else Min(b.x[index], b.x[index + b.dim])
          else if !inverse then Min(b.x[index], b.x[index + b.dim])
          else Max(b.x[index], b.x[index + b.dim])
        else 0.0;
      Value(if inverse then -v else v)
  }

  /** What the coordinate of a leaf means: the lower or upper extent, negated for negative coordinates. */
  lemma CoordOfLeaf(b: Box, coord: int)
    requires Valid(b) && coord != 0
    ensures var c := if coord < 0 then -coord else coord;
            var extent := if (c - 1) % 2 == 1 then Hi(b, (c - 1) / 2) else Lo(b, (c - 1) / 2);
            CoordDistance(b, coord, true) == Value(if coord < 0 then -extent else extent)
  {
  }

  /** An internal key's coordinate is a lower bound for the boxes below it. */
  lemma CoordAdmissible(key: Box, b: Box, coord: int)
    requires Encloses(key, b) && coord != 0
    ensures CoordDistance(key, coord, false).Value? && CoordDistance(b, coord, true).Value?
    ensures CoordDistance(key, coord, false).v <= CoordDistance(b, coord, true).v
  {
    CoordOfLeaf(b, coord);
    var index := ((if coord < 0 then -coord else coord) - 1) / 2;
    assert Lo(key, index) <= Lo(b, index) <= Hi(b, index) <= Hi(key, index);
    CoordOfKey(key, coord);
  }

  lemma CoordOfKey(b: Box, coord: int)
    requires Valid(b) && coord != 0
    ensures var c := if coord < 0 then -coord else coord;
            CoordDistance(b, coord, false) == Value(if coord < 0 then -Hi(b, (c - 1) / 2) else Lo(b, (c - 1) / 2))
  {
  }
}
