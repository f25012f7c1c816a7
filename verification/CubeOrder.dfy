/**
 `cube_cmp_v0`: the comparison behind equality, sorting and the GiST "same" method.
 */
module CubeOrder {
  import opened CubeData

  function Sign(a: real, b: real): int {
    if a > b then 1 else if a < b then -1 else 0
  }

  /** Lower extents in the dimensions i..n-1, the first difference decides. */
  function LexLo(a: Box, b: Box, i: nat, n: nat): int
    requires Valid(a) && Valid(b)
    decreases n - i
  {
    if i >= n then 0 else if Lo(a, i) != Lo(b, i) then Sign(Lo(a, i), Lo(b, i)) else LexLo(a, b, i + 1, n)
  }

  function LexHi(a: Box, b: Box, i: nat, n: nat): int
    requires Valid(a) && Valid(b)
    decreases n - i
  {
    if i >= n then 0 else if Hi(a, i) != Hi(b, i) then Sign(Hi(a, i), Hi(b, i)) else LexHi(a, b, i + 1, n)
  }

  function MinDim(a: Box, b: Box): nat {
    if a.dim < b.dim then a.dim else b.dim
  }

  function First(c: int, d: int): int {
    if c != 0 then c else d
  }

  /** Common dimensions, then the excess ones against zero, then the number of dimensions. */
  function Cmp(a: Box, b: Box): int
    requires Valid(a) && Valid(b)
  {
    var d, m := MinDim(a, b), MaxDim(a, b);
    First(LexLo(a, b, 0, d), First(LexHi(a, b, 0, d),
      First(LexLo(a, b, d, m), First(LexHi(a, b, d, m), Sign(a.dim as real, b.dim as real)))))
  }

  // ------------------------------------------------------------ the code

  method CompareLo(a: Box, b: Box, from: nat, to: nat) returns (c: int)
    requires Valid(a) && Valid(b) && from <= to <= a.dim && to <= b.dim
    ensures c == LexLo(a, b, from, to)
  {
    for i := from to to
      invariant LexLo(a, b, from, to) == LexLo(a, b, i, to)
    {
      if Min(LL(a, i), UR(a, i)) > Min(LL(b, i), UR(b, i)) {
        return 1;
      }
      if Min(LL(a, i), UR(a, i)) < Min(LL(b, i), UR(b, i)) {
        return -1;
      }
    }
    return 0;
  }

  method CompareHi(a: Box, b: Box, from: nat, to: nat) returns (c: int)
    requires Valid(a) && Valid(b) && from <= to <= a.dim && to <= b.dim
    ensures c == LexHi(a, b, from, to)
  {
    for i := from to to
      invariant LexHi(a, b, from, to) == LexHi(a, b, i, to)
    {
      if Max(LL(a, i), UR(a, i)) > Max(LL(b, i), UR(b, i)) {
        return 1;
      }
      if Max(LL(a, i), UR(a, i)) < Max(LL(b, i), UR(b, i)) {
        return -1;
      }
    }
    return 0;
  }

  /** The loops that compare the excess dimensions of `a` to zero. */
  method CompareExcess(a: Box, b: Box) returns (c: int)
    requires Valid(a) && Valid(b) && b.dim < a.dim
    ensures c == First(LexLo(a, b, b.dim, a.dim), First(LexHi(a, b, b.dim, a.dim), 1))
  {
    for i := b.dim to a.dim
      invariant LexLo(a, b, b.dim, a.dim) == LexLo(a, b, i, a.dim)
    {
      if Min(LL(a, i), UR(a, i)) > 0.0 {
        return 1;
      }
      if Min(LL(a, i), UR(a, i)) < 0.0 {
        return -1;
      }
    }
    for i := b.dim to a.dim
      invariant LexHi(a, b, b.dim, a.dim) == LexHi(a, b, i, a.dim)
    {
      if Max(LL(a, i), UR(a, i)) > 0.0 {
        return 1;
      }
      if Max(LL(a, i), UR(a, i)) < 0.0 {
        return -1;
      }
    }
    return 1;
  }

  /** `cube_cmp_v0`. */
  method CubeCmp(a: Box, b: Box) returns (c: int)
    requires Valid(a) && Valid(b)
    ensures c == Cmp(a, b)
  {
    var dim := MinDim(a, b);
    c := CompareLo(a, b, 0, dim);
    if c != 0 {
      return;
    }
    c := CompareHi(a, b, 0, dim);
    if c != 0 {
      return;
    }
    if a.dim > b.dim {
      c := CompareExcess(a, b);
    } else if a.dim < b.dim {
      LexAntisymmetric(a, b, a.dim, b.dim);
      c := CompareExcess(b, a);
      c := -c;
    }
  }

  // ------------------------------------------------------------ order laws

  lemma {:induction false} LexAntisymmetric(a: Box, b: Box, i: nat, n: nat)
    requires Valid(a) && Valid(b)
    ensures LexLo(b, a, i, n) == -LexLo(a, b, i, n) && LexHi(b, a, i, n) == -LexHi(a, b, i, n)
    decreases n - i
  {
    if i < n {
      LexAntisymmetric(a, b, i + 1, n);
    }
  }

  /** Swapping the arguments negates the result, for all boxes. */
  lemma CmpAntisymmetric(a: Box, b: Box)
    requires Valid(a) && Valid(b)
    ensures Cmp(b, a) == -Cmp(a, b)
  {
    LexAntisymmetric(a, b, 0, MinDim(a, b));
    LexAntisymmetric(a, b, MinDim(a, b), MaxDim(a, b));
  }

  lemma {:induction false} LexZero(a: Box, b: Box, i: nat, n: nat)
    requires Valid(a) && Valid(b)
    ensures LexLo(a, b, i, n) == 0 <==> forall k: nat :: i <= k < n ==> Lo(a, k) == Lo(b, k)
    ensures LexHi(a, b, i, n) == 0 <==> forall k: nat :: i <= k < n ==> Hi(a, k) == Hi(b, k)
    decreases n - i
  {
    if i < n {
      LexZero(a, b, i + 1, n);
    }
  }

  /** Zero means equal dimensions and equal extents. */
  lemma CmpZero(a: Box, b: Box)
    requires Valid(a) && Valid(b)
    ensures Cmp(a, b) == 0 <==> Same(a, b)
  {
    LexZero(a, b, 0, MinDim(a, b));
    LexZero(a, b, MinDim(a, b), MaxDim(a, b));
  }

  lemma {:induction false} LexTransitive(a: Box, b: Box, c: Box, i: nat, n: nat)
    requires Valid(a) && Valid(b) && Valid(c)
    ensures LexLo(a, b, i, n) <= 0 && LexLo(b, c, i, n) <= 0 ==> LexLo(a, c, i, n) <= 0
    ensures LexLo(a, b, i, n) <= 0 && LexLo(b, c, i, n) <= 0 && LexLo(a, c, i, n) == 0 ==>
              LexLo(a, b, i, n) == 0 && LexLo(b, c, i, n) == 0
    ensures LexHi(a, b, i, n) <= 0 && LexHi(b, c, i, n) <= 0 ==> LexHi(a, c, i, n) <= 0
    ensures LexHi(a, b, i, n) <= 0 && LexHi(b, c, i, n) <= 0 && LexHi(a, c, i, n) == 0 ==>
              LexHi(a, b, i, n) == 0 && LexHi(b, c, i, n) == 0
    decreases n - i
  {
    if i < n {
      LexTransitive(a, b, c, i + 1, n);
    }
  }

  /** Between boxes of dimension `q` or zero, all lower extents come before all upper ones. */
  lemma CmpUniform(a: Box, b: Box, q: nat)
    requires Valid(a) && Valid(b) && (a.dim == 0 || a.dim == q) && (b.dim == 0 || b.dim == q)
    ensures Cmp(a, b) ==
            First(LexLo(a, b, 0, q), First(LexHi(a, b, 0, q), Sign(a.dim as real, b.dim as real)))
  {
    LexZero(a, b, 0, q);
  }

  /** Among boxes of one dimension, and boxes of dimension zero, the comparison is transitive. */
  lemma CmpTransitive(a: Box, b: Box, c: Box, q: nat)
    requires Valid(a) && Valid(b) && Valid(c)
    requires (a.dim == 0 || a.dim == q) && (b.dim == 0 || b.dim == q) && (c.dim == 0 || c.dim == q)
    requires Cmp(a, b) <= 0 && Cmp(b, c) <= 0
    ensures Cmp(a, c) <= 0
  {
    hide Cmp, LexLo, LexHi;
    CmpUniform(a, b, q);
    CmpUniform(b, c, q);
    CmpUniform(a, c, q);
    LexTransitive(a, b, c, 0, q);
  }

  // ------------------------------------------------------------ what decides

  /** From dimension `i` on, the lower extents first differ at `k`, and there `a` is smaller. */
  ghost predicate LowerAt(a: Box, b: Box, i: nat, k: nat)
    requires Valid(a) && Valid(b)
  {
    i <= k && Lo(a, k) < Lo(b, k) && forall j: nat :: i <= j < k ==> Lo(a, j) == Lo(b, j)
  }

  ghost predicate UpperAt(a: Box, b: Box, i: nat, k: nat)
    requires Valid(a) && Valid(b)
  {
    i <= k && Hi(a, k) < Hi(b, k) && forall j: nat :: i <= j < k ==> Hi(a, j) == Hi(b, j)
  }

  /** The first difference of the lower extents from dimension `i` on is before `n`, and `a` is smaller there. */
  ghost predicate LowerIn(a: Box, b: Box, i: nat, n: nat)
    requires Valid(a) && Valid(b)
  {
    exists k: nat :: k < n && LowerAt(a, b, i, k)
  }

  ghost predicate UpperIn(a: Box, b: Box, i: nat, n: nat)
    requires Valid(a) && Valid(b)
  {
    exists k: nat :: k < n && UpperAt(a, b, i, k)
  }

  ghost predicate SameLower(a: Box, b: Box, i: nat, n: nat)
    requires Valid(a) && Valid(b)
  {
    forall j: nat :: i <= j < n ==> Lo(a, j) == Lo(b, j)
  }

  ghost predicate SameUpper(a: Box, b: Box, i: nat, n: nat)
    requires Valid(a) && Valid(b)
  {
    forall j: nat :: i <= j < n ==> Hi(a, j) == Hi(b, j)
  }

  lemma {:induction false} LexIs(a: Box, b: Box, i: nat, n: nat)
    requires Valid(a) && Valid(b)
    ensures LexLo(a, b, i, n) < 0 <==> LowerIn(a, b, i, n)
    ensures LexLo(a, b, i, n) == 0 <==> SameLower(a, b, i, n)
    ensures LexHi(a, b, i, n) < 0 <==> UpperIn(a, b, i, n)
    ensures LexHi(a, b, i, n) == 0 <==> SameUpper(a, b, i, n)
    decreases n - i
  {
    hide Lo, Hi;
    LexZero(a, b, i, n);
    if i < n {
      LexIs(a, b, i + 1, n);
      LexLoStep(a, b, i, n);
      LexHiStep(a, b, i, n);
    }
  }

  lemma LowerAtStep(a: Box, b: Box, i: nat, k: nat)
    requires Valid(a) && Valid(b) && Lo(a, i) == Lo(b, i)
    ensures LowerAt(a, b, i, k) <==> LowerAt(a, b, i + 1, k)
  {
    hide Lo;
  }

  lemma UpperAtStep(a: Box, b: Box, i: nat, k: nat)
    requires Valid(a) && Valid(b) && Hi(a, i) == Hi(b, i)
    ensures UpperAt(a, b, i, k) <==> UpperAt(a, b, i + 1, k)
  {
    hide Hi;
  }

  lemma LexLoStep(a: Box, b: Box, i: nat, n: nat)
    requires Valid(a) && Valid(b) && i < n
    requires LexLo(a, b, i + 1, n) < 0 <==> LowerIn(a, b, i + 1, n)
    ensures LexLo(a, b, i, n) < 0 <==> LowerIn(a, b, i, n)
  {
    hide Lo, Hi;
    if Lo(a, i) < Lo(b, i) {
      assert LowerAt(a, b, i, i);
    } else if Lo(a, i) == Lo(b, i) {
      if k: nat :| k < n && LowerAt(a, b, i, k) {
        LowerAtStep(a, b, i, k);
      }
      var next := i + 1;
      if k: nat :| k < n && LowerAt(a, b, next, k) {
        LowerAtStep(a, b, i, k);
      }
    }
  }

  lemma LexHiStep(a: Box, b: Box, i: nat, n: nat)
    requires Valid(a) && Valid(b) && i < n
    requires LexHi(a, b, i + 1, n) < 0 <==> UpperIn(a, b, i + 1, n)
    ensures LexHi(a, b, i, n) < 0 <==> UpperIn(a, b, i, n)
  {
    hide Lo, Hi;
    if Hi(a, i) < Hi(b, i) {
      assert UpperAt(a, b, i, i);
    } else if Hi(a, i) == Hi(b, i) {
      if k: nat :| k < n && UpperAt(a, b, i, k) {
        UpperAtStep(a, b, i, k);
      }
      var next := i + 1;
      if k: nat :| k < n && UpperAt(a, b, next, k) {
        UpperAtStep(a, b, i, k);
      }
    }
  }

  /**
   What makes a box the smaller one: the first difference of lower extents in the
   common dimensions; failing that, of upper extents there; then of lower, then of
   upper extents in the remaining dimensions; and last the number of dimensions.
   */
  lemma CmpIs(a: Box, b: Box)
    requires Valid(a) && Valid(b)
    ensures var d, m := MinDim(a, b), MaxDim(a, b);
            Cmp(a, b) < 0 <==>
            || LowerIn(a, b, 0, d)
            || (SameLower(a, b, 0, d) && UpperIn(a, b, 0, d))
            || (SameLower(a, b, 0, d) && SameUpper(a, b, 0, d) && LowerIn(a, b, d, m))
            || (SameLower(a, b, 0, m) && SameUpper(a, b, 0, d) && UpperIn(a, b, d, m))
            || (SameLower(a, b, 0, m) && SameUpper(a, b, 0, m) && a.dim < b.dim)
  {
    hide LexLo, LexHi, Lo, Hi;
    var d, m := MinDim(a, b), MaxDim(a, b);
    LexIs(a, b, 0, d);
    LexIs(a, b, d, m);
  }

  // ------------------------------------------------------------ circles

  /** The first difference decides. */
  lemma {:induction false} FirstLo(a: Box, b: Box, i: nat, k: nat, n: nat)
    requires Valid(a) && Valid(b) && i <= k < n && Lo(a, k) < Lo(b, k)
    requires forall j: nat :: i <= j < k ==> Lo(a, j) == Lo(b, j)
    ensures LexLo(a, b, i, n) == -1
    decreases k - i
  {
    if i < k {
      FirstLo(a, b, i + 1, k, n);
    }
  }

  /** A flat box at the origin but for its upper extent in the first dimension. */
  function Spike(dim: nat, height: real): (b: Box)
    requires dim > 0 && height >= 0.0
    ensures Valid(b) && b.dim == dim && Hi(b, 0) == height && forall i: nat :: Lo(b, i) == 0.0
  {
    Box(dim, false, seq(2 * dim, i => if i == dim then height else 0.0))
  }

  /** A point on the axis of dimension `p`. */
  function OnAxis(dim: nat, p: nat): (b: Box)
    requires 0 < p < dim
    ensures Valid(b) && b.dim == dim && Lo(b, p) == 1.0
    ensures forall i: nat :: i != p ==> Lo(b, i) == 0.0 && Hi(b, i) == 0.0
  {
    Box(dim, true, seq(dim, i => if i == p then 1.0 else 0.0))
  }

  /** Boxes of two different positive dimensions: each is smaller than the next, in a circle. */
  lemma CmpCircle(p: nat, q: nat) returns (a: Box, b: Box, c: Box)
    requires 0 < p < q
    ensures Valid(a) && Valid(b) && Valid(c) && a.dim == p && b.dim == c.dim == q
    ensures Cmp(a, b) < 0 && Cmp(b, c) < 0 && Cmp(c, a) < 0
  {
    hide Spike, OnAxis, Lo, Hi;
    a, b, c := Spike(p, 1.0), Spike(q, 2.0), OnAxis(q, p);
    LexZero(a, b, 0, p);
    assert LexHi(a, b, 0, p) == -1;
    FirstLo(b, c, 0, p, q);
    LexZero(c, a, 0, p);
    assert LexHi(c, a, 0, p) == -1;
  }

  ghost predicate OfDims(b: Box, dims: set<nat>) {
    Valid(b) && b.dim in dims
  }

  /** The comparison is transitive on the boxes whose dimensions are in `dims`. */
  ghost predicate TransitiveOn(dims: set<nat>) {
    forall a, b, c :: OfDims(a, dims) && OfDims(b, dims) && OfDims(c, dims) ==>
      Cmp(a, b) <= 0 && Cmp(b, c) <= 0 ==> Cmp(a, c) <= 0
  }

  /** No two different positive dimensions. */
  predicate OnePositive(dims: set<nat>) {
    forall d, e :: d in dims && e in dims && d > 0 && e > 0 ==> d == e
  }

  /** The comparison orders boxes of several dimensions exactly when at most one of these is positive. */
  lemma CmpTransitiveExactly(dims: set<nat>)
    ensures TransitiveOn(dims) <==> OnePositive(dims)
  {
    if OnePositive(dims) {
      forall a, b, c | OfDims(a, dims) && OfDims(b, dims) && OfDims(c, dims) && Cmp(a, b) <= 0 && Cmp(b, c) <= 0
        ensures Cmp(a, c) <= 0
      {
        CmpTransitive(a, b, c, if a.dim > 0 then a.dim else if b.dim > 0 then b.dim else c.dim);
      }
    } else {
      var d, e :| d in dims && e in dims && d > 0 && e > 0 && d != e;
      var a, b, c := CmpCircle(if d < e then d else e, if d < e then e else d);
      CmpAntisymmetric(c, a);
      assert OfDims(a, dims) && OfDims(b, dims) && OfDims(c, dims);
    }
  }
}
