/**
 Byte strings under `byteacmp`: lexicographic order, prefixes, common prefix
 length and truncation, and how they interact.
 */
module ByteOrder {
  import opened Common

  type Bytes = seq<Byte>

  /** First position from `i` on where the strings differ or one of them ends. */
  function FirstDifference(a: Bytes, b: Bytes, i: nat): (n: nat)
    requires i <= |a| && i <= |b|
    ensures i <= n <= |a| && n <= |b|
    decreases |a| - i
  {
    if i < |a| && i < |b| && a[i] == b[i] then FirstDifference(a, b, i + 1) else i
  }

  /** Length of the longest common prefix. */
  function CommonPrefix(a: Bytes, b: Bytes): (n: nat)
    ensures n <= |a| && n <= |b|
  {
    FirstDifference(a, b, 0)
  }

  /** `byteacmp(a, b) <= 0`: the first differing byte decides, then the length. */
  predicate Leq(a: Bytes, b: Bytes) {
    var n := CommonPrefix(a, b);
    n == |a| || (n < |b| && a[n] < b[n])
  }

  predicate Less(a: Bytes, b: Bytes) {
    Leq(a, b) && a != b
  }

  /** The first `n` bytes, or all of them. */
  function Take(s: Bytes, n: nat): Bytes {
    if n < |s| then s[..n] else s
  }

  /** The strings agree below `n` and differ there, or one ends. */
  ghost predicate Parts(a: Bytes, b: Bytes, n: nat) {
    && n <= |a| && n <= |b|
    && (forall j :: 0 <= j < n ==> a[j] == b[j])
    && (n < |a| && n < |b| ==> a[n] != b[n])
  }

  lemma {:induction false} FirstDifferenceParts(a: Bytes, b: Bytes, i: nat)
    requires i <= |a| && i <= |b| && forall j :: 0 <= j < i ==> a[j] == b[j]
    ensures Parts(a, b, FirstDifference(a, b, i))
    decreases |a| - i
  {
    if i < |a| && i < |b| && a[i] == b[i] {
      FirstDifferenceParts(a, b, i + 1);
    }
  }

  lemma PartsAt(a: Bytes, b: Bytes)
    ensures Parts(a, b, CommonPrefix(a, b))
  {
    FirstDifferenceParts(a, b, 0);
  }

  /** `CommonPrefix` is the only position with that property. */
  lemma PartsUnique(a: Bytes, b: Bytes, n: nat)
    requires Parts(a, b, n)
    ensures CommonPrefix(a, b) == n
  {
    PartsAt(a, b);
  }

  lemma PrefixParts(p: Bytes, v: Bytes)
    ensures p <= v <==> CommonPrefix(p, v) == |p|
    ensures p <= v ==> Leq(p, v)
  {
    PartsAt(p, v);
    if p <= v {
      PartsUnique(p, v, |p|);
    }
  }

  lemma CommonPrefixSelf(a: Bytes)
    ensures CommonPrefix(a, a) == |a| && Leq(a, a)
  {
    PartsUnique(a, a, |a|);
  }

  lemma CommonPrefixSymmetric(a: Bytes, b: Bytes)
    ensures CommonPrefix(a, b) == CommonPrefix(b, a)
  {
    PartsAt(a, b);
    PartsUnique(b, a, CommonPrefix(a, b));
  }

  lemma LeqTotal(a: Bytes, b: Bytes)
    ensures Leq(a, b) || Leq(b, a)
    ensures a == b ==> Leq(a, b)
  {
    PartsAt(a, b);
    CommonPrefixSymmetric(a, b);
  }

  lemma LeqAntisymmetric(a: Bytes, b: Bytes)
    requires Leq(a, b) && Leq(b, a)
    ensures a == b
  {
    PartsAt(a, b);
    CommonPrefixSymmetric(a, b);
  }

  lemma LeqTransitive(a: Bytes, b: Bytes, c: Bytes)
    requires Leq(a, b) && Leq(b, c)
    ensures Leq(a, c)
  {
    var m, n := CommonPrefix(a, b), CommonPrefix(b, c);
    PartsAt(a, b);
    PartsAt(b, c);
    PartsUnique(a, c, if m < n then m else n);
  }

  /** Whatever lies between a prefix and its extension extends the prefix. */
  lemma Between(p: Bytes, x: Bytes, v: Bytes)
    requires p <= v && Leq(p, x) && Leq(x, v)
    ensures p <= x
  {
    PartsAt(p, x);
    PartsAt(x, v);
  }

  lemma TakeLeq(s: Bytes, n: nat)
    ensures Take(s, n) <= s && Leq(Take(s, n), s)
  {
    PrefixParts(Take(s, n), s);
  }

  /** Truncating both strings beyond their common prefix keeps its length. */
  lemma TakeKeepsCommonPrefix(a: Bytes, b: Bytes, n: nat)
    requires n > CommonPrefix(a, b)
    ensures CommonPrefix(Take(a, n), Take(b, n)) == CommonPrefix(a, b)
  {
    PartsAt(a, b);
    PartsUnique(Take(a, n), Take(b, n), CommonPrefix(a, b));
  }

  lemma TakeMonotone(a: Bytes, b: Bytes, n: nat)
    requires Leq(a, b)
    ensures Leq(Take(a, n), Take(b, n))
  {
    PartsAt(a, b);
    if n > CommonPrefix(a, b) {
      TakeKeepsCommonPrefix(a, b, n);
    } else {
      PartsUnique(Take(a, n), Take(b, n), n);
    }
  }

  /** The ends of an interval share no more than what lies inside it. */
  lemma HullCommonPrefix(l: Bytes, a: Bytes, b: Bytes, h: Bytes)
    requires Leq(l, a) && Leq(a, b) && Leq(b, h)
    ensures CommonPrefix(l, h) <= CommonPrefix(a, b)
  {
    var p := Take(h, CommonPrefix(l, h));
    PartsAt(l, h);
    assert p <= l && p <= h;
    LeqTransitive(l, a, b);
    LeqTransitive(a, b, h);
    PrefixParts(p, l);
    LeqTransitive(p, l, a);
    LeqTransitive(p, l, b);
    Between(p, a, h);
    Between(p, b, h);
    PartsAt(a, b);
  }

  /** What is below a string is below its truncation or extends it. */
  lemma BelowTake(v: Bytes, h: Bytes, n: nat)
    requires Leq(v, h)
    ensures Leq(v, Take(h, n)) || Take(h, n) <= v
  {
    LeqTotal(v, Take(h, n));
    TakeLeq(h, n);
    if !Leq(v, Take(h, n)) {
      Between(Take(h, n), v, h);
    }
  }

  /** The byte loop of `gbt_var_node_cp_len` for a single-byte encoding. */
  method CommonPrefixLength(a: Bytes, b: Bytes) returns (n: nat)
    ensures n == CommonPrefix(a, b)
  {
    var ml := if |a| < |b| then |a| else |b|;
    n := 0;
    while n < ml
      invariant n <= ml && CommonPrefix(a, b) == FirstDifference(a, b, n)
    {
      if a[n] != b[n] {
        return;
      }
      n := n + 1;
    }
  }
}
