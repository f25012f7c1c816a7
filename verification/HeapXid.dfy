/**
 Transaction ids in contrib/amcheck/verify_heapam.c: 32-bit ids wrap around, and
 `FullTransactionIdFromXidAndCtx` recovers the 64-bit id relative to the next one.
 */
module HeapXid {
  const XID_MODULUS: int := 0x1_0000_0000
  const FULL_MODULUS: int := 0x1_0000_0000_0000_0000
  const HALF: int := 0x8000_0000
  const FIRST_NORMAL: int := 3

  type Xid = x: nat | x < 0x1_0000_0000 witness 0
  type FullXid = x: nat | x < 0x1_0000_0000_0000_0000 witness 0

  /** `XidFromFullTransactionId`: the low 32 bits. */
  function Truncate(f: FullXid): Xid {
    f % XID_MODULUS
  }

  /** A 32-bit difference read as a signed integer. */
  function SignedDiff(a: Xid, b: Xid): int {
    var d := (a - b) % XID_MODULUS;
    if d < HALF then d else d - XID_MODULUS
  }

  /** `TransactionIdPrecedes` for normal ids. */
  predicate Precedes(a: Xid, b: Xid) {
    SignedDiff(a, b) < 0
  }

  /** The cached upper end of the id range: both forms are normal. */
  predicate NormalNext(next: FullXid) {
    next >= FIRST_NORMAL && Truncate(next) >= FIRST_NORMAL
  }

  /** The id would lie before the first normal one. */
  predicate Clamped(next: FullXid, xid: Xid) {
    var diff := SignedDiff(Truncate(next), xid);
    diff > 0 && next - FIRST_NORMAL < diff
  }

  /** `FullTransactionIdFromXidAndCtx`, with unsigned 64-bit subtraction. */
  function FromXid(next: FullXid, xid: Xid): FullXid {
    if xid < FIRST_NORMAL then xid
    else if Clamped(next, xid) then FIRST_NORMAL
    else (next - SignedDiff(Truncate(next), xid)) % FULL_MODULUS
  }

  predicate Near(d: int) {
    -HALF <= d < HALF
  }

  /** At most 2^31 - 1 before `next` or 2^31 after it, where what follows the largest 64-bit id is id 0. */
  predicate InWindow(next: FullXid, f: FullXid) {
    Near(next - f) || Near(next - f - FULL_MODULUS)
  }

  // ------------------------------------------------------------ arithmetic

  lemma ModSplit(q: int, r: int)
    requires 0 <= r < XID_MODULUS
    ensures (q * XID_MODULUS + r) % XID_MODULUS == r
  {
  }

  lemma DiffShape(next: FullXid, xid: Xid) returns (q: int)
    ensures next - SignedDiff(Truncate(next), xid) == q * XID_MODULUS + xid
    ensures -HALF <= SignedDiff(Truncate(next), xid) < HALF
  {
    var d := Truncate(next) - xid;
    q := next / XID_MODULUS;
    assert next == q * XID_MODULUS + Truncate(next);
    if d < 0 {
      ModSplit(-1, d + XID_MODULUS);
      assert d % XID_MODULUS == d + XID_MODULUS;
      q := if d + XID_MODULUS < HALF then q - 1 else q;
    } else {
      assert d % XID_MODULUS == d;
      q := if d < HALF then q else q + 1;
    }
  }

  /** Whole multiples of 2^64 do not touch the low bits. */
  lemma TruncateWrapped(q: int, xid: Xid)
    ensures (q * XID_MODULUS + xid) % FULL_MODULUS % XID_MODULUS == xid
  {
    var n := q * XID_MODULUS + xid;
    var k := n / FULL_MODULUS;
    assert n % FULL_MODULUS == n - k * FULL_MODULUS;
    assert n - k * FULL_MODULUS == (q - k * XID_MODULUS) * XID_MODULUS + xid;
    ModSplit(q - k * XID_MODULUS, xid);
  }

  // ------------------------------------------------------------ results

  /** The conversion always yields a normal id, and one that truncates back unless it was clamped. */
  lemma FromXidNormal(next: FullXid, xid: Xid)
    requires NormalNext(next) && xid >= FIRST_NORMAL
    ensures FromXid(next, xid) >= FIRST_NORMAL
    ensures Truncate(FromXid(next, xid)) == xid || Clamped(next, xid)
    ensures Clamped(next, xid) ==> FromXid(next, xid) == 3
  {
    var q := DiffShape(next, xid);
    TruncateWrapped(q, xid);
  }

  /** Clamping happens only in epoch 0, for ids that stand for something before the first normal id. */
  lemma ClampOnlyInEpochZero(next: FullXid, xid: Xid)
    requires NormalNext(next) && xid >= FIRST_NORMAL
    ensures Clamped(next, xid) ==> next < XID_MODULUS && next < xid && next - xid + XID_MODULUS < HALF
    ensures Clamped(next, xid) <==> next - SignedDiff(Truncate(next), xid) < FIRST_NORMAL
  {
    var q := DiffShape(next, xid);
    if Clamped(next, xid) {
      assert Truncate(next) == next;
    }
  }

  lemma DiffOfNear(next: FullXid, f: FullXid, d: int)
    requires next - f == d || next - f == d + FULL_MODULUS
    requires -HALF <= d < HALF
    ensures SignedDiff(Truncate(next), Truncate(f)) == d
  {
    var a, b := next / XID_MODULUS, f / XID_MODULUS;
    var e := Truncate(next) - Truncate(f);
    assert next == a * XID_MODULUS + Truncate(next) && f == b * XID_MODULUS + Truncate(f);
    assert e == next - f - (a - b) * XID_MODULUS;
    var k := if next - f == d then 0 else 1;
    assert e == d + (k * XID_MODULUS - (a - b)) * XID_MODULUS;
    var m := k * XID_MODULUS - (a - b);
    assert -XID_MODULUS < e < XID_MODULUS;
    assert m == -1 || m == 0 || m == 1;
  }

  /** Conversion inverts truncation exactly on the window around the next id. */
  lemma FromXidInverts(next: FullXid, f: FullXid)
    requires NormalNext(next) && f >= FIRST_NORMAL && Truncate(f) >= FIRST_NORMAL
    ensures FromXid(next, Truncate(f)) == f <==> InWindow(next, f)
  {
    if InWindow(next, f) {
      var d := if Near(next - f) then next - f else next - f - FULL_MODULUS;
      DiffOfNear(next, f, d);
      ClampOnlyInEpochZero(next, Truncate(f));
      assert (next - d) % FULL_MODULUS == f;
    }
    if FromXid(next, Truncate(f)) == f {
      ClampedDiffers(next, f);
      var q := DiffShape(next, Truncate(f));
    }
  }

  lemma ClampedDiffers(next: FullXid, f: FullXid)
    requires NormalNext(next) && f >= FIRST_NORMAL && Truncate(f) >= FIRST_NORMAL
    ensures Clamped(next, Truncate(f)) ==> f != FIRST_NORMAL
  {
    ClampOnlyInEpochZero(next, Truncate(f));
  }

  /** Within 2^31 of each other, 32-bit precedence agrees with the 64-bit order. */
  lemma PrecedenceAgrees(f: FullXid, g: FullXid)
    requires -HALF <= f - g < HALF
    ensures Precedes(Truncate(f), Truncate(g)) <==> f < g
  {
    DiffOfNear(f, g, f - g);
  }

  /** Two ids within 2^31 before the next one are in its window and compare the same in both forms. */
  lemma RecentIdsAgree(next: FullXid, f: FullXid, g: FullXid)
    requires NormalNext(next) && FIRST_NORMAL <= f <= next && FIRST_NORMAL <= g <= next && next - f < HALF
    requires next - g < HALF
    requires Truncate(f) >= FIRST_NORMAL && Truncate(g) >= FIRST_NORMAL
    ensures FromXid(next, Truncate(f)) == f && FromXid(next, Truncate(g)) == g
    ensures Precedes(Truncate(f), Truncate(g)) <==> FromXid(next, Truncate(f)) < FromXid(next, Truncate(g))
  {
    FromXidInverts(next, f);
    FromXidInverts(next, g);
    PrecedenceAgrees(f, g);
  }
}
