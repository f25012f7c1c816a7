/**
 `get_xid_status` of contrib/amcheck/verify_heapam.c: bounds checks against a cached
 copy of the cluster's id range, refreshed only when an id falls outside it, while
 the shared range keeps moving.
 */
module HeapStatus {
  import opened HeapXid

  datatype Bounds = Invalid | InFuture | PrecedesClusterMin | PrecedesRelMin | BoundsOk
  datatype Status = Committed | IsCurrentXid | InProgress | Aborted

  /** The shared variables: next 64-bit id and oldest 32-bit id. */
  datatype Range = Range(next: FullXid, oldest: Xid)

  /** The cached copies in 64-bit form. */
  datatype Cache = Cache(next: FullXid, oldest: FullXid)

  const BOOTSTRAP: Xid := 1
  const FROZEN: Xid := 2

  /** `update_cached_xid_range`. */
  function Load(r: Range): Cache {
    Cache(r.next, FromXid(r.next, r.oldest))
  }

  /** `fxid_in_cached_range`. */
  predicate Inside(c: Cache, f: FullXid) {
    c.oldest <= f < c.next
  }

  /** The cache a query works with: refreshed if the id looks out of range. */
  function Refreshed(c: Cache, now: Range, xid: Xid): Cache {
    if xid < FIRST_NORMAL || Inside(c, FromXid(c.next, xid)) then c else Load(now)
  }

  /** The verdict of a query that ends with cache `c`. */
  function Verdict(c: Cache, relfrozen: FullXid, xid: Xid): Bounds {
    var f := FromXid(c.next, xid);
    if xid == 0 then Invalid
    else if xid < FIRST_NORMAL then BoundsOk
    else if c.next <= f then InFuture
    else if f < c.oldest then PrecedesClusterMin
    else if f < relfrozen then PrecedesRelMin
    else BoundsOk
  }

  /** Clog answers for one id, as the server gives them now. */
  datatype Clog = Clog(oldest: Xid, isCurrent: bool, inProgress: bool, didCommit: bool)

  function ClogStatus(c: Cache, clog: Clog, f: FullXid): Status {
    if FromXid(c.next, clog.oldest) <= f then
      if clog.isCurrent then IsCurrentXid
      else if clog.inProgress then InProgress
      else if clog.didCommit then Committed
      else Aborted
    else Committed
  }

  /** What each commit status says; ids before the clog's horizon count as committed. */
  lemma StatusMeans(c: Cache, clog: Clog, f: FullXid)
    ensures var kept, status := FromXid(c.next, clog.oldest) <= f, ClogStatus(c, clog, f);
            && (status == IsCurrentXid <==> kept && clog.isCurrent)
            && (status == InProgress <==> kept && !clog.isCurrent && clog.inProgress)
            && (status == Aborted <==> kept && !clog.isCurrent && !clog.inProgress && !clog.didCommit)
            && (status == Committed <==> !kept || (!clog.isCurrent && !clog.inProgress && clog.didCommit))
  {
  }

  /** What each verdict says of the id, given the range it was judged by. */
  lemma VerdictMeans(c: Cache, relfrozen: FullXid, xid: Xid)
    ensures var f, v := FromXid(c.next, xid), Verdict(c, relfrozen, xid);
            && (v == Invalid <==> xid == 0)
            && (v == InFuture <==> xid >= 3 && f >= c.next)
            && (v == PrecedesClusterMin <==> xid >= 3 && f < c.next && f < c.oldest)
            && (v == PrecedesRelMin <==> xid >= 3 && c.oldest <= f < c.next && f < relfrozen)
            && (v == BoundsOk <==> xid == 1 || xid == 2 || (xid >= 3 && c.oldest <= f < c.next && relfrozen <= f))
  {
    hide FromXid;
  }

  /** The shared range is read again exactly for a normal id outside the cached one. */
  lemma RefreshMeans(c: Cache, now: Range, xid: Xid)
    ensures var f := FromXid(c.next, xid);
            Refreshed(c, now, xid) ==
            if xid >= 3 && (f < c.oldest || f >= c.next) then Cache(now.next, FromXid(now.next, now.oldest)) else c
  {
    hide FromXid;
  }

  class HeapCheckContext {
    var nextFxid: FullXid
    var oldestFxid: FullXid
    const relfrozenFxid: FullXid
    var cachedXid: Xid
    var cachedStatus: Status

    function View(): Cache
      reads this
    {
      Cache(nextFxid, oldestFxid)
    }

    constructor (now: Range, relfrozen: Xid)
      ensures View() == Load(now) && relfrozenFxid == FromXid(now.next, relfrozen) && cachedXid == 0
    {
      nextFxid, oldestFxid := now.next, FromXid(now.next, now.oldest);
      relfrozenFxid := FromXid(now.next, relfrozen);
      cachedXid, cachedStatus := 0, Committed;
    }

    method UpdateCachedXidRange(now: Range)
      modifies this`nextFxid, this`oldestFxid
      ensures View() == Load(now)
    {
      nextFxid := now.next;
      oldestFxid := FromXid(nextFxid, now.oldest);
    }

    /** `get_xid_status`; `wanted` says that the commit status is asked for, `before` is what its variable held. */
    method GetXidStatus(xid: Xid, now: Range, clog: Clog, wanted: bool, before: Status)
      returns (result: Bounds, status: Status)
      modifies this
      ensures View() == Refreshed(old(View()), now, xid) && result == Verdict(View(), relfrozenFxid, xid)
      ensures !wanted || result != BoundsOk ==> status == before
      ensures wanted && result == BoundsOk && xid < FIRST_NORMAL ==> status == Committed
      ensures !wanted || result != BoundsOk || xid < FIRST_NORMAL ==>
                cachedXid == old(cachedXid) && cachedStatus == old(cachedStatus)
      ensures wanted && result == BoundsOk && xid >= FIRST_NORMAL ==> cachedXid == xid && cachedStatus == status
      ensures wanted && result == BoundsOk && xid >= FIRST_NORMAL ==>
                status == if xid == old(cachedXid) then old(cachedStatus)
                          else ClogStatus(View(), clog, FromXid(nextFxid, xid))
    {
      status := before;
      if xid == 0 {
        return Invalid, status;
      } else if xid == BOOTSTRAP || xid == FROZEN {
        return BoundsOk, if wanted then Committed else status;
      }
      var fxid := FromXid(nextFxid, xid);
      if !Inside(View(), fxid) {
        UpdateCachedXidRange(now);
        fxid := FromXid(nextFxid, xid);
      }
      if nextFxid <= fxid {
        return InFuture, status;
      }
      if fxid < oldestFxid {
        return PrecedesClusterMin, status;
      }
      if fxid < relfrozenFxid {
        return PrecedesRelMin, status;
      }
      if !wanted {
        return BoundsOk, status;
      }
      if xid == cachedXid {
        return BoundsOk, cachedStatus;
      }
      status := Committed;
      var horizon := FromXid(nextFxid, clog.oldest);
      if horizon <= fxid {
        if clog.isCurrent {
          status := IsCurrentXid;
        } else if clog.inProgress {
          status := InProgress;
        } else if clog.didCommit {
          status := Committed;
        } else {
          status := Aborted;
        }
      }
      cachedXid, cachedStatus := xid, status;
      return BoundsOk, status;
    }
  }

  // ------------------------------------------------------------ whole runs

  /** The cache after the first `i` queries; `ranges[j]` is the shared range when query `j` runs. */
  function CacheAfter(start: Range, ranges: seq<Range>, xids: seq<Xid>, i: nat): Cache
    requires |ranges| == |xids| && i <= |xids|
  {
    if i == 0 then Load(start) else Refreshed(CacheAfter(start, ranges, xids, i - 1), ranges[i - 1], xids[i - 1])
  }

  /** The verdict of query `i`. */
  function VerdictOf(start: Range, ranges: seq<Range>, xids: seq<Xid>, relfrozen: FullXid, i: nat): Bounds
    requires |ranges| == |xids| && i < |xids|
  {
    Verdict(CacheAfter(start, ranges, xids, i + 1), relfrozen, xids[i])
  }

  /** The shared range as of query `k - 1`, or as of the start. */
  function RangeAt(start: Range, ranges: seq<Range>, k: nat): Range
    requires k <= |ranges|
  {
    if k == 0 then start else ranges[k - 1]
  }

  /** The cache always holds a range that was current at some earlier query or at the start. */
  lemma {:induction false} CacheFromHistory(start: Range, ranges: seq<Range>, xids: seq<Xid>, i: nat) returns (k: nat)
    requires |ranges| == |xids| && i <= |xids|
    ensures k <= i && CacheAfter(start, ranges, xids, i) == Load(RangeAt(start, ranges, k))
  {
    if i == 0 {
      k := 0;
    } else {
      k := CacheFromHistory(start, ranges, xids, i - 1);
      if CacheAfter(start, ranges, xids, i) != CacheAfter(start, ranges, xids, i - 1) {
        k := i;
      }
    }
  }

  /** Complaints about the cluster's range are only ever made against the range read in that same call. */
  lemma ComplaintsAreCurrent(start: Range, ranges: seq<Range>, xids: seq<Xid>, relfrozen: FullXid, i: nat)
    requires |ranges| == |xids| && i < |xids|
    requires VerdictOf(start, ranges, xids, relfrozen, i) == InFuture ||
             VerdictOf(start, ranges, xids, relfrozen, i) == PrecedesClusterMin
    ensures CacheAfter(start, ranges, xids, i + 1) == Load(ranges[i])
    ensures !Inside(Load(ranges[i]), FromXid(ranges[i].next, xids[i]))
  {
  }

  /** An id passes only if it lies in a range that was current at the time and not before the relation's horizon. */
  lemma AcceptedIsInRange(start: Range, ranges: seq<Range>, xids: seq<Xid>, relfrozen: FullXid, i: nat) returns (k: nat)
    requires |ranges| == |xids| && i < |xids| && xids[i] >= FIRST_NORMAL
    requires VerdictOf(start, ranges, xids, relfrozen, i) == BoundsOk
    ensures k <= i + 1
    ensures var r := RangeAt(start, ranges, k);
            Inside(Load(r), FromXid(r.next, xids[i])) && relfrozen <= FromXid(r.next, xids[i])
  {
    k := CacheFromHistory(start, ranges, xids, i + 1);
  }

  /** `f` is an id in use when the shared range is `r`, whose oldest id is `oldest` in full. */
  ghost predicate InUse(r: Range, oldest: FullXid, f: FullXid) {
    && NormalNext(r.next) && Truncate(oldest) == r.oldest >= FIRST_NORMAL && FIRST_NORMAL <= oldest <= f < r.next
    && r.next - oldest < HALF && Truncate(f) >= FIRST_NORMAL
  }

  lemma CurrentConversion(r: Range, oldest: FullXid, f: FullXid)
    requires InUse(r, oldest, f)
    ensures FromXid(r.next, Truncate(f)) == f && Load(r) == Cache(r.next, oldest)
  {
    hide FromXid;
    FromXidInverts(r.next, f);
    FromXidInverts(r.next, oldest);
  }

  /** No false alarm: an id in use is never reported as out of the cluster's range, however stale the cache was. */
  lemma NoFalseAlarm(start: Range, ranges: seq<Range>, xids: seq<Xid>, relfrozen: FullXid, i: nat, oldest: FullXid,
                     f: FullXid)
    requires |ranges| == |xids| && i < |xids| && InUse(ranges[i], oldest, f) && xids[i] == Truncate(f)
    ensures VerdictOf(start, ranges, xids, relfrozen, i) == BoundsOk ||
            VerdictOf(start, ranges, xids, relfrozen, i) == PrecedesRelMin
  {
    hide FromXid;
    CurrentConversion(ranges[i], oldest, f);
  }

  /** If fewer than 2^31 ids were assigned since the cache was filled, the verdict on an id in use is exact. */
  lemma ExactVerdict(c: Cache, now: Range, relfrozen: FullXid, oldest: FullXid, f: FullXid)
    requires InUse(now, oldest, f) && NormalNext(c.next) && c.next <= now.next && now.next - c.next <= HALF
    ensures Verdict(Refreshed(c, now, Truncate(f)), relfrozen, Truncate(f)) ==
            if f < relfrozen then PrecedesRelMin else BoundsOk
  {
    hide FromXid;
    CurrentConversion(now, oldest, f);
    FromXidInverts(c.next, f);
  }
}
