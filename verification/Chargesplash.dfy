/** The limit on requests to power on for the charge display (common/chargesplash.c:46-112). */
module Chargesplash {
  import opened Ring

  /** A request has left the tracking period; a time of 0 stands for a slot that was never filled. */
  predicate Expired(timestamp: int, now: int, period: int) {
    timestamp == 0 || now - timestamp >= period
  }

  ghost predicate Nondecreasing(h: seq<int>) {
    forall i, j :: 0 <= i <= j < |h| ==> h[i] <= h[j]
  }

  // -------- the decision as a function of all requests since the last reset

  /** The last request is one of more than `n` within a period. */
  predicate TooMany(h: seq<int>, n: nat, period: int)
    requires 0 < |h|
  {
    |h| > n && !Expired(h[|h| - 1 - n], h[|h| - 1], period)
  }

  /** Whether requests are locked out behind the last one. */
  predicate Locked(h: seq<int>, n: nat, period: int) {
    if |h| == 0 then false
    else
      || (Locked(h[..|h| - 1], n, period) && |h| > 1 && !Expired(h[|h| - 2], h[|h| - 1], period))
      || TooMany(h, n, period)
  }

  /** Whether the `k`-th request is permitted. */
  predicate Permitted(h: seq<int>, k: nat, n: nat, period: int)
    requires k < |h|
  {
    !Locked(h[..k + 1], n, period)
  }

  function PermittedBetween(h: seq<int>, i: nat, j: nat, n: nat, period: int): nat
    requires i <= j <= |h|
    decreases j - i
  {
    if i == j then 0
    else PermittedBetween(h, i, j - 1, n, period) + if Permitted(h, j - 1, n, period) then 1 else 0
  }

  lemma TooManyIsRefused(h: seq<int>, k: nat, i: nat, n: nat, period: int)
    requires Nondecreasing(h) && i + n <= k < |h| && h[i] >= 1 && h[k] - h[i] < period
    ensures !Permitted(h, k, n, period)
  {
    var p := h[..k + 1];
    assert p[|p| - 1 - n] == h[k - n] && p[|p| - 1] == h[k];
    assert h[i] <= h[k - n];
    assert TooMany(p, n, period);
  }

  lemma {:induction false} AtMostAllPermitted(h: seq<int>, i: nat, j: nat, n: nat, period: int)
    requires i <= j <= |h|
    ensures PermittedBetween(h, i, j, n, period) <= j - i
    decreases j - i
  {
    if i < j {
      AtMostAllPermitted(h, i, j - 1, n, period);
    }
  }

  /** No more than `n` requests are permitted in any span shorter than the period. */
  lemma {:induction false} RateIsLimited(h: seq<int>, i: nat, j: nat, n: nat, period: int)
    requires Nondecreasing(h) && i < j <= |h| && h[i] >= 1 && h[j - 1] - h[i] < period
    ensures PermittedBetween(h, i, j, n, period) <= n
    decreases j - i
  {
    if j - i <= n {
      AtMostAllPermitted(h, i, j, n, period);
    } else {
      if i < j - 1 {
        assert h[j - 2] <= h[j - 1];
        RateIsLimited(h, i, j - 1, n, period);
      }
      TooManyIsRefused(h, j - 1, i, n, period);
    }
  }

  /** While locked out, exactly the request that comes a full period after the one before it is permitted. */
  lemma UnlockedByPause(h: seq<int>, k: nat, n: nat, period: int)
    requires Nondecreasing(h) && 0 < k < |h| && n >= 1 && h[0] >= 1
    requires !Permitted(h, k - 1, n, period)
    ensures Permitted(h, k, n, period) <==> h[k] - h[k - 1] >= period
  {
    var p := h[..k + 1];
    assert p[..k] == h[..k];
    assert h[0] <= h[k - 1];
    if k >= n {
      assert h[k - n] <= h[k - 1] && h[0] <= h[k - n];
    }
  }

  /** So once a request has been refused, requests stay refused until there is such a pause. */
  lemma {:induction false} LockedWithoutPause(h: seq<int>, i: nat, k: nat, n: nat, period: int)
    requires Nondecreasing(h) && i <= k < |h| && n >= 1 && h[0] >= 1 && !Permitted(h, i, n, period)
    requires forall m :: i < m <= k ==> h[m] - h[m - 1] < period
    ensures !Permitted(h, k, n, period)
  {
    if i < k {
      LockedWithoutPause(h, i, k - 1, n, period);
      UnlockedByPause(h, k, n, period);
    }
  }

  /** Request `i` is one of more than `n` in less than a period. */
  predicate Crowded(h: seq<int>, i: int, n: nat, period: int) {
    n <= i < |h| && h[i - n] != 0 && h[i] - h[i - n] < period
  }

  /** Request `m` came less than a period after the one before it, at a time that does not read as an empty slot. */
  predicate Soon(h: seq<int>, m: int, period: int) {
    0 < m < |h| && h[m - 1] != 0 && h[m] - h[m - 1] < period
  }

  /** Request `i` was crowded, and up to `k` nobody has waited since. */
  ghost predicate LocksOut(h: seq<int>, i: int, k: int, n: nat, period: int) {
    Crowded(h, i, n, period) && i <= k < |h| && forall m :: i < m <= k ==> Soon(h, m, period)
  }

  lemma RefusedStep(h: seq<int>, k: nat, n: nat, period: int)
    requires k < |h| && n >= 1
    ensures !Permitted(h, k, n, period) <==>
            Crowded(h, k, n, period) || (k > 0 && !Permitted(h, k - 1, n, period) && Soon(h, k, period))
  {
    var p := h[..k + 1];
    assert p[..k] == h[..k];
  }

  /** Refused are exactly the requests that are one of too many themselves, or that have come without a pause since one
      that was. */
  lemma {:induction false} RefusedExactly(h: seq<int>, k: nat, n: nat, period: int)
    requires k < |h| && n >= 1
    ensures !Permitted(h, k, n, period) <==> exists i :: LocksOut(h, i, k, n, period)
  {
    RefusedStep(h, k, n, period);
    if Crowded(h, k, n, period) {
      assert LocksOut(h, k, k, n, period);
    } else if k > 0 {
      RefusedExactly(h, k - 1, n, period);
      forall i
        ensures LocksOut(h, i, k, n, period) <==> LocksOut(h, i, k - 1, n, period) && Soon(h, k, period)
      {
      }
      if !Permitted(h, k, n, period) {
        var i :| LocksOut(h, i, k - 1, n, period);
        assert LocksOut(h, i, k, n, period);
      }
    }
  }

  /** In the first second after boot the limit does not hold, because a time of 0 reads as an empty
      slot: any number of requests is permitted then. */
  lemma {:induction false} FirstSecondIsFree(h: seq<int>, k: nat, n: nat, period: int)
    requires k < |h| && forall i :: 0 <= i <= k ==> h[i] == 0
    ensures Permitted(h, k, n, period)
  {
    if k > 0 {
      FirstSecondIsFree(h, k - 1, n, period);
      assert h[..k + 1][..k] == h[..k];
    }
  }

  lemma {:induction false} ZerosArePermitted(h: seq<int>, k: nat, n: nat, period: int)
    requires k <= |h| && forall i :: 0 <= i < |h| ==> h[i] == 0
    ensures PermittedBetween(h, 0, k, n, period) == k
  {
    if k > 0 {
      ZerosArePermitted(h, k - 1, n, period);
      FirstSecondIsFree(h, k - 1, n, period);
    }
  }

  /** Of the requests `i` to `j` of some history at most `n` are permitted, if they begin at `t` and
      take less than the period. */
  ghost predicate LimitedFrom(t: int, h: seq<int>, i: nat, j: nat, n: nat, period: int)
    requires i < j <= |h|
  {
    h[i] == t && h[j - 1] - t < period ==> PermittedBetween(h, i, j, n, period) <= n
  }

  /** The limit holds in all spans that begin at a time exactly if this is not the first second after boot. */
  lemma LimitHoldsExactly(t: nat, n: nat, period: int)
    requires period > 0
    ensures (forall h, i: nat, j: nat :: i < j <= |h| && Nondecreasing(h) ==> LimitedFrom(t, h, i, j, n, period)) <==> t >= 1
  {
    if t >= 1 {
      forall h, i: nat, j: nat | i < j <= |h| && Nondecreasing(h)
        ensures LimitedFrom(t, h, i, j, n, period)
      {
        if h[i] == t && h[j - 1] - t < period {
          RateIsLimited(h, i, j, n, period);
        }
      }
    } else {
      var h := Zeros(n + 1);
      ZerosArePermitted(h, n + 1, n, period);
      assert Nondecreasing(h) && !LimitedFrom(t, h, 0, n + 1, n, period);
    }
  }

  // -------- the circular log

  class RequestLog {
    const requestLog: array<int>
    const period: int
    var logPtr: nat
    var lockedOut: bool
    /** The times of all requests since the last reset. */
    ghost var requests: seq<int>

    ghost predicate Valid()
      reads this, requestLog
    {
      && Keeps(requestLog[..], logPtr, requests)
      && Nondecreasing(requests) && (forall i :: 0 <= i < |requests| ==> requests[i] >= 0)
      && lockedOut == Locked(requests, requestLog.Length, period)
    }

    constructor (maxRequests: nat, period: int)
      requires maxRequests >= 1
      ensures Valid() && fresh(requestLog) && requests == [] && this.period == period && requestLog.Length == maxRequests
    {
      requestLog := new int[maxRequests](_ => 0);
      this.period := period;
      logPtr, lockedOut, requests := 0, false, [];
      new;
      KeepsZeros(maxRequests, 0);
      assert requestLog[..] == Zeros(maxRequests);
    }

    method LockoutCanBeCleared(now: int) returns (clear: bool)
      requires Valid() && (|requests| > 0 ==> requests[|requests| - 1] <= now)
      ensures clear <==> !lockedOut || |requests| == 0 || Expired(requests[|requests| - 1], now, period)
    {
      if !lockedOut {
        return true;
      }
      for i := 0 to requestLog.Length
        invariant forall k :: 0 <= k < i ==> Expired(requestLog[k], now, period)
      {
        if !Expired(requestLog[i], now, period) {
          SlotIsValue(requestLog[..], logPtr, requests, i);
          return false;
        }
      }
      if |requests| > 0 {
        NewestIsKept(requestLog[..], logPtr, requests);
      }
      clear := true;
    }

    // Whether the request at this time is inhibited.
    method Decide(now: int) returns (inhibit: bool)
      requires Valid() && (|requests| > 0 ==> requests[|requests| - 1] <= now)
      modifies this`lockedOut
      ensures inhibit == lockedOut == Locked(requests + [now], requestLog.Length, period)
    {
      ghost var before, after := requests, requests + [now];
      assert after[..|after| - 1] == before;
      OldestIsNext(requestLog[..], logPtr, before);
      inhibit := false;
      var clear := LockoutCanBeCleared(now);
      if clear {
        lockedOut := false;
      } else {
        inhibit := true;
      }
      if !Expired(requestLog[logPtr], now, period) {
        lockedOut := true;
        inhibit := true;
      }
    }

    /** Logs a request and says whether it may power on. */
    method LogRequest(now: int) returns (permitted: bool)
      requires Valid() && now >= 0 && (|requests| > 0 ==> requests[|requests| - 1] <= now)
      modifies this, requestLog
      ensures Valid() && requests == old(requests) + [now]
      ensures permitted <==> Permitted(requests, |requests| - 1, requestLog.Length, period)
    {
      ghost var after, was := requests + [now], requestLog[..];
      KeepsAppended(was, logPtr, requests, now);
      FollowingIsModulo(logPtr, requestLog.Length);
      var inhibit := Decide(now);
      requestLog[logPtr] := now;
      assert requestLog[..] == was[logPtr := now];
      logPtr := (logPtr + 1) % requestLog.Length;
      requests := after;
      permitted := !inhibit;
      assert after[..|after| - 1 + 1] == after;
    }

    method ResetState()
      requires Valid()
      modifies this`lockedOut, this`requests, requestLog
      ensures Valid() && requests == []
    {
      lockedOut := false;
      requests := [];
      for i := 0 to requestLog.Length
        modifies requestLog
        invariant forall k :: 0 <= k < i ==> requestLog[k] == 0
      {
        requestLog[i] := 0;
      }
      assert requestLog[..] == Zeros(requestLog.Length);
      KeepsZeros(requestLog.Length, logPtr);
    }
  }
}
