/** The order in which the routines of a hook are called (common/hooks.c:109-141). */
module Hooks {

  /** The bounds HOOK_PRIO_FIRST and HOOK_PRIO_LAST of priorities; they are 1 and 9999. */
  datatype Range = Range(first: int, last: int)

  type Bounds = h: Range | h.first <= h.last witness Range(1, 9999)

  /** The routines with this priority, in table order. */
  function At(prios: seq<int>, p: int): seq<nat> {
    if prios == [] then []
    else
      var k := |prios| - 1;
      At(prios[..k], p) + if prios[k] == p then [k] else []
  }

  /** The routines with priorities up to `p`, priority by priority. */
  function Schedule(h: Bounds, prios: seq<int>, p: int): seq<nat>
    decreases p - h.first + 1
  {
    if p < h.first then [] else Schedule(h, prios, p - 1) + At(prios, p)
  }

  predicate InRange(h: Bounds, prios: seq<int>) {
    forall i :: 0 <= i < |prios| ==> h.first <= prios[i] <= h.last + 1
  }

  // -------- what a schedule is

  lemma {:induction false} AtIs(prios: seq<int>, p: int)
    ensures forall a :: 0 <= a < |At(prios, p)| ==> At(prios, p)[a] < |prios| && prios[At(prios, p)[a]] == p
    ensures forall a, b :: 0 <= a < b < |At(prios, p)| ==> At(prios, p)[a] < At(prios, p)[b]
    ensures forall i :: 0 <= i < |prios| && prios[i] == p ==> i in At(prios, p)
  {
    if prios != [] {
      AtIs(prios[..|prios| - 1], p);
    }
  }

  predicate Ordered(prios: seq<int>, i: nat, j: nat)
    requires i < |prios| && j < |prios|
  {
    prios[i] < prios[j] || (prios[i] == prios[j] && i < j)
  }

  /** Calls in ascending priority, and in table order among equal ones; no routine comes twice. */
  ghost predicate InOrder(prios: seq<int>, calls: seq<nat>) {
    && (forall a :: 0 <= a < |calls| ==> calls[a] < |prios|)
    && (forall a, b :: 0 <= a < b < |calls| ==> Ordered(prios, calls[a], calls[b]))
  }

  /** All calls up to a priority and, behind them, those with a higher one. */
  lemma InOrderTogether(prios: seq<int>, s: seq<nat>, t: seq<nat>, p: int)
    requires InOrder(prios, s) && forall a :: 0 <= a < |s| ==> prios[s[a]] < p
    requires t == At(prios, p)
    ensures InOrder(prios, s + t) && forall a :: 0 <= a < |s + t| ==> prios[(s + t)[a]] <= p
  {
    AtIs(prios, p);
  }

  /** The schedule has the routines in range up to `p`, in order. */
  lemma {:induction false} ScheduleInOrder(h: Bounds, prios: seq<int>, p: int)
    ensures InOrder(prios, Schedule(h, prios, p))
    ensures forall a :: 0 <= a < |Schedule(h, prios, p)| ==> prios[Schedule(h, prios, p)[a]] <= p
    decreases p - h.first + 1
  {
    if p >= h.first {
      ScheduleInOrder(h, prios, p - 1);
      InOrderTogether(prios, Schedule(h, prios, p - 1), At(prios, p), p);
    }
  }

  lemma {:induction false} ScheduleHas(h: Bounds, prios: seq<int>, p: int, i: nat)
    requires i < |prios|
    ensures i in Schedule(h, prios, p) <==> h.first <= prios[i] <= p
    decreases p - h.first + 1
  {
    if p >= h.first {
      ScheduleHas(h, prios, p - 1, i);
      AtIs(prios, p);
    }
  }

  lemma {:induction false} AtNone(prios: seq<int>, p: int)
    requires forall i :: 0 <= i < |prios| ==> prios[i] != p
    ensures At(prios, p) == []
  {
    if prios != [] {
      AtNone(prios[..|prios| - 1], p);
    }
  }

  lemma {:induction false} NothingBetween(h: Bounds, prios: seq<int>, p: int, q: int)
    requires p <= q && forall i :: 0 <= i < |prios| ==> !(p < prios[i] <= q)
    ensures Schedule(h, prios, q) == Schedule(h, prios, p)
    decreases q - p
  {
    if p < q {
      AtNone(prios, q);
      NothingBetween(h, prios, p, q - 1);
    }
  }

  // -------- how many routines a schedule has

  function Count(h: Bounds, prios: seq<int>, p: int): nat {
    if prios == [] then 0
    else Count(h, prios[..|prios| - 1], p) + if h.first <= prios[|prios| - 1] <= p then 1 else 0
  }

  lemma {:induction false} CountStep(h: Bounds, prios: seq<int>, p: int)
    ensures Count(h, prios, p) == if p < h.first then 0 else Count(h, prios, p - 1) + |At(prios, p)|
  {
    if prios != [] {
      CountStep(h, prios[..|prios| - 1], p);
    }
  }

  lemma {:induction false} ScheduleLength(h: Bounds, prios: seq<int>, p: int)
    ensures |Schedule(h, prios, p)| == Count(h, prios, p)
    decreases p - h.first + 1
  {
    CountStep(h, prios, p);
    if p >= h.first {
      ScheduleLength(h, prios, p - 1);
    }
  }

  lemma {:induction false} CountIsAll(h: Bounds, prios: seq<int>, p: int)
    ensures Count(h, prios, p) <= |prios|
    ensures Count(h, prios, p) == |prios| <==> forall i :: 0 <= i < |prios| ==> h.first <= prios[i] <= p
  {
    if prios != [] {
      var k := |prios| - 1;
      CountIsAll(h, prios[..k], p);
      assert forall i :: 0 <= i < k ==> prios[..k][i] == prios[i];
    }
  }

  // -------- the passes of the loop

  /** The lowest priority above `last`, or HOOK_PRIO_LAST + 1 if there is none below that. */
  function NextPrio(h: Bounds, prios: seq<int>, last: int): int {
    if prios == [] then h.last + 1
    else
      var k := |prios| - 1;
      var prio := NextPrio(h, prios[..k], last);
      if last < prios[k] < prio then prios[k] else prio
  }

  lemma {:induction false} NextPrioIs(h: Bounds, prios: seq<int>, last: int)
    ensures var p := NextPrio(h, prios, last);
            && p <= h.last + 1 && (p == h.last + 1 || last < p)
            && forall i :: 0 <= i < |prios| ==> !(last < prios[i] < p)
  {
    if prios != [] {
      NextPrioIs(h, prios[..|prios| - 1], last);
    }
  }

  /** The routines called and the last priority after a number of passes. */
  datatype Pass = Pass(calls: seq<nat>, last: int)

  function After(h: Bounds, prios: seq<int>, n: nat): Pass {
    if n == 0 then Pass([], h.first - 1)
    else
      var before := After(h, prios, n - 1);
      var prio := NextPrio(h, prios, before.last);
      Pass(before.calls + At(prios, prio), prio)
  }

  /** The loop ends if every priority is in range, but also if some routine has priority
      HOOK_PRIO_LAST + 1: that one is then called again and again until the number of calls fits. */
  predicate Terminates(h: Bounds, prios: seq<int>) {
    InRange(h, prios) || exists i :: 0 <= i < |prios| && prios[i] == h.last + 1
  }

  predicate InRangeAt(h: Bounds, prios: seq<int>, i: nat) {
    i < |prios| && h.first <= prios[i] <= h.last + 1
  }

  lemma {:induction false} AfterIsInRange(h: Bounds, prios: seq<int>, n: nat)
    ensures h.first - 1 <= After(h, prios, n).last <= h.last + 1
    ensures forall i :: i in After(h, prios, n).calls ==> InRangeAt(h, prios, i)
  {
    if n > 0 {
      AfterIsInRange(h, prios, n - 1);
      NextPrioIs(h, prios, After(h, prios, n - 1).last);
      AtIs(prios, NextPrio(h, prios, After(h, prios, n - 1).last));
    }
  }

  lemma NextPass(h: Bounds, prios: seq<int>, last: int)
    requires h.first - 1 <= last < NextPrio(h, prios, last)
    ensures Schedule(h, prios, NextPrio(h, prios, last)) == Schedule(h, prios, last) + At(prios, NextPrio(h, prios, last))
  {
    NextPrioIs(h, prios, last);
    NothingBetween(h, prios, last, NextPrio(h, prios, last) - 1);
  }

  lemma LastPass(h: Bounds, prios: seq<int>, last: int)
    requires forall i :: 0 <= i < |prios| ==> prios[i] != h.last + 1
    requires NextPrio(h, prios, last) <= last <= h.last + 1
    ensures NextPrio(h, prios, last) == last && At(prios, last) == []
  {
    NextPrioIs(h, prios, last);
    AtNone(prios, last);
  }

  lemma PassKeepsSchedule(h: Bounds, prios: seq<int>, last: int)
    requires forall i :: 0 <= i < |prios| ==> prios[i] != h.last + 1
    requires h.first - 1 <= last <= h.last + 1
    ensures Schedule(h, prios, last) + At(prios, NextPrio(h, prios, last)) == Schedule(h, prios, NextPrio(h, prios, last))
  {
    var s := Schedule(h, prios, last);
    if last < NextPrio(h, prios, last) {
      NextPass(h, prios, last);
    } else {
      LastPass(h, prios, last);
      assert s + [] == s;
    }
  }

  /** Without a routine of priority HOOK_PRIO_LAST + 1 every pass keeps to the schedule. */
  lemma {:induction false} AfterIsSchedule(h: Bounds, prios: seq<int>, n: nat)
    requires forall i :: 0 <= i < |prios| ==> prios[i] != h.last + 1
    ensures After(h, prios, n).calls == Schedule(h, prios, After(h, prios, n).last)
  {
    if n > 0 {
      AfterIsSchedule(h, prios, n - 1);
      AfterIsInRange(h, prios, n - 1);
      PassKeepsSchedule(h, prios, After(h, prios, n - 1).last);
    }
  }

  /** Otherwise the loop never ends: no number of passes makes enough calls. */
  lemma NeverEnds(h: Bounds, prios: seq<int>, n: nat)
    requires !Terminates(h, prios)
    ensures |After(h, prios, n).calls| < |prios|
  {
    AfterIsSchedule(h, prios, n);
    AfterIsInRange(h, prios, n);
    var s := After(h, prios, n);
    ScheduleLength(h, prios, s.last);
    CountIsAll(h, prios, s.last);
  }

  /** A pass with calls left to make goes on to a higher priority and keeps to the schedule, if all
      priorities are in range. */
  lemma InRangeStep(h: Bounds, prios: seq<int>, n: nat)
    requires InRange(h, prios) && |After(h, prios, n).calls| < |prios|
    requires After(h, prios, n).calls == Schedule(h, prios, After(h, prios, n).last)
    ensures After(h, prios, n).last < After(h, prios, n + 1).last <= h.last + 1
    ensures After(h, prios, n + 1).calls == Schedule(h, prios, After(h, prios, n + 1).last)
  {
    var last := After(h, prios, n).last;
    AfterIsInRange(h, prios, n);
    ScheduleLength(h, prios, last);
    CountIsAll(h, prios, last);
    NextPrioIs(h, prios, last);
    NextPass(h, prios, last);
  }

  /** Otherwise it goes on too, or calls a routine with priority HOOK_PRIO_LAST + 1. */
  lemma OutOfRangeStep(h: Bounds, prios: seq<int>, n: nat)
    requires Terminates(h, prios) && !InRange(h, prios)
    ensures After(h, prios, n).last < After(h, prios, n + 1).last <= h.last + 1
         || (After(h, prios, n).last == After(h, prios, n + 1).last
             && |After(h, prios, n).calls| < |After(h, prios, n + 1).calls|)
  {
    AfterIsInRange(h, prios, n);
    NextPrioIs(h, prios, After(h, prios, n).last);
    AtIs(prios, h.last + 1);
  }

  lemma AllCalled(h: Bounds, prios: seq<int>, n: nat)
    requires |After(h, prios, n).calls| >= |prios|
    requires InRange(h, prios) ==> After(h, prios, n).calls == Schedule(h, prios, After(h, prios, n).last)
    ensures InRange(h, prios) ==> After(h, prios, n).calls == Schedule(h, prios, h.last + 1)
    ensures InRange(h, prios) ==> |After(h, prios, n).calls| == |prios|
    ensures (forall i :: 0 <= i < |prios| ==> i in After(h, prios, n).calls) <==> InRange(h, prios)
  {
    var last := After(h, prios, n).last;
    AfterIsInRange(h, prios, n);
    if InRange(h, prios) {
      ScheduleLength(h, prios, last);
      CountIsAll(h, prios, last);
      NothingBetween(h, prios, last, h.last + 1);
      var s := Schedule(h, prios, h.last + 1);
      forall i: nat | i < |prios|
        ensures i in s
      {
        ScheduleHas(h, prios, h.last + 1, i);
      }
    } else {
      var i :| 0 <= i < |prios| && !(h.first <= prios[i] <= h.last + 1);
      assert !InRangeAt(h, prios, i);
    }
  }

  method FindNextPrio(h: Bounds, prios: seq<int>, lastPrio: int) returns (prio: int)
    ensures prio == NextPrio(h, prios, lastPrio)
  {
    prio := h.last + 1;
    for p := 0 to |prios|
      invariant prio == NextPrio(h, prios[..p], lastPrio)
    {
      assert prios[..p + 1][..p] == prios[..p];
      if prios[p] < prio && prios[p] > lastPrio {
        prio := prios[p];
      }
    }
    assert prios[..|prios|] == prios;
  }

  method CallAll(prios: seq<int>, prio: int) returns (calls: seq<nat>)
    ensures calls == At(prios, prio)
  {
    calls := [];
    for p := 0 to |prios|
      invariant calls == At(prios[..p], prio)
    {
      assert prios[..p + 1][..p] == prios[..p];
      if prios[p] == prio {
        calls := calls + [p];
      }
    }
    assert prios[..|prios|] == prios;
  }

  /** Calls the routines of a hook; `calls` are their places in the table. Each is called exactly
      once, in order, if and only if all priorities are in range. */
  method Notify(h: Bounds, prios: seq<int>) returns (calls: seq<nat>)
    requires Terminates(h, prios)
    ensures InRange(h, prios) ==> calls == Schedule(h, prios, h.last + 1) && |calls| == |prios|
    ensures InRange(h, prios) ==> InOrder(prios, calls)
    ensures (forall i :: 0 <= i < |prios| ==> h.first <= prios[i] <= h.last + 1) ==>
              forall a, b :: 0 <= a < b < |calls| ==>
                && calls[a] < |prios| && calls[b] < |prios| && calls[a] != calls[b]
                && (prios[calls[a]] < prios[calls[b]] || (prios[calls[a]] == prios[calls[b]] && calls[a] < calls[b]))
    ensures (forall i :: 0 <= i < |prios| ==> i in calls) <==> InRange(h, prios)
  {
    ScheduleInOrder(h, prios, h.last + 1);
    var lastPrio := h.first - 1;
    calls := [];
    ghost var n := 0;
    while |calls| < |prios|
      invariant Pass(calls, lastPrio) == After(h, prios, n)
      invariant InRange(h, prios) ==> calls == Schedule(h, prios, lastPrio)
      decreases h.last + 1 - lastPrio, |prios| - |calls|
    {
      if InRange(h, prios) {
        InRangeStep(h, prios, n);
      } else {
        OutOfRangeStep(h, prios, n);
      }
      lastPrio := FindNextPrio(h, prios, lastPrio);
      var called := CallAll(prios, lastPrio);
      calls := calls + called;
      n := n + 1;
    }
    AllCalled(h, prios, n);
  }
}
