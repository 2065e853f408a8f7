/** Which of the ports that source power offers the large current, under
    CONFIG_USB_PD_MAX_TOTAL_SOURCE_CURRENT (common/charge_manager.c:1409-1480). */
module SourcePorts {

  /** The first active port from `p` on, or -1. */
  function FirstActive(active: seq<bool>, p: nat): int
    requires p <= |active|
    decreases |active| - p
  {
    if p == |active| then -1 else if active[p] then p else FirstActive(active, p + 1)
  }

  /** An active holder stays; otherwise the next active port above it takes over. */
  function NextHolder(active: seq<bool>, holder: int): int
    requires -1 <= holder < |active|
  {
    if holder >= 0 && active[holder] then holder else FirstActive(active, holder + 1)
  }

  /** The settings with the large current on `holder` and the default everywhere else. */
  predicate Assigned(rp: seq<int>, holder: int, large: int, small: int) {
    forall p :: 0 <= p < |rp| ==> rp[p] == if p == holder then large else small
  }

  lemma {:induction false} FirstActiveIs(active: seq<bool>, p: nat)
    requires p <= |active|
    ensures var r := FirstActive(active, p);
            && (r == -1 || (p <= r < |active| && active[r]))
            && forall q :: p <= q < |active| && (r == -1 || q < r) ==> !active[q]
    decreases |active| - p
  {
    if p < |active| && !active[p] {
      FirstActiveIs(active, p + 1);
    }
  }

  /** Someone has the large current unless every active port is below an inactive former holder. */
  lemma NoHolderExactly(active: seq<bool>, holder: int)
    requires -1 <= holder < |active|
    ensures NextHolder(active, holder) == -1 <==>
            forall p :: 0 <= p < |active| && active[p] ==> p < holder
  {
    FirstActiveIs(active, holder + 1);
  }

  /** The comment on `can_supply_max_current` promises a released current to the youngest active port.
      It gets there exactly if no port below the released one is active. */
  lemma GoesToYoungestExactly(active: seq<bool>, holder: int)
    requires 0 <= holder < |active| && !active[holder]
    ensures NextHolder(active, holder) == FirstActive(active, 0) <==> forall p :: 0 <= p < holder ==> !active[p]
  {
    FirstActiveIs(active, 0);
    FirstActiveIs(active, holder + 1);
  }

  function Total(rp: seq<int>): int {
    if |rp| == 0 then 0 else Total(rp[..|rp| - 1]) + rp[|rp| - 1]
  }

  /** All ports together offer the default on each and the difference once. */
  lemma {:induction false} TotalIsBounded(rp: seq<int>, holder: int, large: int, small: int)
    requires Assigned(rp, holder, large, small) && small <= large
    ensures Total(rp) == |rp| * small + if 0 <= holder < |rp| then large - small else 0
  {
    if |rp| > 0 {
      TotalIsBounded(rp[..|rp| - 1], holder, large, small);
      assert |rp| * small == (|rp| - 1) * small + small;
    }
  }

  class SourcePolicy {
    /** The port limits CONFIG_USB_PD_MAX_SINGLE_SOURCE_CURRENT and CONFIG_USB_PD_PULLUP. */
    const large: int
    const small: int
    const rp: array<int>
    var active: seq<bool>
    ghost var holder: int

    ghost predicate Valid()
      reads this, rp
    {
      && small < large && |active| == rp.Length && -1 <= holder < rp.Length
      && (holder >= 0 ==> active[holder])
      && Assigned(rp[..], holder, large, small)
    }

    constructor (ports: nat, large: int, small: int)
      requires small < large
      ensures Valid() && holder == -1 && fresh(rp) && rp.Length == ports && forall p :: 0 <= p < ports ==> !active[p]
    {
      this.large, this.small := large, small;
      rp := new int[ports](i => small);
      active := seq(ports, i => false);
      holder := -1;
    }

    method CanSupplyMaxCurrent(port: nat) returns (can: bool)
      requires port < rp.Length == |active|
      ensures can <==> active[port] && forall p :: 0 <= p < rp.Length && p != port ==> rp[p] != large
    {
      if !active[port] {
        return false;
      }
      for p := 0 to rp.Length
        invariant forall q :: 0 <= q < p && q != port ==> rp[q] != large
      {
        if p == port {
          continue;
        }
        if rp[p] == large {
          return false;
        }
      }
      can := true;
    }

    /** Only the next holder offers the large current afterwards, and it is active. */
    method SourcePort(port: nat, enable: bool)
      requires Valid() && port < rp.Length
      modifies this`active, this`holder, rp
      ensures Valid()
      ensures active == old(active)[port := enable]
      ensures holder == if active == old(active) then old(holder) else NextHolder(active, old(holder))
      ensures forall p :: 0 <= p < rp.Length ==> rp[p] == if p == holder then large else small
      ensures old(holder) >= 0 && active[old(holder)] ==> holder == old(holder)
      ensures active != old(active) && !(old(holder) >= 0 && active[old(holder)]) ==>
                && (holder == -1 || (old(holder) < holder && active[holder]))
                && forall p :: old(holder) < p < rp.Length && (holder == -1 || p < holder) ==> !active[p]
    {
      var previous := active;
      active := active[port := enable];
      if previous == active {
        return;
      }
      ghost var next := NextHolder(active, holder);
      FirstActiveIs(active, holder + 1);
      for p := 0 to rp.Length
        modifies rp
        invariant forall q :: 0 <= q < rp.Length ==>
                    rp[q] == if q == (if q < p then next else holder) then large else small
      {
        var can := CanSupplyMaxCurrent(p);
        assert p != holder && holder >= p ==> rp[holder] == large;
        assert p != next && 0 <= next < p ==> rp[next] == large;
        rp[p] := if can then large else small;
      }
      holder := next;
    }
  }

  /** A run that strands the current: the only active port is below the one that has released it. */
  method ReleasedCurrentIsStranded(policy: SourcePolicy, low: nat, high: nat)
    requires policy.Valid() && low < high < policy.rp.Length && policy.holder == -1
    requires forall p :: 0 <= p < policy.rp.Length ==> !policy.active[p]
    modifies policy, policy.rp
    ensures policy.Valid() && policy.active[low] && forall p :: 0 <= p < policy.rp.Length ==> policy.rp[p] == policy.small
  {
    ghost var a0 := policy.active;
    policy.SourcePort(high, true);
    ghost var a1 := policy.active;
    assert a1[high] != a0[high];
    FirstActiveIs(a1, 0);
    policy.SourcePort(low, true);
    ghost var a2 := policy.active;
    assert a2[low] != a1[low] && policy.holder == high;
    policy.SourcePort(high, false);
    assert policy.active[high] != a2[high];
    NoHolderExactly(policy.active, high);
  }
}
