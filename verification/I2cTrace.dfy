/** The table of traced I2C addresses (common/i2c_trace.c). */
module I2cTrace {

  datatype Range = Range(enabled: bool, port: int, lo: int, hi: int)

  datatype Status = Success | InvalidPort | InvalidRange | NoSpace

  /** The address without the flags above its ten bits. */
  function StripFlags(addrFlags: nat): nat {
    addrFlags % 0x400
  }

  /** The transactions that a table traces. */
  predicate Traces(t: seq<Range>, port: int, addr: int) {
    exists i :: 0 <= i < |t| && Covers(t[i], port, addr)
  }

  predicate Covers(r: Range, port: int, addr: int) {
    r.enabled && r.port == port && r.lo <= addr <= r.hi
  }

  /** A range that is switched on is neither overlapping nor next to `lo`..`hi` on the port. */
  predicate ApartFrom(r: Range, port: int, lo: int, hi: int) {
    r.enabled && r.port == port ==> r.hi + 1 < lo || hi + 1 < r.lo
  }

  ghost predicate WellFormed(t: seq<Range>) {
    && (forall i :: 0 <= i < |t| && t[i].enabled ==> t[i].lo <= t[i].hi)
    && (forall i, j :: 0 <= i < |t| && 0 <= j < |t| && i != j && t[j].enabled ==> ApartFrom(t[i], t[j].port, t[j].lo, t[j].hi))
  }

  function Off(r: Range): Range {
    r.(enabled := false)
  }

  function Enabled(t: seq<Range>): nat {
    if |t| == 0 then 0 else Enabled(t[..|t| - 1]) + if t[|t| - 1].enabled then 1 else 0
  }

  lemma {:induction false} OneLess(t: seq<Range>, i: nat)
    requires i < |t| && t[i].enabled
    ensures Enabled(t[i := Off(t[i])]) == Enabled(t) - 1
  {
    var k := |t| - 1;
    var t' := t[i := Off(t[i])];
    if i == k {
      assert t'[..k] == t[..k];
    } else {
      OneLess(t[..k], i);
      assert t'[..k] == t[..k][i := Off(t[i])];
    }
  }

  lemma OffKeepsWellFormed(t: seq<Range>, i: nat)
    requires WellFormed(t) && i < |t|
    ensures WellFormed(t[i := Off(t[i])])
  {
  }

  lemma NewKeepsWellFormed(t: seq<Range>, i: nat, port: int, lo: int, hi: int)
    requires WellFormed(t) && i < |t| && lo <= hi
    requires forall j :: 0 <= j < |t| && j != i ==> ApartFrom(t[j], port, lo, hi)
    ensures WellFormed(t[i := Range(true, port, lo, hi)])
  {
  }

  /** The addresses traced after an entry has been switched off and a range that covers it been added. */
  lemma AbsorbedIsTraced(t: seq<Range>, i: nat, lo: int, hi: int, lo': int, hi': int, port: int, addr: int)
    requires i < |t| && t[i].enabled && t[i].lo <= t[i].hi
    requires lo' == (if t[i].lo < lo then t[i].lo else lo) && hi' == if t[i].hi > hi then t[i].hi else hi
    requires lo <= hi && t[i].lo <= hi + 1 && lo <= t[i].hi + 1
    ensures (Traces(t[i := Off(t[i])], port, addr) || (port == t[i].port && lo' <= addr <= hi'))
         == (Traces(t, port, addr) || (port == t[i].port && lo <= addr <= hi))
  {
    OthersAreTraced(t, i, Off(t[i]), port, addr);
  }

  lemma OthersAreTraced(t: seq<Range>, i: nat, r: Range, port: int, addr: int)
    requires i < |t|
    ensures (Traces(t[i := r], port, addr) || Covers(t[i], port, addr)) == (Traces(t, port, addr) || Covers(r, port, addr))
  {
    var t' := t[i := r];
    if Traces(t, port, addr) {
      var j :| 0 <= j < |t| && Covers(t[j], port, addr);
      assert j != i ==> Covers(t'[j], port, addr);
    }
    if Traces(t', port, addr) {
      var j :| 0 <= j < |t'| && Covers(t'[j], port, addr);
      assert j != i ==> Covers(t[j], port, addr);
    }
    assert t'[i] == r;
  }

  class Trace {
    const entries: array<Range>
    /** The ports the board has. */
    const ports: set<int>

    ghost predicate Valid()
      reads entries
    {
      WellFormed(entries[..])
    }

    constructor (size: nat, ports: set<int>)
      ensures Valid() && fresh(entries) && entries.Length == size
      ensures forall port, addr :: !Traces(entries[..], port, addr)
    {
      entries := new Range[size](i => Range(false, 0, 0, 0));
      this.ports := ports;
    }

    /** Whether a transaction is printed. */
    method Notify(port: int, addrFlags: nat) returns (traced: bool)
      ensures traced == Traces(entries[..], port, StripFlags(addrFlags))
      ensures traced <==> exists i :: 0 <= i < entries.Length && entries[i].enabled && entries[i].port == port
                                      && entries[i].lo <= addrFlags % 1024 <= entries[i].hi
    {
      var addr := StripFlags(addrFlags);
      for i := 0 to entries.Length
        invariant !Traces(entries[..i], port, addr)
      {
        if Covers(entries[i], port, addr) {
          return true;
        }
      }
      assert entries[..entries.Length] == entries[..];
      assert forall i :: 0 <= i < entries.Length ==> !Covers(entries[..][i], port, addr);
      traced := false;
    }

    /** Switches off an entry: exactly its addresses are no longer traced. */
    method Disable(id: nat) returns (status: Status)
      requires Valid()
      modifies entries
      ensures Valid()
      ensures id >= entries.Length ==> status == InvalidPort && entries[..] == old(entries[..])
      ensures id < entries.Length ==> status == Success && forall port, addr ::
                Traces(entries[..], port, addr)
                == (Traces(old(entries[..]), port, addr) && !Covers(old(entries[id]), port, addr))
    {
      if id >= entries.Length {
        return InvalidPort;
      }
      ghost var t := entries[..];
      entries[id] := Off(entries[id]);
      OffKeepsWellFormed(t, id);
      assert entries[..] == t[id := Off(t[id])];
      forall port, addr
        ensures Traces(entries[..], port, addr) == (Traces(t, port, addr) && !Covers(t[id], port, addr))
      {
        OthersAreTraced(t, id, Off(t[id]), port, addr);
        if Covers(t[id], port, addr) {
          OnlyCovering(t, id, port, addr);
        }
      }
      status := Success;
    }

    /** Traces a range of addresses too, merging it with the ranges it overlaps or touches. It fails
        without any effect exactly if the range is apart from all others and there is no free entry. */
    method Enable(port: int, lo: int, hi: int) returns (status: Status)
      requires Valid()
      modifies entries
      ensures Valid()
      ensures port !in ports <==> status == InvalidPort
      ensures port in ports && lo > hi <==> status == InvalidRange
      ensures status == NoSpace <==> port in ports && lo <= hi && forall i :: 0 <= i < entries.Length ==>
                && old(entries[i].enabled)
                && (old(entries[i].port) != port || old(entries[i].hi) + 1 < lo || hi + 1 < old(entries[i].lo))
      ensures status != Success ==> entries[..] == old(entries[..])
      ensures status == Success ==> forall p, addr ::
                Traces(entries[..], p, addr) == (Traces(old(entries[..]), p, addr) || (p == port && lo <= addr <= hi))
      decreases Enabled(entries[..]), 1
    {
      if port !in ports {
        return InvalidPort;
      }
      if lo > hi {
        return InvalidRange;
      }
      ghost var t := entries[..];
      var newEntry := entries.Length;
      for i := 0 to entries.Length
        invariant entries[..] == t
        invariant forall j :: 0 <= j < i ==> ApartFrom(t[j], port, lo, hi)
        invariant newEntry < i || newEntry == entries.Length
        invariant newEntry < entries.Length ==> 0 <= newEntry && !t[newEntry].enabled
        invariant newEntry == entries.Length ==> forall j :: 0 <= j < i ==> t[j].enabled
      {
        var r := entries[i];
        if r.enabled && r.port == port {
          if r.lo <= lo && r.hi >= hi {
            SubsetIsTraced(t, i, port, lo, hi);
            return Success;
          }
          if r.lo >= lo && r.hi <= hi {
            status := Absorb(i, port, lo, hi, lo, hi);
            return;
          }
          if r.lo - 1 <= hi && r.hi >= hi {
            status := Absorb(i, port, lo, hi, lo, r.hi);
            return;
          }
          if r.lo <= lo && r.hi + 1 >= lo {
            status := Absorb(i, port, lo, hi, r.lo, hi);
            return;
          }
        } else if !r.enabled && newEntry == entries.Length {
          newEntry := i;
        }
      }
      if newEntry < entries.Length {
        NewKeepsWellFormed(t, newEntry, port, lo, hi);
        entries[newEntry] := Range(true, port, lo, hi);
        assert entries[..] == t[newEntry := Range(true, port, lo, hi)];
        forall p, addr
          ensures Traces(entries[..], p, addr) == (Traces(t, p, addr) || (p == port && lo <= addr <= hi))
        {
          OthersAreTraced(t, newEntry, Range(true, port, lo, hi), p, addr);
        }
        return Success;
      }
      status := NoSpace;
    }

    /** Switches off an entry that overlaps or touches the range and starts over with the range
        that covers both; the entry is free now, so this does not fail. */
    method Absorb(i: nat, port: int, lo: int, hi: int, newLo: int, newHi: int) returns (status: Status)
      requires Valid() && i < entries.Length && port in ports && lo <= hi
      requires entries[i].enabled && entries[i].port == port && entries[i].lo <= hi + 1 && lo <= entries[i].hi + 1
      requires newLo == if entries[i].lo < lo then entries[i].lo else lo
      requires newHi == if entries[i].hi > hi then entries[i].hi else hi
      modifies entries
      ensures Valid() && status == Success
      ensures forall p, addr ::
                Traces(entries[..], p, addr) == (Traces(old(entries[..]), p, addr) || (p == port && lo <= addr <= hi))
      decreases Enabled(entries[..]), 0
    {
      ghost var t := entries[..];
      entries[i] := Off(entries[i]);
      assert entries[..] == t[i := Off(t[i])];
      OneLess(t, i);
      OffKeepsWellFormed(t, i);
      status := Enable(port, newLo, newHi);
      forall p, addr
        ensures Traces(entries[..], p, addr) == (Traces(t, p, addr) || (p == port && lo <= addr <= hi))
      {
        AbsorbedIsTraced(t, i, lo, hi, newLo, newHi, p, addr);
      }
    }
  }

  lemma SubsetIsTraced(t: seq<Range>, i: nat, port: int, lo: int, hi: int)
    requires i < |t| && t[i].enabled && t[i].port == port && t[i].lo <= lo && hi <= t[i].hi
    ensures forall addr :: lo <= addr <= hi ==> Traces(t, port, addr)
  {
    forall addr | lo <= addr <= hi
      ensures Traces(t, port, addr)
    {
      assert Covers(t[i], port, addr);
    }
  }

  lemma OnlyCovering(t: seq<Range>, i: nat, port: int, addr: int)
    requires WellFormed(t) && i < |t| && Covers(t[i], port, addr)
    ensures !Traces(t[i := Off(t[i])], port, addr)
  {
    var t' := t[i := Off(t[i])];
    forall j | 0 <= j < |t'|
      ensures !Covers(t'[j], port, addr)
    {
      if j != i {
        assert t'[j] == t[j] && ApartFrom(t[j], t[i].port, t[i].lo, t[i].hi);
      }
    }
  }

  // -------- the table is a normal form

  ghost predicate SameTraces(t: seq<Range>, u: seq<Range>) {
    forall port, addr :: Traces(t, port, addr) == Traces(u, port, addr)
  }

  /** Next to a range nothing is traced. */
  lemma EdgesAreFree(t: seq<Range>, i: nat)
    requires WellFormed(t) && i < |t| && t[i].enabled
    ensures !Traces(t, t[i].port, t[i].lo - 1) && !Traces(t, t[i].port, t[i].hi + 1)
  {
    forall j, addr | 0 <= j < |t| && (addr == t[i].lo - 1 || addr == t[i].hi + 1)
      ensures !Covers(t[j], t[i].port, addr)
    {
      assert j != i ==> ApartFrom(t[j], t[i].port, t[i].lo, t[i].hi);
    }
  }

  /** Tables that trace the same have the same ranges: no table has fewer. */
  lemma SameRanges(t: seq<Range>, u: seq<Range>, i: nat) returns (j: nat)
    requires WellFormed(t) && WellFormed(u) && SameTraces(t, u) && i < |t| && t[i].enabled
    ensures j < |u| && u[j] == t[i]
  {
    var r := t[i];
    assert Covers(r, r.port, r.lo);
    assert Traces(u, r.port, r.lo);
    j :| 0 <= j < |u| && Covers(u[j], r.port, r.lo);
    EdgesAreFree(t, i);
    EdgesAreFree(u, j);
    assert !Traces(u, r.port, r.lo - 1) && !Traces(u, r.port, r.hi + 1);
    assert !Traces(t, r.port, u[j].lo - 1) && !Traces(t, r.port, u[j].hi + 1);
    assert !Covers(u[j], r.port, r.lo - 1) && !Covers(u[j], r.port, r.hi + 1);
    assert !Covers(r, r.port, u[j].hi + 1);
  }
}
