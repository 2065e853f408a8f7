/** A fixed number of slots in which every new value takes the place of the oldest one. */
module Ring {

  function Zeros(n: nat): (z: seq<int>)
    ensures |z| == n && forall k :: 0 <= k < n ==> z[k] == 0
  {
    if n == 0 then [] else Zeros(n - 1) + [0]
  }

  /** The last `n` values, with zeros in front of the first one. */
  function LastOf(values: seq<int>, n: nat): (last: seq<int>)
    ensures |last| == n
  {
    if |values| >= n then values[|values| - n..] else Zeros(n - |values|) + values
  }

  /** The slots from `next`, where the oldest value is, around to the newest one. */
  function Unrolled(slots: seq<int>, next: nat): (r: seq<int>)
    requires next <= |slots|
    ensures |r| == |slots|
  {
    slots[next..] + slots[..next]
  }

  function Following(next: nat, n: nat): nat {
    if next + 1 >= n then 0 else next + 1
  }

  lemma FollowingIsModulo(next: nat, n: nat)
    requires next < n
    ensures (next + 1) % n == Following(next, n)
  {
  }

  /** The slots keep the last values. */
  ghost predicate Keeps(slots: seq<int>, next: nat, values: seq<int>) {
    && next < |slots|
    && forall i :: 0 <= i < |slots| ==> Unrolled(slots, next)[i] == LastOf(values, |slots|)[i]
  }

  lemma KeepsLast(slots: seq<int>, next: nat, values: seq<int>)
    requires Keeps(slots, next, values)
    ensures Unrolled(slots, next) == LastOf(values, |slots|)
  {
  }

  /** Wherever the next value goes, slots that are all 0 keep no values. */
  lemma KeepsZeros(n: nat, next: nat)
    requires next < n
    ensures Keeps(Zeros(n), next, [])
  {
    assert Unrolled(Zeros(n), next) == Zeros(n) == Zeros(n) + [];
  }

  lemma LastOfAppended(values: seq<int>, x: int, n: nat)
    requires n > 0
    ensures LastOf(values + [x], n) == LastOf(values, n)[1..] + [x]
  {
    if |values| < n {
      var z := Zeros(n - |values|);
      assert z[1..] == Zeros(n - |values| - 1);
      assert (z + values)[1..] + [x] == z[1..] + (values + [x]);
    } else {
      assert (values + [x])[|values| + 1 - n..] == values[|values| - n..][1..] + [x];
    }
  }

  lemma UnrolledAppended(slots: seq<int>, next: nat, x: int)
    requires next < |slots|
    ensures Unrolled(slots[next := x], Following(next, |slots|)) == Unrolled(slots, next)[1..] + [x]
  {
    var n, slots' := |slots|, slots[next := x];
    assert slots'[..next] == slots[..next] && slots'[next + 1..] == slots[next + 1..];
    assert Unrolled(slots, next)[1..] == slots[next + 1..] + slots[..next];
    if next + 1 < n {
      assert slots'[..next + 1] == slots[..next] + [x];
    } else {
      assert slots' == slots[..next] + [x];
    }
  }

  /** A new value in the slot of the oldest one. */
  lemma KeepsAppended(slots: seq<int>, next: nat, values: seq<int>, x: int)
    requires Keeps(slots, next, values)
    ensures Keeps(slots[next := x], Following(next, |slots|), values + [x])
  {
    KeepsLast(slots, next, values);
    UnrolledAppended(slots, next, x);
    LastOfAppended(values, x, |slots|);
  }

  /** The slot that is written next holds the oldest value. */
  lemma OldestIsNext(slots: seq<int>, next: nat, values: seq<int>)
    requires Keeps(slots, next, values)
    ensures slots[next] == if |values| >= |slots| then values[|values| - |slots|] else 0
  {
    assert slots[next] == Unrolled(slots, next)[0];
  }

  /** Every slot holds one of the values, or 0. */
  lemma SlotIsValue(slots: seq<int>, next: nat, values: seq<int>, k: nat)
    requires Keeps(slots, next, values) && k < |slots|
    ensures slots[k] == 0 || slots[k] in values
  {
    var i := if k >= next then k - next else k - next + |slots|;
    assert slots[k] == Unrolled(slots, next)[i] == LastOf(values, |slots|)[i];
  }

  /** The newest value is in one of the slots. */
  lemma NewestIsKept(slots: seq<int>, next: nat, values: seq<int>)
    requires Keeps(slots, next, values) && values != []
    ensures exists k :: 0 <= k < |slots| && slots[k] == values[|values| - 1]
  {
    var n := |slots|;
    assert values[|values| - 1] == Unrolled(slots, next)[n - 1];
    assert slots[if next > 0 then next - 1 else n - 1] == values[|values| - 1];
  }
}
