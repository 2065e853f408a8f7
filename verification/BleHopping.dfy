/** Channel selection of Bluetooth low energy, section 4.5.8 of Vol 6, Part B of the Bluetooth Core
    Specification 4.1 (common/bluetooth_le.c:53-81). */
module BleHopping {
  import opened Arithmetic
  import opened Bitwise
  import opened Memory

  const CHANNELS := 37

  predicate Used(chanMap: seq<byte>, channel: nat)
    requires |chanMap| == 5 && channel < CHANNELS
  {
    Bit(chanMap[channel / 8], channel % 8)
  }

  /** Channel 0 is the lowest bit of the first byte. */
  lemma UsedIs(chanMap: seq<byte>, channel: nat)
    requires |chanMap| == 5 && channel < 37
    ensures Used(chanMap, channel) <==> chanMap[channel / 8] / Pow2(channel % 8) % 2 == 1
    ensures channel % 8 == 0 ==> (Used(chanMap, channel) <==> chanMap[channel / 8] % 2 == 1)
  {
    BitIsDigit(chanMap[channel / 8], channel % 8);
  }

  /** The used ones of the first `n` channels, in ascending order. */
  function UsedChannels(chanMap: seq<byte>, n: nat): (used: seq<nat>)
    requires |chanMap| == 5 && n <= CHANNELS
    ensures |used| <= n
    ensures forall k :: 0 <= k < |used| ==> used[k] < n && Used(chanMap, used[k])
    ensures forall c :: 0 <= c < n && Used(chanMap, c) ==> c in used
    ensures forall j, k :: 0 <= j < k < |used| ==> used[j] < used[k]
  {
    if n == 0 then [] else UsedChannels(chanMap, n - 1) + if Used(chanMap, n - 1) then [n - 1] else []
  }

  /** The unmapped channel after `k` hops. */
  function Unmapped(last: nat, hop: nat, k: nat): nat {
    if k == 0 then last else (Unmapped(last, hop, k - 1) + hop) % CHANNELS
  }

  class RemappingTable {
    const remappingIndex: array<nat>
    var chanMap: seq<byte>
    var numUsedChannels: nat
    var lastUnmappedChannel: nat
    var hopIncrement: nat

    ghost predicate Valid()
      reads this, remappingIndex
    {
      && remappingIndex.Length == CHANNELS && |chanMap| == 5 && lastUnmappedChannel < CHANNELS
      && numUsedChannels <= CHANNELS && remappingIndex[..numUsedChannels] == UsedChannels(chanMap, remappingIndex.Length)
    }

    constructor (channelMap: seq<byte>, hopIncrement: nat)
      requires |channelMap| == 5
      ensures Valid() && chanMap == channelMap && this.hopIncrement == hopIncrement && lastUnmappedChannel == 0
      ensures fresh(remappingIndex)
    {
      remappingIndex := new nat[CHANNELS];
      chanMap := channelMap;
      numUsedChannels, lastUnmappedChannel := 0, 0;
      this.hopIncrement := hopIncrement;
      new;
      var used := FillIndex(remappingIndex, channelMap, remappingIndex.Length);
      numUsedChannels := used;
    }

    /** Lists the used ones of the first `n` channels. */
    static method FillIndex(index: array<nat>, channelMap: seq<byte>, n: nat) returns (used: nat)
      requires |channelMap| == 5 && n <= CHANNELS && n <= index.Length
      modifies index
      ensures used <= n && index[..used] == UsedChannels(channelMap, n)
    {
      used := 0;
      for i := 0 to n
        invariant used <= i && index[..used] == UsedChannels(channelMap, i)
      {
        if Used(channelMap, i) {
          index[used] := i;
          used := used + 1;
        }
      }
    }

    /** The next channel is a used one: the next unmapped channel if that is used. */
    method GetNextDataChannel() returns (channel: nat)
      requires Valid() && numUsedChannels > 0
      modifies this`lastUnmappedChannel
      ensures Valid() && lastUnmappedChannel == Unmapped(old(lastUnmappedChannel), hopIncrement, 1)
      ensures lastUnmappedChannel == (old(lastUnmappedChannel) + hopIncrement) % 37
      ensures channel < CHANNELS && Used(chanMap, channel)
      ensures channel == if Used(chanMap, lastUnmappedChannel) then lastUnmappedChannel
                         else UsedChannels(chanMap, remappingIndex.Length)[lastUnmappedChannel % numUsedChannels]
    {
      assert Unmapped(lastUnmappedChannel, hopIncrement, 0) == lastUnmappedChannel;
      lastUnmappedChannel := (lastUnmappedChannel + hopIncrement) % CHANNELS;
      if Used(chanMap, lastUnmappedChannel) {
        channel := lastUnmappedChannel;
      } else {
        channel := remappingIndex[..numUsedChannels][lastUnmappedChannel % numUsedChannels];
      }
    }
  }

  // -------- the hops visit every channel

  /** A number with remainder `r`. */
  lemma Residue(n: int, q: int, r: int)
    requires n == CHANNELS * q + r && 0 <= r < CHANNELS
    ensures n % CHANNELS == r
  {
  }

  lemma AddResidue(x: nat, h: nat)
    ensures (x % CHANNELS + h) % CHANNELS == (x + h) % CHANNELS
  {
  }

  lemma Distribute(i: nat, j: nat, hop: nat)
    requires i <= j
    ensures j * hop == i * hop + (j - i) * hop && (j - i) * hop >= 0
  {
  }

  lemma OneHopLess(k: nat, hop: nat, p: nat)
    requires k > 0 && p == k * hop
    ensures p >= hop && p - hop == (k - 1) * hop
  {
    Distribute(1, k, hop);
  }

  lemma {:induction false} UnmappedIs(last: nat, hop: nat, k: nat, p: nat)
    requires last < CHANNELS && p == k * hop
    ensures Unmapped(last, hop, k) == (last + p) % CHANNELS
  {
    if k == 0 {
      assert p == 0;
    } else {
      OneHopLess(k, hop, p);
      UnmappedIs(last, hop, k - 1, p - hop);
      AddResidue(last + (p - hop), hop);
    }
  }

  /** The inverses modulo 37. */
  const INVERSES: seq<nat> := [0, 1, 19, 25, 28, 15, 31, 16, 14, 33, 26, 27, 34, 20, 8, 5, 7, 24, 35, 2, 13, 30, 32, 29,
                               17, 3, 10, 11, 4, 23, 21, 6, 22, 9, 12, 18, 36]

  lemma InverseOf(h: nat)
    requires 0 < h < CHANNELS
    ensures h * INVERSES[h] % CHANNELS == 1
  {
  }

  lemma Inverse(hop: nat) returns (inv: nat, m: int)
    requires hop % CHANNELS != 0
    ensures hop * inv == CHANNELS * m + 1
  {
    var h, q := hop % CHANNELS, hop / CHANNELS;
    InverseOf(h);
    inv := INVERSES[h];
    m := q * inv + h * inv / CHANNELS;
    assert hop == CHANNELS * q + h;
    assert hop * inv == CHANNELS * (q * inv) + h * inv;
    assert h * inv == CHANNELS * (h * inv / CHANNELS) + 1;
  }

  lemma Cancel(hop: int, inv: int, m: int, d: int, j: int)
    requires hop * inv == CHANNELS * m + 1 && d * hop == CHANNELS * j
    ensures d == CHANNELS * (j * inv - d * m)
  {
    assert d * (hop * inv) == d * hop * inv == CHANNELS * (j * inv);
    assert d * (CHANNELS * m + 1) == CHANNELS * (d * m) + d;
  }

  /** A product with the hop increment is a multiple of 37 only if the other factor is. */
  lemma NoShortCycle(hop: nat, d: nat)
    requires hop % CHANNELS != 0 && d * hop % CHANNELS == 0
    ensures d % CHANNELS == 0
  {
    var inv, m := Inverse(hop);
    var j := d * hop / CHANNELS;
    Cancel(hop, inv, m, d, j);
    Residue(d, j * inv - d * m, 0);
  }

  /** If `k` is `e` times the inverse, then `k` hops lead `e` channels further. */
  lemma HopsBy(hop: int, inv: int, m: int, e: int, j: int, k: int)
    requires hop * inv == CHANNELS * m + 1 && e * inv == CHANNELS * j + k
    ensures k * hop == CHANNELS * (e * m - j * hop) + e
  {
    assert k * hop == e * inv * hop - CHANNELS * j * hop;
    assert e * inv * hop == e * (hop * inv) == e * (CHANNELS * m) + e;
  }

  lemma Reaches(last: nat, hop: nat, c: nat) returns (k: nat)
    requires last < CHANNELS && c < CHANNELS && hop % CHANNELS != 0
    ensures 1 <= k <= CHANNELS && Unmapped(last, hop, k) == c
  {
    var inv, m := Inverse(hop);
    var e := c + CHANNELS - last;
    var p := e * inv;
    var j := p / CHANNELS;
    k := p % CHANNELS;
    if k == 0 {
      k, j := CHANNELS, j - 1;
    }
    HopsBy(hop, inv, m, e, j, k);
    Residue(last + k * hop, e * m - j * hop + 1, c);
    UnmappedIs(last, hop, k, k * hop);
  }

  lemma SameResidue(a: nat, b: nat, d: nat)
    requires b == a + d && a % CHANNELS == b % CHANNELS
    ensures d % CHANNELS == 0
  {
    Residue(d, b / CHANNELS - a / CHANNELS, 0);
  }

  lemma SameProduct(last: nat, hop: nat, i: nat, j: nat)
    requires i <= j < i + CHANNELS && hop % CHANNELS != 0
    requires (last + i * hop) % CHANNELS == (last + j * hop) % CHANNELS
    ensures i == j
  {
    Distribute(i, j, hop);
    SameResidue(last + i * hop, last + j * hop, (j - i) * hop);
    NoShortCycle(hop, j - i);
  }

  lemma SameChannel(last: nat, hop: nat, i: nat, j: nat)
    requires last < CHANNELS && 1 <= i <= j <= CHANNELS && hop % CHANNELS != 0
    requires Unmapped(last, hop, i) == Unmapped(last, hop, j)
    ensures i == j
  {
    UnmappedIs(last, hop, i, i * hop);
    UnmappedIs(last, hop, j, j * hop);
    SameProduct(last, hop, i, j);
  }

  /** Of any 37 consecutive hops exactly one leads to each channel, unless the increment is a
      multiple of 37. */
  lemma EachChannelOnce(last: nat, hop: nat, c: nat) returns (k: nat)
    requires last < CHANNELS && c < CHANNELS && hop % CHANNELS != 0
    ensures 1 <= k <= CHANNELS && Unmapped(last, hop, k) == c
    ensures forall j :: 1 <= j <= CHANNELS && Unmapped(last, hop, j) == c ==> j == k
  {
    k := Reaches(last, hop, c);
    forall j | 1 <= j <= CHANNELS && Unmapped(last, hop, j) == c
      ensures j == k
    {
      SameChannel(last, hop, if j <= k then j else k, if j <= k then k else j);
    }
  }

  lemma FullCycleReturns(last: nat, hop: nat, k: nat)
    requires last < CHANNELS && k == CHANNELS
    ensures Unmapped(last, hop, k) == last
  {
    UnmappedIs(last, hop, k, k * hop);
    Residue(last + k * hop, hop, last);
  }

  ghost predicate OnceIn(channels: seq<nat>, c: nat) {
    exists k :: 0 <= k < |channels| && channels[k] == c && forall j :: 0 <= j < |channels| && channels[j] == c ==> j == k
  }

  /** The unmapped channels of one hop after the other. */
  predicate Hops(last: nat, hop: nat, unmapped: seq<nat>)
    requires last < CHANNELS
  {
    forall k :: 0 <= k < |unmapped| ==> unmapped[k] == Unmapped(last, hop, k + 1)
  }

  lemma OneHopMore(last: nat, hop: nat, unmapped: seq<nat>, next: nat)
    requires last < CHANNELS && Hops(last, hop, unmapped)
    requires next == Unmapped(Unmapped(last, hop, |unmapped|), hop, 1)
    ensures next == Unmapped(last, hop, |unmapped| + 1) && Hops(last, hop, unmapped + [next])
  {
  }

  lemma HopsVisitOnce(last: nat, hop: nat, unmapped: seq<nat>, c: nat)
    requires last < CHANNELS && c < CHANNELS && hop % CHANNELS != 0 && |unmapped| == CHANNELS
    requires Hops(last, hop, unmapped)
    ensures OnceIn(unmapped, c)
  {
    var k := EachChannelOnce(last, hop, c);
    assert unmapped[k - 1] == c;
    forall j | 0 <= j < |unmapped| && unmapped[j] == c
      ensures j == k - 1
    {
      assert Unmapped(last, hop, j + 1) == c;
    }
  }

  /** The used one of each hop is delivered as it is. */
  predicate Delivers(chanMap: seq<byte>, channels: seq<nat>, unmapped: seq<nat>)
    requires |chanMap| == 5 && |channels| == |unmapped|
  {
    forall k :: 0 <= k < |channels| ==>
      && channels[k] < CHANNELS && Used(chanMap, channels[k])
      && (unmapped[k] < CHANNELS && Used(chanMap, unmapped[k]) ==> channels[k] == unmapped[k])
  }

  lemma DeliversOneMore(chanMap: seq<byte>, channels: seq<nat>, unmapped: seq<nat>, channel: nat, next: nat)
    requires |chanMap| == 5 && |channels| == |unmapped| && Delivers(chanMap, channels, unmapped)
    requires channel < CHANNELS && Used(chanMap, channel)
    requires next < CHANNELS && Used(chanMap, next) ==> channel == next
    ensures Delivers(chanMap, channels + [channel], unmapped + [next])
  {
  }

  lemma UsedIsDelivered(chanMap: seq<byte>, channels: seq<nat>, unmapped: seq<nat>, c: nat)
    requires |chanMap| == 5 && |channels| == |unmapped| && Delivers(chanMap, channels, unmapped)
    requires c < CHANNELS && Used(chanMap, c) && OnceIn(unmapped, c)
    ensures c in channels
  {
    var k :| 0 <= k < |unmapped| && unmapped[k] == c;
    assert channels[k] == c;
  }

  /** 37 calls go through every channel once, leave out the unused ones and end where they began. */
  method FullCycle(table: RemappingTable) returns (channels: seq<nat>, ghost unmapped: seq<nat>)
    requires table.Valid() && table.numUsedChannels > 0 && table.hopIncrement % CHANNELS != 0
    modifies table`lastUnmappedChannel
    ensures table.Valid() && table.lastUnmappedChannel == old(table.lastUnmappedChannel)
    ensures |channels| == |unmapped| == CHANNELS && Delivers(table.chanMap, channels, unmapped)
    ensures forall c :: 0 <= c < CHANNELS ==> OnceIn(unmapped, c) && (Used(table.chanMap, c) ==> c in channels)
  {
    ghost var last, hop := table.lastUnmappedChannel, table.hopIncrement;
    channels, unmapped := [], [];
    for i := 0 to CHANNELS
      invariant table.Valid() && |channels| == |unmapped| == i
      invariant table.lastUnmappedChannel == Unmapped(last, hop, |unmapped|)
      invariant Hops(last, hop, unmapped) && Delivers(table.chanMap, channels, unmapped)
    {
      var channel := table.GetNextDataChannel();
      ghost var next := table.lastUnmappedChannel;
      OneHopMore(last, hop, unmapped, next);
      DeliversOneMore(table.chanMap, channels, unmapped, channel, next);
      channels, unmapped := channels + [channel], unmapped + [next];
    }
    FullCycleReturns(last, hop, |unmapped|);
    forall c | 0 <= c < CHANNELS
      ensures OnceIn(unmapped, c) && (Used(table.chanMap, c) ==> c in channels)
    {
      HopsVisitOnce(last, hop, unmapped, c);
      if Used(table.chanMap, c) {
        UsedIsDelivered(table.chanMap, channels, unmapped, c);
      }
    }
  }

  /** With such an increment no hop ever leaves the channel. */
  lemma {:induction false} NoHop(last: nat, hop: nat, k: nat)
    requires last < CHANNELS && hop % CHANNELS == 0
    ensures Unmapped(last, hop, k) == last
  {
    if k > 0 {
      NoHop(last, hop, k - 1);
      Residue(last + hop, hop / CHANNELS, last);
    }
  }
}
