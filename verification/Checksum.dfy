/** What every cyclic redundancy check of the repository shares: a shift register with
    feedback that takes in a message one bit at a time. */
module Checksum {
  import opened Arithmetic
  import opened Bitwise
  import opened Memory

  /** A register type S: `lead` is the bit that leaves it on a `shift`, `plus` is addition of
      polynomials over GF(2), and `load` places eight bits where they leave first. */
  datatype Lfsr<!S> = Lfsr(lead: S -> bool, shift: S -> S, plus: (S, S) -> S, generator: S,
                           zero: S, load: seq<bool> -> S)
  {
    /** The reference definition: take in one message bit. */
    function Feed(c: S, bit: bool): S {
      if lead(c) != bit then plus(shift(c), generator) else shift(c)
    }

    /** The step of the byte-wise implementations, which add a byte beforehand. */
    function Step(c: S): S {
      if lead(c) then plus(shift(c), generator) else shift(c)
    }

    function Steps(c: S, n: nat): S
      decreases n
    {
      if n == 0 then c else Steps(Step(c), n - 1)
    }

    function Shifts(c: S, n: nat): S
      decreases n
    {
      if n == 0 then c else Shifts(shift(c), n - 1)
    }

    /** The register after the bits `message`, having started from `c`. */
    function Fold(c: S, message: seq<bool>): S {
      if message == [] then c else Feed(Fold(c, message[..|message| - 1]), message[|message| - 1])
    }
  }

  ghost predicate LeadIsLinear<S(!new)>(r: Lfsr<S>) {
    forall c, x {:trigger r.lead(r.plus(c, x))} :: r.lead(r.plus(c, x)) <==> r.lead(c) != r.lead(x)
  }

  ghost predicate ShiftIsLinear<S(!new)>(r: Lfsr<S>) {
    forall c, x {:trigger r.shift(r.plus(c, x))} :: r.shift(r.plus(c, x)) == r.plus(r.shift(c), r.shift(x))
  }

  ghost predicate FeedbackCommutes<S(!new)>(r: Lfsr<S>) {
    forall c, x {:trigger r.plus(r.plus(c, x), r.generator)} ::
      r.plus(r.plus(c, x), r.generator) == r.plus(r.plus(c, r.generator), x)
  }

  ghost predicate PlusCancels<S(!new)>(r: Lfsr<S>) {
    && (forall c, x, y :: r.plus(c, x) == r.plus(c, y) ==> x == y)
    && (forall c, d, x :: r.plus(c, x) == r.plus(d, x) ==> c == d)
  }

  ghost predicate ZeroIsNeutral<S(!new)>(r: Lfsr<S>) {
    forall c :: r.plus(c, r.zero) == c
  }

  ghost predicate LeadAndShiftDetermine<S(!new)>(r: Lfsr<S>) {
    forall c, d :: r.shift(c) == r.shift(d) && r.lead(c) == r.lead(d) ==> c == d
  }

  /** The generator has a constant term, so feedback shows in the register afterwards. */
  ghost predicate FeedbackShows<S(!new)>(r: Lfsr<S>) {
    forall c, d :: r.plus(r.shift(c), r.generator) != r.shift(d)
  }

  /** What the theory of cyclic codes needs of a register. */
  ghost predicate Lawful<S(!new)>(r: Lfsr<S>) {
    && LeadIsLinear(r) && ShiftIsLinear(r) && FeedbackCommutes(r) && PlusCancels(r)
    && ZeroIsNeutral(r) && LeadAndShiftDetermine(r) && FeedbackShows(r)
  }

  ghost predicate FeedbackAssociates<S(!new)>(r: Lfsr<S>) {
    forall c, x {:trigger r.plus(c, r.plus(x, r.generator))} ::
      r.plus(r.plus(c, x), r.generator) == r.plus(c, r.plus(x, r.generator))
  }

  ghost predicate FeedbackCancels<S(!new)>(r: Lfsr<S>) {
    forall c, x {:trigger r.plus(r.plus(c, r.generator), r.plus(x, r.generator))} ::
      r.plus(r.plus(c, r.generator), r.plus(x, r.generator)) == r.plus(c, x)
  }

  /** What feedback puts into the register does not leave it before that many shifts. */
  ghost predicate FeedbackStays<S(!new)>(r: Lfsr<S>, width: nat) {
    forall c, m: nat {:trigger r.Shifts(r.plus(r.shift(c), r.generator), m)} ::
      m < width ==> r.Shifts(r.plus(r.shift(c), r.generator), m) != r.zero
  }

  /** What the detection of bursts needs in addition. */
  ghost predicate Spans<S(!new)>(r: Lfsr<S>, width: nat) {
    FeedbackAssociates(r) && FeedbackCancels(r) && FeedbackStays(r, width)
  }

  /** Eight bits once loaded come out in order, and nothing is left behind them. */
  ghost predicate Loads<S>(r: Lfsr<S>, bits: seq<bool>) {
    && (forall i :: 0 <= i < |bits| ==> bits[i] == r.lead(r.Shifts(r.load(bits), i)))
    && r.Shifts(r.load(bits), |bits|) == r.zero
  }

  lemma {:induction false} FoldConcat<S>(r: Lfsr<S>, c: S, x: seq<bool>, y: seq<bool>)
    ensures r.Fold(c, x + y) == r.Fold(r.Fold(c, x), y)
  {
    if y == [] {
      assert x + y == x;
    } else {
      assert (x + y)[..|x + y| - 1] == x + y[..|y| - 1];
      FoldConcat(r, c, x, y[..|y| - 1]);
    }
  }

  lemma FoldFront<S>(r: Lfsr<S>, c: S, bits: seq<bool>)
    requires bits != []
    ensures r.Fold(c, bits) == r.Fold(r.Feed(c, bits[0]), bits[1..])
  {
    assert bits == [bits[0]] + bits[1..];
    FoldConcat(r, c, [bits[0]], bits[1..]);
    assert [bits[0]][..0] == [];
  }

  lemma StepIsFeed<S(!new)>(r: Lfsr<S>, c: S, x: S)
    requires Lawful(r)
    ensures r.Step(r.plus(c, x)) == r.plus(r.Feed(c, r.lead(x)), r.shift(x))
  {
    assert r.plus(r.plus(r.shift(c), r.shift(x)), r.generator)
        == r.plus(r.plus(r.shift(c), r.generator), r.shift(x));
  }

  lemma FeedKeepsState<S(!new)>(r: Lfsr<S>, c: S, d: S, bit: bool)
    requires Lawful(r) && r.Feed(c, bit) == r.Feed(d, bit)
    ensures c == d
  {
    assert r.plus(r.shift(c), r.generator) != r.shift(d) && r.plus(r.shift(d), r.generator) != r.shift(c);
    assert r.lead(c) == r.lead(d) && r.shift(c) == r.shift(d);
  }

  /** No message bits make two different registers equal. */
  lemma {:induction false} FoldKeepsState<S(!new)>(r: Lfsr<S>, c: S, d: S, y: seq<bool>)
    requires Lawful(r) && r.Fold(c, y) == r.Fold(d, y)
    ensures c == d
  {
    if y != [] {
      FeedKeepsState(r, r.Fold(c, y[..|y| - 1]), r.Fold(d, y[..|y| - 1]), y[|y| - 1]);
      FoldKeepsState(r, c, d, y[..|y| - 1]);
    }
  }

  lemma {:induction false} ShiftsOfZero<S(!new)>(r: Lfsr<S>, n: nat)
    requires Lawful(r)
    ensures r.Shifts(r.zero, n) == r.zero
    decreases n
  {
    assert r.shift(r.plus(r.zero, r.zero)) == r.plus(r.shift(r.zero), r.shift(r.zero));
    assert r.plus(r.shift(r.zero), r.zero) == r.plus(r.shift(r.zero), r.shift(r.zero));
    if n > 0 {
      ShiftsOfZero(r, n - 1);
    }
  }

  /** A bit of the register at the place that `j` steps lead to. */
  function Places<S>(first: S, next: S -> S, j: nat): S {
    if j == 0 then first else next(Places(first, next, j - 1))
  }

  lemma FourPlaces<S>(first: S, next: S -> S, j: nat)
    ensures Places(first, next, j + 4) == next(next(next(next(Places(first, next, j)))))
  {
    assert Places(first, next, j + 2) == next(next(Places(first, next, j)));
    assert Places(first, next, j + 4) == next(next(Places(first, next, j + 2)));
  }

  /** `at` says whether there is a bit that so many shifts move to the lead. */
  lemma {:induction false} BitMoves<S(!new)>(r: Lfsr<S>, at: (S, nat) -> bool, c: S, j: nat, m: nat)
    requires forall c, j: nat {:trigger at(r.shift(c), j)} :: at(c, j + 1) ==> at(r.shift(c), j)
    requires m <= j && at(c, j)
    ensures at(r.Shifts(c, m), j - m)
    decreases m
  {
    if m > 0 {
      assert at(r.shift(c), j - 1);
      BitMoves(r, at, r.shift(c), j - 1, m - 1);
    }
  }

  /** If feedback sets the bit that leaves the register last, it stays there. */
  lemma LastBitStays<S(!new)>(r: Lfsr<S>, at: (S, nat) -> bool, width: nat)
    requires forall c, j: nat {:trigger at(r.shift(c), j)} :: at(c, j + 1) ==> at(r.shift(c), j)
    requires forall j: nat :: !at(r.zero, j)
    requires width > 0 && forall c {:trigger r.plus(r.shift(c), r.generator)} :: at(r.plus(r.shift(c), r.generator), width - 1)
    ensures FeedbackStays(r, width)
  {
    forall c, m: nat {:trigger r.Shifts(r.plus(r.shift(c), r.generator), m)} | m < width
      ensures r.Shifts(r.plus(r.shift(c), r.generator), m) != r.zero
    {
      BitMoves(r, at, r.plus(r.shift(c), r.generator), width - 1, m);
    }
  }

  /** The difference of two registers moves on by one bit, and takes in the generator if only one of
      them has feedback. */
  function Apart<S>(r: Lfsr<S>, c: S, d: S, bit: bool, other: bool): S {
    if r.lead(r.plus(c, d)) != bit <==> r.lead(c) != other then r.shift(d) else r.plus(r.shift(d), r.generator)
  }

  lemma FeedsApart<S(!new)>(r: Lfsr<S>, c: S, d: S, bit: bool, other: bool)
    requires Lawful(r) && FeedbackAssociates(r) && FeedbackCancels(r)
    ensures r.Feed(r.plus(c, d), bit) == r.plus(r.Feed(c, other), Apart(r, c, d, bit, other))
  {
    var x, y := r.shift(c), r.shift(d);
    assert r.shift(r.plus(c, d)) == r.plus(x, y);
    assert r.plus(r.plus(x, y), r.generator) == r.plus(r.plus(x, r.generator), y) == r.plus(x, r.plus(y, r.generator));
    assert r.plus(r.plus(x, r.generator), r.plus(y, r.generator)) == r.plus(x, y);
  }

  /** Two registers that are apart by something that `n` shifts do not remove are still apart after as
      many bits of whatever kind. */
  lemma {:induction false} StaysApart<S(!new)>(r: Lfsr<S>, width: nat, c: S, d: S, u: seq<bool>, v: seq<bool>)
    requires Lawful(r) && Spans(r, width) && |u| == |v| < width && r.Shifts(d, |u|) != r.zero
    ensures r.Fold(r.plus(c, d), u) != r.Fold(c, v)
    decreases |u|
  {
    if u == [] {
      assert r.plus(c, r.zero) == c;
    } else {
      var e := Apart(r, c, d, u[0], v[0]);
      FeedsApart(r, c, d, u[0], v[0]);
      FoldFront(r, r.plus(c, d), u);
      FoldFront(r, c, v);
      assert r.Shifts(r.shift(d), |u| - 1) == r.Shifts(d, |u|);
      assert r.Shifts(e, |u[1..]|) != r.zero;
      StaysApart(r, width, r.Feed(c, v[0]), e, u[1..], v[1..]);
    }
  }

  lemma FirstBitIsSeen<S(!new)>(r: Lfsr<S>, width: nat, c: S, u: seq<bool>, v: seq<bool>)
    requires Lawful(r) && Spans(r, width) && 0 < |u| == |v| <= width && u[0] != v[0]
    ensures r.Fold(r.Feed(c, u[0]), u[1..]) != r.Fold(r.Feed(c, v[0]), v[1..])
  {
    var d := r.plus(r.shift(r.zero), r.generator);
    assert r.plus(c, r.zero) == c;
    assert Apart(r, c, r.zero, u[0], v[0]) == d;
    FeedsApart(r, c, r.zero, u[0], v[0]);
    assert r.Shifts(d, |u[1..]|) != r.zero;
    StaysApart(r, width, r.Feed(c, v[0]), d, u[1..], v[1..]);
  }

  lemma SameTail(u: seq<bool>, v: seq<bool>)
    requires u != [] && v != [] && u[0] == v[0] && u[1..] == v[1..]
    ensures u == v
  {
    assert u == [u[0]] + u[1..] && v == [v[0]] + v[1..];
  }

  /** Different blocks no longer than the register take it to different states. */
  lemma {:induction false} BlockIsSeen<S(!new)>(r: Lfsr<S>, width: nat, c: S, u: seq<bool>, v: seq<bool>)
    requires Lawful(r) && Spans(r, width) && |u| == |v| <= width && r.Fold(c, u) == r.Fold(c, v)
    ensures u == v
    decreases |u|
  {
    if u != [] {
      FoldFront(r, c, u);
      FoldFront(r, c, v);
      if u[0] == v[0] {
        BlockIsSeen(r, width, r.Feed(c, u[0]), u[1..], v[1..]);
        SameTail(u, v);
      } else {
        FirstBitIsSeen(r, width, c, u, v);
      }
    }
  }

  /** Changing bits of a message within a stretch no longer than the register always changes it. */
  lemma BurstIsDetected<S(!new)>(r: Lfsr<S>, width: nat, c: S, x: seq<bool>, u: seq<bool>, v: seq<bool>, y: seq<bool>)
    requires Lawful(r) && Spans(r, width) && |u| == |v| <= width && u != v
    ensures r.Fold(c, x + u + y) != r.Fold(c, x + v + y)
  {
    if r.Fold(c, x + u + y) == r.Fold(c, x + v + y) {
      FoldConcat(r, c, x + u, y);
      FoldConcat(r, c, x + v, y);
      FoldKeepsState(r, r.Fold(c, x + u), r.Fold(c, x + v), y);
      FoldConcat(r, c, x, u);
      FoldConcat(r, c, x, v);
      BlockIsSeen(r, width, r.Fold(c, x), u, v);
    }
  }

  /** Adding a whole block first and stepping once per bit feeds the bits of the block. */
  lemma {:induction false} StepsAreFeeds<S(!new)>(r: Lfsr<S>, c: S, x: S, bits: seq<bool>)
    requires Lawful(r)
    requires forall i :: 0 <= i < |bits| ==> bits[i] == r.lead(r.Shifts(x, i))
    ensures r.Steps(r.plus(c, x), |bits|) == r.plus(r.Fold(c, bits), r.Shifts(x, |bits|))
    decreases |bits|
  {
    if bits != [] {
      var d, rest := r.Feed(c, r.lead(x)), bits[1..];
      assert bits[0] == r.lead(r.Shifts(x, 0)) == r.lead(x);
      StepIsFeed(r, c, x);
      forall i | 0 <= i < |rest|
        ensures rest[i] == r.lead(r.Shifts(r.shift(x), i))
      {
        assert rest[i] == bits[i + 1] == r.lead(r.Shifts(x, i + 1));
      }
      StepsAreFeeds(r, d, r.shift(x), rest);
      FoldFront(r, c, bits);
    }
  }

  /** Feeding zero bits is stepping. */
  lemma ZerosAreSteps<S(!new)>(r: Lfsr<S>, c: S, zeros: seq<bool>)
    requires Lawful(r) && forall i :: 0 <= i < |zeros| ==> !zeros[i]
    ensures r.Steps(c, |zeros|) == r.Fold(c, zeros)
  {
    assert !r.lead(r.plus(r.zero, r.zero));
    assert r.plus(c, r.zero) == c;
    forall i | 0 <= i < |zeros|
      ensures zeros[i] == r.lead(r.Shifts(r.zero, i))
    {
      ShiftsOfZero(r, i);
    }
    ShiftsOfZero(r, |zeros|);
    StepsAreFeeds(r, c, r.zero, zeros);
    assert r.plus(r.Fold(c, zeros), r.zero) == r.Fold(c, zeros);
  }

  lemma LoadedSteps<S(!new)>(r: Lfsr<S>, c: S, bits: seq<bool>)
    requires Lawful(r) && Loads(r, bits)
    ensures r.Steps(r.plus(c, r.load(bits)), |bits|) == r.Fold(c, bits)
  {
    StepsAreFeeds(r, c, r.load(bits), bits);
  }

  /** The low `k` bits of a number, most significant first. */
  function ToBits(n: nat, k: nat): (bits: seq<bool>)
    ensures |bits| == k
  {
    if k == 0 then [] else ToBits(n / 2, k - 1) + [n % 2 == 1]
  }

  lemma {:induction false} ToBitsInjective(a: nat, b: nat, k: nat)
    requires a < Pow2(k) && b < Pow2(k) && ToBits(a, k) == ToBits(b, k)
    ensures a == b
  {
    if k > 0 {
      assert ToBits(a, k)[k - 1] == ToBits(b, k)[k - 1];
      assert ToBits(a / 2, k - 1) == ToBits(a, k)[..k - 1];
      assert ToBits(b / 2, k - 1) == ToBits(b, k)[..k - 1];
      ToBitsInjective(a / 2, b / 2, k - 1);
    }
  }

  /** Bit `i` in that order is the digit of the power `k - 1 - i` of two. */
  lemma {:induction false} ToBitsAt(n: nat, k: nat, i: nat)
    requires i < k
    ensures ToBits(n, k)[i] == Bit(n, k - 1 - i) == (n / Pow2(k - 1 - i) % 2 == 1)
  {
    BitIsDigit(n, k - 1 - i);
    if i < k - 1 {
      ToBitsAt(n / 2, k - 1, i);
    }
  }

  /** The number with these bits. */
  function Value(bits: seq<bool>): nat {
    if bits == [] then 0 else 2 * Value(bits[..|bits| - 1]) + Digit(bits[|bits| - 1])
  }

  lemma {:induction false} ValueOfBits(n: nat, k: nat)
    requires n < Pow2(k)
    ensures Value(ToBits(n, k)) == n
  {
    if k > 0 {
      assert ToBits(n, k)[..k - 1] == ToBits(n / 2, k - 1);
      ValueOfBits(n / 2, k - 1);
    }
  }

  lemma ValueStep(bits: seq<bool>, i: nat)
    requires i < |bits|
    ensures Value(bits[..i + 1]) == 2 * Value(bits[..i]) + Digit(bits[i])
  {
    assert bits[..i + 1][..i] == bits[..i];
  }

  lemma ValueOfFour(bits: seq<bool>, i: nat)
    requires i + 4 <= |bits|
    ensures Value(bits[..i + 4]) == 16 * Value(bits[..i]) + 8 * Digit(bits[i]) + 4 * Digit(bits[i + 1])
                                    + 2 * Digit(bits[i + 2]) + Digit(bits[i + 3])
  {
    ValueStep(bits, i);
    ValueStep(bits, i + 1);
    ValueStep(bits, i + 2);
    ValueStep(bits, i + 3);
  }

  /** The same bits as an 8-bit word. */
  function Pattern(bits: seq<bool>): bv8
    requires |bits| == 8
  {
    (if bits[0] then 0x80 else 0) | (if bits[1] then 0x40 else 0)
    | (if bits[2] then 0x20 else 0) | (if bits[3] then 0x10 else 0)
    | (if bits[4] then 0x08 else 0) | (if bits[5] then 0x04 else 0)
    | (if bits[6] then 0x02 else 0) | (if bits[7] then 0x01 else 0)
  }

  lemma PatternOfDigits(bits: seq<bool>)
    requires |bits| == 8
    ensures Pattern(bits) as int
         == 128 * Digit(bits[0]) + 64 * Digit(bits[1]) + 32 * Digit(bits[2]) + 16 * Digit(bits[3])
            + 8 * Digit(bits[4]) + 4 * Digit(bits[5]) + 2 * Digit(bits[6]) + Digit(bits[7])
  {
  }

  lemma SameWord(w: bv8, x: byte)
    requires w as int == x
    ensures w == x as bv8
  {
  }

  /** The word with the bits of a byte is that byte. */
  lemma PatternOfByte(x: byte)
    ensures Pattern(ToBits(x, 8)) == x as bv8 && Pattern(ToBits(x, 8)) as int == x
  {
    var bits := ToBits(x, 8);
    assert Pow2(8) == 256;
    ValueOfBits(x, 8);
    ValueOfFour(bits, 0);
    ValueOfFour(bits, 4);
    assert bits[..8] == bits && bits[..0] == [];
    PatternOfDigits(bits);
    SameWord(Pattern(bits), x);
  }

  /** The bits of a byte in the order in which a register takes them in. */
  function ByteBits(x: byte, msbFirst: bool): (bits: seq<bool>)
    ensures |bits| == 8
  {
    if msbFirst then ToBits(x, 8) else seq(8, i requires 0 <= i < 8 => ToBits(x, 8)[7 - i])
  }

  lemma ByteBitsInjective(a: byte, b: byte, msbFirst: bool)
    requires ByteBits(a, msbFirst) == ByteBits(b, msbFirst)
    ensures a == b
  {
    var x, y := ToBits(a, 8), ToBits(b, 8);
    forall i | 0 <= i < 8
      ensures x[i] == y[i]
    {
      assert ByteBits(a, msbFirst)[7 - i] == ByteBits(b, msbFirst)[7 - i];
      assert ByteBits(a, msbFirst)[i] == ByteBits(b, msbFirst)[i];
    }
    assert Pow2(8) == 256;
    ToBitsInjective(a, b, 8);
  }

  /** The bits of a message of bytes. */
  function MessageBits(data: seq<byte>, msbFirst: bool): seq<bool> {
    if data == [] then []
    else MessageBits(data[..|data| - 1], msbFirst) + ByteBits(data[|data| - 1], msbFirst)
  }

  lemma {:induction false} MessageBitsConcat(x: seq<byte>, y: seq<byte>, msbFirst: bool)
    ensures MessageBits(x + y, msbFirst) == MessageBits(x, msbFirst) + MessageBits(y, msbFirst)
  {
    if y == [] {
      assert x + y == x;
    } else {
      assert (x + y)[..|x + y| - 1] == x + y[..|y| - 1];
      MessageBitsConcat(x, y[..|y| - 1], msbFirst);
    }
  }

  lemma MessageBitsOne(x: byte, msbFirst: bool)
    ensures MessageBits([x], msbFirst) == ByteBits(x, msbFirst)
  {
    assert [x][..0] == [];
  }

  /** The register after the bytes of `data`, having started from `c`. */
  function Remainder<S>(r: Lfsr<S>, c: S, data: seq<byte>, msbFirst: bool): S {
    r.Fold(c, MessageBits(data, msbFirst))
  }

  /** Hashing in two chunks is hashing the concatenation. */
  lemma CrcConcat<S>(r: Lfsr<S>, c: S, x: seq<byte>, y: seq<byte>, msbFirst: bool)
    ensures Remainder(r, c, x + y, msbFirst) == Remainder(r, Remainder(r, c, x, msbFirst), y, msbFirst)
  {
    MessageBitsConcat(x, y, msbFirst);
    FoldConcat(r, c, MessageBits(x, msbFirst), MessageBits(y, msbFirst));
  }

  lemma CrcByte<S>(r: Lfsr<S>, c: S, data: seq<byte>, x: byte, msbFirst: bool)
    ensures Remainder(r, c, data + [x], msbFirst) == r.Fold(Remainder(r, c, data, msbFirst), ByteBits(x, msbFirst))
  {
    CrcConcat(r, c, data, [x], msbFirst);
    MessageBitsOne(x, msbFirst);
  }

  lemma SameEnd(a: seq<bool>, u: seq<bool>, b: seq<bool>, v: seq<bool>)
    requires a + u == b + v && |u| == |v|
    ensures a == b && u == v
  {
    assert a == (a + u)[..|a|] && b == (b + v)[..|a|];
    assert u == (a + u)[|a|..] && v == (b + v)[|a|..];
  }

  lemma {:induction false} MessageBitsInjective(s: seq<byte>, t: seq<byte>, msbFirst: bool)
    requires |s| == |t| && MessageBits(s, msbFirst) == MessageBits(t, msbFirst)
    ensures s == t
  {
    if s != [] {
      var k := |s| - 1;
      var a, b := MessageBits(s[..k], msbFirst), MessageBits(t[..k], msbFirst);
      var u, v := ByteBits(s[k], msbFirst), ByteBits(t[k], msbFirst);
      SameEnd(a, u, b, v);
      ByteBitsInjective(s[k], t[k], msbFirst);
      MessageBitsInjective(s[..k], t[..k], msbFirst);
    }
  }

  lemma {:induction false} MessageBitsLength(s: seq<byte>, msbFirst: bool)
    ensures |MessageBits(s, msbFirst)| == 8 * |s|
  {
    if s != [] {
      MessageBitsLength(s[..|s| - 1], msbFirst);
    }
  }

  /** So does changing adjacent bytes of a message of any length, as many as the register holds. */
  lemma ByteChangesAreDetected<S(!new)>(r: Lfsr<S>, width: nat, c: S, x: seq<byte>, s: seq<byte>, t: seq<byte>,
                                        y: seq<byte>, msbFirst: bool)
    requires Lawful(r) && Spans(r, width) && |s| == |t| && 8 * |s| <= width && s != t
    ensures Remainder(r, c, x + s + y, msbFirst) != Remainder(r, c, x + t + y, msbFirst)
  {
    var u, v := MessageBits(s, msbFirst), MessageBits(t, msbFirst);
    MessageBitsLength(s, msbFirst);
    MessageBitsLength(t, msbFirst);
    if u == v {
      MessageBitsInjective(s, t, msbFirst);
    }
    MessageBitsConcat(x + s, y, msbFirst);
    MessageBitsConcat(x, s, msbFirst);
    MessageBitsConcat(x + t, y, msbFirst);
    MessageBitsConcat(x, t, msbFirst);
    BurstIsDetected(r, width, c, MessageBits(x, msbFirst), u, v, MessageBits(y, msbFirst));
  }
}
