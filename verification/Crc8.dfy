/** The CRC-8 of common/crc8.c: generator x^8 + x^2 + x + 1, most significant bit first. */
module Crc8 {
  import opened Memory
  import opened Checksum

  predicate Lead(c: bv8) {
    c & 0x80 != 0
  }

  function Shift(c: bv8): bv8 {
    c << 1
  }

  function Plus(c: bv8, x: bv8): bv8 {
    c ^ x
  }

  /** A byte fills the register. */
  function Load(bits: seq<bool>): bv8 {
    if |bits| == 8 then Pattern(bits) else 0
  }

  const WIDTH := 8
  const REGISTER: Lfsr<bv8> := Lfsr(Lead, Shift, Plus, 0x07, 0, Load)

  lemma LeadOfXor(c: bv8, x: bv8)
    ensures (c ^ x) & 0x80 != 0 <==> (c & 0x80 != 0) != (x & 0x80 != 0)
  {
  }

  lemma ShiftOfXor(c: bv8, x: bv8)
    ensures (c ^ x) << 1 == (c << 1) ^ (x << 1)
  {
  }

  lemma XorCommutes(c: bv8, x: bv8, y: bv8)
    ensures (c ^ x) ^ y == (c ^ y) ^ x
  {
  }

  lemma XorCancels(c: bv8, d: bv8, x: bv8)
    ensures x ^ c == x ^ d ==> c == d
    ensures c ^ x == d ^ x ==> c == d
  {
  }

  lemma LeadAndShift(c: bv8, d: bv8)
    ensures (c << 1 == d << 1) && c & 0x80 == d & 0x80 ==> c == d
    ensures c & 0x80 == 0 || c & 0x80 == 0x80
    ensures d & 0x80 == 0 || d & 0x80 == 0x80
  {
  }

  lemma ConstantTerm(c: bv8, d: bv8)
    ensures (c << 1) ^ 0x07 != d << 1
  {
    assert (d << 1) & 1 == 0;
    assert ((c << 1) ^ 0x07) & 1 != 0;
  }

  lemma RegisterIsLinear()
    ensures LeadIsLinear(REGISTER) && ShiftIsLinear(REGISTER)
  {
    forall c, x {:trigger Lead(Plus(c, x))}
      ensures Lead(Plus(c, x)) <==> Lead(c) != Lead(x)
    {
      LeadOfXor(c, x);
    }
    forall c, x {:trigger Shift(Plus(c, x))}
      ensures Shift(Plus(c, x)) == Plus(Shift(c), Shift(x))
    {
      ShiftOfXor(c, x);
    }
  }

  lemma RegisterAdds()
    ensures FeedbackCommutes(REGISTER) && PlusCancels(REGISTER) && ZeroIsNeutral(REGISTER)
  {
    forall c, x {:trigger Plus(Plus(c, x), 0x07)}
      ensures Plus(Plus(c, x), 0x07) == Plus(Plus(c, 0x07), x)
    {
      XorCommutes(c, x, 0x07);
    }
    forall c, d, x
      ensures Plus(x, c) == Plus(x, d) ==> c == d
      ensures Plus(c, x) == Plus(d, x) ==> c == d
    {
      XorCancels(c, d, x);
    }
  }

  lemma RegisterFeedsBack()
    ensures LeadAndShiftDetermine(REGISTER) && FeedbackShows(REGISTER)
  {
    forall c, d
      ensures Shift(c) == Shift(d) && Lead(c) == Lead(d) ==> c == d
      ensures Plus(Shift(c), 0x07) != Shift(d)
    {
      LeadAndShift(c, d);
      ConstantTerm(c, d);
    }
  }

  lemma RegisterIsLawful()
    ensures Lawful(REGISTER)
  {
    RegisterIsLinear();
    RegisterAdds();
    RegisterFeedsBack();
  }

  lemma XorAssociates(c: bv8, x: bv8, y: bv8)
    ensures (c ^ x) ^ y == c ^ (x ^ y)
  {
  }

  lemma XorTwice(c: bv8, x: bv8, y: bv8)
    ensures (c ^ y) ^ (x ^ y) == c ^ x
  {
  }

  lemma BitShifts(c: bv8, k: bv8)
    ensures c & (k >> 1) != 0 ==> (c << 1) & k != 0
  {
    assert (c & (k >> 1)) << 1 == (c << 1) & ((k >> 1) << 1);
    assert ((k >> 1) << 1) | k == k;
  }

  lemma FeedbackSetsLast(c: bv8)
    ensures ((c << 1) ^ 0x07) & 1 != 0
  {
  }

  function Towards(k: bv8): bv8 {
    k >> 1
  }

  /** The bit that `j` shifts move to the lead. */
  function Place(j: nat): bv8 {
    Places(0x80, Towards, j)
  }

  predicate At(c: bv8, j: nat) {
    c & Place(j) != 0
  }

  lemma FourSteps(k: bv8)
    ensures Towards(Towards(Towards(Towards(k)))) == k >> 4
  {
  }

  lemma LastPlace()
    ensures Place(7) == 1
  {
    FourPlaces(0x80 as bv8, Towards, 0);
    FourSteps(0x80);
    assert Place(4) == 0x8;
    assert Place(7) == Towards(Towards(Towards(Place(4))));
  }

  lemma RegisterCancels()
    ensures Checksum.FeedbackCancels(REGISTER)
  {
    forall c, x {:trigger Plus(Plus(c, 0x07), Plus(x, 0x07))}
      ensures Plus(Plus(c, 0x07), Plus(x, 0x07)) == Plus(c, x)
    {
      XorTwice(c, x, 0x07);
    }
  }

  lemma RegisterAssociates()
    ensures FeedbackAssociates(REGISTER)
  {
    forall c, x {:trigger Plus(c, Plus(x, 0x07))}
      ensures Plus(Plus(c, x), 0x07) == Plus(c, Plus(x, 0x07))
    {
      XorAssociates(c, x, 0x07);
    }
  }

  lemma RegisterSpans()
    ensures Spans(REGISTER, WIDTH)
  {
    RegisterCancels();
    RegisterAssociates();
    forall c, j: nat
      ensures At(c, j + 1) ==> At(Shift(c), j)
    {
      BitShifts(c, Place(j));
    }
    forall c
      ensures At(Plus(Shift(c), 0x07), WIDTH - 1)
    {
      FeedbackSetsLast(c);
      LastPlace();
    }
    LastBitStays(REGISTER, At, WIDTH);
  }

  lemma RegisterLoads(bits: seq<bool>)
    requires |bits| == 8
    ensures Loads(REGISTER, bits)
  {
  }

  /** The register after the bytes of `data`, having started from `previous`. */
  function Crc(data: seq<byte>, previous: bv8): bv8 {
    Remainder(REGISTER, previous, data, true)
  }

  /** Every change of bits within a stretch of 8 bits changes the CRC. */
  lemma BurstIsDetected(s: seq<byte>, t: seq<byte>, x: seq<bool>, u: seq<bool>, v: seq<bool>, y: seq<bool>, previous: bv8)
    requires MessageBits(s, true) == x + u + y && MessageBits(t, true) == x + v + y
    requires |u| == |v| <= WIDTH && u != v
    ensures Crc(s, previous) != Crc(t, previous)
  {
    RegisterIsLawful();
    RegisterSpans();
    Checksum.BurstIsDetected(REGISTER, WIDTH, previous, x, u, v, y);
  }

  /** Changing one byte of a message of any length always changes its CRC. */
  lemma OneByteChangeIsDetected(x: seq<byte>, a: byte, b: byte, y: seq<byte>, previous: bv8)
    requires a != b
    ensures Crc(x + [a] + y, previous) != Crc(x + [b] + y, previous)
  {
    RegisterIsLawful();
    RegisterSpans();
    ByteChangesAreDetected(REGISTER, WIDTH, previous, x, [a], [b], y, true);
  }

  /** Adding a byte and stepping eight times feeds the byte bit by bit. */
  lemma ByteSteps(c: bv8, bits: seq<bool>)
    requires |bits| == 8
    ensures REGISTER.Steps(Plus(c, Load(bits)), |bits|) == REGISTER.Fold(c, bits)
  {
    RegisterIsLawful();
    RegisterLoads(bits);
    LoadedSteps(REGISTER, c, bits);
  }

  // -------- the same in words, without bits

  /** `n` steps of the register. */
  function Stepped(c: bv8, n: nat): bv8
    decreases n
  {
    if n == 0 then c else Stepped(if c & 0x80 != 0 then (c << 1) ^ 0x07 else c << 1, n - 1)
  }

  /** A byte is added to the register, and eight steps follow. */
  predicate Takes(c: bv8, x: byte, next: bv8) {
    next == Stepped(c ^ (x as bv8), 8)
  }

  lemma {:induction false} StepsWritten(c: bv8, n: nat)
    ensures REGISTER.Steps(c, n) == Stepped(c, n)
    decreases n
  {
    if n > 0 {
      StepsWritten(REGISTER.Step(c), n - 1);
    }
  }

  /** The bits of a message taken in one by one are its bytes taken in one by one. */
  lemma CrcOfAppended(data: seq<byte>, x: byte, previous: bv8)
    ensures Takes(Crc(data, previous), x, Crc(data + [x], previous))
  {
    var c, bits := Crc(data, previous), ByteBits(x, true);
    CrcByte(REGISTER, previous, data, x, true);
    LoadIsByte(x);
    ByteSteps(c, bits);
    StepsWritten(Plus(c, Load(bits)), |bits|);
  }

  lemma CrcOfNothing(previous: bv8)
    ensures Crc([], previous) == previous
  {
  }

  lemma CrcOfPrefix(data: seq<byte>, i: nat, previous: bv8, c: bv8, next: bv8)
    requires i < |data| && Crc(data[..i], previous) == c && Takes(c, data[i], next)
    ensures Crc(data[..i + 1], previous) == next
  {
    assert data[..i + 1] == data[..i] + [data[i]];
    CrcOfAppended(data[..i], data[i], previous);
  }

  lemma {:induction false} CrcOfRun(data: seq<byte>, registers: seq<bv8>, i: nat)
    requires i <= |data| && |registers| == |data| + 1
    requires forall k :: 0 <= k < |data| ==> Takes(registers[k], data[k], registers[k + 1])
    ensures Crc(data[..i], registers[0]) == registers[i]
  {
    if i == 0 {
      CrcOfNothing(registers[0]);
    } else {
      CrcOfRun(data, registers, i - 1);
      CrcOfPrefix(data, i - 1, registers[0], registers[i - 1], registers[i]);
    }
  }

  lemma TestSteps()
    ensures Takes(0x00, 1, 0x07) && Takes(0x07, 2, 0x1B) && Takes(0x1B, 3, 0x48) && Takes(0x48, 4, 0xE3) && Takes(0xE3, 5, 0xBC)
    ensures Takes(0xBC, 6, 0x2F) && Takes(0x2F, 7, 0xD8) && Takes(0xD8, 8, 0x3E) && Takes(0x3E, 9, 0x85) && Takes(0x85, 8, 0xAA)
  {
  }

  /** The known answer of test/crc.c. */
  lemma KnownAnswer()
    ensures Crc([1, 2, 3, 4, 5, 6, 7, 8, 9, 8], 0) == 170
  {
    var data: seq<byte> := [1, 2, 3, 4, 5, 6, 7, 8, 9, 8];
    var registers: seq<bv8> := [0x00, 0x07, 0x1B, 0x48, 0xE3, 0xBC, 0x2F, 0xD8, 0x3E, 0x85, 0xAA];
    TestSteps();
    CrcOfRun(data, registers, |data|);
    assert data[..|data|] == data;
  }

  // -------- the source's loops, on a register kept in bits 15..8 of a wider word

  function Wide(c: bv8): bv32 {
    (c as bv32) << 8
  }

  lemma WideStep(c: bv8)
    ensures (if Wide(c) & 0x8000 != 0 then Wide(c) ^ (0x1070 << 3) else Wide(c)) << 1
         == Wide(REGISTER.Step(c))
  {
  }

  lemma WidePlus(c: bv8, x: bv8)
    ensures Wide(c) ^ ((x as bv32) << 8) == Wide(Plus(c, x))
  {
  }

  lemma Narrow(c: bv8)
    ensures (Wide(c) >> 8) as bv8 == c
  {
  }

  lemma LoadIsByte(x: byte)
    ensures Load(ByteBits(x, true)) == x as bv8
  {
    PatternOfByte(x);
  }

  lemma ByteInWord(x: byte)
    ensures (x as bv8) as bv32 == x as bv32
  {
  }

  // The loop over the `n` bits of a byte, which has been added to the register already.
  method BitLoop(crc0: bv32, ghost c: bv8, n: nat) returns (crc: bv32)
    requires crc0 == Wide(c)
    ensures crc == Wide(REGISTER.Steps(c, n))
  {
    crc := crc0;
    ghost var now := c;
    for i := n downto 0
      invariant REGISTER.Steps(now, i) == REGISTER.Steps(c, n) && crc == Wide(now)
    {
      WideStep(now);
      if crc & 0x8000 != 0 {
        crc := crc ^ (0x1070 << 3);
      }
      crc := crc << 1;
      now := REGISTER.Step(now);
    }
  }

  method AddByte(crc0: bv32, x: byte, ghost c: bv8) returns (crc: bv32)
    requires crc0 == Wide(c)
    ensures crc == Wide(REGISTER.Fold(c, ByteBits(x, true)))
  {
    var bits := ByteBits(x, true);
    WidePlus(c, Load(bits));
    LoadIsByte(x);
    ByteInWord(x);
    crc := crc0 ^ ((x as bv32) << 8);
    crc := BitLoop(crc, Plus(c, Load(bits)), 8);
    ByteSteps(c, bits);
  }

  method CrosCrc8Arg(data: seq<byte>, previous: bv8) returns (r: bv8)
    ensures r == Crc(data, previous)
  {
    var crc: bv32 := (previous as bv32) << 8;
    var p := 0;
    for j := |data| downto 0
      invariant p == |data| - j
      invariant crc == Wide(Crc(data[..p], previous))
    {
      CrcByte(REGISTER, previous, data[..p], data[p], true);
      crc := AddByte(crc, data[p], Crc(data[..p], previous));
      assert data[..p + 1] == data[..p] + [data[p]];
      p := p + 1;
    }
    assert data[..p] == data;
    Narrow(Crc(data, previous));
    r := (crc >> 8) as bv8;
  }
}
