/** The CRC-16 of common/crc.c: generator x^16 + x^12 + x^5 + 1, most significant bit first. */
module Crc16 {
  import opened Memory
  import opened Checksum

  predicate Lead(c: bv16) {
    c & 0x8000 != 0
  }

  function Shift(c: bv16): bv16 {
    c << 1
  }

  function Plus(c: bv16, x: bv16): bv16 {
    c ^ x
  }

  /** A byte is added to the upper half of the register. */
  function Load(bits: seq<bool>): bv16 {
    if |bits| == 8 then (Pattern(bits) as bv16) << 8 else 0
  }

  const WIDTH := 16
  const REGISTER: Lfsr<bv16> := Lfsr(Lead, Shift, Plus, 0x1021, 0, Load)

  lemma LeadOfXor(c: bv16, x: bv16)
    ensures (c ^ x) & 0x8000 != 0 <==> (c & 0x8000 != 0) != (x & 0x8000 != 0)
  {
  }

  lemma ShiftOfXor(c: bv16, x: bv16)
    ensures (c ^ x) << 1 == (c << 1) ^ (x << 1)
  {
  }

  lemma XorCommutes(c: bv16, x: bv16, y: bv16)
    ensures (c ^ x) ^ y == (c ^ y) ^ x
  {
  }

  lemma XorCancels(c: bv16, d: bv16, x: bv16)
    ensures x ^ c == x ^ d ==> c == d
    ensures c ^ x == d ^ x ==> c == d
  {
  }

  lemma LeadAndShift(c: bv16, d: bv16)
    ensures (c << 1 == d << 1) && c & 0x8000 == d & 0x8000 ==> c == d
    ensures c & 0x8000 == 0 || c & 0x8000 == 0x8000
    ensures d & 0x8000 == 0 || d & 0x8000 == 0x8000
  {
  }

  lemma ConstantTerm(c: bv16, d: bv16)
    ensures (c << 1) ^ 0x1021 != d << 1
  {
    assert (d << 1) & 1 == 0;
    assert ((c << 1) ^ 0x1021) & 1 != 0;
  }

  lemma RegisterIsLinear()
    ensures LeadIsLinear(REGISTER) && ShiftIsLinear(REGISTER)
  {
    forall c, x {:trigger Lead(Plus(c, x))}
      ensures Lead(Plus(c, x)) <==> Lead(c) != Lead(x)
    {
      LeadOfXor(c, x);
    }
    forall c, x {:trigger Shift(Plus(c, x))}
      ensures Shift(Plus(c, x)) == Plus(Shift(c), Shift(x))
    {
      ShiftOfXor(c, x);
    }
  }

  lemma RegisterAdds()
    ensures FeedbackCommutes(REGISTER) && PlusCancels(REGISTER) && ZeroIsNeutral(REGISTER)
  {
    forall c, x {:trigger Plus(Plus(c, x), 0x1021)}
      ensures Plus(Plus(c, x), 0x1021) == Plus(Plus(c, 0x1021), x)
    {
      XorCommutes(c, x, 0x1021);
    }
    forall c, d, x
      ensures Plus(x, c) == Plus(x, d) ==> c == d
      ensures Plus(c, x) == Plus(d, x) ==> c == d
    {
      XorCancels(c, d, x);
    }
  }

  lemma RegisterFeedsBack()
    ensures LeadAndShiftDetermine(REGISTER) && FeedbackShows(REGISTER)
  {
    forall c, d
      ensures Shift(c) == Shift(d) && Lead(c) == Lead(d) ==> c == d
      ensures Plus(Shift(c), 0x1021) != Shift(d)
    {
      LeadAndShift(c, d);
      ConstantTerm(c, d);
    }
  }

  lemma RegisterIsLawful()
    ensures Lawful(REGISTER)
  {
    RegisterIsLinear();
    RegisterAdds();
    RegisterFeedsBack();
  }

  lemma XorAssociates(c: bv16, x: bv16, y: bv16)
    ensures (c ^ x) ^ y == c ^ (x ^ y)
  {
  }

  lemma XorTwice(c: bv16, x: bv16, y: bv16)
    ensures (c ^ y) ^ (x ^ y) == c ^ x
  {
  }

  lemma BitShifts(c: bv16, k: bv16)
    ensures c & (k >> 1) != 0 ==> (c << 1) & k != 0
  {
    assert (c & (k >> 1)) << 1 == (c << 1) & ((k >> 1) << 1);
    assert ((k >> 1) << 1) | k == k;
  }

  lemma FeedbackSetsLast(c: bv16)
    ensures ((c << 1) ^ 0x1021) & 1 != 0
  {
  }

  function Towards(k: bv16): bv16 {
    k >> 1
  }

  /** The bit that `j` shifts move to the lead. */
  function Place(j: nat): bv16 {
    Places(0x8000, Towards, j)
  }

  predicate At(c: bv16, j: nat) {
    c & Place(j) != 0
  }

  lemma FourSteps(k: bv16)
    ensures Towards(Towards(Towards(Towards(k)))) == k >> 4
  {
  }

  lemma LastPlace()
    ensures Place(15) == 1
  {
    FourPlaces(0x8000 as bv16, Towards, 0);
    FourSteps(0x8000);
    FourPlaces(0x8000 as bv16, Towards, 4);
    FourSteps(0x800);
    FourPlaces(0x8000 as bv16, Towards, 8);
    FourSteps(0x80);
    assert Place(12) == 0x8;
    assert Place(15) == Towards(Towards(Towards(Place(12))));
  }

  lemma RegisterCancels()
    ensures Checksum.FeedbackCancels(REGISTER)
  {
    forall c, x {:trigger Plus(Plus(c, 0x1021), Plus(x, 0x1021))}
      ensures Plus(Plus(c, 0x1021), Plus(x, 0x1021)) == Plus(c, x)
    {
      XorTwice(c, x, 0x1021);
    }
  }

  lemma RegisterAssociates()
    ensures FeedbackAssociates(REGISTER)
  {
    forall c, x {:trigger Plus(c, Plus(x, 0x1021))}
      ensures Plus(Plus(c, x), 0x1021) == Plus(c, Plus(x, 0x1021))
    {
      XorAssociates(c, x, 0x1021);
    }
  }

  lemma RegisterSpans()
    ensures Spans(REGISTER, WIDTH)
  {
    RegisterCancels();
    RegisterAssociates();
    forall c, j: nat
      ensures At(c, j + 1) ==> At(Shift(c), j)
    {
      BitShifts(c, Place(j));
    }
    forall c
      ensures At(Plus(Shift(c), 0x1021), WIDTH - 1)
    {
      FeedbackSetsLast(c);
      LastPlace();
    }
    LastBitStays(REGISTER, At, WIDTH);
  }

  lemma RegisterLoads(bits: seq<bool>)
    requires |bits| == 8
    ensures Loads(REGISTER, bits)
  {
  }

  /** The register after the bytes of `data`, having started from `previous`. */
  function Crc(data: seq<byte>, previous: bv16): bv16 {
    Remainder(REGISTER, previous, data, true)
  }

  /** Every change of bits within a stretch of 16 bits changes the CRC. */
  lemma BurstIsDetected(s: seq<byte>, t: seq<byte>, x: seq<bool>, u: seq<bool>, v: seq<bool>, y: seq<bool>, previous: bv16)
    requires MessageBits(s, true) == x + u + y && MessageBits(t, true) == x + v + y
    requires |u| == |v| <= WIDTH && u != v
    ensures Crc(s, previous) != Crc(t, previous)
  {
    RegisterIsLawful();
    RegisterSpans();
    Checksum.BurstIsDetected(REGISTER, WIDTH, previous, x, u, v, y);
  }

  /** Changing up to two adjacent bytes of a message of any length always changes its CRC. */
  lemma ByteChangesAreDetected(x: seq<byte>, s: seq<byte>, t: seq<byte>, y: seq<byte>, previous: bv16)
    requires |s| == |t| <= 2 && s != t
    ensures Crc(x + s + y, previous) != Crc(x + t + y, previous)
  {
    RegisterIsLawful();
    RegisterSpans();
    Checksum.ByteChangesAreDetected(REGISTER, WIDTH, previous, x, s, t, y, true);
  }

  /** Adding a byte and stepping eight times feeds the byte bit by bit. */
  lemma ByteSteps(c: bv16, bits: seq<bool>)
    requires |bits| == 8
    ensures REGISTER.Steps(Plus(c, Load(bits)), |bits|) == REGISTER.Fold(c, bits)
  {
    RegisterIsLawful();
    RegisterLoads(bits);
    LoadedSteps(REGISTER, c, bits);
  }

  lemma OneStep(c: bv16)
    ensures (if c & 0x8000 != 0 then (c << 1) ^ 0x1021 else c << 1) == REGISTER.Step(c)
  {
  }

  lemma ByteInWord(x: byte)
    ensures (x as bv8) as bv16 == x as bv16
  {
  }

  lemma LoadIsByte(x: byte)
    ensures Load(ByteBits(x, true)) == (x as bv16) << 8
  {
    PatternOfByte(x);
    ByteInWord(x);
  }

  // The loop over the `n` bits of a byte, which has been added to the register already.
  method BitLoop(c: bv16, n: nat) returns (crc16: bv16)
    ensures crc16 == REGISTER.Steps(c, n)
  {
    crc16 := c;
    for j := 0 to n
      invariant REGISTER.Steps(crc16, n - j) == REGISTER.Steps(c, n)
    {
      OneStep(crc16);
      if crc16 & 0x8000 != 0 {
        crc16 := (crc16 << 1) ^ 0x1021;
      } else {
        crc16 := crc16 << 1;
      }
    }
  }

  method AddByte(c: bv16, x: byte) returns (crc16: bv16)
    ensures crc16 == REGISTER.Fold(c, ByteBits(x, true))
  {
    var bits := ByteBits(x, true);
    LoadIsByte(x);
    crc16 := BitLoop(c ^ ((x as bv16) << 8), 8);
    ByteSteps(c, bits);
  }

  // -------- the same in words, without bits

  /** `n` steps of the register. */
  function Stepped(c: bv16, n: nat): bv16
    decreases n
  {
    if n == 0 then c else Stepped(if c & 0x8000 != 0 then (c << 1) ^ 0x1021 else c << 1, n - 1)
  }

  /** A byte is added to the register, and eight steps follow. */
  predicate Takes(c: bv16, x: byte, next: bv16) {
    next == Stepped(c ^ ((x as bv16) << 8), 8)
  }

  lemma {:induction false} StepsWritten(c: bv16, n: nat)
    ensures REGISTER.Steps(c, n) == Stepped(c, n)
    decreases n
  {
    if n > 0 {
      StepsWritten(REGISTER.Step(c), n - 1);
    }
  }

  /** The bits of a message taken in one by one are its bytes taken in one by one. */
  lemma CrcOfAppended(data: seq<byte>, x: byte, previous: bv16)
    ensures Takes(Crc(data, previous), x, Crc(data + [x], previous))
  {
    var c, bits := Crc(data, previous), ByteBits(x, true);
    CrcByte(REGISTER, previous, data, x, true);
    LoadIsByte(x);
    ByteSteps(c, bits);
    StepsWritten(Plus(c, Load(bits)), |bits|);
  }

  lemma CrcOfNothing(previous: bv16)
    ensures Crc([], previous) == previous
  {
  }

  lemma CrcOfPrefix(data: seq<byte>, i: nat, previous: bv16, c: bv16, next: bv16)
    requires i < |data| && Crc(data[..i], previous) == c && Takes(c, data[i], next)
    ensures Crc(data[..i + 1], previous) == next
  {
    assert data[..i + 1] == data[..i] + [data[i]];
    CrcOfAppended(data[..i], data[i], previous);
  }

  lemma {:induction false} CrcOfRun(data: seq<byte>, registers: seq<bv16>, i: nat)
    requires i <= |data| && |registers| == |data| + 1
    requires forall k :: 0 <= k < |data| ==> Takes(registers[k], data[k], registers[k + 1])
    ensures Crc(data[..i], registers[0]) == registers[i]
  {
    if i == 0 {
      CrcOfNothing(registers[0]);
    } else {
      CrcOfRun(data, registers, i - 1);
      CrcOfPrefix(data, i - 1, registers[0], registers[i - 1], registers[i]);
    }
  }

  lemma TestSteps()
    ensures Takes(0x0000, 1, 0x1021) && Takes(0x1021, 2, 0x1373) && Takes(0x1373, 3, 0x6131)
    ensures Takes(0x6131, 4, 0x0D03) && Takes(0x0D03, 5, 0x8208) && Takes(0x8208, 6, 0xD90C)
    ensures Takes(0xD90C, 7, 0x26B3) && Takes(0x26B3, 8, 0x76AC) && Takes(0x76AC, 9, 0x2378)
    ensures Takes(0x2378, 8, 0xED09)
  {
  }

  /** The known answer of test/crc.c. */
  lemma KnownAnswer()
    ensures Crc([1, 2, 3, 4, 5, 6, 7, 8, 9, 8], 0) == 60681
  {
    var data: seq<byte> := [1, 2, 3, 4, 5, 6, 7, 8, 9, 8];
    var registers: seq<bv16> := [0x0000, 0x1021, 0x1373, 0x6131, 0x0D03, 0x8208, 0xD90C, 0x26B3, 0x76AC, 0x2378, 0xED09];
    TestSteps();
    CrcOfRun(data, registers, |data|);
    assert data[..|data|] == data;
  }

  method CrosCrc16(data: seq<byte>, previous: bv16) returns (crc16: bv16)
    ensures crc16 == Crc(data, previous)
  {
    crc16 := previous;
    for i := 0 to |data|
      invariant crc16 == Crc(data[..i], previous)
    {
      CrcByte(REGISTER, previous, data[..i], data[i], true);
      crc16 := AddByte(crc16, data[i]);
      assert data[..i + 1] == data[..i] + [data[i]];
    }
    assert data[..|data|] == data;
  }
}

/** The CRC-32 of common/crc.c: the generator of IEEE 802.3 section 3.2.9, bit-reflected, with
    the least significant bit of each byte first. */
module Crc32 {
  import opened Memory
  import opened Checksum

  predicate Lead(c: bv32) {
    c & 1 != 0
  }

  function Shift(c: bv32): bv32 {
    c >> 1
  }

  function Plus(c: bv32, x: bv32): bv32 {
    c ^ x
  }

  /** A byte is added to the low end of the register. */
  function Load(bits: seq<bool>): bv32 {
    if |bits| == 8 then Pattern(seq(8, i requires 0 <= i < 8 => bits[7 - i])) as bv32 else 0
  }

  const WIDTH := 32
  const REGISTER: Lfsr<bv32> := Lfsr(Lead, Shift, Plus, 0xEDB88320, 0, Load)

  lemma LeadOfXor(c: bv32, x: bv32)
    ensures (c ^ x) & 1 != 0 <==> (c & 1 != 0) != (x & 1 != 0)
  {
  }

  lemma ShiftOfXor(c: bv32, x: bv32)
    ensures (c ^ x) >> 1 == (c >> 1) ^ (x >> 1)
  {
  }

  lemma XorCommutes(c: bv32, x: bv32, y: bv32)
    ensures (c ^ x) ^ y == (c ^ y) ^ x
  {
  }

  lemma XorCancels(c: bv32, d: bv32, x: bv32)
    ensures x ^ c == x ^ d ==> c == d
    ensures c ^ x == d ^ x ==> c == d
  {
  }

  lemma LeadAndShift(c: bv32, d: bv32)
    ensures (c >> 1 == d >> 1) && c & 1 == d & 1 ==> c == d
    ensures c & 1 == 0 || c & 1 == 1
    ensures d & 1 == 0 || d & 1 == 1
  {
  }

  lemma ConstantTerm(c: bv32, d: bv32)
    ensures (c >> 1) ^ 0xEDB88320 != d >> 1
  {
    assert (d >> 1) & 0x80000000 == 0;
    assert ((c >> 1) ^ 0xEDB88320) & 0x80000000 != 0;
  }

  lemma RegisterIsLinear()
    ensures LeadIsLinear(REGISTER) && ShiftIsLinear(REGISTER)
  {
    forall c, x {:trigger Lead(Plus(c, x))}
      ensures Lead(Plus(c, x)) <==> Lead(c) != Lead(x)
    {
      LeadOfXor(c, x);
    }
    forall c, x {:trigger Shift(Plus(c, x))}
      ensures Shift(Plus(c, x)) == Plus(Shift(c), Shift(x))
    {
      ShiftOfXor(c, x);
    }
  }

  lemma RegisterAdds()
    ensures FeedbackCommutes(REGISTER) && PlusCancels(REGISTER) && ZeroIsNeutral(REGISTER)
  {
    forall c, x {:trigger Plus(Plus(c, x), 0xEDB88320)}
      ensures Plus(Plus(c, x), 0xEDB88320) == Plus(Plus(c, 0xEDB88320), x)
    {
      XorCommutes(c, x, 0xEDB88320);
    }
    forall c, d, x
      ensures Plus(x, c) == Plus(x, d) ==> c == d
      ensures Plus(c, x) == Plus(d, x) ==> c == d
    {
      XorCancels(c, d, x);
    }
  }

  lemma RegisterFeedsBack()
    ensures LeadAndShiftDetermine(REGISTER) && FeedbackShows(REGISTER)
  {
    forall c, d
      ensures Shift(c) == Shift(d) && Lead(c) == Lead(d) ==> c == d
      ensures Plus(Shift(c), 0xEDB88320) != Shift(d)
    {
      LeadAndShift(c, d);
      ConstantTerm(c, d);
    }
  }

  lemma RegisterIsLawful()
    ensures Lawful(REGISTER)
  {
    RegisterIsLinear();
    RegisterAdds();
    RegisterFeedsBack();
  }

  lemma XorAssociates(c: bv32, x: bv32, y: bv32)
    ensures (c ^ x) ^ y == c ^ (x ^ y)
  {
  }

  lemma XorTwice(c: bv32, x: bv32, y: bv32)
    ensures (c ^ y) ^ (x ^ y) == c ^ x
  {
  }

  lemma BitShifts(c: bv32, k: bv32)
    ensures c & (k << 1) != 0 ==> (c >> 1) & k != 0
  {
    assert (c & (k << 1)) >> 1 == (c >> 1) & ((k << 1) >> 1);
    assert ((k << 1) >> 1) | k == k;
  }

  lemma FeedbackSetsLast(c: bv32)
    ensures ((c >> 1) ^ 0xEDB88320) & 0x80000000 != 0
  {
  }

  function Towards(k: bv32): bv32 {
    k << 1
  }

  /** The bit that `j` shifts move to the lead. */
  function Place(j: nat): bv32 {
    Places(1, Towards, j)
  }

  predicate At(c: bv32, j: nat) {
    c & Place(j) != 0
  }

  lemma FourSteps(k: bv32)
    ensures Towards(Towards(Towards(Towards(k)))) == k << 4
  {
  }

  lemma LastPlace()
    ensures Place(31) == 0x80000000
  {
    FourPlaces(1 as bv32, Towards, 0);
    FourSteps(0x1);
    FourPlaces(1 as bv32, Towards, 4);
    FourSteps(0x10);
    FourPlaces(1 as bv32, Towards, 8);
    FourSteps(0x100);
    FourPlaces(1 as bv32, Towards, 12);
    FourSteps(0x1000);
    FourPlaces(1 as bv32, Towards, 16);
    FourSteps(0x10000);
    FourPlaces(1 as bv32, Towards, 20);
    FourSteps(0x100000);
    FourPlaces(1 as bv32, Towards, 24);
    FourSteps(0x1000000);
    assert Place(28) == 0x10000000;
    assert Place(31) == Towards(Towards(Towards(Place(28))));
  }

  lemma RegisterCancels()
    ensures Checksum.FeedbackCancels(REGISTER)
  {
    forall c, x {:trigger Plus(Plus(c, 0xEDB88320), Plus(x, 0xEDB88320))}
      ensures Plus(Plus(c, 0xEDB88320), Plus(x, 0xEDB88320)) == Plus(c, x)
    {
      XorTwice(c, x, 0xEDB88320);
    }
  }

  lemma RegisterAssociates()
    ensures FeedbackAssociates(REGISTER)
  {
    forall c, x {:trigger Plus(c, Plus(x, 0xEDB88320))}
      ensures Plus(Plus(c, x), 0xEDB88320) == Plus(c, Plus(x, 0xEDB88320))
    {
      XorAssociates(c, x, 0xEDB88320);
    }
  }

  lemma RegisterSpans()
    ensures Spans(REGISTER, WIDTH)
  {
    RegisterCancels();
    RegisterAssociates();
    forall c, j: nat
      ensures At(c, j + 1) ==> At(Shift(c), j)
    {
      BitShifts(c, Place(j));
    }
    forall c
      ensures At(Plus(Shift(c), 0xEDB88320), WIDTH - 1)
    {
      FeedbackSetsLast(c);
      LastPlace();
    }
    LastBitStays(REGISTER, At, WIDTH);
  }

  lemma RegisterLoads(bits: seq<bool>)
    requires |bits| == 8
    ensures Loads(REGISTER, bits)
  {
  }

  /** The register after the bytes of `data`, having started from `previous`. */
  function Crc(data: seq<byte>, previous: bv32): bv32 {
    Remainder(REGISTER, previous, data, false)
  }

  /** Every change of bits within a stretch of 32 bits changes the CRC. */
  lemma BurstIsDetected(s: seq<byte>, t: seq<byte>, x: seq<bool>, u: seq<bool>, v: seq<bool>, y: seq<bool>, previous: bv32)
    requires MessageBits(s, false) == x + u + y && MessageBits(t, false) == x + v + y
    requires |u| == |v| <= WIDTH && u != v
    ensures Crc(s, previous) != Crc(t, previous)
  {
    RegisterIsLawful();
    RegisterSpans();
    Checksum.BurstIsDetected(REGISTER, WIDTH, previous, x, u, v, y);
  }

  /** Changing up to four adjacent bytes of a message of any length always changes its CRC. */
  lemma ByteChangesAreDetected(x: seq<byte>, s: seq<byte>, t: seq<byte>, y: seq<byte>, previous: bv32)
    requires |s| == |t| <= 4 && s != t
    ensures Crc(x + s + y, previous) != Crc(x + t + y, previous)
  {
    RegisterIsLawful();
    RegisterSpans();
    Checksum.ByteChangesAreDetected(REGISTER, WIDTH, previous, x, s, t, y, false);
  }

  /** Adding a byte and stepping eight times feeds the byte bit by bit. */
  lemma ByteSteps(c: bv32, bits: seq<bool>)
    requires |bits| == 8
    ensures REGISTER.Steps(Plus(c, Load(bits)), |bits|) == REGISTER.Fold(c, bits)
  {
    RegisterIsLawful();
    RegisterLoads(bits);
    LoadedSteps(REGISTER, c, bits);
  }

  // -------- the table of pre-computed values, sixteen entries a row

  function Row0(i: bv8): bv32 {
    if i == 0 then 0x00000000 else if i == 1 then 0x77073096 else if i == 2 then 0xee0e612c else
    if i == 3 then 0x990951ba else if i == 4 then 0x076dc419 else if i == 5 then 0x706af48f else
    if i == 6 then 0xe963a535 else if i == 7 then 0x9e6495a3 else if i == 8 then 0x0edb8832 else
    if i == 9 then 0x79dcb8a4 else if i == 10 then 0xe0d5e91e else if i == 11 then 0x97d2d988 else
    if i == 12 then 0x09b64c2b else if i == 13 then 0x7eb17cbd else if i == 14 then 0xe7b82d07 else
    0x90bf1d91
  }

  function Row1(i: bv8): bv32 {
    if i == 0 then 0x1db71064 else if i == 1 then 0x6ab020f2 else if i == 2 then 0xf3b97148 else
    if i == 3 then 0x84be41de else if i == 4 then 0x1adad47d else if i == 5 then 0x6ddde4eb else
    if i == 6 then 0xf4d4b551 else if i == 7 then 0x83d385c7 else if i == 8 then 0x136c9856 else
    if i == 9 then 0x646ba8c0 else if i == 10 then 0xfd62f97a else if i == 11 then 0x8a65c9ec else
    if i == 12 then 0x14015c4f else if i == 13 then 0x63066cd9 else if i == 14 then 0xfa0f3d63 else
    0x8d080df5
  }

  function Row2(i: bv8): bv32 {
    if i == 0 then 0x3b6e20c8 else if i == 1 then 0x4c69105e else if i == 2 then 0xd56041e4 else
    if i == 3 then 0xa2677172 else if i == 4 then 0x3c03e4d1 else if i == 5 then 0x4b04d447 else
    if i == 6 then 0xd20d85fd else if i == 7 then 0xa50ab56b else if i == 8 then 0x35b5a8fa else
    if i == 9 then 0x42b2986c else if i == 10 then 0xdbbbc9d6 else if i == 11 then 0xacbcf940 else
    if i == 12 then 0x32d86ce3 else if i == 13 then 0x45df5c75 else if i == 14 then 0xdcd60dcf else
    0xabd13d59
  }

  function Row3(i: bv8): bv32 {
    if i == 0 then 0x26d930ac else if i == 1 then 0x51de003a else if i == 2 then 0xc8d75180 else
    if i == 3 then 0xbfd06116 else if i == 4 then 0x21b4f4b5 else if i == 5 then 0x56b3c423 else
    if i == 6 then 0xcfba9599 else if i == 7 then 0xb8bda50f else if i == 8 then 0x2802b89e else
    if i == 9 then 0x5f058808 else if i == 10 then 0xc60cd9b2 else if i == 11 then 0xb10be924 else
    if i == 12 then 0x2f6f7c87 else if i == 13 then 0x58684c11 else if i == 14 then 0xc1611dab else
    0xb6662d3d
  }

  function Row4(i: bv8): bv32 {
    if i == 0 then 0x76dc4190 else if i == 1 then 0x01db7106 else if i == 2 then 0x98d220bc else
    if i == 3 then 0xefd5102a else if i == 4 then 0x71b18589 else if i == 5 then 0x06b6b51f else
    if i == 6 then 0x9fbfe4a5 else if i == 7 then 0xe8b8d433 else if i == 8 then 0x7807c9a2 else
    if i == 9 then 0x0f00f934 else if i == 10 then 0x9609a88e else if i == 11 then 0xe10e9818 else
    if i == 12 then 0x7f6a0dbb else if i == 13 then 0x086d3d2d else if i == 14 then 0x91646c97 else
    0xe6635c01
  }

  function Row5(i: bv8): bv32 {
    if i == 0 then 0x6b6b51f4 else if i == 1 then 0x1c6c6162 else if i == 2 then 0x856530d8 else
    if i == 3 then 0xf262004e else if i == 4 then 0x6c0695ed else if i == 5 then 0x1b01a57b else
    if i == 6 then 0x8208f4c1 else if i == 7 then 0xf50fc457 else if i == 8 then 0x65b0d9c6 else
    if i == 9 then 0x12b7e950 else if i == 10 then 0x8bbeb8ea else if i == 11 then 0xfcb9887c else
    if i == 12 then 0x62dd1ddf else if i == 13 then 0x15da2d49 else if i == 14 then 0x8cd37cf3 else
    0xfbd44c65
  }

  function Row6(i: bv8): bv32 {
    if i == 0 then 0x4db26158 else if i == 1 then 0x3ab551ce else if i == 2 then 0xa3bc0074 else
    if i == 3 then 0xd4bb30e2 else if i == 4 then 0x4adfa541 else if i == 5 then 0x3dd895d7 else
    if i == 6 then 0xa4d1c46d else if i == 7 then 0xd3d6f4fb else if i == 8 then 0x4369e96a else
    if i == 9 then 0x346ed9fc else if i == 10 then 0xad678846 else if i == 11 then 0xda60b8d0 else
    if i == 12 then 0x44042d73 else if i == 13 then 0x33031de5 else if i == 14 then 0xaa0a4c5f else
    0xdd0d7cc9
  }

  function Row7(i: bv8): bv32 {
    if i == 0 then 0x5005713c else if i == 1 then 0x270241aa else if i == 2 then 0xbe0b1010 else
    if i == 3 then 0xc90c2086 else if i == 4 then 0x5768b525 else if i == 5 then 0x206f85b3 else
    if i == 6 then 0xb966d409 else if i == 7 then 0xce61e49f else if i == 8 then 0x5edef90e else
    if i == 9 then 0x29d9c998 else if i == 10 then 0xb0d09822 else if i == 11 then 0xc7d7a8b4 else
    if i == 12 then 0x59b33d17 else if i == 13 then 0x2eb40d81 else if i == 14 then 0xb7bd5c3b else
    0xc0ba6cad
  }

  function Row8(i: bv8): bv32 {
    if i == 0 then 0xedb88320 else if i == 1 then 0x9abfb3b6 else if i == 2 then 0x03b6e20c else
    if i == 3 then 0x74b1d29a else if i == 4 then 0xead54739 else if i == 5 then 0x9dd277af else
    if i == 6 then 0x04db2615 else if i == 7 then 0x73dc1683 else if i == 8 then 0xe3630b12 else
    if i == 9 then 0x94643b84 else if i == 10 then 0x0d6d6a3e else if i == 11 then 0x7a6a5aa8 else
    if i == 12 then 0xe40ecf0b else if i == 13 then 0x9309ff9d else if i == 14 then 0x0a00ae27 else
    0x7d079eb1
  }

  function Row9(i: bv8): bv32 {
    if i == 0 then 0xf00f9344 else if i == 1 then 0x8708a3d2 else if i == 2 then 0x1e01f268 else
    if i == 3 then 0x6906c2fe else if i == 4 then 0xf762575d else if i == 5 then 0x806567cb else
    if i == 6 then 0x196c3671 else if i == 7 then 0x6e6b06e7 else if i == 8 then 0xfed41b76 else
    if i == 9 then 0x89d32be0 else if i == 10 then 0x10da7a5a else if i == 11 then 0x67dd4acc else
    if i == 12 then 0xf9b9df6f else if i == 13 then 0x8ebeeff9 else if i == 14 then 0x17b7be43 else
    0x60b08ed5
  }

  function RowA(i: bv8): bv32 {
    if i == 0 then 0xd6d6a3e8 else if i == 1 then 0xa1d1937e else if i == 2 then 0x38d8c2c4 else
    if i == 3 then 0x4fdff252 else if i == 4 then 0xd1bb67f1 else if i == 5 then 0xa6bc5767 else
    if i == 6 then 0x3fb506dd else if i == 7 then 0x48b2364b else if i == 8 then 0xd80d2bda else
    if i == 9 then 0xaf0a1b4c else if i == 10 then 0x36034af6 else if i == 11 then 0x41047a60 else
    if i == 12 then 0xdf60efc3 else if i == 13 then 0xa867df55 else if i == 14 then 0x316e8eef else
    0x4669be79
  }

  function RowB(i: bv8): bv32 {
    if i == 0 then 0xcb61b38c else if i == 1 then 0xbc66831a else if i == 2 then 0x256fd2a0 else
    if i == 3 then 0x5268e236 else if i == 4 then 0xcc0c7795 else if i == 5 then 0xbb0b4703 else
    if i == 6 then 0x220216b9 else if i == 7 then 0x5505262f else if i == 8 then 0xc5ba3bbe else
    if i == 9 then 0xb2bd0b28 else if i == 10 then 0x2bb45a92 else if i == 11 then 0x5cb36a04 else
    if i == 12 then 0xc2d7ffa7 else if i == 13 then 0xb5d0cf31 else if i == 14 then 0x2cd99e8b else
    0x5bdeae1d
  }

  function RowC(i: bv8): bv32 {
    if i == 0 then 0x9b64c2b0 else if i == 1 then 0xec63f226 else if i == 2 then 0x756aa39c else
    if i == 3 then 0x026d930a else if i == 4 then 0x9c0906a9 else if i == 5 then 0xeb0e363f else
    if i == 6 then 0x72076785 else if i == 7 then 0x05005713 else if i == 8 then 0x95bf4a82 else
    if i == 9 then 0xe2b87a14 else if i == 10 then 0x7bb12bae else if i == 11 then 0x0cb61b38 else
    if i == 12 then 0x92d28e9b else if i == 13 then 0xe5d5be0d else if i == 14 then 0x7cdcefb7 else
    0x0bdbdf21
  }

  function RowD(i: bv8): bv32 {
    if i == 0 then 0x86d3d2d4 else if i == 1 then 0xf1d4e242 else if i == 2 then 0x68ddb3f8 else
    if i == 3 then 0x1fda836e else if i == 4 then 0x81be16cd else if i == 5 then 0xf6b9265b else
    if i == 6 then 0x6fb077e1 else if i == 7 then 0x18b74777 else if i == 8 then 0x88085ae6 else
    if i == 9 then 0xff0f6a70 else if i == 10 then 0x66063bca else if i == 11 then 0x11010b5c else
    if i == 12 then 0x8f659eff else if i == 13 then 0xf862ae69 else if i == 14 then 0x616bffd3 else
    0x166ccf45
  }

  function RowE(i: bv8): bv32 {
    if i == 0 then 0xa00ae278 else if i == 1 then 0xd70dd2ee else if i == 2 then 0x4e048354 else
    if i == 3 then 0x3903b3c2 else if i == 4 then 0xa7672661 else if i == 5 then 0xd06016f7 else
    if i == 6 then 0x4969474d else if i == 7 then 0x3e6e77db else if i == 8 then 0xaed16a4a else
    if i == 9 then 0xd9d65adc else if i == 10 then 0x40df0b66 else if i == 11 then 0x37d83bf0 else
    if i == 12 then 0xa9bcae53 else if i == 13 then 0xdebb9ec5 else if i == 14 then 0x47b2cf7f else
    0x30b5ffe9
  }

  function RowF(i: bv8): bv32 {
    if i == 0 then 0xbdbdf21c else if i == 1 then 0xcabac28a else if i == 2 then 0x53b39330 else
    if i == 3 then 0x24b4a3a6 else if i == 4 then 0xbad03605 else if i == 5 then 0xcdd70693 else
    if i == 6 then 0x54de5729 else if i == 7 then 0x23d967bf else if i == 8 then 0xb3667a2e else
    if i == 9 then 0xc4614ab8 else if i == 10 then 0x5d681b02 else if i == 11 then 0x2a6f2b94 else
    if i == 12 then 0xb40bbe37 else if i == 13 then 0xc30c8ea1 else if i == 14 then 0x5a05df1b else
    0x2d02ef8d
  }

  function Table(i: bv8): bv32 {
    var h, l := i >> 4, i & 0x0F;
    if h == 0 then Row0(l)
    else if h == 1 then Row1(l)
    else if h == 2 then Row2(l)
    else if h == 3 then Row3(l)
    else if h == 4 then Row4(l)
    else if h == 5 then Row5(l)
    else if h == 6 then Row6(l)
    else if h == 7 then Row7(l)
    else if h == 8 then Row8(l)
    else if h == 9 then Row9(l)
    else if h == 10 then RowA(l)
    else if h == 11 then RowB(l)
    else if h == 12 then RowC(l)
    else if h == 13 then RowD(l)
    else if h == 14 then RowE(l)
    else RowF(l)
  }

  lemma SixteenCases(i: bv8)
    requires i < 16
    ensures i == 0 || i == 1 || i == 2 || i == 3 || i == 4 || i == 5 || i == 6 || i == 7
         || i == 8 || i == 9 || i == 10 || i == 11 || i == 12 || i == 13 || i == 14 || i == 15
  {
  }

  lemma Row0Steps(i: bv8)
    requires i < 16
    ensures Row0(i) == REGISTER.Steps(((0x00 | i) as bv32), 8)
  {
    SixteenCases(i);
  }

  lemma Row1Steps(i: bv8)
    requires i < 16
    ensures Row1(i) == REGISTER.Steps(((0x10 | i) as bv32), 8)
  {
    SixteenCases(i);
  }

  lemma Row2Steps(i: bv8)
    requires i < 16
    ensures Row2(i) == REGISTER.Steps(((0x20 | i) as bv32), 8)
  {
    SixteenCases(i);
  }

  lemma Row3Steps(i: bv8)
    requires i < 16
    ensures Row3(i) == REGISTER.Steps(((0x30 | i) as bv32), 8)
  {
    SixteenCases(i);
  }

  lemma Row4Steps(i: bv8)
    requires i < 16
    ensures Row4(i) == REGISTER.Steps(((0x40 | i) as bv32), 8)
  {
    SixteenCases(i);
  }

  lemma Row5Steps(i: bv8)
    requires i < 16
    ensures Row5(i) == REGISTER.Steps(((0x50 | i) as bv32), 8)
  {
    SixteenCases(i);
  }

  lemma Row6Steps(i: bv8)
    requires i < 16
    ensures Row6(i) == REGISTER.Steps(((0x60 | i) as bv32), 8)
  {
    SixteenCases(i);
  }

  lemma Row7Steps(i: bv8)
    requires i < 16
    ensures Row7(i) == REGISTER.Steps(((0x70 | i) as bv32), 8)
  {
    SixteenCases(i);
  }

  lemma Row8Steps(i: bv8)
    requires i < 16
    ensures Row8(i) == REGISTER.Steps(((0x80 | i) as bv32), 8)
  {
    SixteenCases(i);
  }

  lemma Row9Steps(i: bv8)
    requires i < 16
    ensures Row9(i) == REGISTER.Steps(((0x90 | i) as bv32), 8)
  {
    SixteenCases(i);
  }

  lemma RowASteps(i: bv8)
    requires i < 16
    ensures RowA(i) == REGISTER.Steps(((0xA0 | i) as bv32), 8)
  {
    SixteenCases(i);
  }

  lemma RowBSteps(i: bv8)
    requires i < 16
    ensures RowB(i) == REGISTER.Steps(((0xB0 | i) as bv32), 8)
  {
    SixteenCases(i);
  }

  lemma RowCSteps(i: bv8)
    requires i < 16
    ensures RowC(i) == REGISTER.Steps(((0xC0 | i) as bv32), 8)
  {
    SixteenCases(i);
  }

  lemma RowDSteps(i: bv8)
    requires i < 16
    ensures RowD(i) == REGISTER.Steps(((0xD0 | i) as bv32), 8)
  {
    SixteenCases(i);
  }

  lemma RowESteps(i: bv8)
    requires i < 16
    ensures RowE(i) == REGISTER.Steps(((0xE0 | i) as bv32), 8)
  {
    SixteenCases(i);
  }

  lemma RowFSteps(i: bv8)
    requires i < 16
    ensures RowF(i) == REGISTER.Steps(((0xF0 | i) as bv32), 8)
  {
    SixteenCases(i);
  }

  lemma RowIndex(i: bv8)
    ensures i & 0x0F < 16 && i >> 4 < 16 && ((i >> 4) << 4) | (i & 0x0F) == i
  {
  }

  /** Every table entry is its index stepped eight times. */
  lemma TableSteps(i: bv8)
    ensures Table(i) == REGISTER.Steps(i as bv32, 8)
  {
    var h, l := i >> 4, i & 0x0F;
    RowIndex(i);
    SixteenCases(h);
    if h < 4 {
      if h == 0 { Row0Steps(l); } else if h == 1 { Row1Steps(l); } else if h == 2 { Row2Steps(l); } else { Row3Steps(l); }
    } else if h < 8 {
      if h == 4 { Row4Steps(l); } else if h == 5 { Row5Steps(l); } else if h == 6 { Row6Steps(l); } else { Row7Steps(l); }
    } else if h < 12 {
      if h == 8 { Row8Steps(l); } else if h == 9 { Row9Steps(l); } else if h == 10 { RowASteps(l); } else { RowBSteps(l); }
    } else {
      if h == 12 { RowCSteps(l); } else if h == 13 { RowDSteps(l); } else if h == 14 { RowESteps(l); } else { RowFSteps(l); }
    }
  }

  const EIGHT_ZEROS: seq<bool> := [false, false, false, false, false, false, false, false]

  lemma HighPart(c: bv32)
    ensures c == Plus(c & 0xFF, c & 0xFFFFFF00)
    ensures var high := c & 0xFFFFFF00;
            REGISTER.Shifts(high, 8) == c >> 8 && forall i :: 0 <= i < 8 ==> !Lead(REGISTER.Shifts(high, i))
  {
  }

  /** Feeding eight zero bits is stepping eight times. */
  lemma ZerosAreSteps(c: bv32)
    ensures REGISTER.Steps(c, |EIGHT_ZEROS|) == REGISTER.Fold(c, EIGHT_ZEROS)
  {
    RegisterIsLawful();
    Checksum.ZerosAreSteps(REGISTER, c, EIGHT_ZEROS);
  }

  lemma ZerosBelow(c: bv32)
    ensures REGISTER.Steps(c, |EIGHT_ZEROS|) == Plus(REGISTER.Fold(c & 0xFF, EIGHT_ZEROS), c >> 8)
  {
    RegisterIsLawful();
    HighPart(c);
    StepsAreFeeds(REGISTER, c & 0xFF, c & 0xFFFFFF00, EIGHT_ZEROS);
  }

  method Lookup(i: bv8) returns (entry: bv32)
    ensures entry == REGISTER.Fold(i as bv32, EIGHT_ZEROS)
  {
    TableSteps(i);
    ZerosAreSteps(i as bv32);
    entry := Table(i);
  }

  lemma ZerosSplit(c: bv32)
    ensures REGISTER.Fold(c, EIGHT_ZEROS) == Plus(REGISTER.Fold(c & 0xFF, EIGHT_ZEROS), c >> 8)
  {
    ZerosAreSteps(c);
    ZerosBelow(c);
  }

  /** One table lookup feeds eight zero bits. */
  lemma LookupFeeds(c: bv32, low: bv32, entry: bv32)
    requires low == c & 0xFF && entry == REGISTER.Fold(low, EIGHT_ZEROS)
    ensures Plus(entry, c >> 8) == REGISTER.Fold(c, EIGHT_ZEROS)
  {
    ZerosSplit(c);
  }

  /** Adding a byte and then feeding eight zero bits feeds the byte. */
  lemma ByteThenZeros(c: bv32, bits: seq<bool>)
    requires |bits| == 8
    ensures REGISTER.Fold(Plus(c, Load(bits)), EIGHT_ZEROS) == REGISTER.Fold(c, bits)
  {
    ByteSteps(c, bits);
    ZerosAreSteps(Plus(c, Load(bits)));
  }

  lemma LowByte(c: bv32)
    ensures ((c & 0xFF) as bv8) as bv32 == c & 0xFF
  {
  }

  method LookupRound(c: bv32) returns (crc: bv32)
    ensures crc == REGISTER.Fold(c, EIGHT_ZEROS)
  {
    LowByte(c);
    var low := (c & 0xFF) as bv8;
    var entry := Lookup(low);
    LookupFeeds(c, low as bv32, entry);
    crc := entry ^ (c >> 8);
  }

  lemma ByteInWord(x: byte)
    ensures (x as bv8) as bv32 == x as bv32
  {
  }

  lemma LoadIsByte(x: byte)
    ensures Load(ByteBits(x, false)) == x as bv32
  {
    var bits := ByteBits(x, false);
    assert seq(8, i requires 0 <= i < 8 => bits[7 - i]) == ToBits(x, 8);
    PatternOfByte(x);
    ByteInWord(x);
  }

  method AddByte(crc0: bv32, x: byte) returns (crc: bv32)
    ensures crc == REGISTER.Fold(crc0, ByteBits(x, false))
  {
    LoadIsByte(x);
    ByteThenZeros(crc0, ByteBits(x, false));
    crc := LookupRound(crc0 ^ (x as bv32));
  }

  // -------- the same in words, without bits

  /** `n` steps of the register. */
  function Stepped(c: bv32, n: nat): bv32
    decreases n
  {
    if n == 0 then c else Stepped(if c & 1 != 0 then (c >> 1) ^ 0xEDB88320 else c >> 1, n - 1)
  }

  /** A byte is added to the register, and eight steps follow. */
  predicate Takes(c: bv32, x: byte, next: bv32) {
    next == Stepped(c ^ (x as bv32), 8)
  }

  lemma {:induction false} StepsWritten(c: bv32, n: nat)
    ensures REGISTER.Steps(c, n) == Stepped(c, n)
    decreases n
  {
    if n > 0 {
      StepsWritten(REGISTER.Step(c), n - 1);
    }
  }

  /** The bits of a message taken in one by one are its bytes taken in one by one. */
  lemma CrcOfAppended(data: seq<byte>, x: byte, previous: bv32)
    ensures Takes(Crc(data, previous), x, Crc(data + [x], previous))
  {
    var c, bits := Crc(data, previous), ByteBits(x, false);
    CrcByte(REGISTER, previous, data, x, false);
    LoadIsByte(x);
    ByteSteps(c, bits);
    StepsWritten(Plus(c, Load(bits)), |bits|);
  }

  /** The first entry of the table that is not 0 is what the byte 1 makes of an empty register. */
  lemma KnownAnswer()
    ensures Table(1) == 0x77073096 && Crc([1], 0) == 0x77073096
  {
    CrcOfAppended([], 1, 0);
    assert [] + [1 as byte] == [1];
  }

  method Crc32Hash(crc0: bv32, buf: seq<byte>) returns (crc: bv32)
    ensures crc == Crc(buf, crc0)
  {
    crc := crc0;
    var p, size := 0, |buf|;
    while size > 0
      invariant 0 <= p == |buf| - size <= |buf|
      invariant crc == Crc(buf[..p], crc0)
    {
      CrcByte(REGISTER, crc0, buf[..p], buf[p], false);
      crc := AddByte(crc, buf[p]);
      assert buf[..p + 1] == buf[..p] + [buf[p]];
      p, size := p + 1, size - 1;
    }
    assert buf[..p] == buf;
  }

  const CRC32_INITIAL: bv32 := 0xFFFFFFFF

  /** The bytes of a value of `size` bytes as they lie in memory. */
  function LittleEndian(val: nat, size: nat): (bytes: seq<byte>)
    ensures |bytes| == size
  {
    if size == 0 then [] else [val % 256] + LittleEndian(val / 256, size - 1)
  }

  /** A running CRC: the register always stands for all bytes hashed since `Init`, in whatever
      chunks they came. */
  class Context {
    var crc: bv32
    ghost var hashed: seq<byte>

    ghost predicate Valid()
      reads this
    {
      crc == Crc(hashed, CRC32_INITIAL)
    }

    constructor ()
      ensures Valid() && hashed == []
    {
      crc, hashed := CRC32_INITIAL, [];
    }

    method Init()
      modifies this
      ensures Valid() && hashed == []
    {
      crc, hashed := CRC32_INITIAL, [];
    }

    method Hash(buf: seq<byte>)
      requires Valid()
      modifies this
      ensures Valid() && hashed == old(hashed) + buf
    {
      CrcConcat(REGISTER, CRC32_INITIAL, hashed, buf, false);
      crc := Crc32Hash(crc, buf);
      hashed := hashed + buf;
    }

    method HashValue(val: nat, size: nat)
      requires Valid()
      modifies this
      ensures Valid() && hashed == old(hashed) + LittleEndian(val, size)
    {
      Hash(LittleEndian(val, size));
    }

    method Result() returns (r: bv32)
      requires Valid()
      ensures r == Crc(hashed, CRC32_INITIAL) ^ 0xFFFFFFFF
    {
      r := crc ^ 0xFFFFFFFF;
    }
  }
}
