/** The numbering of flash banks in a chip with regions of different bank sizes
    (common/flash.c:141-231). */
module FlashBanks {
  import opened Arithmetic

  /** `count` banks of 2 to the power of `sizeExp` bytes each. */
  datatype Region = Region(count: nat, sizeExp: nat)

  const NONE := -1

  function BankSizeOf(r: Region): (size: nat)
    ensures size > 0
  {
    Pow2(r.sizeExp)
  }

  function Total(regions: seq<Region>): nat {
    if regions == [] then 0 else regions[0].count + Total(regions[1..])
  }

  // -------- where banks start: the reference

  /** The region of a bank. */
  function RegionOf(regions: seq<Region>, bank: nat): nat
    requires bank < Total(regions)
    ensures RegionOf(regions, bank) < |regions|
  {
    if bank < regions[0].count then 0 else 1 + RegionOf(regions[1..], bank - regions[0].count)
  }

  /** The sizes of all banks in front of a bank together. */
  function Start(regions: seq<Region>, bank: nat): nat
    requires bank <= Total(regions)
  {
    if bank == 0 then 0
    else Start(regions, bank - 1) + BankSizeOf(regions[RegionOf(regions, bank - 1)])
  }

  lemma {:induction false} StartInFirst(regions: seq<Region>, bank: nat)
    requires regions != [] && bank <= regions[0].count
    ensures Start(regions, bank) == bank * BankSizeOf(regions[0])
  {
    if bank > 0 {
      StartInFirst(regions, bank - 1);
    }
  }

  lemma {:induction false} StartBehindFirst(regions: seq<Region>, bank: nat)
    requires regions != [] && regions[0].count <= bank <= Total(regions)
    ensures Start(regions, bank)
         == regions[0].count * BankSizeOf(regions[0]) + Start(regions[1..], bank - regions[0].count)
    decreases bank
  {
    if bank == regions[0].count {
      StartInFirst(regions, bank);
    } else {
      StartBehindFirst(regions, bank - 1);
    }
  }

  lemma {:induction false} StartGrows(regions: seq<Region>, a: nat, b: nat)
    requires a <= b <= Total(regions)
    ensures Start(regions, a) + (b - a) <= Start(regions, b)
  {
    if a < b {
      StartGrows(regions, a, b - 1);
    }
  }

  lemma StartOrder(regions: seq<Region>, a: nat, b: nat)
    requires a <= Total(regions) && b <= Total(regions) && Start(regions, a) <= Start(regions, b)
    ensures a <= b
  {
    if b < a {
      StartGrows(regions, b, a);
    }
  }

  /** Four banks of 16 KiB, one of 64 KiB and seven of 128 KiB. */
  lemma KnownStarts()
    ensures var regions := [Region(4, 14), Region(1, 16), Region(7, 17)];
            Total(regions) == 12 && Start(regions, 4) == 0x10000 && Start(regions, 5) == 0x20000 && Start(regions, 6) == 0x40000
  {
    var regions := [Region(4, 14), Region(1, 16), Region(7, 17)];
    assert Pow2(14) == 0x4000 && Pow2(16) == 0x10000 && Pow2(17) == 0x20000;
    assert regions[1..] == [Region(1, 16), Region(7, 17)] && regions[1..][1..] == [Region(7, 17)];
    StartInFirst(regions, 4);
    assert RegionOf(regions, 4) == 1 && RegionOf(regions, 5) == 2;
  }

  // -------- the search for the bank of an offset

  /** What `crec_flash_bank_index` computes from a region on. */
  function Index(regions: seq<Region>, offset: int): int {
    if regions == [] then (if offset == 0 then 0 else NONE)
    else
      var size := BankSizeOf(regions[0]);
      var all := regions[0].count * size;
      if offset >= all then
        var rest := Index(regions[1..], offset - all);
        if rest == NONE then NONE else regions[0].count + rest
      else if offset % size != 0 then NONE
      else offset / size
  }

  lemma IndexAtZero(regions: seq<Region>)
    ensures Index(regions, 0) == 0
  {
    if regions != [] && regions[0].count == 0 {
      IndexAtZero(regions[1..]);
    }
  }

  lemma {:induction false} IndexIsNat(regions: seq<Region>, offset: nat)
    ensures Index(regions, offset) >= 0 || Index(regions, offset) == NONE
  {
    if regions != [] && offset >= regions[0].count * BankSizeOf(regions[0]) {
      IndexIsNat(regions[1..], offset - regions[0].count * BankSizeOf(regions[0]));
    }
  }

  lemma Below(q: nat, count: nat, size: nat)
    requires q * size < count * size
    ensures q < count
  {
    if q >= count {
      TimesMonotone(count, q, size);
    }
  }

  lemma IndexOfMultiple(regions: seq<Region>, bank: nat)
    requires regions != [] && bank < regions[0].count
    ensures Index(regions, bank * BankSizeOf(regions[0])) == bank
  {
    var size := BankSizeOf(regions[0]);
    TimesMonotone(bank + 1, regions[0].count, size);
    Multiple(bank, size);
  }

  /** The offset at which a bank starts has the index of this bank, up to the end of the flash. */
  lemma {:induction false} IndexOfStart(regions: seq<Region>, bank: nat)
    requires bank <= Total(regions)
    ensures Index(regions, Start(regions, bank)) == bank
  {
    if regions != [] {
      if bank < regions[0].count {
        StartInFirst(regions, bank);
        IndexOfMultiple(regions, bank);
      } else {
        StartBehindFirst(regions, bank);
        IndexOfStart(regions[1..], bank - regions[0].count);
      }
    }
  }

  lemma Quotient(n: nat, size: nat) returns (q: nat)
    requires size > 0 && n % size == 0
    ensures q == n / size && n == q * size
  {
    q := n / size;
  }

  lemma StartOfFirst(regions: seq<Region>, offset: nat)
    requires regions != [] && offset % BankSizeOf(regions[0]) == 0
    requires offset < regions[0].count * BankSizeOf(regions[0])
    ensures offset / BankSizeOf(regions[0]) < regions[0].count
    ensures Start(regions, offset / BankSizeOf(regions[0])) == offset
  {
    var q := Quotient(offset, BankSizeOf(regions[0]));
    Below(q, regions[0].count, BankSizeOf(regions[0]));
    StartInFirst(regions, q);
  }

  /** And an offset that has an index is where that bank starts. */
  lemma {:induction false} StartOfIndex(regions: seq<Region>, offset: nat)
    requires Index(regions, offset) != NONE
    ensures 0 <= Index(regions, offset) <= Total(regions)
    ensures Start(regions, Index(regions, offset)) == offset
  {
    if regions != [] {
      var size, count := BankSizeOf(regions[0]), regions[0].count;
      if offset >= count * size {
        StartOfIndex(regions[1..], offset - count * size);
        StartBehindFirst(regions, Index(regions, offset));
      } else {
        StartOfFirst(regions, offset);
      }
    }
  }

  /** Every other offset that is not negative has none. */
  lemma NoIndexExactly(regions: seq<Region>, offset: nat)
    ensures Index(regions, offset) == NONE <==> forall bank: nat :: bank <= Total(regions) ==> Start(regions, bank) != offset
  {
    if Index(regions, offset) != NONE {
      StartOfIndex(regions, offset);
    } else {
      forall bank: nat | bank <= Total(regions)
        ensures Start(regions, bank) != offset
      {
        IndexOfStart(regions, bank);
      }
    }
  }

  /** A negative offset is refused with -1 unless it is a multiple of the first bank size below
      minus one bank: then the result is negative but not the error code. */
  lemma NegativeOffsets(regions: seq<Region>, offset: int)
    requires offset < 0 && regions != []
    ensures var size := BankSizeOf(regions[0]);
            Index(regions, offset) == NONE <==> offset % size != 0 || offset + size == 0
    ensures Index(regions, offset) < 0
  {
    var size := BankSizeOf(regions[0]);
    var q := offset / size;
    assert offset == q * size + offset % size;
    assert regions[0].count * size >= 0;
    if q >= 0 {
      TimesMonotone(0, q, size);
    }
  }

  lemma MinusTwoBanks()
    ensures Index([Region(4, 1)], -4) == -2
  {
    assert Pow2(1) == 2;
  }

  /** The number of banks in a range of the flash, or -1. */
  function BankCount(regions: seq<Region>, offset: int, size: int): int {
    var begin, end := Index(regions, offset), Index(regions, offset + size);
    if begin == NONE || end == NONE then NONE else end - begin
  }

  /** Adjacent ranges have the banks of the range they make up together. */
  lemma BankCountAdds(regions: seq<Region>, offset: nat, a: nat, b: nat)
    requires BankCount(regions, offset, a) != NONE && BankCount(regions, offset + a, b) != NONE
    ensures BankCount(regions, offset, a + b) == BankCount(regions, offset, a) + BankCount(regions, offset + a, b)
    ensures BankCount(regions, offset, a) >= 0
  {
    StartOfIndex(regions, offset);
    StartOfIndex(regions, offset + a);
    StartOrder(regions, Index(regions, offset), Index(regions, offset + a));
  }

  /** Between the starts of two banks lie as many as their numbers differ by, and nowhere else is there a number. */
  lemma BankCountIs(regions: seq<Region>, begin: nat, end: nat)
    requires begin <= end <= Total(regions)
    ensures BankCount(regions, Start(regions, begin), Start(regions, end) - Start(regions, begin)) == end - begin
  {
    IndexOfStart(regions, begin);
    IndexOfStart(regions, end);
  }

  lemma NoBankCount(regions: seq<Region>, offset: nat, size: nat)
    requires (forall bank: nat :: bank <= Total(regions) ==> Start(regions, bank) != offset)
             || forall bank: nat :: bank <= Total(regions) ==> Start(regions, bank) != offset + size
    ensures BankCount(regions, offset, size) == -1
  {
    NoIndexExactly(regions, offset);
    NoIndexExactly(regions, offset + size);
  }

  // -------- the loops

  /** The region of a bank; a negative number counts as one of the first region. */
  method FlashBankInfo(regions: seq<Region>, bank: int) returns (region: int)
    ensures bank >= 0 ==> region == if bank < Total(regions) then RegionOf(regions, bank) else NONE
    ensures bank < 0 ==> region == if regions == [] then NONE else 0
  {
    var left := bank;
    for i := 0 to |regions|
      invariant if bank < 0 then i == 0 && left == bank
                else left + Total(regions) - Total(regions[i..]) == bank && left >= 0
      invariant 0 <= bank < Total(regions) ==> left < Total(regions[i..]) && RegionOf(regions, bank) == i + RegionOf(regions[i..], left)
    {
      assert regions[i..][1..] == regions[i + 1..];
      if left < regions[i].count {
        return i;
      }
      left := left - regions[i].count;
    }
    region := NONE;
  }

  method FlashBankIndex(regions: seq<Region>, offset: int) returns (bank: int)
    ensures bank == Index(regions, offset)
  {
    var left, bankOffset := offset, 0;
    if left == 0 {
      IndexAtZero(regions);
      return 0;
    }
    for i := 0 to |regions|
      invariant bankOffset >= 0 && if i > 0 then left >= 0 else bankOffset == 0
      invariant Index(regions, offset) == if Index(regions[i..], left) == NONE then NONE else bankOffset + Index(regions[i..], left)
    {
      assert regions[i..][1..] == regions[i + 1..];
      var all := regions[i].count * BankSizeOf(regions[i]);
      if left >= all {
        if left - all >= 0 {
          IndexIsNat(regions[i + 1..], left - all);
        }
        left := left - all;
        bankOffset := bankOffset + regions[i].count;
        continue;
      }
      if left % BankSizeOf(regions[i]) != 0 {
        return NONE;
      }
      return bankOffset + left / BankSizeOf(regions[i]);
    }
    if left != 0 {
      return NONE;
    }
    bank := bankOffset;
  }

  method FlashBankStartOffset(regions: seq<Region>, bank: int) returns (offset: int)
    ensures offset == if 0 <= bank <= Total(regions) then Start(regions, bank) else NONE
  {
    if bank < 0 {
      return NONE;
    }
    offset := 0;
    for i := 0 to bank
      invariant i <= Total(regions) && offset == Start(regions, i)
    {
      var region := FlashBankInfo(regions, i);
      if region == NONE {
        return NONE;
      }
      offset := offset + BankSizeOf(regions[region]);
    }
  }

  method FlashBankCount(regions: seq<Region>, offset: int, size: int) returns (banks: int)
    ensures banks == BankCount(regions, offset, size)
  {
    var begin := FlashBankIndex(regions, offset);
    var end := FlashBankIndex(regions, offset + size);
    if begin == NONE || end == NONE {
      return NONE;
    }
    banks := end - begin;
  }
}
