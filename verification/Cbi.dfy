/** The Cros Board Info store of common/cbi.c, kept in an EEPROM by common/cbi_eeprom.c. */
module Cbi {
  import opened Arithmetic
  import opened Memory
  import opened CbiFormat
  import opened Options
  import Crc8

  datatype EcError = Success | Unknown | Inval | Overflow | AccessDenied | Hardware

  const MAGIC: seq<byte> := [0x43, 0x42, 0x49]
  const VERSION_MAJOR: byte := 0
  const VERSION_MINOR: byte := 0

  // Header layout: magic 0..2, crc 3, minor version 4, major version 5, total size 6..7.

  function TotalSize(image: seq<byte>): (n: nat)
    requires |image| >= HEADER_SIZE
    ensures n < 0x1_0000
  {
    var low: int, high: int := image[6], image[7];
    low + 256 * high
  }

  function WithTotalSize(image: seq<byte>, n: nat): (r: seq<byte>)
    requires |image| >= HEADER_SIZE && n < 0x1_0000
    ensures |r| == |image| && TotalSize(r) == n
  {
    image[6 := n % 256][7 := n / 256]
  }

  lemma SameTotalSize(image: seq<byte>)
    requires |image| >= HEADER_SIZE
    ensures WithTotalSize(image, TotalSize(image)) == image
  {
    var low: int, high: int := image[6], image[7];
    assert TotalSize(image) % 256 == low && TotalSize(image) / 256 == high;
  }

  /** The image consists of whole records. */
  predicate HoldsRecords(image: seq<byte>) {
    && HEADER_SIZE <= |image|
    && HEADER_SIZE <= TotalSize(image) <= |image|
    && Parse(image[HEADER_SIZE..TotalSize(image)]).Some?
  }

  function Records(image: seq<byte>): (items: seq<Item>)
    requires HoldsRecords(image)
    ensures ValidItems(items)
  {
    Parse(image[HEADER_SIZE..TotalSize(image)]).value
  }

  lemma PackedRecords(image: seq<byte>, items: seq<Item>)
    requires HEADER_SIZE <= |image| && HEADER_SIZE <= TotalSize(image) <= |image| && ValidItems(items)
    requires image[HEADER_SIZE..TotalSize(image)] == Pack(items)
    ensures HoldsRecords(image) && Records(image) == items
  {
    ParsePack(items);
  }

  lemma RecordsPacked(image: seq<byte>)
    requires HoldsRecords(image)
    ensures Pack(Records(image)) == image[HEADER_SIZE..TotalSize(image)]
  {
    PackParse(image[HEADER_SIZE..TotalSize(image)]);
  }

  lemma SplitInThree(s: seq<byte>, a: seq<byte>, b: seq<byte>, c: seq<byte>)
    requires s == a + b + c
    ensures s[..|a|] == a && s[|a|..|a| + |b|] == b && s[|a| + |b|..] == c
  {
  }

  lemma SliceOfSlice(s: seq<byte>, low: nat, high: nat, x: nat, y: nat)
    requires low <= high <= |s| && x <= y <= high - low
    ensures s[low..high][x..y] == s[low + x..low + y]
  {
    var t := s[low..high];
    forall k | 0 <= k < y - x
      ensures t[x..y][k] == s[low + x..low + y][k]
    {
    }
  }

  lemma SlicesInThree(s: seq<byte>, low: nat, high: nat, a: seq<byte>, b: seq<byte>, c: seq<byte>)
    requires low <= high <= |s| && s[low..high] == a + b + c
    ensures var d, e := low + |a|, low + |a| + |b|;
            e <= high && s[low..d] == a && s[d..e] == b && s[e..high] == c
  {
    var n := |a| + |b|;
    SplitInThree(s[low..high], a, b, c);
    SliceOfSlice(s, low, high, 0, |a|);
    SliceOfSlice(s, low, high, |a|, n);
    SliceOfSlice(s, low, high, n, high - low);
  }

  /** The pieces of an image around its record `k`. */
  lemma RecordAt(image: seq<byte>, k: nat)
    requires HoldsRecords(image) && k < |Records(image)|
    ensures var items, total := Records(image), TotalSize(image);
            var d := OffsetOf(items, k, HEADER_SIZE);
            var next := d + RECORD_SIZE + |items[k].value|;
            && next <= total
            && image[HEADER_SIZE..d] == Pack(items[..k])
            && image[d..next] == PackItem(items[k])
            && image[next..total] == Pack(items[k + 1..])
  {
    var items, total := Records(image), TotalSize(image);
    var a, b, c := Pack(items[..k]), PackItem(items[k]), Pack(items[k + 1..]);
    assert image[HEADER_SIZE..total] == a + b + c by {
      RecordsPacked(image);
      PackAround(items, k);
    }
    SlicesInThree(image, HEADER_SIZE, total, a, b, c);
    assert OffsetOf(items, k, HEADER_SIZE) == HEADER_SIZE + |a|;
  }

  /** Where record `k` lies and what its two header bytes say. */
  lemma RecordHeader(image: seq<byte>, k: nat)
    requires HoldsRecords(image) && k < |Records(image)|
    ensures var item, d := Records(image)[k], OffsetOf(Records(image), k, HEADER_SIZE);
            && d + RECORD_SIZE + |item.value| <= TotalSize(image)
            && image[d] == item.tag && image[d + 1] == |item.value|
            && image[d + RECORD_SIZE..d + RECORD_SIZE + |item.value|] == item.value
  {
    var item, d := Records(image)[k], OffsetOf(Records(image), k, HEADER_SIZE);
    RecordAt(image, k);
    var packed := image[d..d + RECORD_SIZE + |item.value|];
    assert packed[0] == image[d] && packed[1] == image[d + 1];
    SliceOfSlice(image, d, d + RECORD_SIZE + |item.value|, RECORD_SIZE, RECORD_SIZE + |item.value|);
    assert PackItem(item)[RECORD_SIZE..] == item.value;
  }

  /** The pointer walk over an image finds where the value of the tag lies, if there is one. */
  lemma RecordFound(image: seq<byte>, tag: byte)
    requires HoldsRecords(image)
    ensures var d, found := FindFrom(image, TotalSize(image), HEADER_SIZE, tag), Lookup(Records(image), tag);
            && (d == -1 <==> found.None?)
            && (d != -1 ==>
                  && d + RECORD_SIZE + |found.value| <= TotalSize(image) && image[d + 1] == |found.value|
                  && image[d + RECORD_SIZE..d + RECORD_SIZE + |found.value|] == found.value)
  {
    var items := Records(image);
    RecordsPacked(image);
    FindAgrees(image, TotalSize(image), HEADER_SIZE, items, tag);
    if IndexOf(items, tag) < |items| {
      RecordHeader(image, IndexOf(items, tag));
    }
  }

  lemma TailMoved(image: seq<byte>, d: nat, next: nat, total: nat, after: seq<byte>)
    requires HEADER_SIZE <= d <= next <= total <= |image| && total == TotalSize(image)
    requires after == WithTotalSize(Moved(image, d, next, total - next), total - (next - d))
    ensures after[..6] == image[..6] && |after| == |image| && TotalSize(after) == total - (next - d)
    ensures after[HEADER_SIZE..total - (next - d)] == image[HEADER_SIZE..d] + image[next..total]
  {
  }

  lemma RemovedItems(items: seq<Item>, k: nat, front: seq<byte>, back: seq<byte>)
    requires ValidItems(items) && k < |items| && Pack(items[..k]) == front && Pack(items[k + 1..]) == back
    ensures ValidItems(Without(items, k)) && Pack(Without(items, k)) == front + back
  {
    PackConcat(items[..k], items[k + 1..]);
  }

  lemma RemovedBytes(image: seq<byte>, kept: seq<Item>, d: nat, next: nat, total: nat, after: seq<byte>)
    requires HEADER_SIZE <= d <= next <= total <= |image| && total == TotalSize(image)
    requires after == WithTotalSize(Moved(image, d, next, total - next), total - (next - d))
    requires ValidItems(kept) && Pack(kept) == image[HEADER_SIZE..d] + image[next..total]
    ensures HoldsRecords(after) && Records(after) == kept && after[..6] == image[..6]
  {
    TailMoved(image, d, next, total, after);
    PackedRecords(after, kept);
  }

  lemma RemovedRecord(image: seq<byte>, k: nat, d: nat, next: nat, after: seq<byte>)
    requires HoldsRecords(image) && k < |Records(image)| && d == OffsetOf(Records(image), k, HEADER_SIZE)
    requires next == d + RECORD_SIZE + |Records(image)[k].value| <= TotalSize(image)
    requires after == WithTotalSize(Moved(image, d, next, TotalSize(image) - next), TotalSize(image) - (next - d))
    ensures HoldsRecords(after) && Records(after) == Without(Records(image), k) && after[..6] == image[..6]
  {
    var items, total := Records(image), TotalSize(image);
    RecordAt(image, k);
    RemovedItems(items, k, image[HEADER_SIZE..d], image[next..total]);
    RemovedBytes(image, Without(items, k), d, next, total, after);
  }

  lemma TailAppended(image: seq<byte>, total: nat, bytes: seq<byte>, end: nat, after: seq<byte>)
    requires HEADER_SIZE <= total && total + |bytes| == end <= |image| < 0x1_0000
    requires after == WithTotalSize(image[..total] + bytes + image[end..], end)
    ensures after[..6] == image[..6] && after[HEADER_SIZE..end] == image[HEADER_SIZE..total] + bytes
  {
  }

  lemma AppendedRecord(image: seq<byte>, item: Item, end: nat, after: seq<byte>)
    requires HoldsRecords(image) && ValidItem(item)
    requires end == TotalSize(image) + RECORD_SIZE + |item.value| <= |image| < 0x1_0000
    requires after == WithTotalSize(image[..TotalSize(image)] + PackItem(item) + image[end..], end)
    ensures HoldsRecords(after) && Records(after) == Records(image) + [item] && after[..6] == image[..6]
  {
    var total := TotalSize(image);
    RecordsPacked(image);
    PackConcat(Records(image), [item]);
    PackOne(item);
    TailAppended(image, total, PackItem(item), end, after);
    PackedRecords(after, Records(image) + [item]);
  }

  lemma ReplacedRecord(image: seq<byte>, k: nat, value: seq<byte>, after: seq<byte>)
    requires HoldsRecords(image) && k < |Records(image)| && |value| == |Records(image)[k].value|
    requires |after| == |image|
    requires var d := OffsetOf(Records(image), k, HEADER_SIZE);
             && d + RECORD_SIZE + |value| <= |image|
             && after == image[..d + RECORD_SIZE] + value + image[d + RECORD_SIZE + |value|..]
    ensures HoldsRecords(after) && Records(after) == Records(image)[k := Item(Records(image)[k].tag, value)]
    ensures after[..HEADER_SIZE] == image[..HEADER_SIZE]
  {
    var items, total := Records(image), TotalSize(image);
    var d := OffsetOf(items, k, HEADER_SIZE);
    var next := d + RECORD_SIZE + |value|;
    var item := Item(items[k].tag, value);
    var all := items[k := item];
    RecordAt(image, k);
    ValueReplaced(image, d, value, total, after);
    PackItemWith(items[k], value, image[d..next]);
    SliceOfSlice(image, d, next, 0, RECORD_SIZE);
    assert all[..k] == items[..k] && all[k + 1..] == items[k + 1..];
    assert image[d..d + RECORD_SIZE] + value == PackItem(item);
    FromPieces(after, all, k);
  }

  lemma FromPieces(image: seq<byte>, items: seq<Item>, k: nat)
    requires HEADER_SIZE <= |image| && HEADER_SIZE <= TotalSize(image) <= |image|
    requires ValidItems(items) && k < |items|
    requires image[HEADER_SIZE..TotalSize(image)] == Pack(items[..k]) + PackItem(items[k]) + Pack(items[k + 1..])
    ensures HoldsRecords(image) && Records(image) == items
  {
    PackAround(items, k);
    PackedRecords(image, items);
  }

  lemma ValueReplaced(image: seq<byte>, d: nat, value: seq<byte>, total: nat, after: seq<byte>)
    requires HEADER_SIZE <= d && d + RECORD_SIZE + |value| <= total <= |image| == |after|
    requires after == image[..d + RECORD_SIZE] + value + image[d + RECORD_SIZE + |value|..]
    ensures after[..HEADER_SIZE] == image[..HEADER_SIZE] && TotalSize(after) == TotalSize(image)
    ensures after[HEADER_SIZE..total] == image[HEADER_SIZE..d]
              + (image[d..d + RECORD_SIZE] + value) + image[d + RECORD_SIZE + |value|..total]
  {
    assert after[6] == image[6] && after[7] == image[7];
  }

  lemma PackItemWith(item: Item, value: seq<byte>, packed: seq<byte>)
    requires ValidItem(item) && |value| == |item.value| && packed == PackItem(item)
    ensures PackItem(Item(item.tag, value)) == packed[..RECORD_SIZE] + value
  {
  }

  // -------- the stored form

  function Crc8Of(bytes: seq<byte>): (crc: byte) {
    Crc8.Crc(bytes, 0) as int
  }

  /** Images that agree up to the end of the records hold the same records. */
  lemma SamePrefix(x: seq<byte>, y: seq<byte>, total: nat)
    requires HEADER_SIZE <= total <= |x| && total <= |y| && x[..total] == y[..total]
    ensures TotalSize(x) == TotalSize(y)
    ensures total == TotalSize(x) ==> HoldsRecords(x) == HoldsRecords(y)
    ensures total == TotalSize(x) && HoldsRecords(x) ==> Records(x) == Records(y)
  {
    assert x[6] == x[..total][6] && x[7] == x[..total][7];
    assert y[6] == y[..total][6] && y[7] == y[..total][7];
    SliceOfSlice(x, 0, total, HEADER_SIZE, total);
    SliceOfSlice(y, 0, total, HEADER_SIZE, total);
    assert x[0..total] == x[..total] && y[0..total] == y[..total];
  }

  /** Whole records with unique tags. */
  predicate WellFormed(image: seq<byte>) {
    HoldsRecords(image) && UniqueTags(Records(image))
  }

  /** What `do_cbi_read` finds when it reads from `storage` into a cache of `imageSize` bytes. */
  function Check(storage: seq<byte>, imageSize: nat): EcError
    requires HEADER_SIZE <= imageSize <= |storage|
  {
    if storage[..3] != MAGIC || storage[5] > VERSION_MAJOR then Inval
    else if TotalSize(storage) < HEADER_SIZE || TotalSize(storage) > imageSize then EcError.Overflow
    else if Crc8Of(storage[4..TotalSize(storage)]) != storage[3] then Inval
    else Success
  }

  /** Accepted are images that begin with "CBI", have major version 0 and a total size that covers the header and fits the
      cache, and whose CRC byte is the CRC-8 of everything behind it. All others are refused, those with a wrong size in
      their own way. */
  lemma CheckExactly(b: seq<byte>, imageSize: nat, size: nat)
    requires 8 <= imageSize <= |b| && size == b[6] as int + 256 * (b[7] as int)
    ensures Check(b, imageSize) == Success <==>
            && b[0] == 0x43 && b[1] == 0x42 && b[2] == 0x49 && b[5] == 0
            && 8 <= size <= imageSize && Crc8.Crc(b[4..size], 0) as int == b[3]
    ensures Check(b, imageSize) == EcError.Overflow <==>
            b[0] == 0x43 && b[1] == 0x42 && b[2] == 0x49 && b[5] == 0 && !(8 <= size <= imageSize)
    ensures Check(b, imageSize) in {Success, EcError.Overflow, Inval}
  {
    assert b[..3] == [b[0], b[1], b[2]];
  }

  /** An image read in two parts. */
  lemma BothParts(image: seq<byte>, stored: seq<byte>, total: nat)
    requires HEADER_SIZE <= total <= |image| && total <= |stored|
    requires image[..HEADER_SIZE] == stored[..HEADER_SIZE] && image[HEADER_SIZE..total] == stored[HEADER_SIZE..total]
    ensures image[..total] == stored[..total] && image[4..total] == stored[4..total] && image[3] == stored[3]
  {
    assert image[..total] == image[..HEADER_SIZE] + image[HEADER_SIZE..total];
    assert stored[..total] == stored[..HEADER_SIZE] + stored[HEADER_SIZE..total];
    assert image[4..total] == image[..total][4..] && stored[4..total] == stored[..total][4..];
    assert image[..HEADER_SIZE][3] == stored[..HEADER_SIZE][3];
  }

  /** The records of an image of two. */
  lemma ExampleRecords(image: seq<byte>)
    requires 15 <= |image| && image[6] == 15 && image[7] == 0
    requires image[8..15] == [0x05, 0x02, 0x34, 0x12, 0xFF, 0x01, 0xA5]
    ensures HoldsRecords(image) && Records(image) == [Item(0x05, [0x34, 0x12]), Item(0xFF, [0xA5])]
  {
    var a, b := Item(0x05, [0x34, 0x12]), Item(0xFF, [0xA5]);
    PackOne(a);
    PackOne(b);
    PackConcat([a], [b]);
    assert [a] + [b] == [a, b] && Pack([a, b]) == image[8..15];
    PackedRecords(image, [a, b]);
  }

  /** The memory of an EEPROM after a block write, which wraps around inside its page. */
  function PageWrite(mem: seq<byte>, pageSize: nat, offset: nat, bytes: seq<byte>): (r: seq<byte>)
    requires 0 < pageSize && |mem| % pageSize == 0 && offset < |mem|
    ensures |r| == |mem|
  {
    if bytes == [] then mem
    else
      var last := |bytes| - 1;
      PageInside(|mem|, pageSize, offset, offset + last);
      PageWrite(mem, pageSize, offset, bytes[..last])[PageAddress(pageSize, offset, offset + last) := bytes[last]]
  }

  /** The address `address` wrapped into the page of `offset`. */
  function PageAddress(pageSize: nat, offset: nat, address: nat): int
    requires 0 < pageSize
  {
    offset - offset % pageSize + address % pageSize
  }

  lemma PageInside(size: nat, pageSize: nat, offset: nat, address: nat)
    requires 0 < pageSize && size % pageSize == 0 && offset < size
    ensures 0 <= PageAddress(pageSize, offset, address) < size
  {
    var page, pages := offset / pageSize, size / pageSize;
    assert offset == page * pageSize + offset % pageSize && size == pages * pageSize;
    if page >= pages {
      TimesMonotone(pages, page, pageSize);
    }
    TimesMonotone(page + 1, pages, pageSize);
  }

  lemma SamePage(pageSize: nat, offset: nat, i: nat)
    requires 0 < pageSize && offset % pageSize + i < pageSize
    ensures PageAddress(pageSize, offset, offset + i) == offset + i
  {
    var page := offset / pageSize;
    assert offset + i == page * pageSize + (offset % pageSize + i);
    QuotientAndRemainder(offset + i, page, pageSize, offset % pageSize + i);
  }

  /** A block that does not reach the end of its page is written where it was meant to be. */
  lemma {:induction false} WriteInsidePage(mem: seq<byte>, pageSize: nat, offset: nat, bytes: seq<byte>)
    requires 0 < pageSize && |mem| % pageSize == 0 && offset < |mem|
    requires offset % pageSize + |bytes| <= pageSize && offset + |bytes| <= |mem|
    ensures PageWrite(mem, pageSize, offset, bytes) == mem[..offset] + bytes + mem[offset + |bytes|..]
  {
    if bytes != [] {
      var last := |bytes| - 1;
      WriteInsidePage(mem, pageSize, offset, bytes[..last]);
      SamePage(pageSize, offset, last);
    }
  }

  lemma CrcInjective(x: seq<byte>, a: byte, b: byte, y: seq<byte>)
    requires a != b
    ensures Crc8Of(x + [a] + y) != Crc8Of(x + [b] + y)
  {
    Crc8.OneByteChangeIsDetected(x, a, b, y, 0);
    DifferentWords(Crc8.Crc(x + [a] + y, 0), Crc8.Crc(x + [b] + y, 0));
  }

  lemma DifferentWords(c: bv8, d: bv8)
    requires c != d
    ensures c as int != d as int
  {
  }

  /** An image with any one byte corrupted is refused, unless it is a byte of the size field,
      which decides how much of the image the CRC covers. */
  lemma CorruptionIsDetected(image: seq<byte>, imageSize: nat, i: nat, b: byte)
    requires HEADER_SIZE <= imageSize <= |image| && Check(image, imageSize) == Success
    requires i < TotalSize(image) && i != 6 && i != 7 && b != image[i]
    ensures Check(image[i := b], imageSize) != Success
  {
    var bad, total := image[i := b], TotalSize(image);
    assert TotalSize(bad) == total;
    if i < 3 {
      assert bad[..3][i] == b && image[..3][i] == image[i];
    } else if i == 3 {
      assert bad[4..total] == image[4..total];
    } else {
      var x, y := image[4..i], image[i + 1..total];
      assert image[4..total] == x + [image[i]] + y;
      assert bad[4..total] == x + [b] + y;
      CrcInjective(x, image[i], b, y);
      assert bad[3] == image[3];
    }
  }

  /** Whether an image passes the checks is decided by its bytes up to the end of the records. */
  lemma CheckPrefix(x: seq<byte>, y: seq<byte>, imageSize: nat)
    requires HEADER_SIZE <= imageSize <= |x| && imageSize <= |y|
    requires Check(x, imageSize) == Success && x[..TotalSize(x)] == y[..TotalSize(x)]
    ensures Check(y, imageSize) == Success
  {
    var total := TotalSize(x);
    assert x[..HEADER_SIZE] == x[..total][..HEADER_SIZE] && y[..HEADER_SIZE] == y[..total][..HEADER_SIZE];
    HeaderFields(x, y);
    assert x[4..total] == x[..total][4..] && y[4..total] == y[..total][4..];
  }

  /** An EEPROM behind a bus that may be faulty. */
  class Eeprom {
    const data: array<byte>
    const pageSize: nat
    var busOk: bool
    var writeProtected: bool

    ghost predicate Valid() {
      (pageSize == 8 || pageSize == 16) && data.Length % pageSize == 0
    }

    constructor (size: nat, pageSize: nat)
      requires (pageSize == 8 || pageSize == 16) && size % pageSize == 0
      ensures Valid() && fresh(data) && data.Length == size && this.pageSize == pageSize
    {
      data := new byte[size];
      this.pageSize := pageSize;
      busOk, writeProtected := true, false;
    }

    /** `i2c_read_block`; it can fail only on a faulty bus. */
    method ReadBlock(offset: nat, dest: array<byte>, start: nat, len: nat) returns (rv: EcError)
      requires dest != data
      requires offset + len <= data.Length && start + len <= dest.Length
      modifies dest
      ensures rv == Success || (rv == Hardware && !busOk)
      ensures dest[..start] == old(dest[..start]) && dest[start + len..] == old(dest[start + len..])
      ensures rv == Success ==> dest[start..start + len] == data[offset..offset + len]
    {
      if !busOk {
        if * {
          return Hardware;
        }
      }
      var i := 0;
      while i < len
        invariant 0 <= i <= len
        invariant dest[..start] == old(dest[..start]) && dest[start + len..] == old(dest[start + len..])
        invariant dest[start..start + i] == data[offset..offset + i]
      {
        dest[start + i] := data[offset + i];
        i := i + 1;
      }
      rv := Success;
    }

    /** `i2c_write_block`, which sends the low byte of the offset; on a faulty bus it may fail before or after
        the write took place. */
    method WriteBlock(offset: nat, bytes: seq<byte>) returns (rv: EcError)
      requires Valid() && offset % 0x100 < data.Length
      modifies data
      ensures rv == Success || (rv == Hardware && !busOk)
      ensures data[..] == old(data[..]) || data[..] == PageWrite(old(data[..]), pageSize, offset % 0x100, bytes)
      ensures rv == Success ==> data[..] == PageWrite(old(data[..]), pageSize, offset % 0x100, bytes)
    {
      var address := offset % 0x100;
      if !busOk {
        if * {
          return Hardware;
        }
      }
      ghost var before := data[..];
      var i := 0;
      while i < |bytes|
        invariant 0 <= i <= |bytes|
        invariant data[..] == PageWrite(before, pageSize, address, bytes[..i])
      {
        PageInside(data.Length, pageSize, address, address + i);
        assert bytes[..i + 1][..i] == bytes[..i];
        data[PageAddress(pageSize, address, address + i)] := bytes[i];
        i := i + 1;
      }
      assert bytes[..i] == bytes;
      rv := Success;
      if !busOk {
        if * {
          rv := Hardware;
        }
      }
    }
  }

  datatype HostStatus = HostSuccess | HostError | HostAccessDenied | HostInvalidParam

  const TAG_BOARD_VERSION: byte := 0
  const TAG_OEM_ID: byte := 1

  /** A block of 8 at a multiple of 8 crosses no page end on a part with pages of 8 or 16. */
  lemma StaysInPage(block: nat, size: nat, pageSize: nat)
    requires size <= EEPROM_PAGE_WRITE_SIZE && (pageSize == 8 || pageSize == 16)
    ensures EEPROM_PAGE_WRITE_SIZE * block % pageSize + size <= pageSize
  {
    if pageSize == 8 {
      QuotientAndRemainder(8 * block, block, 8, 0);
    } else if block % 2 == 0 {
      QuotientAndRemainder(8 * block, block / 2, 16, 0);
    } else {
      QuotientAndRemainder(8 * block, block / 2, 16, 8);
    }
  }

  lemma LowByte(p: nat)
    requires p < 0x100
    ensures p % 0x100 == p
  {
  }

  lemma BlockEnds(p: nat, size: nat, block: nat, total: nat)
    requires p == EEPROM_PAGE_WRITE_SIZE * block < total
    requires size == if EEPROM_PAGE_WRITE_SIZE < total - p then EEPROM_PAGE_WRITE_SIZE else total - p
    ensures p % EEPROM_PAGE_WRITE_SIZE == 0
    ensures p + size == total || (p + size < total && p + size == EEPROM_PAGE_WRITE_SIZE * (block + 1)
                                  && (p + size) % EEPROM_PAGE_WRITE_SIZE == 0)
  {
  }

  /** Storage that held `before` and has been overwritten by the first `p` bytes of `image`. */
  function Overlaid(image: seq<byte>, before: seq<byte>, p: nat): seq<byte>
    requires p <= |image| && p <= |before|
  {
    image[..p] + before[p..]
  }

  lemma NextBlock(image: seq<byte>, before: seq<byte>, p: nat, size: nat)
    requires p + size <= |image| && p + size <= |before|
    ensures var now := Overlaid(image, before, p);
            now[..p] + image[p..p + size] + now[p + size..] == Overlaid(image, before, p + size)
  {
  }

  lemma HeaderFields(x: seq<byte>, y: seq<byte>)
    requires HEADER_SIZE <= |x| && HEADER_SIZE <= |y| && x[..HEADER_SIZE] == y[..HEADER_SIZE]
    ensures x[..3] == y[..3] && x[3] == y[3] && x[5] == y[5] && TotalSize(x) == TotalSize(y)
  {
    forall i | 0 <= i < HEADER_SIZE
      ensures x[i] == y[i]
    {
      assert x[i] == x[..HEADER_SIZE][i] && y[i] == y[..HEADER_SIZE][i];
    }
  }

  /** What a lookup that found `found` leaves in a buffer that held `before`: an error changes
      nothing, a value is followed by zeros up to `size`. */
  predicate Delivered(rv: EcError, outSize: nat, after: seq<byte>, found: Option<seq<byte>>,
                      before: seq<byte>, size: nat)
    requires size <= |before|
  {
    match found
    case None => rv == Unknown && outSize == size && after == before
    case Some(value) =>
      if size < |value| then rv == Inval && outSize == size && after == before
      else rv == Success && outSize == |value|
           && after == value + Filled(before, 0, 0, size)[|value|..]
  }

  /** Byte by byte. */
  lemma DeliveredBytes(rv: EcError, outSize: nat, after: seq<byte>, found: Option<seq<byte>>, before: seq<byte>, size: nat)
    requires size <= |before| && Delivered(rv, outSize, after, found, before, size)
    ensures found.Some? && |found.value| <= size ==>
              && |after| == |before| && after[..|found.value|] == found.value
              && (forall k :: |found.value| <= k < size ==> after[k] == 0) && after[size..] == before[size..]
  {
  }

  const EEPROM_PAGE_WRITE_SIZE := 8
  const CBI_IMAGE_SIZE_EEPROM := 256

  /** The cache `cbi[]` with its status, and the EEPROM behind it. */
  class Store {
    const cbi: array<byte>
    const base: nat
    const eeprom: Eeprom
    const systemUnlocked: bool
    var synced: bool

    ghost predicate Valid() {
      && eeprom.Valid()
      && HEADER_SIZE <= cbi.Length <= CBI_IMAGE_SIZE_EEPROM
      && cbi.Length <= eeprom.data.Length
      && cbi != eeprom.data
    }

    /** What passes the checks has whole records with unique tags, as this code writes them. It is
        asked for only where the program takes its records from the EEPROM. */
    ghost predicate StoredWell()
      requires Valid()
      reads eeprom.data
    {
      Check(eeprom.data[..], cbi.Length) == Success ==> WellFormed(eeprom.data[..])
    }

    /** A cache marked as synced has the magic number and well-formed records. */
    ghost predicate CacheOk()
      reads this, cbi
    {
      synced ==> WellFormed(cbi[..]) && cbi[..3] == MAGIC
    }

    /** The cache holds what the EEPROM holds. */
    ghost predicate Loaded()
      requires Valid()
      reads cbi, eeprom.data
    {
      var total := TotalSize(eeprom.data[..]);
      HEADER_SIZE <= total <= cbi.Length && cbi[..total] == eeprom.data[..total]
    }

    constructor (imageSize: nat, base: nat, eeprom: Eeprom, systemUnlocked: bool)
      requires eeprom.Valid() && HEADER_SIZE <= imageSize <= CBI_IMAGE_SIZE_EEPROM && imageSize <= eeprom.data.Length
      ensures Valid() && fresh(cbi) && cbi.Length == imageSize && this.eeprom == eeprom && !synced
    {
      cbi := new byte[imageSize];
      this.base, this.eeprom, this.systemUnlocked := base, eeprom, systemUnlocked;
      synced := false;
    }

    method FindTag(tag: byte) returns (d: int)
      requires Valid() && TotalSize(cbi[..]) <= cbi.Length
      ensures d == FindFrom(cbi[..], TotalSize(cbi[..]), HEADER_SIZE, tag)
    {
      var total := TotalSize(cbi[..]);
      var p := HEADER_SIZE;
      while p + RECORD_SIZE < total
        invariant HEADER_SIZE <= p
        invariant FindFrom(cbi[..], total, p, tag) == FindFrom(cbi[..], total, HEADER_SIZE, tag)
      {
        if cbi[p] == tag {
          return p;
        }
        p := p + RECORD_SIZE + cbi[p + 1];
      }
      d := -1;
    }

    method SetTotalSize(n: nat)
      requires Valid() && n < 0x1_0000
      modifies cbi
      ensures cbi[..] == WithTotalSize(old(cbi[..]), n)
    {
      cbi[6], cbi[7] := n % 256, n / 256;
    }

    // Close the gap between `d` and `next`.
    method Cut(d: nat, next: nat, total: nat)
      requires Valid() && total == TotalSize(cbi[..]) <= cbi.Length && HEADER_SIZE <= d <= next <= total
      modifies cbi
      ensures cbi[..] == WithTotalSize(Moved(old(cbi[..]), d, next, total - next), total - (next - d))
    {
      Memmove(cbi, base, d, next, total - next);
      SetTotalSize(total - (next - d));
    }

    method RemoveTag(d: nat, ghost k: nat)
      requires Valid() && HoldsRecords(cbi[..]) && k < |Records(cbi[..])|
      requires d == OffsetOf(Records(cbi[..]), k, HEADER_SIZE)
      modifies cbi
      ensures HoldsRecords(cbi[..]) && Records(cbi[..]) == Without(old(Records(cbi[..])), k)
      ensures cbi[..6] == old(cbi[..6])
    {
      ghost var image := cbi[..];
      RecordHeader(image, k);
      var total := TotalSize(cbi[..]);
      var next := d + (RECORD_SIZE + cbi[d + 1]);
      Cut(d, next, total);
      RemovedRecord(image, k, d, next, cbi[..]);
    }

    /** `cbi_set_data`: store a record at `p` unless it is empty, and return where it ends. */
    method SetData(p: nat, tag: byte, buf: seq<byte>) returns (end: nat)
      requires Valid() && |buf| <= 255 && HEADER_SIZE <= p && p + RECORD_SIZE + |buf| <= cbi.Length
      modifies cbi
      ensures end == if buf == [] then p else p + RECORD_SIZE + |buf|
      ensures cbi[..] == old(cbi[..])[..p] + (if buf == [] then [] else PackItem(Item(tag, buf))) + old(cbi[..])[end..]
    {
      if |buf| == 0 {
        return p;
      }
      ghost var was := cbi[..];
      cbi[p] := tag;
      cbi[p + 1] := |buf|;
      ghost var front, back := cbi[..p + RECORD_SIZE], cbi[p + RECORD_SIZE + |buf|..];
      assert front == was[..p] + [tag, |buf|];
      CopyIn(cbi, p + RECORD_SIZE, buf);
      end := p + RECORD_SIZE + |buf|;
      assert cbi[..] == front + buf + back;
      assert back == was[end..];
    }

    /** The appending half of `cbi_set_board_info`. */
    method Append(tag: byte, buf: seq<byte>) returns (rv: EcError)
      requires Valid() && HoldsRecords(cbi[..]) && |buf| <= 255
      modifies cbi
      ensures HoldsRecords(cbi[..]) && cbi[..6] == old(cbi[..6])
      ensures var items := old(Records(cbi[..]));
              if cbi.Length < HEADER_SIZE + |Pack(items)| + RECORD_SIZE + |buf| then
                rv == EcError.Overflow && Records(cbi[..]) == items
              else
                rv == Success && Records(cbi[..]) == if buf == [] then items else items + [Item(tag, buf)]
    {
      ghost var image := cbi[..];
      RecordsPacked(image);
      var total := TotalSize(cbi[..]);
      if cbi.Length < total + RECORD_SIZE + |buf| {
        return EcError.Overflow;
      }
      var end := SetData(total, tag, buf);
      SetTotalSize(end);
      rv := Success;
      if buf == [] {
        assert image[..total] + [] + image[total..] == image;
        SameTotalSize(image);
      } else {
        AppendedRecord(image, Item(tag, buf), end, cbi[..]);
      }
    }

    /** Overwrite the value of record `k`, which has the right size. */
    method Overwrite(d: nat, buf: seq<byte>, ghost k: nat)
      requires Valid() && HoldsRecords(cbi[..]) && k < |Records(cbi[..])|
      requires d == OffsetOf(Records(cbi[..]), k, HEADER_SIZE) && |buf| == |Records(cbi[..])[k].value|
      modifies cbi
      ensures HoldsRecords(cbi[..]) && cbi[..6] == old(cbi[..6])
      ensures var items := old(Records(cbi[..])); Records(cbi[..]) == items[k := Item(items[k].tag, buf)]
    {
      ghost var image := cbi[..];
      RecordHeader(image, k);
      CopyIn(cbi, d + RECORD_SIZE, buf);
      ReplacedRecord(image, k, buf, cbi[..]);
    }

    method SetBoardInfo(tag: byte, buf: seq<byte>) returns (rv: EcError)
      requires Valid() && HoldsRecords(cbi[..]) && |buf| <= 255
      modifies cbi
      ensures HoldsRecords(cbi[..]) && cbi[..6] == old(cbi[..6])
      ensures var r := SetItems(old(Records(cbi[..])), tag, buf, cbi.Length);
              Records(cbi[..]) == r.items && rv == if r.Done? then Success else EcError.Overflow
    {
      ghost var image := cbi[..];
      ghost var items := Records(image);
      ghost var k := IndexOf(items, tag);
      RecordsPacked(image);
      FindAgrees(image, TotalSize(image), HEADER_SIZE, items, tag);
      var d := FindTag(tag);
      if d != -1 {
        RecordHeader(image, k);
        if cbi[d + 1] == |buf| {
          Overwrite(d, buf, k);
          return Success;
        }
        RemoveTag(d, k);
      }
      rv := Append(tag, buf);
    }

    /** The first `p` bytes of the image have reached the EEPROM and nothing else has changed. */
    ghost predicate Written(image: seq<byte>, before: seq<byte>, p: nat)
      reads eeprom.data
    {
      p <= |image| && p <= |before| && eeprom.data[..] == Overlaid(image, before, p)
    }

    /** The image has reached the EEPROM up to the end of some block. */
    ghost predicate WrittenUpTo(image: seq<byte>, before: seq<byte>, p: nat)
      requires HEADER_SIZE <= |image|
      reads eeprom.data
    {
      && Written(image, before, p)
      && (p == TotalSize(image) || (p < TotalSize(image) && p % EEPROM_PAGE_WRITE_SIZE == 0))
    }

    // Write one block.
    method WriteBlockAt(p: nat, size: nat, ghost block: nat, ghost image: seq<byte>, ghost before: seq<byte>) returns (rv: EcError)
      requires Valid() && 0 < size <= EEPROM_PAGE_WRITE_SIZE && p + size <= cbi.Length
      requires p == EEPROM_PAGE_WRITE_SIZE * block && image == cbi[..]
      requires |before| == eeprom.data.Length && Written(image, before, p)
      modifies eeprom.data
      ensures rv == Success || (rv == Hardware && !eeprom.busOk)
      ensures Written(image, before, p + size) || (rv != Success && Written(image, before, p))
    {
      ghost var was, bytes := eeprom.data[..], image[p..p + size];
      StaysInPage(block, size, eeprom.pageSize);
      WriteInsidePage(was, eeprom.pageSize, p, bytes);
      NextBlock(image, before, p, size);
      LowByte(p);
      rv := eeprom.WriteBlock(p, cbi[p..p + size]);
      assert eeprom.data[..] == was || eeprom.data[..] == Overlaid(image, before, p + size);
    }

    // One round of the page loop. The EEPROM has the image up to `reached` afterwards.
    method WritePage(p: nat, size: nat, ghost block: nat, ghost image: seq<byte>, ghost before: seq<byte>)
      returns (rv: EcError, ghost reached: nat)
      requires Valid() && image == cbi[..] && |before| == eeprom.data.Length && WrittenUpTo(image, before, p)
      requires p == EEPROM_PAGE_WRITE_SIZE * block < TotalSize(image) <= cbi.Length
      requires size == if EEPROM_PAGE_WRITE_SIZE < TotalSize(image) - p then EEPROM_PAGE_WRITE_SIZE else TotalSize(image) - p
      modifies eeprom.data
      ensures rv == Success || (rv == Hardware && !eeprom.busOk)
      ensures WrittenUpTo(image, before, reached) && (rv == Success ==> reached == p + size)
      ensures p + size < TotalSize(image) ==> p + size == EEPROM_PAGE_WRITE_SIZE * (block + 1)
    {
      BlockEnds(p, size, block, TotalSize(image));
      rv := WriteBlockAt(p, size, block, image, before);
      reached := if Written(image, before, p + size) then p + size else p;
    }

    /** On an error the EEPROM has a prefix of whole blocks of the image, in front of what it had before. */
    method EepromWrite() returns (rv: EcError, ghost reached: nat)
      requires Valid() && TotalSize(cbi[..]) <= cbi.Length
      modifies eeprom.data
      ensures rv == Success || (rv == Hardware && !eeprom.busOk)
      ensures WrittenUpTo(cbi[..], old(eeprom.data[..]), reached) && (rv == Success ==> reached == TotalSize(cbi[..]))
      ensures reached <= TotalSize(cbi[..]) && (reached == TotalSize(cbi[..]) || reached % 8 == 0)
      ensures eeprom.data[..] == cbi[..reached] + old(eeprom.data[..])[reached..]
    {
      ghost var image, before, block := cbi[..], eeprom.data[..], 0;
      var total := TotalSize(cbi[..]);
      var p, rest := 0, total;
      reached := 0;
      while rest > 0
        invariant 0 <= p <= total && rest == total - p && (rest == 0 || p == EEPROM_PAGE_WRITE_SIZE * block)
        invariant cbi[..] == image && reached == p && WrittenUpTo(image, before, reached)
      {
        var size := if EEPROM_PAGE_WRITE_SIZE < rest then EEPROM_PAGE_WRITE_SIZE else rest;
        rv, reached := WritePage(p, size, block, image, before);
        if rv != Success {
          return;
        }
        p, rest, block := p + size, rest - size, block + 1;
      }
      rv := Success;
    }

    /** Seal the image for the version of this code. */
    method Seal()
      requires Valid() && WellFormed(cbi[..]) && cbi[..3] == MAGIC
      modifies cbi
      ensures WellFormed(cbi[..]) && Records(cbi[..]) == old(Records(cbi[..]))
      ensures Check(cbi[..], cbi.Length) == Success && TotalSize(cbi[..]) == old(TotalSize(cbi[..]))
      ensures cbi[4] == cbi[5] == 0
    {
      ghost var image := cbi[..];
      var total := TotalSize(cbi[..]);
      cbi[5] := VERSION_MAJOR;
      cbi[4] := VERSION_MINOR;
      var crc := Crc8.CrosCrc8Arg(cbi[4..total], 0);
      cbi[3] := crc as int;
      assert cbi[HEADER_SIZE..total] == image[HEADER_SIZE..total];
      assert cbi[..3] == image[..3];
      RecordsPacked(image);
      PackedRecords(cbi[..], Records(image));
    }

    method DoCbiRead() returns (rv: EcError)
      requires Valid()
      modifies cbi
      ensures eeprom.busOk ==> rv == Check(eeprom.data[..], cbi.Length)
      ensures rv == Success ==> Check(eeprom.data[..], cbi.Length) == Success && Loaded()
      ensures var b, size := eeprom.data[..], eeprom.data[6] as int + 256 * (eeprom.data[7] as int);
              eeprom.busOk ==>
                rv == if b[0] != 0x43 || b[1] != 0x42 || b[2] != 0x49 || b[5] != 0 then Inval
                      else if size < 8 || size > cbi.Length then EcError.Overflow
                      else if Crc8.Crc(b[4..size], 0) as int != b[3] then Inval
                      else Success
    {
      ghost var stored := eeprom.data[..];
      CheckExactly(stored, cbi.Length, stored[6] as int + 256 * (stored[7] as int));
      rv := eeprom.ReadBlock(0, cbi, 0, HEADER_SIZE);
      if rv != Success {
        return Inval;
      }
      assert cbi[..HEADER_SIZE] == stored[..HEADER_SIZE];
      HeaderFields(cbi[..], stored);
      if cbi[..3] != MAGIC {
        return Inval;
      }
      if cbi[5] > VERSION_MAJOR {
        return Inval;
      }
      var total := TotalSize(cbi[..]);
      if total < HEADER_SIZE || total > cbi.Length {
        return EcError.Overflow;
      }
      rv := eeprom.ReadBlock(HEADER_SIZE, cbi, HEADER_SIZE, total - HEADER_SIZE);
      if rv != Success {
        return Inval;
      }
      BothParts(cbi[..], stored, total);
      var crc := Crc8.CrosCrc8Arg(cbi[4..total], 0);
      if crc as int != cbi[3] {
        return Inval;
      }
      rv := Success;
    }

    /** `cbi_read`: nothing to do for a synced cache, otherwise at most two attempts. */
    method CbiRead() returns (rv: EcError)
      requires Valid() && CacheOk() && (synced || StoredWell())
      modifies this, cbi
      ensures old(synced) ==> rv == Success && synced && cbi[..] == old(cbi[..])
      ensures CacheOk() && (synced <==> rv == Success)
      ensures !old(synced) && rv == Success ==> Check(eeprom.data[..], cbi.Length) == Success && Loaded()
      ensures !old(synced) && eeprom.busOk ==> rv == Check(eeprom.data[..], cbi.Length)
    {
      if synced {
        return Success;
      }
      ghost var stored := eeprom.data[..];
      var i := 0;
      rv := Unknown;
      while i < 2
        invariant 0 <= i <= 2 && !synced && eeprom.data[..] == stored
        invariant i > 0 ==> rv != Success && (eeprom.busOk ==> rv == Check(stored, cbi.Length))
      {
        rv := DoCbiRead();
        if rv == Success {
          LoadedIsWellFormed();
          synced := true;
          return;
        }
        i := i + 1;
      }
    }

    lemma LoadedIsWellFormed()
      requires Valid() && StoredWell() && Loaded() && Check(eeprom.data[..], cbi.Length) == Success
      ensures WellFormed(cbi[..]) && WellFormed(eeprom.data[..])
      ensures Records(cbi[..]) == Records(eeprom.data[..]) && cbi[..3] == MAGIC
    {
      var total := TotalSize(eeprom.data[..]);
      var x, y := cbi[..], eeprom.data[..];
      SamePrefix(y, x, total);
      assert x[..3] == x[..total][..3] && y[..3] == y[..total][..3];
      assert x[..total] == cbi[..total] && y[..total] == eeprom.data[..total];
    }

    method Invalidate()
      modifies this
      ensures !synced
    {
      synced := false;
    }

    // Clear the buffer and copy the value into it.
    static method Deliver(buf: array<byte>, size: nat, value: seq<byte>)
      requires |value| <= size <= buf.Length
      modifies buf
      ensures buf[..] == value + Filled(old(buf[..]), 0, 0, size)[|value|..]
    {
      Memset(buf, 0, 0, 0, size);
      CopyIn(buf, 0, value);
    }

    // The second half of `cbi_get_board_info`: find the record and copy its value out.
    method ReadValue(tag: byte, buf: array<byte>, size: nat) returns (rv: EcError, outSize: nat)
      requires Valid() && HoldsRecords(cbi[..]) && buf != cbi && size <= buf.Length
      modifies buf
      ensures Delivered(rv, outSize, buf[..], Lookup(Records(cbi[..]), tag), old(buf[..]), size)
    {
      RecordFound(cbi[..], tag);
      var d := FindTag(tag);
      if d == -1 {
        return Unknown, size;
      }
      if size < cbi[d + 1] {
        return Inval, size;
      }
      var value := cbi[d + RECORD_SIZE..d + RECORD_SIZE + cbi[d + 1]];
      Deliver(buf, size, value);
      rv, outSize := Success, |value|;
    }

    /** `cbi_get_board_info` into `buf[..size]`. */
    method GetBoardInfo(tag: byte, buf: array<byte>, size: nat) returns (rv: EcError, outSize: nat)
      requires Valid() && CacheOk() && (synced || StoredWell())
      requires buf != cbi && buf != eeprom.data && size <= buf.Length
      modifies this, cbi, buf
      ensures old(synced) ==> synced && cbi[..] == old(cbi[..])
      ensures CacheOk()
      ensures !old(synced) && synced ==> Check(eeprom.data[..], cbi.Length) == Success && Loaded()
      ensures !old(synced) && eeprom.busOk ==> (synced <==> Check(eeprom.data[..], cbi.Length) == Success)
      ensures !synced ==> rv == Unknown && outSize == size && buf[..] == old(buf[..])
      ensures synced ==>
                Delivered(rv, outSize, buf[..], Lookup(Records(cbi[..]), tag), old(buf[..]), size)
      ensures synced ==>
                match Lookup(Records(cbi[..]), tag)
                case None => rv == Unknown && outSize == size && buf[..] == old(buf[..])
                case Some(value) =>
                  if size < |value| then rv == Inval && outSize == size && buf[..] == old(buf[..])
                  else && rv == Success && outSize == |value| && buf[..|value|] == value
                       && (forall k :: |value| <= k < size ==> buf[k] == 0) && buf[size..] == old(buf[size..])
    {
      rv := CbiRead();
      if rv != Success {
        return Unknown, size;
      }
      rv, outSize := ReadValue(tag, buf, size);
      DeliveredBytes(rv, outSize, buf[..], Lookup(Records(cbi[..]), tag), old(buf[..]), size);
    }

    /** Cache and EEPROM hold the same sealed, well-formed image. */
    ghost predicate InStep()
      reads this, cbi, eeprom.data
    {
      && Valid() && synced && Loaded()
      && WellFormed(cbi[..]) && WellFormed(eeprom.data[..])
      && Check(eeprom.data[..], cbi.Length) == Success
      && Records(cbi[..]) == Records(eeprom.data[..])
    }

    /** `cbi_write` of a sealed image. */
    method CbiWrite() returns (rv: EcError, ghost reached: nat)
      requires Valid() && synced && WellFormed(cbi[..]) && Check(cbi[..], cbi.Length) == Success
      modifies eeprom.data
      ensures eeprom.writeProtected <==> rv == AccessDenied
      ensures !eeprom.writeProtected && eeprom.busOk ==> rv == Success
      ensures rv != AccessDenied ==> WrittenUpTo(cbi[..], old(eeprom.data[..]), reached)
      ensures rv == Success ==> InStep()
    {
      if eeprom.writeProtected {
        return AccessDenied, 0;
      }
      ghost var image, before := cbi[..], eeprom.data[..];
      rv, reached := EepromWrite();
      if rv == Success {
        var total := TotalSize(cbi[..]);
        ghost var stored := eeprom.data[..];
        assert stored[..total] == image[..total];
        SamePrefix(image, stored, total);
        CheckPrefix(image, stored, cbi.Length);
      }
    }

    /** The records an update starts from. */
    ghost function StartRecords(init: bool): seq<Item>
      requires Valid() && CacheOk() && (synced || init || StoredWell())
      reads this, cbi, eeprom.data
    {
      if init then []
      else if synced then Records(cbi[..])
      else if Check(eeprom.data[..], cbi.Length) == Success then Records(eeprom.data[..])
      else []
    }

    predicate Refused(tag: byte, noSync: bool)
      reads eeprom
    {
      (eeprom.writeProtected && !noSync)
      || (!systemUnlocked && (tag == TAG_BOARD_VERSION || tag == TAG_OEM_ID))
    }

    // An empty image with the magic number.
    method InitImage()
      requires Valid()
      modifies cbi
      ensures WellFormed(cbi[..]) && Records(cbi[..]) == [] && cbi[..3] == MAGIC
    {
      Memset(cbi, base, 0, 0, cbi.Length);
      CopyIn(cbi, 0, MAGIC);
      SetTotalSize(HEADER_SIZE);
      assert cbi[HEADER_SIZE..HEADER_SIZE] == [];
    }

    // Get the records to start from into the cache.
    method Prepare(init: bool) returns (ok: bool)
      requires Valid() && CacheOk() && (synced || init || StoredWell())
      modifies this, cbi
      ensures CacheOk() && synced == (old(synced) || (!init && ok))
      ensures ok ==> WellFormed(cbi[..]) && cbi[..3] == MAGIC && Records(cbi[..]) == old(StartRecords(init))
      ensures ok && !init && !old(synced) ==> Check(eeprom.data[..], cbi.Length) == Success
      ensures !ok ==> !init && !old(synced)
                      && (!eeprom.busOk || Check(eeprom.data[..], cbi.Length) != Success)
    {
      if init {
        InitImage();
        return true;
      }
      var r := CbiRead();
      ok := r == Success;
      if ok && !old(synced) {
        LoadedIsWellFormed();
      }
    }

    // Set the tag and seal the image.
    method Update(tag: byte, buf: seq<byte>) returns (ok: bool)
      requires Valid() && WellFormed(cbi[..]) && cbi[..3] == MAGIC && |buf| <= 255
      modifies this, cbi
      ensures WellFormed(cbi[..]) && cbi[..3] == MAGIC
      ensures var r := SetItems(old(Records(cbi[..])), tag, buf, cbi.Length);
              Records(cbi[..]) == r.items && (ok <==> r.Done?)
      ensures ok ==> synced && Check(cbi[..], cbi.Length) == Success
      ensures !ok ==> synced == old(synced)
    {
      ghost var image := cbi[..];
      SetIsUpdate(Records(image), tag, buf, cbi.Length, tag);
      var r := SetBoardInfo(tag, buf);
      assert cbi[..3] == cbi[..6][..3] && image[..3] == image[..6][..3];
      ok := r == Success;
      if ok {
        Seal();
        synced := true;
      }
    }

    /** The update is in the cache, and some of its blocks are in the EEPROM. */
    ghost predicate WriteFailed(start: seq<Item>, tag: byte, buf: seq<byte>, before: seq<byte>)
      requires ValidItems(start) && |buf| <= 255
      reads this, cbi, eeprom.data
    {
      var r := SetItems(start, tag, buf, cbi.Length);
      && r.Done? && WellFormed(cbi[..]) && Check(cbi[..], cbi.Length) == Success && Records(cbi[..]) == r.items
      && exists reached: nat :: WrittenUpTo(cbi[..], before, reached)
    }

    // The write that ends a synced update.
    method WriteThrough(ghost start: seq<Item>, tag: byte, buf: seq<byte>, ghost before: seq<byte>) returns (rv: HostStatus)
      requires Valid() && synced && !eeprom.writeProtected && before == eeprom.data[..]
      requires WellFormed(cbi[..]) && Check(cbi[..], cbi.Length) == Success && ValidItems(start) && |buf| <= 255
      requires SetItems(start, tag, buf, cbi.Length) == SetResult.Done(Records(cbi[..]))
      modifies eeprom.data
      ensures rv == HostSuccess || (rv == HostError && !eeprom.busOk)
      ensures rv == HostSuccess ==> InStep()
      ensures rv == HostError ==> WriteFailed(start, tag, buf, before)
    {
      var written;
      ghost var reached;
      written, reached := CbiWrite();
      assert WrittenUpTo(cbi[..], before, reached);
      rv := if written == Success then HostSuccess else HostError;
    }

    method CommonCbiSet(tag: byte, buf: seq<byte>, init: bool, noSync: bool) returns (rv: HostStatus)
      requires Valid() && CacheOk() && (synced || init || StoredWell()) && |buf| <= 255
      modifies this, cbi, eeprom.data
      ensures CacheOk() && (eeprom.busOk && old(StoredWell()) ==> StoredWell())
      ensures rv == HostAccessDenied <==>
                old((eeprom.writeProtected && !noSync) || (!systemUnlocked && (tag == 0 || tag == 1)))
      ensures rv == HostAccessDenied ==> synced == old(synced) && cbi[..] == old(cbi[..])
      ensures noSync || rv == HostAccessDenied || rv == HostInvalidParam ==> eeprom.data[..] == old(eeprom.data[..])
      ensures rv == HostSuccess || rv == HostInvalidParam ==>
                var r := SetItems(old(StartRecords(init)), tag, buf, cbi.Length);
                HoldsRecords(cbi[..]) && Records(cbi[..]) == r.items && (rv == HostSuccess <==> r.Done?)
      ensures rv == HostSuccess ==>
                synced && WellFormed(cbi[..]) && Check(cbi[..], cbi.Length) == Success && (!noSync ==> InStep())
      ensures rv == HostInvalidParam ==> synced == (old(synced) || !init)
      ensures rv == HostError && (old(synced) || init) ==>
                synced && WellFormed(cbi[..]) && Check(cbi[..], cbi.Length) == Success
                && Records(cbi[..]) == SetItems(old(StartRecords(init)), tag, buf, cbi.Length).items
      ensures rv == HostError ==>
                if synced then WriteFailed(old(StartRecords(init)), tag, buf, old(eeprom.data[..])) && !noSync
                else !init && !old(synced) && eeprom.data[..] == old(eeprom.data[..])
      ensures rv == HostError && synced && !init && !old(synced) ==> Check(old(eeprom.data[..]), cbi.Length) == Success
      ensures rv == HostError && eeprom.busOk ==> !synced && eeprom.data[..] == old(eeprom.data[..])
      ensures !old(Refused(tag, noSync)) && !init && !old(synced) && Check(old(eeprom.data[..]), cbi.Length) != Success ==>
                rv == HostError
      ensures rv == HostError ==>
                !eeprom.busOk || (!init && !old(synced) && Check(old(eeprom.data[..]), cbi.Length) != Success)
    {
      if eeprom.writeProtected && !noSync {
        return HostAccessDenied;
      }
      if !systemUnlocked && (tag == TAG_BOARD_VERSION || tag == TAG_OEM_ID) {
        return HostAccessDenied;
      }
      ghost var start, before := StartRecords(init), eeprom.data[..];
      var ready := Prepare(init);
      if !ready {
        return HostError;
      }
      var ok := Update(tag, buf);
      if !ok {
        return HostInvalidParam;
      }
      if noSync {
        return HostSuccess;
      }
      rv := WriteThrough(start, tag, buf, before);
    }
  }

  /** What a synced update has stored survives a restart: a fresh cache over the same EEPROM
      reads back exactly the updated records. */
  method SetThenRestart(store: Store, tag: byte, buf: seq<byte>, init: bool)
    returns (rv: HostStatus, next: Store, read: EcError)
    requires store.Valid() && store.CacheOk() && (store.synced || init || store.StoredWell()) && |buf| <= 255
    modifies store, store.cbi, store.eeprom.data
    ensures rv == HostSuccess && store.eeprom.busOk ==>
              var r := SetItems(old(store.StartRecords(init)), tag, buf, store.cbi.Length);
              && read == Success && r.Done?
              && WellFormed(next.cbi[..]) && Records(next.cbi[..]) == r.items
  {
    rv := store.CommonCbiSet(tag, buf, init, false);
    next := new Store(store.cbi.Length, 0, store.eeprom, store.systemUnlocked);
    read := Unknown;
    if rv == HostSuccess {
      read := next.CbiRead();
      if read == Success {
        next.LoadedIsWellFormed();
      }
    }
  }
}
