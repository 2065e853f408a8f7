/** The Cros Board Info data format of common/cbi.c and include/cros_board_info.h: a header
    followed by packed records of a tag byte, a size byte and that many value bytes. */
module CbiFormat {
  import opened Memory
  import opened Options

  const HEADER_SIZE := 8
  const RECORD_SIZE := 2

  datatype Item = Item(tag: byte, value: seq<byte>)

  /** A record never has an empty value: setting one removes or omits the record. */
  predicate ValidItem(item: Item) {
    1 <= |item.value| <= 255
  }

  predicate ValidItems(items: seq<Item>) {
    forall i :: 0 <= i < |items| ==> ValidItem(items[i])
  }

  function PackItem(item: Item): (bytes: seq<byte>)
    requires ValidItem(item)
  {
    [item.tag, |item.value|] + item.value
  }

  function Pack(items: seq<Item>): seq<byte>
    requires ValidItems(items)
  {
    if items == [] then [] else PackItem(items[0]) + Pack(items[1..])
  }

  function Parse(bytes: seq<byte>): (r: Option<seq<Item>>)
    ensures r.Some? ==> ValidItems(r.value)
  {
    if bytes == [] then Some([])
    else if |bytes| < RECORD_SIZE || bytes[1] == 0 || |bytes| < RECORD_SIZE + bytes[1] then None
    else
      var size := bytes[1];
      match Parse(bytes[RECORD_SIZE + size..])
      case None => None
      case Some(rest) => Some([Item(bytes[0], bytes[RECORD_SIZE..RECORD_SIZE + size])] + rest)
  }

  lemma {:induction false} ParsePack(items: seq<Item>)
    requires ValidItems(items)
    ensures Parse(Pack(items)) == Some(items)
  {
    if items != [] {
      var bytes, size := Pack(items), |items[0].value|;
      assert bytes[1] == size;
      assert bytes[RECORD_SIZE + size..] == Pack(items[1..]);
      assert Item(bytes[0], bytes[RECORD_SIZE..RECORD_SIZE + size]) == items[0];
      ParsePack(items[1..]);
      assert [items[0]] + items[1..] == items;
    }
  }

  lemma PackFront(item: Item, rest: seq<Item>)
    requires ValidItem(item) && ValidItems(rest)
    ensures ValidItems([item] + rest) && Pack([item] + rest) == PackItem(item) + Pack(rest)
  {
    assert ([item] + rest)[1..] == rest;
  }

  lemma {:induction false} PackParse(bytes: seq<byte>)
    requires Parse(bytes).Some?
    ensures Pack(Parse(bytes).value) == bytes
  {
    if bytes != [] {
      var end := RECORD_SIZE + bytes[1];
      var item := Item(bytes[0], bytes[RECORD_SIZE..end]);
      PackParse(bytes[end..]);
      PackFront(item, Parse(bytes[end..]).value);
      FirstPacked(bytes, item, end);
    }
  }

  lemma FirstPacked(bytes: seq<byte>, item: Item, end: nat)
    requires RECORD_SIZE < end <= |bytes| && end == RECORD_SIZE + bytes[1]
    requires item == Item(bytes[0], bytes[RECORD_SIZE..end])
    ensures PackItem(item) + bytes[end..] == bytes
  {
  }

  lemma {:induction false} PackConcat(x: seq<Item>, y: seq<Item>)
    requires ValidItems(x) && ValidItems(y)
    ensures Pack(x + y) == Pack(x) + Pack(y)
  {
    if x == [] {
      assert x + y == y;
    } else {
      assert (x + y)[1..] == x[1..] + y;
      PackConcat(x[1..], y);
    }
  }

  /** The bytes of a list split around its record `k`. */
  lemma PackAround(items: seq<Item>, k: nat)
    requires ValidItems(items) && k < |items|
    ensures Pack(items) == Pack(items[..k]) + PackItem(items[k]) + Pack(items[k + 1..])
  {
    assert items == items[..k] + items[k..];
    PackConcat(items[..k], items[k..]);
    assert items[k..][1..] == items[k + 1..];
  }

  lemma PackOne(item: Item)
    requires ValidItem(item)
    ensures Pack([item]) == PackItem(item)
  {
    assert [item][1..] == [];
  }

  // -------- lists of records as a finite map

  predicate UniqueTags(items: seq<Item>) {
    forall i, j :: 0 <= i < j < |items| ==> items[i].tag != items[j].tag
  }

  /** The position of the first record with the tag, or the length of the list. */
  function IndexOf(items: seq<Item>, tag: byte): (k: nat)
    ensures k <= |items| && (k < |items| ==> items[k].tag == tag)
    ensures forall i :: 0 <= i < k ==> items[i].tag != tag
  {
    if items == [] || items[0].tag == tag then 0 else 1 + IndexOf(items[1..], tag)
  }

  /** What a lookup of each tag yields. */
  ghost function Contents(items: seq<Item>): map<byte, seq<byte>> {
    map tag: byte | Lookup(items, tag).Some? :: Lookup(items, tag).value
  }

  function Without(items: seq<Item>, k: nat): seq<Item> {
    if k < |items| then items[..k] + items[k + 1..] else items
  }

  datatype SetResult = Done(items: seq<Item>) | Overflow(items: seq<Item>)

  /** `cbi_set_board_info` on the list of records, for an image of `imageSize` bytes. */
  function SetItems(items: seq<Item>, tag: byte, value: seq<byte>, imageSize: nat): (r: SetResult)
    requires ValidItems(items) && |value| <= 255
    ensures ValidItems(r.items)
  {
    var k := IndexOf(items, tag);
    if k < |items| && |items[k].value| == |value| then Done(items[k := Item(tag, value)])
    else
      var rest := Without(items, k);
      if imageSize < HEADER_SIZE + |Pack(rest)| + RECORD_SIZE + |value| then Overflow(rest)
      else if value == [] then Done(rest)
      else Done(rest + [Item(tag, value)])
  }

  function Lookup(items: seq<Item>, tag: byte): Option<seq<byte>> {
    var k := IndexOf(items, tag);
    if k < |items| then Some(items[k].value) else None
  }

  lemma LookupAt(items: seq<Item>, k: nat)
    requires UniqueTags(items) && k < |items|
    ensures IndexOf(items, items[k].tag) == k && Lookup(items, items[k].tag) == Some(items[k].value)
  {
  }

  lemma LookupNone(items: seq<Item>, tag: byte)
    requires forall i :: 0 <= i < |items| ==> items[i].tag != tag
    ensures Lookup(items, tag) == None
  {
  }

  lemma WithoutAt(items: seq<Item>, k: nat, i: nat)
    requires i < |Without(items, k)|
    ensures Without(items, k)[i] == if i < k || |items| <= k then items[i] else items[i + 1]
  {
  }

  lemma WithoutIsUnique(items: seq<Item>, tag: byte)
    requires UniqueTags(items)
    ensures var rest := Without(items, IndexOf(items, tag));
            UniqueTags(rest) && forall i :: 0 <= i < |rest| ==> rest[i].tag != tag
  {
    var k := IndexOf(items, tag);
    var rest := Without(items, k);
    forall i | 0 <= i < |rest|
      ensures rest[i].tag != tag
    {
      WithoutAt(items, k, i);
    }
  }

  lemma LookupWithout(items: seq<Item>, tag: byte, other: byte)
    requires UniqueTags(items)
    ensures Lookup(Without(items, IndexOf(items, tag)), other)
         == if other == tag then None else Lookup(items, other)
  {
    var k, j := IndexOf(items, tag), IndexOf(items, other);
    var rest := Without(items, k);
    if other == tag {
      WithoutIsUnique(items, tag);
      LookupNone(rest, other);
    } else if j < |items| {
      StillPresent(items, k, j);
    } else {
      StillAbsent(items, k, other);
    }
  }

  lemma StillPresent(items: seq<Item>, k: nat, j: nat)
    requires UniqueTags(items) && j < |items| && j != k
    ensures Lookup(Without(items, k), items[j].tag) == Lookup(items, items[j].tag)
  {
    var rest, i := Without(items, k), if k <= j && k < |items| then j - 1 else j;
    WithoutAt(items, k, i);
    forall x, y | 0 <= x < y < |rest|
      ensures rest[x].tag != rest[y].tag
    {
      WithoutAt(items, k, x);
      WithoutAt(items, k, y);
    }
    LookupAt(rest, i);
    LookupAt(items, j);
  }

  lemma StillAbsent(items: seq<Item>, k: nat, tag: byte)
    requires forall i :: 0 <= i < |items| ==> items[i].tag != tag
    ensures Lookup(Without(items, k), tag) == None && Lookup(items, tag) == None
  {
    forall i | 0 <= i < |Without(items, k)|
      ensures Without(items, k)[i].tag != tag
    {
      WithoutAt(items, k, i);
    }
    LookupNone(Without(items, k), tag);
  }

  lemma LookupAppended(items: seq<Item>, item: Item, other: byte)
    requires UniqueTags(items) && forall i :: 0 <= i < |items| ==> items[i].tag != item.tag
    ensures UniqueTags(items + [item])
    ensures Lookup(items + [item], other) == if other == item.tag then Some(item.value) else Lookup(items, other)
  {
    var all, k := items + [item], IndexOf(items, other);
    if k < |items| {
      assert all[k] == items[k];
      LookupAt(all, k);
    } else if other == item.tag {
      assert all[|items|] == item;
      LookupAt(all, |items|);
    } else {
      LookupNone(all, other);
    }
  }

  lemma LookupReplaced(items: seq<Item>, k: nat, value: seq<byte>, other: byte)
    requires UniqueTags(items) && k < |items|
    ensures var all := items[k := Item(items[k].tag, value)];
            UniqueTags(all) && Lookup(all, other) == if other == items[k].tag then Some(value) else Lookup(items, other)
  {
    var all, j := items[k := Item(items[k].tag, value)], IndexOf(items, other);
    LookupAt(items, k);
    if j < |items| {
      LookupAt(all, j);
    } else {
      LookupNone(all, other);
    }
  }

  /** Setting a tag is a map update: an empty value deletes, every other tag is untouched.  An
      overflow has lost the tag's old value, which had another size, and nothing else. */
  lemma SetIsUpdate(items: seq<Item>, tag: byte, value: seq<byte>, imageSize: nat, other: byte)
    requires ValidItems(items) && UniqueTags(items) && |value| <= 255
    ensures var r := SetItems(items, tag, value, imageSize);
            && UniqueTags(r.items)
            && Lookup(r.items, other) ==
                 if other != tag then Lookup(items, other)
                 else if r.Overflow? || value == [] then None else Some(value)
    ensures SetItems(items, tag, value, imageSize).Overflow? && Lookup(items, tag).Some? ==>
              |Lookup(items, tag).value| != |value|
  {
    var k := IndexOf(items, tag);
    WithoutIsUnique(items, tag);
    LookupWithout(items, tag, other);
    if k < |items| && |items[k].value| == |value| {
      LookupReplaced(items, k, value, other);
    } else if value != [] {
      LookupAppended(Without(items, k), Item(tag, value), other);
    }
  }

  lemma ContentsAre(items: seq<Item>, m: map<byte, seq<byte>>)
    requires forall tag: byte :: Lookup(items, tag) == if tag in m then Some(m[tag]) else None
    ensures Contents(items) == m
  {
    forall tag: byte
      ensures tag in Contents(items) <==> tag in m
      ensures tag in m ==> Contents(items)[tag] == m[tag]
    {
      assert Lookup(items, tag) == if tag in m then Some(m[tag]) else None;
    }
  }

  /** The same as one equation between finite maps. */
  lemma SetIsMapUpdate(items: seq<Item>, tag: byte, value: seq<byte>, imageSize: nat)
    requires ValidItems(items) && UniqueTags(items) && |value| <= 255
    ensures var r, before := SetItems(items, tag, value, imageSize), Contents(items);
            Contents(r.items) == if r.Overflow? || value == [] then before - {tag} else before[tag := value]
  {
    var r, before := SetItems(items, tag, value, imageSize), Contents(items);
    var m := if r.Overflow? || value == [] then before - {tag} else before[tag := value];
    forall other: byte
      ensures Lookup(r.items, other) == if other in m then Some(m[other]) else None
    {
      SetIsUpdate(items, tag, value, imageSize, other);
      assert other in before <==> Lookup(items, other).Some?;
    }
    ContentsAre(r.items, m);
  }

  /** Setting a tag once more to the same value changes nothing and fits. */
  lemma SetTwice(items: seq<Item>, tag: byte, value: seq<byte>, imageSize: nat)
    requires ValidItems(items) && UniqueTags(items) && |value| <= 255
    requires SetItems(items, tag, value, imageSize).Done?
    ensures var r := SetItems(items, tag, value, imageSize); SetItems(r.items, tag, value, imageSize) == r
  {
    var r, k := SetItems(items, tag, value, imageSize), IndexOf(items, tag);
    if k < |items| && |items[k].value| == |value| {
      LookupReplaced(items, k, value, tag);
      LookupAt(r.items, k);
      assert r.items[k := Item(tag, value)] == r.items;
    } else {
      var rest := Without(items, k);
      WithoutIsUnique(items, tag);
      if value == [] {
        LookupNone(rest, tag);
      } else {
        LookupAppended(rest, Item(tag, value), tag);
        LookupAt(r.items, |rest|);
        assert r.items[|rest| := Item(tag, value)] == r.items;
      }
    }
  }

  /** The overflow check refuses exactly what does not fit; deleting a present tag always fits. */
  lemma OverflowExactly(items: seq<Item>, tag: byte, value: seq<byte>, imageSize: nat)
    requires ValidItems(items) && |value| <= 255
    requires HEADER_SIZE + |Pack(items)| <= imageSize
    ensures var r, k := SetItems(items, tag, value, imageSize), IndexOf(items, tag);
            && HEADER_SIZE + |Pack(r.items)| <= imageSize
            && (r.Overflow? <==>
                  && !(k < |items| && |items[k].value| == |value|)
                  && imageSize < HEADER_SIZE + |Pack(Without(items, k))| + RECORD_SIZE + |value|)
            && (value == [] && k < |items| ==> r.Done?)
  {
    var k := IndexOf(items, tag);
    if k < |items| {
      PackAround(items, k);
      PackConcat(items[..k], items[k + 1..]);
      if |items[k].value| == |value| {
        var all := items[k := Item(tag, value)];
        PackAround(all, k);
        assert all[..k] == items[..k] && all[k + 1..] == items[k + 1..];
      }
    }
    if value != [] {
      PackConcat(Without(items, k), [Item(tag, value)]);
      PackOne(Item(tag, value));
    }
  }

  // -------- the search over raw bytes

  /** Where `cbi_find_tag` ends up in any image, well-formed or not: the loop guard leaves room
      for one value byte, and a record is skipped by its size byte. */
  function FindFrom(image: seq<byte>, total: nat, p: nat, tag: byte): (d: int)
    requires total <= |image|
    ensures d == -1 || (p <= d && d + RECORD_SIZE < total && image[d] == tag)
    decreases total - p
  {
    if p + RECORD_SIZE >= total then -1
    else if image[p] == tag then p
    else FindFrom(image, total, p + RECORD_SIZE + image[p + 1], tag)
  }

  /** The offset of record `k` behind position `p`. */
  function OffsetOf(items: seq<Item>, k: nat, p: nat): nat
    requires ValidItems(items) && k <= |items|
  {
    p + |Pack(items[..k])|
  }

  lemma NextOffset(items: seq<Item>, k: nat, p: nat)
    requires ValidItems(items) && k < |items|
    ensures OffsetOf(items, k + 1, p) == OffsetOf(items[1..], k, p + RECORD_SIZE + |items[0].value|)
  {
    assert items[..k + 1] == [items[0]] + items[1..][..k];
    PackConcat([items[0]], items[1..][..k]);
    PackOne(items[0]);
  }

  // The first record of a packed stretch and the stretch behind it.
  lemma FirstRecord(image: seq<byte>, total: nat, p: nat, items: seq<Item>)
    requires p <= total <= |image| && ValidItems(items) && items != [] && image[p..total] == Pack(items)
    ensures var q := p + RECORD_SIZE + |items[0].value|;
            && q <= total && image[p] == items[0].tag && image[p + 1] == |items[0].value|
            && image[q..total] == Pack(items[1..])
  {
    var size, bytes := RECORD_SIZE + |items[0].value|, image[p..total];
    assert bytes[..size] == PackItem(items[0]) && bytes[size..] == Pack(items[1..]);
    assert image[p] == bytes[..size][0] && image[p + 1] == bytes[..size][1];
    assert image[p + size..total] == bytes[size..];
  }

  /** On packed records the raw search finds the first record with the tag, or nothing. */
  lemma {:induction false} FindAgrees(image: seq<byte>, total: nat, p: nat, items: seq<Item>, tag: byte)
    requires p <= total <= |image| && ValidItems(items) && image[p..total] == Pack(items)
    ensures var k := IndexOf(items, tag);
            FindFrom(image, total, p, tag) == if k < |items| then OffsetOf(items, k, p) else -1
    decreases |items|
  {
    if items != [] {
      FirstRecord(image, total, p, items);
      if items[0].tag == tag {
        assert items[..0] == [];
        assert FindFrom(image, total, p, tag) == p && IndexOf(items, tag) == 0;
      } else {
        var q, j := p + RECORD_SIZE + |items[0].value|, IndexOf(items[1..], tag);
        assert FindFrom(image, total, p, tag) == FindFrom(image, total, q, tag) && IndexOf(items, tag) == 1 + j;
        FindAgrees(image, total, q, items[1..], tag);
        NextOffset(items, j, p);
      }
    }
  }
}
