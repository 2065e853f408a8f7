/** The word-optimised memory routines of builtin/stdlib.c.

    A buffer is an array of bytes whose first byte has address `base`; all other
    positions are indices into it.  Pointers are rounded to word boundaries exactly
    as the source does, so the head, body and tail loops depend on the alignment.
  */
module Memory {

  type byte = x: int | 0 <= x < 256

  const WORD := 4

  function AlignDown(address: int): int {
    address - address % WORD
  }

  function AlignUp(address: int): int {
    AlignDown(address + (WORD - 1))
  }

  lemma AlignBounds(address: int)
    ensures AlignDown(address) % WORD == 0 && address - WORD < AlignDown(address) <= address
    ensures AlignUp(address) % WORD == 0 && address <= AlignUp(address) < address + WORD
  {
  }

  /** Where the upward copy of [dest, tail) stops going byte by byte. */
  function HeadUp(base: nat, dest: nat, src: nat, tail: nat): (head: nat)
    requires dest <= tail
    ensures dest <= head <= tail
  {
    AlignBounds(base + dest);
    if (base + dest) % WORD != (base + src) % WORD then tail
    else if tail < AlignUp(base + dest) - base then tail
    else AlignUp(base + dest) - base
  }

  /** Where the downward copy of [dest, top) stops going byte by byte. */
  function HeadDown(base: nat, dest: nat, src: nat, top: nat): (head: nat)
    requires dest <= top
    ensures dest <= head <= top
  {
    AlignBounds(base + top);
    if (base + dest) % WORD != (base + src) % WORD then dest
    else if dest > AlignDown(base + top) - base then dest
    else AlignDown(base + top) - base
  }

  lemma SameOffset(base: nat, x: nat, y: nat)
    requires (base + x) % WORD == (base + y) % WORD
    ensures (y - x) % WORD == 0
  {
  }

  /** The word loop runs only between aligned addresses, with source and destination
      equally aligned, and stays inside the destination. */
  lemma UpIsAligned(base: nat, dest: nat, src: nat, tail: nat)
    requires dest <= tail
    ensures var head, body := HeadUp(base, dest, src, tail), AlignDown(base + tail) - base;
            body <= tail && (head < body ==> (body - head) % WORD == 0 && (src - dest) % WORD == 0)
  {
    var head, body := HeadUp(base, dest, src, tail), AlignDown(base + tail) - base;
    AlignBounds(base + tail);
    AlignBounds(base + dest);
    if head < body {
      SameOffset(base, dest, src);
      SameOffset(base, head, body);
    }
  }

  lemma DownIsAligned(base: nat, dest: nat, src: nat, top: nat)
    requires dest <= top
    ensures var head, body := HeadDown(base, dest, src, top), AlignUp(base + dest) - base;
            dest <= body && (head > body ==> (head - body) % WORD == 0 && (src - dest) % WORD == 0)
  {
    var head, body := HeadDown(base, dest, src, top), AlignUp(base + dest) - base;
    AlignBounds(base + top);
    AlignBounds(base + dest);
    if head > body {
      SameOffset(base, dest, src);
      SameOffset(base, body, head);
    }
  }

  /** The memory `m` after the `len` bytes at `src` have been placed at `dest`. */
  function Moved(m: seq<byte>, dest: nat, src: nat, len: nat): seq<byte>
    requires dest + len <= |m| && src + len <= |m|
  {
    m[..dest] + m[src..src + len] + m[dest + len..]
  }

  /** Byte by byte. */
  lemma MovedAt(m: seq<byte>, dest: nat, src: nat, len: nat, i: nat)
    requires dest + len <= |m| && src + len <= |m| && i < |m|
    ensures |Moved(m, dest, src, len)| == |m|
    ensures Moved(m, dest, src, len)[i] == if dest <= i < dest + len then m[src + (i - dest)] else m[i]
  {
  }

  /** The memory `m` after `len` bytes at `dest` have been set to `c`. */
  function Filled(m: seq<byte>, dest: nat, c: byte, len: nat): seq<byte>
    requires dest + len <= |m|
  {
    m[..dest] + seq(len, _ => c) + m[dest + len..]
  }

  lemma FilledAt(m: seq<byte>, dest: nat, c: byte, len: nat, i: nat)
    requires dest + len <= |m| && i < |m|
    ensures |Filled(m, dest, c, len)| == |m|
    ensures Filled(m, dest, c, len)[i] == if dest <= i < dest + len then c else m[i]
  {
  }

  /** In `m`, the bytes at [lo, hi) have been copied from `was`, where they lay `shift`
      bytes further on; every other byte is as it was. */
  ghost predicate Copied(m: seq<byte>, was: seq<byte>, shift: int, lo: int, hi: int) {
    && |m| == |was|
    && (forall k :: lo <= k < hi && 0 <= k < |m| && 0 <= k + shift < |m| ==> m[k] == was[k + shift])
    && (forall k :: 0 <= k < |m| && !(lo <= k < hi) ==> m[k] == was[k])
  }

  lemma CopiedIsMoved(m: seq<byte>, was: seq<byte>, dest: nat, src: nat, len: nat)
    requires dest + len <= |m| && src + len <= |m|
    requires Copied(m, was, src - dest, dest, dest + len)
    ensures m == Moved(was, dest, src, len)
  {
    forall k | 0 <= k < |m|
      ensures m[k] == Moved(was, dest, src, len)[k]
    {
      if dest <= k < dest + len {
        assert was[src..src + len][k - dest] == was[src + (k - dest)];
      }
    }
  }

  // The byte loop that copies the head and the tail upwards.
  method BytesUp(mem: array<byte>, from: nat, end: nat, shift: int, ghost dest: nat, ghost was: seq<byte>)
    requires dest <= from <= end <= mem.Length && 0 <= dest + shift && end + shift <= mem.Length
    requires 0 <= shift || end + shift <= dest
    requires (from == dest && mem[..] == was) || Copied(mem[..], was, shift, dest, from)
    modifies mem
    ensures Copied(mem[..], was, shift, dest, end)
  {
    var d := from;
    while d < end
      invariant from <= d <= end
      invariant Copied(mem[..], was, shift, dest, d)
    {
      mem[d] := mem[d + shift];
      d := d + 1;
    }
  }

  // The word loop that copies the body upwards; a word is read before any of it is written.
  method WordsUp(mem: array<byte>, from: nat, end: nat, shift: int, ghost dest: nat, ghost was: seq<byte>)
    requires dest <= from <= end <= mem.Length && 0 <= dest + shift && end + shift <= mem.Length
    requires 0 <= shift || end + shift <= dest
    requires (end - from) % WORD == 0 && shift % WORD == 0
    requires Copied(mem[..], was, shift, dest, from)
    modifies mem
    ensures Copied(mem[..], was, shift, dest, end)
  {
    var d := from;
    while d < end
      invariant from <= d <= end && (end - d) % WORD == 0
      invariant Copied(mem[..], was, shift, dest, d)
    {
      assert d + WORD <= end;
      var s := d + shift;
      mem[d], mem[d + 1], mem[d + 2], mem[d + 3] := mem[s], mem[s + 1], mem[s + 2], mem[s + 3];
      d := d + WORD;
    }
  }

  // The byte loop that copies the head and the tail downwards.
  method BytesDown(mem: array<byte>, from: nat, end: nat, shift: int, ghost top: nat, ghost was: seq<byte>)
    requires end <= from <= top <= mem.Length && shift < 0 <= end + shift
    requires (from == top && mem[..] == was) || Copied(mem[..], was, shift, from, top)
    modifies mem
    ensures Copied(mem[..], was, shift, end, top)
  {
    var d := from;
    while d > end
      invariant end <= d <= from
      invariant Copied(mem[..], was, shift, d, top)
    {
      d := d - 1;
      mem[d] := mem[d + shift];
    }
  }

  // The word loop that copies the body downwards.
  method WordsDown(mem: array<byte>, from: nat, end: nat, shift: int, ghost top: nat, ghost was: seq<byte>)
    requires end <= from <= top <= mem.Length && shift < 0 <= end + shift
    requires (from - end) % WORD == 0 && shift % WORD == 0
    requires Copied(mem[..], was, shift, from, top)
    modifies mem
    ensures Copied(mem[..], was, shift, end, top)
  {
    var d := from;
    while d > end
      invariant end <= d <= from && (d - end) % WORD == 0
      invariant Copied(mem[..], was, shift, d, top)
    {
      d := d - WORD;
      var s := d + shift;
      mem[d], mem[d + 1], mem[d + 2], mem[d + 3] := mem[s], mem[s + 1], mem[s + 2], mem[s + 3];
    }
  }

  // Where an upward copy of [dest, tail) goes over to words and back to bytes.
  method BoundsUp(base: nat, dest: nat, src: nat, tail: nat) returns (head: nat, body: nat)
    requires dest <= tail
    ensures dest <= head <= body <= tail && (body - head) % WORD == 0
    ensures head < body ==> (src - dest) % WORD == 0
  {
    UpIsAligned(base, dest, src, tail);
    head := HeadUp(base, dest, src, tail);
    body := head;
    if head < AlignDown(base + tail) - base {
      body := AlignDown(base + tail) - base;
    }
  }

  /** Forward copy.  Besides disjoint ranges it also serves an overlapping destination
      that starts at or below the source, which is how `Memmove` uses it. */
  method Memcpy(mem: array<byte>, base: nat, dest: nat, src: nat, len: nat)
    requires dest + len <= mem.Length && src + len <= mem.Length
    requires dest <= src || src + len <= dest
    modifies mem
    ensures mem[..] == Moved(old(mem[..]), dest, src, len)
  {
    var tail := dest + len;
    var head, body := BoundsUp(base, dest, src, tail);
    ghost var was := mem[..];
    BytesUp(mem, dest, head, src - dest, dest, was);
    if head < body {
      WordsUp(mem, head, body, src - dest, dest, was);
    }
    BytesUp(mem, body, tail, src - dest, dest, was);
    CopiedIsMoved(mem[..], was, dest, src, len);
  }

  /** Copy that is right for every overlap. */
  method Memmove(mem: array<byte>, base: nat, dest: nat, src: nat, len: nat)
    requires dest + len <= mem.Length && src + len <= mem.Length
    modifies mem
    ensures mem[..] == Moved(old(mem[..]), dest, src, len)
  {
    if dest <= src || dest >= src + len {
      Memcpy(mem, base, dest, src, len);
      return;
    }
    var top := dest + len;
    var body := AlignUp(base + dest) - base;
    var head := HeadDown(base, dest, src, top);
    DownIsAligned(base, dest, src, top);
    ghost var was := mem[..];
    BytesDown(mem, top, head, src - dest, top, was);
    if head > body {
      WordsDown(mem, head, body, src - dest, top, was);
    }
    BytesDown(mem, if head > body then body else head, dest, src - dest, top, was);
    CopiedIsMoved(mem[..], was, dest, src, len);
  }

  /** In `m`, the bytes at [lo, hi) are `c`; every other byte is as it was. */
  ghost predicate Cleared(m: seq<byte>, was: seq<byte>, c: byte, lo: nat, hi: nat) {
    && |m| == |was|
    && (forall k :: lo <= k < hi && k < |m| ==> m[k] == c)
    && (forall k :: 0 <= k < |m| && !(lo <= k < hi) ==> m[k] == was[k])
  }

  // The byte loop that fills the head and the tail.
  method FillBytes(mem: array<byte>, from: nat, end: nat, c: byte, ghost dest: nat, ghost was: seq<byte>)
    requires dest <= from <= end <= mem.Length && Cleared(mem[..], was, c, dest, from)
    modifies mem
    ensures Cleared(mem[..], was, c, dest, end)
  {
    var d := from;
    while d < end
      invariant from <= d <= end
      invariant Cleared(mem[..], was, c, dest, d)
    {
      mem[d] := c;
      d := d + 1;
    }
  }

  // The word loop that fills the body.
  method FillWords(mem: array<byte>, from: nat, end: nat, c: byte, ghost dest: nat, ghost was: seq<byte>)
    requires dest <= from <= end <= mem.Length && (end - from) % WORD == 0
    requires Cleared(mem[..], was, c, dest, from)
    modifies mem
    ensures Cleared(mem[..], was, c, dest, end)
  {
    var d := from;
    while d < end
      invariant from <= d <= end && (end - d) % WORD == 0
      invariant Cleared(mem[..], was, c, dest, d)
    {
      mem[d], mem[d + 1], mem[d + 2], mem[d + 3] := c, c, c, c;
      d := d + WORD;
    }
  }

  method Memset(mem: array<byte>, base: nat, dest: nat, value: int, len: nat)
    requires dest + len <= mem.Length
    modifies mem
    ensures mem[..] == Filled(old(mem[..]), dest, value % 256, len)
  {
    var tail := dest + len;
    var body := AlignDown(base + tail) - base;
    var c: byte := value % 256;
    var head := HeadUp(base, dest, dest, tail);
    UpIsAligned(base, dest, dest, tail);
    ghost var was := mem[..];
    FillBytes(mem, dest, head, c, dest, was);
    if head < body {
      FillWords(mem, head, body, c, dest, was);
    }
    FillBytes(mem, if head < body then body else head, tail, c, dest, was);
  }

  /** `Memcpy` from another object. */
  method CopyIn(mem: array<byte>, dest: nat, bytes: seq<byte>)
    requires dest + |bytes| <= mem.Length
    modifies mem
    ensures mem[..] == old(mem[..])[..dest] + bytes + old(mem[..])[dest + |bytes|..]
  {
    ghost var was := mem[..];
    var i := 0;
    while i < |bytes|
      invariant 0 <= i <= |bytes|
      invariant mem[..] == was[..dest] + bytes[..i] + was[dest + i..]
    {
      mem[dest + i] := bytes[i];
      i := i + 1;
    }
    assert bytes[..i] == bytes;
  }
}
