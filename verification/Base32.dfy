/** The base-32 text encoding of common/base32.c, with an optional CRC symbol after every group
    of symbols. The table and the CRC function are passed to the methods as a `Code`; `BASE32` is
    the one the program has. */
module Base32 {
  import opened Arithmetic
  import opened Memory
  import opened Bitwise
  import opened Crc5
  import opened Base32Text
  import opened Options

  /** A-Z and 0-9 without I, O, 0 and 1. */
  const BASE32_MAP: string := "ABCDEFGHJKLMNPQRSTUVWXYZ23456789"

  const BASE32: Code := Code((v: Symbol) => BASE32_MAP[v], (x: Symbol, p: Symbol) => Crc5Check(x, p))

  method DecodeSym(code: Code, sym: char) returns (r: int)
    ensures r == SymbolOf(code, sym)
  {
    for i := 0 to 32
      invariant SymbolOf(code, sym) == FindSym(code, sym, i)
    {
      if sym == code.chars(i) {
        return i;
      }
    }
    r := -1;
  }

  /** Where a character of the map stands, computed from its code. */
  function Place(c: char): int {
    if 'A' <= c <= 'H' then c as int - 'A' as int
    else if 'J' <= c <= 'N' then c as int - 'B' as int
    else if 'P' <= c <= 'Z' then c as int - 'C' as int
    else c as int - '2' as int + 24
  }

  lemma PlaceOfMap(v: Symbol)
    ensures Place(BASE32_MAP[v]) == v
  {
  }

  lemma {:induction false} FindSymFinds(code: Code, v: Symbol, i: nat)
    requires i <= v
    ensures FindSym(code, code.chars(v), i) != -1
    decreases 32 - i
  {
    if i < v && code.chars(v) != code.chars(i) {
      FindSymFinds(code, v, i + 1);
    }
  }

  /** Every symbol is recovered from its character. */
  lemma Base32IsReadable()
    ensures Readable(BASE32)
  {
    forall v: Symbol
      ensures SymbolOf(BASE32, BASE32.chars(v)) == v && !Skipped(BASE32.chars(v)) && BASE32.chars(v) != '\0'
    {
      FindSymFinds(BASE32, v, 0);
      FindSymIsOf(BASE32, BASE32.chars(v), 0);
      var r := SymbolOf(BASE32, BASE32.chars(v));
      PlaceOfMap(v);
      PlaceOfMap(r);
    }
  }

  lemma Base32SeesErrors()
    ensures SeesSymbol(BASE32) && KeepsState(BASE32) && SeesSwap(BASE32) && SeesCrcSwap(BASE32)
  {
    forall x: Symbol, y: Symbol, p: Symbol | BASE32.check(x, p) == BASE32.check(y, p)
      ensures x == y
    {
      Crc5SeesSymbol(x, y, p);
    }
    forall x: Symbol, p: Symbol, q: Symbol | BASE32.check(x, p) == BASE32.check(x, q)
      ensures p == q
    {
      Crc5KeepsState(x, p, q);
    }
    forall x: Symbol, y: Symbol, p: Symbol | BASE32.check(y, BASE32.check(x, p)) == BASE32.check(x, BASE32.check(y, p))
      ensures x == y
    {
      Crc5SeesSwap(x, y, p);
    }
    forall x: Symbol, p: Symbol | BASE32.check(BASE32.check(x, p), p) == x
      ensures BASE32.check(x, p) == x
    {
      Crc5SeesCrcSwap(x, BASE32.check(x, p), p);
    }
  }

  // -------- encoding

  /** The first `n` bits of the source, each byte most significant bit first. */
  function BitsOf(src: seq<byte>, n: nat): (bits: seq<bool>)
    requires n <= 8 * |src|
    ensures |bits| == n
  {
    if n == 0 then [] else BitsOf(src, n - 1) + [Bit(src[(n - 1) / 8], 7 - (n - 1) % 8)]
  }

  lemma {:induction false} BitsOfAt(src: seq<byte>, n: nat, j: nat)
    requires j < n <= 8 * |src|
    ensures BitsOf(src, n)[j] == Bit(src[j / 8], 7 - j % 8) == (src[j / 8] / Pow2(7 - j % 8) % 2 == 1)
  {
    BitIsDigit(src[j / 8], 7 - j % 8);
    if j < n - 1 {
      BitsOfAt(src, n - 1, j);
    }
  }

  /** Which source byte the symbol at bit `i` is read up to. */
  function LastRead(n: nat, i: nat): nat {
    if i % 8 > 3 && i + 1 < n then i / 8 + 1 else i / 8
  }

  /** Whether encoding `n` bits reads the byte behind those the bits lie in: the last symbol starts
      in the last of them, in its low half, and is not just its lowest bit. */
  predicate ReadsBehind(n: nat) {
    n > 0 &&
    var i := 5 * ((n - 1) / 5);
    i % 8 > 3 && i + 1 < n && i / 8 == (n - 1) / 8
  }

  /** How many source bytes encoding reads. */
  function BytesRead(n: nat): (size: nat)
    ensures n <= 8 * size
  {
    (n + 7) / 8 + if ReadsBehind(n) then 1 else 0
  }

  lemma ReadsUpTo(n: nat, q: nat)
    requires 5 * q < n
    ensures LastRead(n, 5 * q) < BytesRead(n)
    ensures q == (n - 1) / 5 ==> LastRead(n, 5 * q) == BytesRead(n) - 1
  {
    var i, last := 5 * q, 5 * ((n - 1) / 5);
    if i < last {
      assert i + 4 < n && LastRead(n, i) <= (i + 4) / 8 <= (n - 1) / 8;
    } else {
      assert i == last && n <= i + 5;
    }
  }

  /** The loop stays inside a source of `size` bytes exactly if these are enough. */
  lemma StaysInsideExactly(size: nat, n: nat)
    ensures BytesRead(n) <= size <==> forall q: nat :: 5 * q < n ==> LastRead(n, 5 * q) < size
  {
    if n > 0 {
      ReadsUpTo(n, (n - 1) / 5);
    }
    if BytesRead(n) <= size {
      forall q: nat | 5 * q < n
        ensures LastRead(n, 5 * q) < size
      {
        ReadsUpTo(n, q);
      }
    }
  }

  /** For a source of whole bytes the byte behind it is read exactly for these lengths. */
  lemma WholeBytesReadBehind(size: nat)
    ensures ReadsBehind(8 * size) <==> size % 5 == 1 || size % 5 == 3 || size % 5 == 4
  {
  }

  /** The bits from bit `i` on, cut out of one or two source bytes. */
  function Window(src: seq<byte>, n: nat, i: nat): nat
    requires i < n && LastRead(n, i) < |src|
  {
    var sidx, bitOffs := i / 8, i % 8;
    if bitOffs <= 3 then Shr(src[sidx], 3 - bitOffs)
    else if i + 1 < n then Or(Shl(src[sidx], bitOffs - 3), Shr(src[sidx + 1], 11 - bitOffs))
    else Shl(src[sidx], bitOffs - 3)
  }

  /** Five bits of it, filled up with zeros behind the last source bit. */
  function Masked(sym: nat, n: nat, i: nat): nat
    requires i < n
  {
    var low := And(sym, 0x1F);
    if n - i < 5 then And(low, Shl(0x1F, 5 + i - n)) else low
  }

  lemma MaskBit(k: nat)
    ensures Bit(0x1F, k) == (k < 5)
  {
    assert Pow2(5) == 32;
    FiveBits(true, true, true, true, true);
    assert Five(true, true, true, true, true) == 0x1F;
    if k >= 5 {
      HighBit(0x1F, 5, k);
    } else if k < 2 {
    } else if k == 2 {
    } else if k == 3 {
    } else {
      assert k == 4;
    }
  }

  lemma ByteHighBit(b: byte, k: nat)
    requires k >= 8
    ensures !Bit(b, k)
  {
    assert Pow2(8) == 256;
    HighBit(b, 8, k);
  }

  /** Bit `k` of the window, counted from the left, is the source bit `i + k`. */
  lemma WindowBit(src: seq<byte>, n: nat, i: nat, k: nat)
    requires i < n <= 8 * |src| && LastRead(n, i) < |src| && k < 5 && i + k < n
    ensures Bit(Window(src, n, i), 4 - k) == Bit(src[(i + k) / 8], 7 - (i + k) % 8)
  {
    var sidx, bitOffs := i / 8, i % 8;
    assert i == 8 * sidx + bitOffs;
    if bitOffs + k < 8 {
      QuotientAndRemainder(i + k, sidx, 8, bitOffs + k);
      assert (i + k) / 8 == sidx;
    } else {
      QuotientAndRemainder(i + k, sidx + 1, 8, bitOffs + k - 8);
      assert (i + k) / 8 == sidx + 1;
    }
    if bitOffs <= 3 {
      ShrBit(src[sidx], 3 - bitOffs, 4 - k);
    } else {
      ShlBit(src[sidx], bitOffs - 3, 4 - k);
      if i + 1 < n {
        OrBit(Shl(src[sidx], bitOffs - 3), Shr(src[sidx + 1], 11 - bitOffs), 4 - k);
        ShrBit(src[sidx + 1], 11 - bitOffs, 4 - k);
        if bitOffs + k < 8 {
          ByteHighBit(src[sidx + 1], 15 - bitOffs - k);
        }
      }
    }
  }

  lemma MaskedBit(sym: nat, n: nat, i: nat, k: nat)
    requires i < n && k < 5
    ensures Bit(Masked(sym, n, i), 4 - k) == (i + k < n && Bit(sym, 4 - k))
  {
    AndBit(sym, 0x1F, 4 - k);
    MaskBit(4 - k);
    if n - i < 5 {
      AndBit(And(sym, 0x1F), Shl(0x1F, 5 + i - n), 4 - k);
      ShlBit(0x1F, 5 + i - n, 4 - k);
      if i + k < n {
        MaskBit(n - 1 - i - k);
      }
    }
  }

  lemma MaskedBound(sym: nat, n: nat, i: nat)
    requires i < n
    ensures Masked(sym, n, i) < 32
  {
    assert Pow2(5) == 32;
    var low := And(sym, 0x1F);
    AndBound(sym, 0x1F, 5);
    if n - i < 5 {
      AndCommutes(low, Shl(0x1F, 5 + i - n));
      AndBound(Shl(0x1F, 5 + i - n), low, 5);
    }
  }

  /** What is cut out is the group of five source bits, filled up with zeros; the source byte
      behind the last bit has no influence, even where it is read. */
  lemma WindowIsGroup(src: seq<byte>, n: nat, q: nat)
    requires 5 * q < n <= 8 * |src| && LastRead(n, 5 * q) < |src|
    ensures Masked(Window(src, n, 5 * q), n, 5 * q) == Group(BitsOf(src, n), q)
  {
    var sym := Masked(Window(src, n, 5 * q), n, 5 * q);
    forall k | 0 <= k < 5
      ensures HasBit(sym, BitsOf(src, n), q, k)
    {
      MaskedBit(Window(src, n, 5 * q), n, 5 * q, k);
      if 5 * q + k < n {
        WindowBit(src, n, 5 * q, k);
        BitsOfAt(src, n, 5 * q + k);
      }
    }
    MaskedBound(Window(src, n, 5 * q), n, 5 * q);
    IsGroup(sym, BitsOf(src, n), q);
  }

  /** Cuts the symbol at bit `i` out of the source. */
  method NextSymbol(src: seq<byte>, n: nat, i: nat, ghost q: nat) returns (sym: Symbol)
    requires i == 5 * q < n && BytesRead(n) <= |src|
    ensures sym == Group(BitsOf(src, n), q)
  {
    ReadsUpTo(n, q);
    var cut;
    var sidx, bitOffs := i / 8, i % 8;
    if bitOffs <= 3 {
      cut := Shr(src[sidx], 3 - bitOffs);
    } else {
      cut := Shl(src[sidx], bitOffs - 3);
      if i + 1 < n {
        cut := Or(cut, Shr(src[sidx + 1], 11 - bitOffs));
      }
    }
    assert cut == Window(src, n, i);
    WindowIsGroup(src, n, q);
    cut := And(cut, 0x1F);
    if n - i < 5 {
      cut := And(cut, Shl(0x1F, 5 + i - n));
    }
    sym := cut;
  }

  // A known text of test/base32.c: the bits 00001, 00010 and 00011.
  lemma KnownBits(src: seq<byte>, j: nat)
    requires src == [0x08, 0x86] && j < 15
    ensures BitsOf(src, 15)[j] == (j in {4, 8, 13, 14})
  {
    BitsOfAt(src, 15, j);
    KnownBit(7 - j % 8);
  }

  lemma KnownBit(k: nat)
    requires k < 8
    ensures Bit(0x08, k) == (k == 3) && Bit(0x86, k) == (k in {1, 2, 7})
  {
    BitIsDigit(0x08, k);
    BitIsDigit(0x86, k);
    assert Pow2(0) == 1 && Pow2(1) == 2 && Pow2(2) == 4 && Pow2(3) == 8;
    assert Pow2(4) == 16 && Pow2(5) == 32 && Pow2(6) == 64 && Pow2(7) == 128;
  }

  lemma KnownGroup(src: seq<byte>, q: nat)
    requires src == [0x08, 0x86] && q < 3
    ensures Group(BitsOf(src, 15), q) == q + 1
  {
    KnownBits(src, 5 * q);
    KnownBits(src, 5 * q + 1);
    KnownBits(src, 5 * q + 2);
    KnownBits(src, 5 * q + 3);
    KnownBits(src, 5 * q + 4);
  }

  lemma KnownChar(src: seq<byte>, text: string, q: nat)
    requires src == [0x08, 0x86] && q < 3 && text == EncodedText(BASE32, BitsOf(src, 15), 0)
    ensures |text| == 3 && text[q] == "BCD"[q]
  {
    KnownGroup(src, q);
    SymbolAt(BASE32, BitsOf(src, 15), 0, q);
    EncodingLength(BASE32, BitsOf(src, 15), 0, 3);
  }

  lemma KnownText(src: seq<byte>, text: string)
    requires src == [0x08, 0x86] && text == EncodedText(BASE32, BitsOf(src, 15), 0)
    ensures text == "BCD"
  {
    KnownChar(src, text, 0);
    KnownChar(src, text, 1);
    KnownChar(src, text, 2);
  }

  /** A C string in a buffer. */
  predicate Terminated(buf: string, text: string) {
    text + ['\0'] <= buf
  }

  /** Appends a character. */
  method Put(dest: array<char>, didx: nat, c: char) returns (next: nat)
    requires didx < dest.Length
    modifies dest
    ensures next == didx + 1 && dest[..next] == old(dest[..didx]) + [c]
  {
    dest[didx] := c;
    next := didx + 1;
  }

  /** Writes one symbol, and the CRC symbol if it is due. */
  method PutSymbol(code: Code, dest: array<char>, didx: nat, sym: Symbol, crc: Symbol, crcCount: nat, every: nat)
    returns (didx': nat, crc': Symbol, crcCount': nat)
    requires every == 0 ==> crc == crcCount == 0
    requires didx <= dest.Length && |Next(code, Enc(dest[..didx], crc, crcCount), sym, every).text| <= dest.Length
    modifies dest
    ensures didx' <= dest.Length
    ensures Enc(dest[..didx'], crc', crcCount') == Next(code, Enc(old(dest[..didx]), crc, crcCount), sym, every)
    ensures every == 0 ==> crc' == crcCount' == 0
  {
    didx', crc', crcCount' := didx, crc, crcCount;
    didx' := Put(dest, didx', code.chars(sym));
    if every != 0 {
      crc' := code.check(sym, crc');
      crcCount' := crcCount' + 1;
      if crcCount' == every {
        didx' := Put(dest, didx', code.chars(crc'));
        crcCount', crc' := 0, 0;
      }
    }
  }

  /** One round of the loop of `Encode`: symbol `q` and, if it is due, the CRC symbol. */
  method EncodeGroup(code: Code, dest: array<char>, didx: nat, src: seq<byte>, n: nat, every: nat,
                     i: nat, crc: Symbol, crcCount: nat, ghost q: nat, ghost bits: seq<bool>)
    returns (didx': nat, crc': Symbol, crcCount': nat)
    requires i == 5 * q < n && BytesRead(n) <= |src| && bits == BitsOf(src, n)
    requires didx <= dest.Length && (every == 0 ==> crc == crcCount == 0)
    requires Enc(dest[..didx], crc, crcCount) == Encoding(code, bits, every, q)
    requires |EncodedText(code, bits, every)| < dest.Length
    modifies dest
    ensures didx' < dest.Length && (every == 0 ==> crc' == crcCount' == 0)
    ensures Enc(dest[..didx'], crc', crcCount') == Encoding(code, bits, every, q + 1)
  {
    var sym := NextSymbol(src, n, i, q);
    EncodingFits(code, bits, every, q + 1, dest.Length);
    assert Encoding(code, bits, every, q + 1) == Next(code, Encoding(code, bits, every, q), sym, every);
    didx', crc', crcCount' := PutSymbol(code, dest, didx, sym, crc, crcCount, every);
    assert |dest[..didx']| == didx';
  }

  /** The loop of `Encode`, behind its checks. */
  method EncodeSymbols(code: Code, dest: array<char>, src: seq<byte>, n: nat, every: nat)
    requires BytesRead(n) <= |src|
    requires |EncodedText(code, BitsOf(src, n), every)| < dest.Length
    modifies dest
    ensures Terminated(dest[..], EncodedText(code, BitsOf(src, n), every))
  {
    ghost var bits := BitsOf(src, n);
    var crc: Symbol := 0;
    var crcCount: nat, didx: nat, i := 0, 0, 0;
    ghost var q: nat := 0;
    while i < n
      invariant i == 5 * q && q <= Groups(n)
      invariant didx < dest.Length
      invariant every == 0 ==> crc == crcCount == 0
      invariant Enc(dest[..didx], crc, crcCount) == Encoding(code, bits, every, q)
    {
      didx, crc, crcCount := EncodeGroup(code, dest, didx, src, n, every, i, crc, crcCount, q, bits);
      i, q := i + 5, q + 1;
    }
    assert q == Groups(n);
    didx := Put(dest, didx, '\0');
  }

  method Encode(code: Code, dest: array<char>, destLen: nat, src: seq<byte>, n: nat, every: nat) returns (ok: bool)
    requires 1 <= dest.Length && destLen <= dest.Length
    requires BytesRead(n) <= |src|
    modifies dest
    ensures ok <==> (every > 0 ==> (n + 4) / 5 % every == 0)
                    && (n + 4) / 5 + (if every > 0 then (n + 4) / 5 / every else 0) + 1 <= destLen
    ensures !ok ==> dest[..] == ['\0'] + old(dest[1..])
    ensures ok ==> Terminated(dest[..], EncodedText(code, BitsOf(src, n), every))
  {
    dest[0] := '\0';
    var destLenNeeded := (n + 4) / 5;
    if every != 0 {
      if destLenNeeded % every != 0 {
        return false;
      }
      destLenNeeded := destLenNeeded + destLenNeeded / every;
    }
    destLenNeeded := destLenNeeded + 1;
    if destLen < destLenNeeded {
      return false;
    }
    EncodingLength(code, BitsOf(src, n), every, Groups(n));
    EncodeSymbols(code, dest, src, n, every);
    ok := true;
  }

  // -------- decoding

  /** The byte starts with these bits, most significant first, and ends with zeros. */
  ghost predicate ByteHas(b: byte, f: seq<bool>) {
    |f| <= 8 && forall k {:trigger BitOr0(f, k)} :: 0 <= k < 8 ==> Bit(b, 7 - k) == BitOr0(f, k)
  }

  function Piece(bits: seq<bool>, i: nat): seq<bool>
    requires 8 * i <= |bits|
  {
    bits[8 * i..Min(8 * i + 8, |bits|)]
  }

  /** The bits are packed into the first bytes, the last of them filled up with zeros. */
  ghost predicate Holds(mem: seq<byte>, bits: seq<bool>) {
    && |bits| <= 8 * |mem|
    && forall i :: 0 <= i < (|bits| + 7) / 8 ==> ByteHas(mem[i], Piece(bits, i))
  }

  /** Bit `j` is in byte `j / 8`, the first bit of a byte being its most significant one; zeros fill up the last byte. */
  lemma HoldsAt(mem: seq<byte>, bits: seq<bool>, j: nat)
    requires Holds(mem, bits) && j / 8 < (|bits| + 7) / 8
    ensures Bit(mem[j / 8], 7 - j % 8) == (j < |bits| && bits[j]) == (mem[j / 8] / Pow2(7 - j % 8) % 2 == 1)
  {
    BitIsDigit(mem[j / 8], 7 - j % 8);
    var f := Piece(bits, j / 8);
    assert ByteHas(mem[j / 8], f);
    assert BitOr0(f, j % 8) == (j < |bits| && bits[j]);
  }

  /** Bits `top - 1` down to `top - len` of a number. */
  function Run(s: nat, top: nat, len: nat): (f: seq<bool>)
    requires len <= top
    ensures |f| == len
  {
    seq(len, j requires 0 <= j < len => Bit(s, top - 1 - j))
  }

  lemma HoldsMore(mem: seq<byte>, bits: seq<bool>, g: seq<bool>, b: byte)
    requires Holds(mem, bits) && 1 <= |g| <= 8 - |bits| % 8 && |bits| + |g| <= 8 * |mem|
    requires ByteHas(b, bits[8 * (|bits| / 8)..] + g)
    ensures Holds(mem[|bits| / 8 := b], bits + g)
  {
    var last := |bits| / 8;
    forall i | 0 <= i < (|bits + g| + 7) / 8
      ensures ByteHas(mem[last := b][i], Piece(bits + g, i))
    {
      if i == last {
        assert Min(8 * last + 8, |bits + g|) == |bits + g|;
        assert (bits + g)[8 * last..] == bits[8 * last..] + g;
        assert Piece(bits + g, i) == bits[8 * last..] + g;
      } else {
        assert Piece(bits + g, i) == Piece(bits, i);
      }
    }
  }

  lemma MovedBit(s: nat, t: nat, b: nat, room: nat, k: nat)
    requires b <= room && b <= t && k < 8
    ensures Bit(Shr(Shl(s, room - b), t - b), 7 - k) == (room <= 7 - k + t && Bit(s, 7 - k + t - room))
  {
    ShrBit(Shl(s, room - b), t - b, 7 - k);
    ShlBit(s, room - b, 7 - k + t - b);
  }

  lemma FillsBit(was: byte, f: seq<bool>, s: nat, t: nat, b: nat, room: nat, k: nat)
    requires k < 8 && Bit(was, 7 - k) == BitOr0(f, k)
    requires |f| == 8 - room && 1 <= room <= 8 && s < Pow2(t) && b == Min(room, t)
    ensures Bit(Or(was, Shr(Shl(s, room - b), t - b)) % Pow2(8), 7 - k) == BitOr0(f + Run(s, t, b), k)
  {
    var x, g := Shr(Shl(s, room - b), t - b), Run(s, t, b);
    CutBit(Or(was, x), 8, 7 - k);
    OrBit(was, x, 7 - k);
    MovedBit(s, t, b, room, k);
    if k < |f| {
      if room <= 7 - k + t {
        HighBit(s, t, 7 - k + t - room);
      }
      assert BitOr0(f + g, k) == BitOr0(f, k) && !Bit(x, 7 - k);
    } else if k < |f| + b {
      assert BitOr0(f + g, k) == Bit(s, t - 1 - (k - |f|)) == Bit(x, 7 - k);
    } else {
      assert !BitOr0(f + g, k) && !Bit(x, 7 - k);
    }
  }

  /** Filling up a byte. */
  lemma FillsByte(was: byte, f: seq<bool>, s: nat, t: nat, b: nat, room: nat)
    requires ByteHas(was, f) && |f| == 8 - room && 1 <= room <= 8 && s < Pow2(t) && b == Min(room, t)
    ensures ByteHas(Or(was, Shr(Shl(s, room - b), t - b)) % Pow2(8), f + Run(s, t, b))
  {
    CutBit(Or(was, Shr(Shl(s, room - b), t - b)), 8, 0);
    assert Pow2(8) == 256;
    forall k | 0 <= k < 8
      ensures Bit(Or(was, Shr(Shl(s, room - b), t - b)) % Pow2(8), 7 - k) == BitOr0(f + Run(s, t, b), k)
    {
      assert Bit(was, 7 - k) == BitOr0(f, k);
      FillsBit(was, f, s, t, b, room, k);
    }
  }

  /** Starting a byte. */
  lemma StartsByte(s: nat, t: nat)
    requires t <= 8
    ensures ByteHas(Shl(s, 8 - t) % Pow2(8), Run(s, t, t))
  {
    forall k | 0 <= k < 8
      ensures Bit(Shl(s, 8 - t) % Pow2(8), 7 - k) == BitOr0(Run(s, t, t), k)
    {
      CutBit(Shl(s, 8 - t), 8, 7 - k);
      ShlBit(s, 8 - t, 7 - k);
    }
  }

  lemma TopBits(v: Symbol, t: nat)
    requires t <= 5
    ensures Shr(v, 5 - t) < Pow2(t) && Run(Shr(v, 5 - t), t, t) == FirstBits(v, t)
  {
    forall j | 0 <= j < t
      ensures Run(Shr(v, 5 - t), t, t)[j] == FirstBits(v, t)[j]
    {
      ShrBit(v, 5 - t, t - 1 - j);
    }
    ShrSmall(v, 5 - t, t);
  }

  lemma {:induction false} ShrSmall(v: nat, j: nat, t: nat)
    requires v < Pow2(t + j)
    ensures Shr(v, j) < Pow2(t)
    decreases j
  {
    if j > 0 {
      ShrSmall(v / 2, j - 1, t);
    }
  }

  lemma RunsJoin(s: nat, t: nat, b: nat)
    requires b <= t
    ensures Run(s, t, b) + Run(s, t - b, t - b) == Run(s, t, t)
  {
  }

  lemma LastByte(mem: seq<byte>, bits: seq<bool>)
    requires Holds(mem, bits) && |bits| < 8 * |mem|
    ensures ByteHas(if |bits| % 8 == 0 then 0 else mem[|bits| / 8], bits[8 * (|bits| / 8)..])
  {
    var last := |bits| / 8;
    if |bits| % 8 == 0 {
      assert bits[8 * last..] == [];
      forall k | 0 <= k < 8
        ensures Bit(0, 7 - k) == BitOr0(bits[8 * last..], k)
      {
        ZeroBit(7 - k);
      }
    } else {
      assert Piece(bits, last) == bits[8 * last..];
    }
  }

  /** Puts the top `b` of `t` bits into the byte that is being filled. */
  method FillByte(dest: array<byte>, outBits: nat, sym: nat, t: nat, b: nat, ghost bits: seq<bool>)
    requires |bits| == outBits < 8 * dest.Length && Holds(dest[..], bits)
    requires sym < Pow2(t) && t > 0 && b == Min(8 - outBits % 8, t) && outBits + b <= 8 * dest.Length
    modifies dest
    ensures Holds(dest[..], bits + Run(sym, t, b))
    ensures forall i :: 0 <= i < dest.Length && 8 * i != outBits - outBits % 8 ==> dest[i] == old(dest[i])
  {
    var dbits := 8 - outBits % 8;
    LastByte(dest[..], bits);
    if dbits == 8 {
      dest[outBits / 8] := 0;
    }
    FillsByte(dest[outBits / 8], bits[8 * (outBits / 8)..], sym, t, b, dbits);
    assert Pow2(8) == 256;
    var filled: byte := Or(dest[outBits / 8], Shr(Shl(sym, dbits - b), t - b)) % 256;
    HoldsMore(old(dest[..]), bits, Run(sym, t, b), filled);
    dest[outBits / 8] := filled;
    assert dest[..] == old(dest[..])[outBits / 8 := filled];
  }

  /** Starts a byte with the low `t` bits. */
  method StartByte(dest: array<byte>, outBits: nat, sym: nat, t: nat, ghost bits: seq<bool>)
    requires |bits| == outBits && outBits % 8 == 0 && Holds(dest[..], bits)
    requires 1 <= t <= 8 && outBits + t <= 8 * dest.Length
    modifies dest
    ensures Holds(dest[..], bits + Run(sym, t, t))
    ensures forall i :: 0 <= i < dest.Length && 8 * i != outBits - outBits % 8 ==> dest[i] == old(dest[i])
  {
    StartsByte(sym, t);
    assert Pow2(8) == 256;
    var started: byte := Shl(sym, 8 - t) % 256;
    assert bits[8 * (outBits / 8)..] + Run(sym, t, t) == Run(sym, t, t);
    HoldsMore(dest[..], bits, Run(sym, t, t), started);
    dest[outBits / 8] := started;
    assert dest[..] == old(dest[..])[outBits / 8 := started];
  }

  // The bits of a symbol that have not fitted into the byte before, if there are any.
  method StartWithRest(dest: array<byte>, outBits: nat, sym: nat, t: nat, ghost bits: seq<bool>) returns (outBits': nat)
    requires |bits| == outBits && Holds(dest[..], bits) && outBits + t <= 8 * dest.Length
    requires t > 0 ==> outBits % 8 == 0 && t <= 8
    modifies dest
    ensures outBits' == outBits + t && Holds(dest[..], bits + Run(sym, t, t))
    ensures forall i :: 0 <= i < dest.Length && (t > 0 ==> i != outBits / 8) ==> dest[i] == old(dest[i])
  {
    if t > 0 {
      StartByte(dest, outBits, sym, t, bits);
    } else {
      assert bits + Run(sym, t, t) == bits;
    }
    outBits' := outBits + t;
  }

  /** Bits that do not fit into the byte being filled begin a byte. */
  lemma RestBegins(outBits: nat, sbits: nat, b: nat)
    requires b == Min(8 - outBits % 8, sbits) < sbits
    ensures (outBits + b) % 8 == 0
  {
  }

  /** Appends the bits that are used of a symbol to those in the destination. */
  method TakeBits(dest: array<byte>, outBits: nat, n: nat, v: Symbol, ghost bits: seq<bool>) returns (outBits': nat)
    requires |bits| == outBits < n <= 8 * dest.Length && Holds(dest[..], bits)
    modifies dest
    ensures outBits' == outBits + Min(5, n - outBits)
    ensures Holds(dest[..], bits + FirstBits(v, Min(5, n - outBits)))
    ensures forall i :: (n + 7) / 8 <= i < dest.Length ==> dest[i] == old(dest[i])
  {
    var sbits := Min(5, n - outBits);
    TopBits(v, sbits);
    var sym := v;
    if sbits < 5 {
      sym := Shr(sym, 5 - sbits);
    }
    var dbits := 8 - outBits % 8;
    var b := Min(dbits, sbits);
    FillByte(dest, outBits, sym, sbits, b, bits);
    ghost var run, rest := Run(sym, sbits, b), Run(sym, sbits - b, sbits - b);
    RunsJoin(sym, sbits, b);
    if b < sbits {
      RestBegins(outBits, sbits, b);
    }
    assert (bits + run) + rest == bits + (run + rest);
    outBits' := StartWithRest(dest, outBits + b, sym, sbits - b, bits + run);
  }

  /** How reading a symbol ends: the loop goes on, it has bits enough, or the text is refused. */
  datatype Reading = GoesOn | HasEnough | IsRefused

  function ReadingOf(reading: Reading, d: Dec): Outcome {
    match reading
    case GoesOn => More(d)
    case HasEnough => Full(d)
    case IsRefused => Bad
  }

  /** One round of the loop of `Decode` with a symbol. */
  method ReadSymbol(code: Code, dest: array<byte>, n: nat, every: nat, sym: Symbol,
                    crc: Symbol, crcCount: nat, outBits: nat, ghost d: Dec)
    returns (reading: Reading, crc': Symbol, crcCount': nat, outBits': nat, ghost d': Dec)
    requires d == Dec(crc, crcCount, d.bits) && |d.bits| == outBits <= n <= 8 * dest.Length
    requires Holds(dest[..], d.bits)
    modifies dest
    ensures d' == Dec(crc', crcCount', d'.bits) && |d'.bits| == outBits' <= n && Holds(dest[..], d'.bits)
    ensures DecodeSymbol(code, every, n, d, sym) == ReadingOf(reading, d')
    ensures forall i :: (n + 7) / 8 <= i < dest.Length ==> dest[i] == old(dest[i])
  {
    crc', crcCount', outBits', d' := crc, crcCount, outBits, d;
    if every != 0 {
      if crcCount' == every {
        if crc' != sym {
          reading := IsRefused;
          return;
        }
        crcCount', crc' := 0, 0;
        d' := Dec(0, 0, d.bits);
        reading := GoesOn;
        return;
      }
      crc' := code.check(sym, crc');
      crcCount' := crcCount' + 1;
      d' := Dec(crc', crcCount', d.bits);
    }
    if outBits' >= n {
      reading := HasEnough;
      return;
    }
    outBits' := TakeBits(dest, outBits', n, sym, d.bits);
    d' := d'.(bits := d.bits + FirstBits(sym, Min(5, n - |d.bits|)));
    reading := GoesOn;
  }

  /** Decodes the C string `text` in `src` into at most `n` bits; -1 if it is not accepted. */
  method Decode(code: Code, dest: array<byte>, n: nat, src: string, every: nat, ghost text: string) returns (r: int)
    requires Terminated(src, text) && '\0' !in text
    requires n <= 8 * dest.Length
    modifies dest
    ensures match DecodedBits(code, every, n, text)
            case None => r == -1
            case Some(bits) => r == |bits| && Holds(dest[..], bits)
    ensures forall i :: (n + 7) / 8 <= i < dest.Length ==> dest[i] == old(dest[i])
  {
    var crc: Symbol := 0;
    var crcCount: nat, outBits: nat := 0, 0;
    ghost var d := Dec(0, 0, []);
    var i := 0;
    assert src[|text|] == '\0';
    while src[i] != '\0'
      invariant i <= |text|
      invariant |d.bits| == outBits <= n && d == Dec(crc, crcCount, d.bits)
      invariant Holds(dest[..], d.bits)
      invariant Decoding(code, every, n, text[..i]) == More(d)
      invariant forall i :: (n + 7) / 8 <= i < dest.Length ==> dest[i] == old(dest[i])
      decreases |text| - i
    {
      assert src[i] == text[i];
      DecodeStep(code, every, n, text, i, d);
      if Skipped(src[i]) {
        i := i + 1;
        continue;
      }
      var sym := DecodeSym(code, src[i]);
      if sym < 0 {
        return -1;
      }
      FindSymIsOf(code, src[i], 0);
      var reading;
      reading, crc, crcCount, outBits, d := ReadSymbol(code, dest, n, every, sym, crc, crcCount, outBits, d);
      if reading == IsRefused {
        return -1;
      }
      if reading == HasEnough {
        break;
      }
      i := i + 1;
    }
    assert text[..|text|] == text;
    if every != 0 && crcCount != 0 {
      return -1;
    }
    r := outBits;
  }

  lemma NextHasNoNul(code: Code, e: Enc, sym: Symbol, every: nat)
    requires Readable(code) && '\0' !in e.text
    ensures '\0' !in Next(code, e, sym, every).text
  {
  }

  lemma {:induction false} EncodingHasNoNul(code: Code, bits: seq<bool>, every: nat, q: nat)
    requires Readable(code)
    ensures '\0' !in Encoding(code, bits, every, q).text
  {
    if q > 0 {
      EncodingHasNoNul(code, bits, every, q - 1);
      NextHasNoNul(code, Encoding(code, bits, every, q - 1), Group(bits, q - 1), every);
    }
  }

  /** What is encoded and then decoded is back in the destination, bit by bit. */
  method EncodeThenDecode(text: array<char>, dest: array<byte>, src: seq<byte>, n: nat, every: nat) returns (r: int)
    requires BytesRead(n) <= |src|
    requires Encodes(n, text.Length, every) && n <= 8 * dest.Length
    modifies text, dest
    ensures r == n && Holds(dest[..], BitsOf(src, n))
    ensures forall j: nat {:trigger Bit(dest[j / 8], 7 - j % 8)} :: j < n ==>
              Bit(dest[j / 8], 7 - j % 8) == Bit(src[j / 8], 7 - j % 8)
  {
    ghost var bits := BitsOf(src, n);
    Base32IsReadable();
    EncodingHasNoNul(BASE32, bits, every, Groups(n));
    RoundTrip(BASE32, every, bits);
    var ok := Encode(BASE32, text, text.Length, src, n, every);
    r := Decode(BASE32, dest, n, text[..], every, EncodedText(BASE32, bits, every));
    forall j: nat {:trigger Bit(dest[j / 8], 7 - j % 8)} | j < n
      ensures Bit(dest[j / 8], 7 - j % 8) == Bit(src[j / 8], 7 - j % 8)
    {
      HoldsAt(dest[..], bits, j);
      BitsOfAt(src, n, j);
    }
  }

  /** In a text with CRC symbols that the program accepts, no symbol can be replaced by another and no
      two different neighbouring symbols can be swapped without the program refusing the text. */
  lemma TyposAreRefused(every: nat, n: nat, text: string, i: nat, c: char)
    requires every > 0 && DecodedBits(BASE32, every, n, text).Some? && i < |text| && IsSymbol(BASE32, text[i])
    ensures IsSymbol(BASE32, c) && c != text[i] ==> DecodedBits(BASE32, every, n, text[i := c]).None?
    ensures i + 1 < |text| && IsSymbol(BASE32, text[i + 1]) && text[i] != text[i + 1] ==>
              DecodedBits(BASE32, every, n, text[i := text[i + 1]][i + 1 := text[i]]).None?
  {
    Base32SeesErrors();
    if IsSymbol(BASE32, c) && c != text[i] {
      SubstitutionIsRejected(BASE32, every, n, text, i, c);
    }
    if i + 1 < |text| && IsSymbol(BASE32, text[i + 1]) && text[i] != text[i + 1] {
      TranspositionIsRejected(BASE32, every, n, text, i);
    }
  }
}
