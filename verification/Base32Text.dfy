/** Base-32 text as common/base32.c writes and reads it, for any table of 32 characters and any
    register that makes up the CRC symbols. */
module Base32Text {
  import opened Arithmetic
  import opened Bitwise
  import opened Crc5
  import opened Options

  /** The character of each symbol, and the step of the CRC register. */
  datatype Code = Code(chars: Symbol -> char, check: (Symbol, Symbol) -> Symbol)

  /** The symbol of a character, found from position `i` on in the table, or -1. */
  function FindSym(code: Code, c: char, i: nat): int
    requires i <= 32
    decreases 32 - i
  {
    if i == 32 then -1 else if c == code.chars(i) then i else FindSym(code, c, i + 1)
  }

  function SymbolOf(code: Code, c: char): int {
    FindSym(code, c, 0)
  }

  predicate Skipped(c: char) {
    c == ' ' || c == '\t' || c == '\r' || c == '\n' || c == '-'
  }

  // -------- what is asked of a code

  ghost predicate Readable(code: Code) {
    forall v: Symbol :: SymbolOf(code, code.chars(v)) == v && !Skipped(code.chars(v)) && code.chars(v) != '\0'
  }

  ghost predicate SeesSymbol(code: Code) {
    forall x: Symbol, y: Symbol, p: Symbol :: code.check(x, p) == code.check(y, p) ==> x == y
  }

  ghost predicate KeepsState(code: Code) {
    forall x: Symbol, p: Symbol, q: Symbol :: code.check(x, p) == code.check(x, q) ==> p == q
  }

  ghost predicate SeesSwap(code: Code) {
    forall x: Symbol, y: Symbol, p: Symbol ::
      code.check(y, code.check(x, p)) == code.check(x, code.check(y, p)) ==> x == y
  }

  ghost predicate SeesCrcSwap(code: Code) {
    forall x: Symbol, p: Symbol :: code.check(code.check(x, p), p) == x ==> code.check(x, p) == x
  }

  // -------- groups of five bits

  predicate BitOr0(bits: seq<bool>, j: nat) {
    j < |bits| && bits[j]
  }

  /** The `q`-th group of five bits, filled up with 0 bits at the end. */
  function Group(bits: seq<bool>, q: nat): Symbol {
    Five(BitOr0(bits, 5 * q), BitOr0(bits, 5 * q + 1), BitOr0(bits, 5 * q + 2),
         BitOr0(bits, 5 * q + 3), BitOr0(bits, 5 * q + 4))
  }

  function Groups(n: nat): nat {
    (n + 4) / 5
  }

  predicate HasBit(sym: nat, bits: seq<bool>, q: nat, k: nat)
    requires k < 5
  {
    Bit(sym, 4 - k) == BitOr0(bits, 5 * q + k)
  }

  lemma IsGroup(sym: nat, bits: seq<bool>, q: nat)
    requires sym < 32 && forall k :: 0 <= k < 5 ==> HasBit(sym, bits, q, k)
    ensures sym == Group(bits, q)
  {
    var b4, b3, b2, b1, b0 := AsFive(sym);
    FiveBits(b4, b3, b2, b1, b0);
    assert HasBit(sym, bits, q, 0) && HasBit(sym, bits, q, 1) && HasBit(sym, bits, q, 2);
    assert HasBit(sym, bits, q, 3) && HasBit(sym, bits, q, 4);
  }

  lemma GroupHasBits(bits: seq<bool>, q: nat, k: nat)
    requires k < 5
    ensures HasBit(Group(bits, q), bits, q, k)
  {
    FiveBits(BitOr0(bits, 5 * q), BitOr0(bits, 5 * q + 1), BitOr0(bits, 5 * q + 2),
             BitOr0(bits, 5 * q + 3), BitOr0(bits, 5 * q + 4));
  }

  // -------- encoding

  datatype Enc = Enc(text: string, crc: Symbol, count: nat)

  /** One symbol more, and a CRC symbol behind every `every` symbols if that is not 0. */
  function Next(code: Code, e: Enc, sym: Symbol, every: nat): Enc {
    var text := e.text + [code.chars(sym)];
    if every == 0 then Enc(text, 0, 0)
    else
      var crc := code.check(sym, e.crc);
      if e.count + 1 == every then Enc(text + [code.chars(crc)], 0, 0)
      else Enc(text, crc, e.count + 1)
  }

  /** The text for the first `q` groups. */
  function Encoding(code: Code, bits: seq<bool>, every: nat, q: nat): Enc {
    if q == 0 then Enc("", 0, 0) else Next(code, Encoding(code, bits, every, q - 1), Group(bits, q - 1), every)
  }

  function EncodedText(code: Code, bits: seq<bool>, every: nat): string {
    Encoding(code, bits, every, Groups(|bits|)).text
  }

  /** The number of characters for `q` groups. */
  function TextLength(every: nat, q: nat): nat {
    if every == 0 then q else q + q / every
  }

  lemma NextGroup(every: nat, q: nat)
    requires every > 0
    ensures q % every + 1 == every ==> (q + 1) % every == 0 && (q + 1) / every == q / every + 1
    ensures q % every + 1 != every ==> (q + 1) % every == q % every + 1 && (q + 1) / every == q / every
  {
    var a, b := q / every, q % every;
    assert q == a * every + b;
    if b + 1 == every {
      QuotientAndRemainder(q + 1, a + 1, every, 0);
    } else {
      QuotientAndRemainder(q + 1, a, every, b + 1);
    }
  }

  lemma NextLength(code: Code, e: Enc, sym: Symbol, every: nat, q: nat)
    requires |e.text| == TextLength(every, q) && (every > 0 ==> e.count == q % every)
    ensures |Next(code, e, sym, every).text| == TextLength(every, q + 1)
    ensures every > 0 ==> Next(code, e, sym, every).count == (q + 1) % every
  {
    if every > 0 {
      NextGroup(every, q);
    }
  }

  lemma {:induction false} EncodingLength(code: Code, bits: seq<bool>, every: nat, q: nat)
    ensures |Encoding(code, bits, every, q).text| == TextLength(every, q)
    ensures every > 0 ==> Encoding(code, bits, every, q).count == q % every
  {
    if q > 0 {
      EncodingLength(code, bits, every, q - 1);
      NextLength(code, Encoding(code, bits, every, q - 1), Group(bits, q - 1), every, q - 1);
    }
  }

  // -------- the layout of a text

  /** The CRC of `k` symbols from `start` on. */
  function GroupCrc(code: Code, bits: seq<bool>, start: nat, k: nat): Symbol {
    if k == 0 then 0 else code.check(Group(bits, start + k - 1), GroupCrc(code, bits, start, k - 1))
  }

  lemma NextCrc(code: Code, e: Enc, sym: Symbol, every: nat)
    requires every > 0
    ensures Next(code, e, sym, every).crc == if e.count + 1 == every then 0 else code.check(sym, e.crc)
  {
  }

  /** The CRC begins anew with every group: behind `k` symbols of group `g` it is theirs. */
  lemma {:induction false} EncodingCrc(code: Code, bits: seq<bool>, every: nat, g: nat, start: nat, k: nat, q: nat)
    requires k < every && start == g * every && q == start + k
    ensures Encoding(code, bits, every, q).crc == GroupCrc(code, bits, start, k)
  {
    if k > 0 {
      EncodingCrc(code, bits, every, g, start, k - 1, q - 1);
      QuotientAndRemainder(q - 1, g, every, k - 1);
      EncodingLength(code, bits, every, q - 1);
      NextCrc(code, Encoding(code, bits, every, q - 1), Group(bits, q - 1), every);
    } else if q > 0 {
      QuotientAndRemainder(q - 1, g - 1, every, every - 1);
      EncodingLength(code, bits, every, q - 1);
      NextCrc(code, Encoding(code, bits, every, q - 1), Group(bits, q - 1), every);
    }
  }

  /** A text only grows. */
  lemma {:induction false} EncodingExtends(code: Code, bits: seq<bool>, every: nat, p: nat, q: nat)
    requires p <= q
    ensures Encoding(code, bits, every, p).text <= Encoding(code, bits, every, q).text
  {
    if p < q {
      EncodingExtends(code, bits, every, p, q - 1);
    }
  }

  /** Every symbol stands behind the symbols in front of it and the CRC symbols of their groups. */
  lemma SymbolAt(code: Code, bits: seq<bool>, every: nat, q: nat)
    requires q < Groups(|bits|)
    ensures TextLength(every, q) < |EncodedText(code, bits, every)|
    ensures EncodedText(code, bits, every)[TextLength(every, q)] == code.chars(Group(bits, q))
  {
    var e := Encoding(code, bits, every, q);
    EncodingLength(code, bits, every, q);
    EncodingExtends(code, bits, every, q + 1, Groups(|bits|));
    assert Next(code, e, Group(bits, q), every).text[|e.text|] == code.chars(Group(bits, q));
  }

  /** And the CRC symbol of a group directly behind the group. */
  lemma CrcAt(code: Code, bits: seq<bool>, every: nat, g: nat, q: nat)
    requires every > 0 && q + 1 == (g + 1) * every <= Groups(|bits|)
    ensures q + g + 1 < |EncodedText(code, bits, every)|
    ensures EncodedText(code, bits, every)[q + g + 1] == code.chars(GroupCrc(code, bits, g * every, every))
  {
    var e, v := Encoding(code, bits, every, q), Group(bits, q);
    assert q == g * every + (every - 1);
    QuotientAndRemainder(q, g, every, every - 1);
    EncodingLength(code, bits, every, q);
    EncodingCrc(code, bits, every, g, g * every, every - 1, q);
    EncodingExtends(code, bits, every, q + 1, Groups(|bits|));
    assert Next(code, e, v, every).text == e.text + [code.chars(v)] + [code.chars(code.check(v, e.crc))];
  }

  /** When encoding succeeds: whole CRC groups, and room for the text and its terminator. */
  predicate Encodes(n: nat, destLen: nat, every: nat) {
    && (every > 0 ==> Groups(n) % every == 0)
    && TextLength(every, Groups(n)) + 1 <= destLen
  }

  lemma EncodingFits(code: Code, bits: seq<bool>, every: nat, q: nat, destLen: nat)
    requires |EncodedText(code, bits, every)| < destLen && q <= Groups(|bits|)
    ensures |Encoding(code, bits, every, q).text| < destLen
  {
    EncodingExtends(code, bits, every, q, Groups(|bits|));
  }

  // -------- decoding

  /** The CRC of the group so far, its number of symbols, and all bits so far. */
  datatype Dec = Dec(crc: Symbol, count: nat, bits: seq<bool>)

  /** Reading goes on, ends because there are bits enough, or has failed. */
  datatype Outcome = More(d: Dec) | Full(d: Dec) | Bad

  function FirstBits(v: Symbol, k: nat): (bits: seq<bool>)
    requires k <= 5
    ensures |bits| == k
  {
    seq(k, j requires 0 <= j < k => Bit(v, 4 - j))
  }

  function Min(a: nat, b: nat): nat {
    if a < b then a else b
  }

  /** A symbol is either the CRC of the group or counted into it; its bits are taken while there
      is room for them. */
  function DecodeSymbol(code: Code, every: nat, n: nat, d: Dec, v: Symbol): Outcome {
    if every > 0 && d.count == every then
      if d.crc != v then Bad else More(Dec(0, 0, d.bits))
    else
      var d' := if every > 0 then Dec(code.check(v, d.crc), d.count + 1, d.bits) else d;
      if |d.bits| >= n then Full(d')
      else More(d'.(bits := d.bits + FirstBits(v, Min(5, n - |d.bits|))))
  }

  function DecodeChar(code: Code, every: nat, n: nat, d: Dec, c: char): Outcome {
    if Skipped(c) then More(d)
    else
      var v := SymbolOf(code, c);
      if 0 <= v < 32 then DecodeSymbol(code, every, n, d, v) else Bad
  }

  function DecodeNext(code: Code, every: nat, n: nat, o: Outcome, c: char): Outcome {
    if o.More? then DecodeChar(code, every, n, o.d, c) else o
  }

  /** The state of the decoder behind a text. */
  function Decoding(code: Code, every: nat, n: nat, text: string): Outcome {
    if text == "" then More(Dec(0, 0, []))
    else DecodeNext(code, every, n, Decoding(code, every, n, text[..|text| - 1]), text[|text| - 1])
  }

  /** The decoded bits, or nothing where the program returns -1. */
  function Result(every: nat, o: Outcome): Option<seq<bool>> {
    if o.Bad? || (every > 0 && o.d.count > 0) then None else Some(o.d.bits)
  }

  function DecodedBits(code: Code, every: nat, n: nat, text: string): Option<seq<bool>> {
    Result(every, Decoding(code, every, n, text))
  }

  // -------- decoding undoes encoding

  lemma DecodeAppend(code: Code, every: nat, n: nat, text: string, c: char)
    ensures Decoding(code, every, n, text + [c]) == DecodeNext(code, every, n, Decoding(code, every, n, text), c)
  {
    assert (text + [c])[..|text|] == text;
  }

  /** The bits, filled up with 0 bits to whole groups. */
  function Padded(bits: seq<bool>): (r: seq<bool>)
    ensures |r| == 5 * Groups(|bits|)
  {
    seq(5 * Groups(|bits|), j requires 0 <= j => BitOr0(bits, j))
  }

  lemma DecodeGroup(bits: seq<bool>, n: nat, q: nat)
    requires 5 * q < n && q < Groups(|bits|)
    ensures 5 * q + 5 <= |Padded(bits)|
    ensures Padded(bits)[..5 * q] + FirstBits(Group(bits, q), Min(5, n - 5 * q)) == Padded(bits)[..Min(5 * q + 5, n)]
  {
    var k := Min(5, n - 5 * q);
    var s := Padded(bits)[..5 * q] + FirstBits(Group(bits, q), k);
    forall i | 5 * q <= i < 5 * q + k
      ensures s[i] == Padded(bits)[i]
    {
      GroupHasBits(bits, q, i - 5 * q);
    }
  }

  /** A character of the table is read as its symbol. */
  lemma DecodeTableChar(code: Code, every: nat, n: nat, d: Dec, v: Symbol)
    requires Readable(code)
    ensures DecodeChar(code, every, n, d, code.chars(v)) == DecodeSymbol(code, every, n, d, v)
  {
    assert SymbolOf(code, code.chars(v)) == v && !Skipped(code.chars(v));
  }

  /** The decoder has the encoder's CRC and count and the bits of the first `q` groups. */
  predicate InStep(code: Code, every: nat, bits: seq<bool>, n: nat, e: Enc, q: nat)
    requires q <= Groups(|bits|)
  {
    && (if every > 0 then e.count < every else e.crc == e.count == 0)
    && Decoding(code, every, n, e.text) == More(Dec(e.crc, e.count, Padded(bits)[..Min(5 * q, n)]))
  }

  lemma DecodeNextGroup(code: Code, every: nat, bits: seq<bool>, n: nat, d: Enc, q: nat, e: Enc)
    requires Readable(code) && 0 < q <= Groups(|bits|) && 5 * (q - 1) < n && InStep(code, every, bits, n, d, q - 1)
    requires e == Next(code, d, Group(bits, q - 1), every)
    ensures InStep(code, every, bits, n, e, q)
  {
    var v := Group(bits, q - 1);
    var text := d.text + [code.chars(v)];
    DecodeAppend(code, every, n, d.text, code.chars(v));
    DecodeTableChar(code, every, n, Dec(d.crc, d.count, Padded(bits)[..5 * (q - 1)]), v);
    DecodeGroup(bits, n, q - 1);
    if every > 0 && d.count + 1 == every {
      var crc := code.check(v, d.crc);
      DecodeAppend(code, every, n, text, code.chars(crc));
      DecodeTableChar(code, every, n, Dec(crc, every, Padded(bits)[..Min(5 * q, n)]), crc);
    }
  }

  lemma InStepAtStart(code: Code, every: nat, bits: seq<bool>, n: nat)
    ensures InStep(code, every, bits, n, Encoding(code, bits, every, 0), 0)
  {
    assert Padded(bits)[..Min(5 * 0, n)] == [];
  }

  lemma NextEncoding(code: Code, every: nat, bits: seq<bool>, q: nat)
    requires q > 0
    ensures Encoding(code, bits, every, q) == Next(code, Encoding(code, bits, every, q - 1), Group(bits, q - 1), every)
  {
  }

  /** Encoder and decoder are in step as long as the decoder has room for a bit of each group. */
  lemma {:induction false} DecodeEncoding(code: Code, every: nat, bits: seq<bool>, n: nat, q: nat)
    requires Readable(code) && q <= Groups(|bits|) && (q == 0 || 5 * (q - 1) < n)
    ensures InStep(code, every, bits, n, Encoding(code, bits, every, q), q)
  {
    if q == 0 {
      InStepAtStart(code, every, bits, n);
    } else {
      var d := Encoding(code, bits, every, q - 1);
      DecodeEncoding(code, every, bits, n, q - 1);
      NextEncoding(code, every, bits, q);
      DecodeNextGroup(code, every, bits, n, d, q, Encoding(code, bits, every, q));
    }
  }

  lemma {:induction false} FullStays(code: Code, every: nat, n: nat, text: string, tail: string)
    requires Decoding(code, every, n, text).Full?
    ensures Decoding(code, every, n, text + tail) == Decoding(code, every, n, text)
  {
    if tail == "" {
      assert text + tail == text;
    } else {
      var k := |tail| - 1;
      FullStays(code, every, n, text, tail[..k]);
      assert text + tail == (text + tail[..k]) + [tail[k]];
      DecodeAppend(code, every, n, text + tail[..k], tail[k]);
    }
  }

  lemma {:induction false} BadStays(code: Code, every: nat, n: nat, text: string, tail: string)
    requires Decoding(code, every, n, text).Bad?
    ensures Decoding(code, every, n, text + tail).Bad?
  {
    if tail == "" {
      assert text + tail == text;
    } else {
      var k := |tail| - 1;
      BadStays(code, every, n, text, tail[..k]);
      assert text + tail == (text + tail[..k]) + [tail[k]];
      DecodeAppend(code, every, n, text + tail[..k], tail[k]);
    }
  }

  lemma DecodeAt(code: Code, every: nat, n: nat, text: string, i: nat)
    requires i < |text|
    ensures Decoding(code, every, n, text[..i + 1])
         == DecodeNext(code, every, n, Decoding(code, every, n, text[..i]), text[i])
  {
    assert text[..i + 1] == text[..i] + [text[i]];
    DecodeAppend(code, every, n, text[..i], text[i]);
  }

  /** Where the decoder has stopped inside a text it stays. */
  lemma StoppedAt(code: Code, every: nat, n: nat, text: string, i: nat)
    requires i <= |text| && !Decoding(code, every, n, text[..i]).More?
    ensures Decoding(code, every, n, text) == Decoding(code, every, n, text[..i])
  {
    assert text == text[..i] + text[i..];
    if Decoding(code, every, n, text[..i]).Full? {
      FullStays(code, every, n, text[..i], text[i..]);
    } else {
      BadStays(code, every, n, text[..i], text[i..]);
    }
  }

  /** What one more character does, and whether it is the last that matters. */
  lemma DecodeStep(code: Code, every: nat, n: nat, text: string, i: nat, d: Dec)
    requires i < |text| && Decoding(code, every, n, text[..i]) == More(d)
    ensures var o := DecodeChar(code, every, n, d, text[i]);
            && Decoding(code, every, n, text[..i + 1]) == o
            && (!o.More? ==> Decoding(code, every, n, text) == o)
  {
    DecodeAt(code, every, n, text, i);
    if !DecodeChar(code, every, n, d, text[i]).More? {
      StoppedAt(code, every, n, text, i + 1);
    }
  }

  lemma {:induction false} EncodingTail(code: Code, bits: seq<bool>, every: nat, p: nat, q: nat) returns (tail: string)
    requires p < q
    ensures Encoding(code, bits, every, q).text
         == Encoding(code, bits, every, p).text + [code.chars(Group(bits, p))] + tail
  {
    var e := Encoding(code, bits, every, q - 1);
    if p + 1 == q {
      var crc := code.check(Group(bits, p), e.crc);
      tail := if every > 0 && e.count + 1 == every then [code.chars(crc)] else "";
    } else {
      var rest := EncodingTail(code, bits, every, p, q - 1);
      var crc := code.check(Group(bits, q - 1), e.crc);
      tail := rest + [code.chars(Group(bits, q - 1))]
      + if every > 0 && e.count + 1 == every then [code.chars(crc)] else "";
    }
  }

  /** The decoder stops at the first symbol it has no room for, with that symbol counted. */
  lemma DecodeStops(code: Code, every: nat, bits: seq<bool>, n: nat)
    requires Readable(code) && Groups(n) < Groups(|bits|)
    ensures var o := Decoding(code, every, n, EncodedText(code, bits, every));
            o.Full? && o.d.bits == Padded(bits)[..n] && (every > 0 ==> o.d.count > 0)
  {
    var q := Groups(n);
    var e, v := Encoding(code, bits, every, q), Group(bits, q);
    DecodeEncoding(code, every, bits, n, q);
    EncodingLength(code, bits, every, q);
    DecodeAppend(code, every, n, e.text, code.chars(v));
    DecodeTableChar(code, every, n, Dec(e.crc, e.count, Padded(bits)[..n]), v);
    var tail := EncodingTail(code, bits, every, q, Groups(|bits|));
    FullStays(code, every, n, e.text + [code.chars(v)], tail);
  }

  /** What decoding makes of an encoded text when there is room for `n` bits: the first `n` bits,
      the padding included; but with a CRC nothing unless every symbol is needed for that. */
  lemma DecodedPrefix(code: Code, every: nat, bits: seq<bool>, n: nat)
    requires Readable(code) && (every > 0 ==> Groups(|bits|) % every == 0)
    ensures DecodedBits(code, every, n, EncodedText(code, bits, every))
         == if every > 0 && Groups(n) < Groups(|bits|) then None
            else Some(Padded(bits)[..Min(n, 5 * Groups(|bits|))])
  {
    if Groups(n) < Groups(|bits|) {
      DecodeStops(code, every, bits, n);
    } else {
      DecodeEncoding(code, every, bits, n, Groups(|bits|));
      EncodingLength(code, bits, every, Groups(|bits|));
    }
  }

  /** Decoding an encoded text gives back the bits, for every number of bits and every CRC period
      that encoding accepts. */
  lemma RoundTrip(code: Code, every: nat, bits: seq<bool>)
    requires Readable(code) && (every > 0 ==> Groups(|bits|) % every == 0)
    ensures DecodedBits(code, every, |bits|, EncodedText(code, bits, every)) == Some(bits)
  {
    DecodedPrefix(code, every, bits, |bits|);
    assert Padded(bits)[..|bits|] == bits;
  }

  // -------- white space and dashes

  /** The text without the characters that decoding skips. */
  function Strip(text: string): string {
    if text == "" then ""
    else
      var rest := Strip(text[..|text| - 1]);
      if Skipped(text[|text| - 1]) then rest else rest + [text[|text| - 1]]
  }

  lemma {:induction false} DecodeStrip(code: Code, every: nat, n: nat, text: string)
    ensures Decoding(code, every, n, Strip(text)) == Decoding(code, every, n, text)
  {
    if text != "" {
      DecodeStrip(code, every, n, text[..|text| - 1]);
      DecodeAppend(code, every, n, Strip(text[..|text| - 1]), text[|text| - 1]);
    }
  }

  /** Texts that differ in white space and dashes only decode to the same. */
  lemma SpacesDoNotMatter(code: Code, every: nat, n: nat, text: string, spaced: string)
    requires Strip(text) == Strip(spaced)
    ensures DecodedBits(code, every, n, text) == DecodedBits(code, every, n, spaced)
  {
    DecodeStrip(code, every, n, text);
    DecodeStrip(code, every, n, spaced);
  }

  lemma {:induction false} StripConcat(a: string, b: string)
    ensures Strip(a + b) == Strip(a) + Strip(b)
  {
    if b == "" {
      assert a + b == a;
    } else {
      StripConcat(a, b[..|b| - 1]);
      assert (a + b)[..|a + b| - 1] == a + b[..|b| - 1];
    }
  }

  /** In particular white space and dashes can be put in anywhere. */
  lemma SpacesCanBeInserted(code: Code, every: nat, n: nat, text: string, i: nat, spaces: string)
    requires i <= |text| && forall k :: 0 <= k < |spaces| ==> Skipped(spaces[k])
    ensures DecodedBits(code, every, n, text[..i] + spaces + text[i..]) == DecodedBits(code, every, n, text)
  {
    StripSpaces(spaces);
    StripConcat(text[..i] + spaces, text[i..]);
    StripConcat(text[..i], spaces);
    StripConcat(text[..i], text[i..]);
    assert text[..i] + text[i..] == text;
    SpacesDoNotMatter(code, every, n, text[..i] + spaces + text[i..], text);
  }

  lemma {:induction false} StripSpaces(spaces: string)
    requires forall k :: 0 <= k < |spaces| ==> Skipped(spaces[k])
    ensures Strip(spaces) == ""
  {
    if spaces != "" {
      StripSpaces(spaces[..|spaces| - 1]);
    }
  }

  // -------- errors are noticed

  predicate IsSymbol(code: Code, c: char) {
    !Skipped(c) && 0 <= SymbolOf(code, c) < 32
  }

  /** The second decoder has noticed, or will at the next CRC symbol. */
  predicate Noticed(every: nat, good: Outcome, wrong: Outcome) {
    good.More? ==>
      || wrong.Bad?
      || (wrong.More? && good.d.crc != wrong.d.crc && 0 < good.d.count == wrong.d.count <= every
          && |good.d.bits| == |wrong.d.bits|)
  }

  lemma StaysNoticed(code: Code, every: nat, n: nat, good: Outcome, wrong: Outcome, c: char)
    requires KeepsState(code) && every > 0 && Noticed(every, good, wrong)
    ensures Noticed(every, DecodeNext(code, every, n, good, c), DecodeNext(code, every, n, wrong, c))
  {
  }

  lemma {:induction false} NoticedToTheEnd(code: Code, every: nat, n: nat, text: string, wrong: string, i: nat)
    requires KeepsState(code) && every > 0 && |text| == |wrong| && i <= |text| && text[i..] == wrong[i..]
    requires Noticed(every, Decoding(code, every, n, text[..i]), Decoding(code, every, n, wrong[..i]))
    ensures Noticed(every, Decoding(code, every, n, text), Decoding(code, every, n, wrong))
  {
    if i == |text| {
      assert text[..i] == text && wrong[..i] == wrong;
    } else {
      var k := |text| - 1;
      assert text[..k][..i] == text[..i] && wrong[..k][..i] == wrong[..i];
      assert text[..k][i..] == text[i..][..k - i] && wrong[..k][i..] == wrong[i..][..k - i];
      assert text[k] == text[i..][k - i] && wrong[k] == wrong[i..][k - i];
      NoticedToTheEnd(code, every, n, text[..k], wrong[..k], i);
      StaysNoticed(code, every, n, Decoding(code, every, n, text[..k]), Decoding(code, every, n, wrong[..k]), text[k]);
    }
  }

  /** An accepted text with a CRC is read to its end, and the register always counts a group. */
  lemma {:induction false} CountBound(code: Code, every: nat, n: nat, text: string)
    requires every > 0
    ensures var o := Decoding(code, every, n, text);
            && (o.More? ==> o.d.count <= every)
            && (o.Full? ==> o.d.count > 0)
  {
    if text != "" {
      CountBound(code, every, n, text[..|text| - 1]);
    }
  }

  /** The number of symbols of the group that is being read. */
  lemma {:induction false} CountIsRest(code: Code, every: nat, n: nat, text: string)
    requires every > 0 && Decoding(code, every, n, text).More?
    ensures Decoding(code, every, n, text).d.count == |Strip(text)| % (every + 1)
  {
    if text != "" {
      var k := |text| - 1;
      CountIsRest(code, every, n, text[..k]);
      CountBound(code, every, n, text[..k]);
      NextGroup(every + 1, |Strip(text[..k])|);
    }
  }

  /** An accepted text with a CRC has whole groups, each with its CRC symbol, and is read to its end. */
  lemma AcceptedIsWhole(code: Code, every: nat, n: nat, text: string)
    requires every > 0 && DecodedBits(code, every, n, text).Some?
    ensures Decoding(code, every, n, text).More? && |Strip(text)| % (every + 1) == 0
  {
    CountBound(code, every, n, text);
    CountIsRest(code, every, n, text);
  }

  lemma NoticedIsRejected(code: Code, every: nat, n: nat, text: string, wrong: string)
    requires every > 0 && Noticed(every, Decoding(code, every, n, text), Decoding(code, every, n, wrong))
    requires DecodedBits(code, every, n, text).Some?
    ensures DecodedBits(code, every, n, wrong).None?
  {
    CountBound(code, every, n, text);
  }

  /** In a text with a CRC that is accepted, no symbol can be replaced by another unnoticed. */
  lemma SubstitutionIsRejected(code: Code, every: nat, n: nat, text: string, i: nat, c: char)
    requires SeesSymbol(code) && KeepsState(code) && every > 0
    requires DecodedBits(code, every, n, text).Some?
    requires i < |text| && IsSymbol(code, text[i]) && IsSymbol(code, c) && c != text[i]
    ensures DecodedBits(code, every, n, text[i := c]).None?
  {
    var wrong := text[i := c];
    var o := Decoding(code, every, n, text[..i]);
    assert wrong[..i] == text[..i] && wrong[i + 1..] == text[i + 1..];
    assert text[..i + 1] == text[..i] + [text[i]] && wrong[..i + 1] == text[..i] + [c];
    DecodeAppend(code, every, n, text[..i], text[i]);
    DecodeAppend(code, every, n, text[..i], c);
    CountBound(code, every, n, text[..i]);
    FindSymIsOf(code, c, 0);
    FindSymIsOf(code, text[i], 0);
    assert Noticed(every, DecodeNext(code, every, n, o, text[i]), DecodeNext(code, every, n, o, c));
    NoticedToTheEnd(code, every, n, text, wrong, i + 1);
    NoticedIsRejected(code, every, n, text, wrong);
  }

  lemma {:induction false} FindSymIsOf(code: Code, c: char, i: nat)
    requires i <= 32
    ensures var r := FindSym(code, c, i); r == -1 || (i <= r < 32 && code.chars(r) == c)
    decreases 32 - i
  {
    if i < 32 && c != code.chars(i) {
      FindSymIsOf(code, c, i + 1);
    }
  }

  lemma {:induction false} FindSymMisses(code: Code, c: char, i: nat, v: Symbol)
    requires i <= v && FindSym(code, c, i) == -1
    ensures code.chars(v) != c
    decreases 32 - i
  {
    if i < v {
      FindSymMisses(code, c, i + 1, v);
    }
  }

  /** A character that is not passed over and is in the table at no place. */
  ghost predicate Foreign(code: Code, c: char) {
    c != ' ' && c != '\t' && c != '\r' && c != '\n' && c != '-' && forall v: Symbol :: code.chars(v) != c
  }

  lemma ForeignIsBad(code: Code, every: nat, n: nat, d: Dec, c: char)
    ensures Foreign(code, c) <==> !Skipped(c) && SymbolOf(code, c) == -1
    ensures Foreign(code, c) ==> DecodeChar(code, every, n, d, c).Bad?
  {
    FindSymIsOf(code, c, 0);
    if SymbolOf(code, c) == -1 {
      forall v: Symbol
        ensures code.chars(v) != c
      {
        FindSymMisses(code, c, 0, v);
      }
    }
  }

  /** A text that is read to its end has none of them. */
  lemma {:induction false} ReadToTheEnd(code: Code, every: nat, n: nat, text: string, i: nat)
    requires Decoding(code, every, n, text).More? && i < |text|
    ensures text[i] == ' ' || text[i] == '\t' || text[i] == '\r' || text[i] == '\n' || text[i] == '-'
            || exists v: Symbol :: code.chars(v) == text[i]
  {
    var k := |text| - 1;
    if i < k {
      ReadToTheEnd(code, every, n, text[..k], i);
    } else {
      ForeignIsBad(code, every, n, Decoding(code, every, n, text[..k]).d, text[i]);
    }
  }

  /** Put in anywhere in front of where the decoder stops, such a character makes it refuse the text. */
  lemma ForeignIsRejected(code: Code, every: nat, n: nat, text: string, i: nat, c: char)
    requires i <= |text| && Decoding(code, every, n, text[..i]).More? && Foreign(code, c)
    ensures DecodedBits(code, every, n, text[..i] + [c] + text[i..]) == None
  {
    var front := text[..i] + [c];
    DecodeAppend(code, every, n, text[..i], c);
    ForeignIsBad(code, every, n, Decoding(code, every, n, text[..i]).d, c);
    BadStays(code, every, n, front, text[i..]);
  }

  lemma SwapNoticed(code: Code, every: nat, n: nat, o: Outcome, a: char, b: char)
    requires SeesSymbol(code) && SeesSwap(code) && SeesCrcSwap(code) && every > 0
    requires IsSymbol(code, a) && IsSymbol(code, b) && a != b
    requires o.More? ==> o.d.count <= every
    ensures Noticed(every, DecodeNext(code, every, n, DecodeNext(code, every, n, o, a), b),
                    DecodeNext(code, every, n, DecodeNext(code, every, n, o, b), a))
  {
    FindSymIsOf(code, a, 0);
    FindSymIsOf(code, b, 0);
    var v: Symbol, w: Symbol := SymbolOf(code, a), SymbolOf(code, b);
    if o.More? && every > 0 && o.d.count < every {
      assert code.check(w, code.check(v, o.d.crc)) != code.check(v, code.check(w, o.d.crc));
    }
  }

  /** Nor can two different neighbouring symbols change places, whether data or CRC. */
  lemma TranspositionIsRejected(code: Code, every: nat, n: nat, text: string, i: nat)
    requires SeesSymbol(code) && KeepsState(code) && SeesSwap(code) && SeesCrcSwap(code) && every > 0
    requires DecodedBits(code, every, n, text).Some?
    requires i + 1 < |text| && IsSymbol(code, text[i]) && IsSymbol(code, text[i + 1]) && text[i] != text[i + 1]
    ensures DecodedBits(code, every, n, text[i := text[i + 1]][i + 1 := text[i]]).None?
  {
    var a, b := text[i], text[i + 1];
    var wrong := text[i := b][i + 1 := a];
    assert wrong[i + 2..] == text[i + 2..];
    assert text[..i + 2] == text[..i] + [a] + [b] && wrong[..i + 2] == text[..i] + [b] + [a];
    DecodeAppend(code, every, n, text[..i], a);
    DecodeAppend(code, every, n, text[..i] + [a], b);
    DecodeAppend(code, every, n, text[..i], b);
    DecodeAppend(code, every, n, text[..i] + [b], a);
    CountBound(code, every, n, text[..i]);
    SwapNoticed(code, every, n, Decoding(code, every, n, text[..i]), a, b);
    NoticedToTheEnd(code, every, n, text, wrong, i + 2);
    NoticedIsRejected(code, every, n, text, wrong);
  }
}
