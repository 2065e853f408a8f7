/** The CRC-5 of common/base32.c, one base-32 symbol at a time: generator x^5 + x^2 + 1. */
module Crc5 {
  import opened Bitwise

  const CRC5_TABLE1: seq<nat> := [0x00, 0x0E, 0x1C, 0x12, 0x11, 0x1F, 0x0D, 0x03,
                                  0x0B, 0x05, 0x17, 0x19, 0x1A, 0x14, 0x06, 0x08]
  const CRC5_TABLE0: seq<nat> := [0x00, 0x16, 0x05, 0x13, 0x0A, 0x1C, 0x0F, 0x19,
                                  0x14, 0x02, 0x11, 0x07, 0x1E, 0x08, 0x1B, 0x0D]

  /** The CRC of a byte by table. */
  function Crc5OfByte(tmp: nat): nat {
    Xor(CRC5_TABLE1[tmp % 16], CRC5_TABLE0[tmp / 16 % 16])
  }

  function Crc5Sym(sym: nat, previous: nat): nat {
    Crc5OfByte(Xor(sym, previous))
  }

  type Symbol = v: nat | v < 32

  /** Reference definition of the CRC of a byte: eight steps of the bit-reflected register. */
  function Crc5Step(c: nat): nat {
    if c % 2 == 1 then Xor(c / 2, 0x14) else c / 2
  }

  function Crc5Steps(c: nat, n: nat): nat
    decreases n
  {
    if n == 0 then c else Crc5Steps(Crc5Step(c), n - 1)
  }

  function Append(v: nat, b: bool): nat {
    2 * v + Digit(b)
  }

  /** The number with these five bits. */
  function Five(b4: bool, b3: bool, b2: bool, b1: bool, b0: bool): Symbol {
    Append(Append(Append(Append(Append(0, b4), b3), b2), b1), b0)
  }

  lemma AppendBits(v: nat, b: bool, k: nat)
    ensures Bit(Append(v, b), 0) == b && Bit(Append(v, b), k + 1) == Bit(v, k)
  {
    assert Append(v, b) / 2 == v;
  }

  lemma FiveBits(b4: bool, b3: bool, b2: bool, b1: bool, b0: bool)
    ensures var v := Five(b4, b3, b2, b1, b0);
            Bit(v, 0) == b0 && Bit(v, 1) == b1 && Bit(v, 2) == b2 && Bit(v, 3) == b3 && Bit(v, 4) == b4
  {
    var v1 := Append(0, b4);
    var v2 := Append(v1, b3);
    var v3 := Append(v2, b2);
    var v4 := Append(v3, b1);
    AppendBits(0, b4, 0);
    AppendBits(v1, b3, 0);
    forall k | 0 <= k < 2 { AppendBits(v2, b2, k); }
    forall k | 0 <= k < 3 { AppendBits(v3, b1, k); }
    forall k | 0 <= k < 4 { AppendBits(v4, b0, k); }
  }

  lemma AsFive(v: Symbol) returns (b4: bool, b3: bool, b2: bool, b1: bool, b0: bool)
    ensures v == Five(b4, b3, b2, b1, b0)
  {
    b4 := v >= 16;
    var r3 := v - 16 * Digit(b4);
    b3 := r3 >= 8;
    var r2 := r3 - 8 * Digit(b3);
    b2 := r2 >= 4;
    var r1 := r2 - 4 * Digit(b2);
    b1 := r1 >= 2;
    b0 := r1 - 2 * Digit(b1) == 1;
  }

  lemma AppendParts(v: nat, b: bool)
    ensures Append(v, b) / 2 == v && Append(v, b) % 2 == Digit(b)
  {
  }

  lemma XorOnce(x: nat, y: nat)
    requires x != 0 || y != 0
    ensures Xor(x, y) == Append(Xor(x / 2, y / 2), (x % 2 == 1) != (y % 2 == 1))
  {
  }

  lemma XorAppend(v: nat, w: nat, a: bool, b: bool)
    ensures Xor(Append(v, a), Append(w, b)) == Append(Xor(v, w), a != b)
  {
    AppendParts(v, a);
    AppendParts(w, b);
    if Append(v, a) != 0 || Append(w, b) != 0 {
      XorOnce(Append(v, a), Append(w, b));
    }
  }

  lemma XorFive(a4: bool, a3: bool, a2: bool, a1: bool, a0: bool, b4: bool, b3: bool, b2: bool, b1: bool, b0: bool)
    ensures Xor(Five(a4, a3, a2, a1, a0), Five(b4, b3, b2, b1, b0))
         == Five(a4 != b4, a3 != b3, a2 != b2, a1 != b1, a0 != b0)
  {
    var v1, w1 := Append(0, a4), Append(0, b4);
    var v2, w2 := Append(v1, a3), Append(w1, b3);
    var v3, w3 := Append(v2, a2), Append(w2, b2);
    var v4, w4 := Append(v3, a1), Append(w3, b1);
    XorAppend(0, 0, a4, b4);
    XorAppend(v1, w1, a3, b3);
    XorAppend(v2, w2, a2, b2);
    XorAppend(v3, w3, a1, b1);
    XorAppend(v4, w4, a0, b0);
  }

  lemma TableOne(b3: bool, b2: bool, b1: bool, b0: bool)
    ensures Five(false, b3, b2, b1, b0) < 16
    ensures CRC5_TABLE1[Five(false, b3, b2, b1, b0)]
         == Five(b1 != b2, (b0 != b1) != b3, b0 != b1, b0 != b3, b2 != b3)
  {
  }

  lemma HighBitFirst(b4: bool, b3: bool, b2: bool, b1: bool, b0: bool)
    ensures var x := Five(b4, b3, b2, b1, b0);
            x % 16 == Five(false, b3, b2, b1, b0) && x / 16 % 16 == Digit(b4)
  {
  }

  /** Each bit of the CRC of a symbol is a sum of two or three bits of the symbol. */
  lemma Crc5OfSymbol(b4: bool, b3: bool, b2: bool, b1: bool, b0: bool)
    ensures Crc5OfByte(Five(b4, b3, b2, b1, b0))
         == Five((b1 != b2) != b4, (b0 != b1) != b3, (b0 != b1) != b4, (b0 != b3) != b4, b2 != b3)
  {
    HighBitFirst(b4, b3, b2, b1, b0);
    TableOne(b3, b2, b1, b0);
    assert CRC5_TABLE0[Digit(b4)] == Five(b4, false, b4, b4, false);
    XorFive(b1 != b2, (b0 != b1) != b3, b0 != b1, b0 != b3, b2 != b3, b4, false, b4, b4, false);
  }

  lemma StepFive(b4: bool, b3: bool, b2: bool, b1: bool, b0: bool)
    ensures Crc5Step(Five(b4, b3, b2, b1, b0)) == Five(b0, b4, b3 != b0, b2, b1)
  {
    var half := Five(false, b4, b3, b2, b1);
    assert Five(b4, b3, b2, b1, b0) == Append(half, b0);
    assert Append(half, b0) / 2 == half && Append(half, b0) % 2 == Digit(b0);
    assert Five(true, false, true, false, false) == 0x14;
    XorFive(false, b4, b3, b2, b1, true, false, true, false, false);
  }

  lemma StepsFive(b4: bool, b3: bool, b2: bool, b1: bool, b0: bool, n: nat)
    ensures Crc5Steps(Five(b4, b3, b2, b1, b0), n + 1) == Crc5Steps(Five(b0, b4, b3 != b0, b2, b1), n)
  {
    StepFive(b4, b3, b2, b1, b0);
  }

  /** The table agrees with the shift register. */
  lemma Crc5IsShiftRegister(x: Symbol)
    ensures Crc5OfByte(x) == Crc5Steps(x, 8)
  {
    var a4, a3, a2, a1, a0 := AsFive(x);
    Crc5OfSymbol(a4, a3, a2, a1, a0);
    StepsFive(a4, a3, a2, a1, a0, 7);
    var b4, b3, b2, b1, b0 := a0, a4, a3 != a0, a2, a1;
    StepsFive(b4, b3, b2, b1, b0, 6);
    var c4, c3, c2, c1, c0 := b0, b4, b3 != b0, b2, b1;
    StepsFive(c4, c3, c2, c1, c0, 5);
    var d4, d3, d2, d1, d0 := c0, c4, c3 != c0, c2, c1;
    StepsFive(d4, d3, d2, d1, d0, 4);
    var e4, e3, e2, e1, e0 := d0, d4, d3 != d0, d2, d1;
    StepsFive(e4, e3, e2, e1, e0, 3);
    var f4, f3, f2, f1, f0 := e0, e4, e3 != e0, e2, e1;
    StepsFive(f4, f3, f2, f1, f0, 2);
    var g4, g3, g2, g1, g0 := f0, f4, f3 != f0, f2, f1;
    StepsFive(g4, g3, g2, g1, g0, 1);
    var h4, h3, h2, h1, h0 := g0, g4, g3 != g0, g2, g1;
    StepsFive(h4, h3, h2, h1, h0, 0);
  }

  lemma SameFive(a4: bool, a3: bool, a2: bool, a1: bool, a0: bool, b4: bool, b3: bool, b2: bool, b1: bool, b0: bool)
    requires Five(a4, a3, a2, a1, a0) == Five(b4, b3, b2, b1, b0)
    ensures a4 == b4 && a3 == b3 && a2 == b2 && a1 == b1 && a0 == b0
  {
  }

  lemma Crc5OfByteInjective(a4: bool, a3: bool, a2: bool, a1: bool, a0: bool, b4: bool, b3: bool, b2: bool, b1: bool, b0: bool)
    requires Crc5OfByte(Five(a4, a3, a2, a1, a0)) == Crc5OfByte(Five(b4, b3, b2, b1, b0))
    ensures a4 == b4 && a3 == b3 && a2 == b2 && a1 == b1 && a0 == b0
  {
    Crc5OfSymbol(a4, a3, a2, a1, a0);
    Crc5OfSymbol(b4, b3, b2, b1, b0);
    SameFive((a1 != a2) != a4, (a0 != a1) != a3, (a0 != a1) != a4, (a0 != a3) != a4, a2 != a3,
             (b1 != b2) != b4, (b0 != b1) != b3, (b0 != b1) != b4, (b0 != b3) != b4, b2 != b3);
  }

  lemma Crc5Bound(x: Symbol, p: Symbol)
    ensures Crc5Sym(x, p) < 32
  {
    var x4, x3, x2, x1, x0 := AsFive(x);
    var p4, p3, p2, p1, p0 := AsFive(p);
    XorFive(x4, x3, x2, x1, x0, p4, p3, p2, p1, p0);
    Crc5OfSymbol(x4 != p4, x3 != p3, x2 != p2, x1 != p1, x0 != p0);
  }

  /** A register step on symbols. */
  type Check = (Symbol, Symbol) -> Symbol

  function Crc5Check(sym: Symbol, previous: Symbol): Symbol {
    Crc5Bound(sym, previous);
    Crc5Sym(sym, previous)
  }

  /** Different symbols give the same register different values. */
  lemma Crc5SeesSymbol(x: Symbol, y: Symbol, p: Symbol)
    requires Crc5Sym(x, p) == Crc5Sym(y, p)
    ensures x == y
  {
    var x4, x3, x2, x1, x0 := AsFive(x);
    var y4, y3, y2, y1, y0 := AsFive(y);
    var p4, p3, p2, p1, p0 := AsFive(p);
    XorFive(x4, x3, x2, x1, x0, p4, p3, p2, p1, p0);
    XorFive(y4, y3, y2, y1, y0, p4, p3, p2, p1, p0);
    Crc5OfByteInjective(x4 != p4, x3 != p3, x2 != p2, x1 != p1, x0 != p0,
                        y4 != p4, y3 != p3, y2 != p2, y1 != p1, y0 != p0);
  }

  /** A later symbol does not hide that two registers differ. */
  lemma Crc5KeepsState(x: Symbol, p: Symbol, q: Symbol)
    requires Crc5Sym(x, p) == Crc5Sym(x, q)
    ensures p == q
  {
    var x4, x3, x2, x1, x0 := AsFive(x);
    var p4, p3, p2, p1, p0 := AsFive(p);
    var q4, q3, q2, q1, q0 := AsFive(q);
    XorFive(x4, x3, x2, x1, x0, p4, p3, p2, p1, p0);
    XorFive(x4, x3, x2, x1, x0, q4, q3, q2, q1, q0);
    Crc5OfByteInjective(x4 != p4, x3 != p3, x2 != p2, x1 != p1, x0 != p0,
                        x4 != q4, x3 != q3, x2 != q2, x1 != q1, x0 != q0);
  }

  lemma Crc5SymFive(x4: bool, x3: bool, x2: bool, x1: bool, x0: bool, p4: bool, p3: bool, p2: bool, p1: bool, p0: bool)
    ensures var u4, u3, u2, u1, u0 := x4 != p4, x3 != p3, x2 != p2, x1 != p1, x0 != p0;
            Crc5Sym(Five(x4, x3, x2, x1, x0), Five(p4, p3, p2, p1, p0))
            == Five((u1 != u2) != u4, (u0 != u1) != u3, (u0 != u1) != u4, (u0 != u3) != u4, u2 != u3)
  {
    XorFive(x4, x3, x2, x1, x0, p4, p3, p2, p1, p0);
    Crc5OfSymbol(x4 != p4, x3 != p3, x2 != p2, x1 != p1, x0 != p0);
  }

  lemma StepTo(x4: bool, x3: bool, x2: bool, x1: bool, x0: bool, p4: bool, p3: bool, p2: bool, p1: bool, p0: bool,
               x: Symbol, p: Symbol, r: Symbol)
    requires x == Five(x4, x3, x2, x1, x0) && p == Five(p4, p3, p2, p1, p0)
    requires var u4, u3, u2, u1, u0 := x4 != p4, x3 != p3, x2 != p2, x1 != p1, x0 != p0;
             r == Five((u1 != u2) != u4, (u0 != u1) != u3, (u0 != u1) != u4, (u0 != u3) != u4, u2 != u3)
    ensures Crc5Sym(x, p) == r
  {
    Crc5SymFive(x4, x3, x2, x1, x0, p4, p3, p2, p1, p0);
  }

  /** The steps of a known text. */
  lemma KnownStep(x: Symbol, p: Symbol, r: Symbol)
    requires (x == 31 && p == 0 && r == 30) || (x == 28 && p == 30 && r == 28)
             || (x == 0 && p == 28 && r == 12) || (x == 15 && p == 12 && r == 18)
    ensures Crc5Sym(x, p) == r
  {
    if x == 31 {
      StepTo(true, true, true, true, true, false, false, false, false, false, x, p, r);
    } else if x == 28 {
      StepTo(true, true, true, false, false, true, true, true, true, false, x, p, r);
    } else if x == 0 {
      StepTo(false, false, false, false, false, true, true, true, false, false, x, p, r);
    } else {
      StepTo(false, true, true, true, true, false, true, true, false, false, x, p, r);
    }
  }

  /** The CRC of 9, 6, A and R is U. */
  lemma KnownCrc(c: Symbol, s: seq<Symbol>)
    requires c == 0 && s == [31, 28, 0, 15]
    ensures Crc5Sym(s[3], Crc5Sym(s[2], Crc5Sym(s[1], Crc5Sym(s[0], c)))) == 18
  {
    KnownStep(s[0], c, 30);
    KnownStep(s[1], 30, 28);
    KnownStep(s[2], 28, 12);
    KnownStep(s[3], 12, 18);
  }

  /** The bits of the register after two symbols tell the symbols apart. */
  lemma SwapSums(x4: bool, x3: bool, x2: bool, x1: bool, x0: bool, y4: bool, y3: bool, y2: bool, y1: bool, y0: bool,
                 p4: bool, p3: bool, p2: bool, p1: bool, p0: bool,
                 c4: bool, c3: bool, c2: bool, c1: bool, c0: bool, d4: bool, d3: bool, d2: bool, d1: bool, d0: bool)
    requires var u4, u3, u2, u1, u0 := x4 != p4, x3 != p3, x2 != p2, x1 != p1, x0 != p0;
             && c4 == ((u1 != u2) != u4) && c3 == ((u0 != u1) != u3) && c2 == ((u0 != u1) != u4)
             && c1 == ((u0 != u3) != u4) && c0 == (u2 != u3)
    requires var v4, v3, v2, v1, v0 := y4 != p4, y3 != p3, y2 != p2, y1 != p1, y0 != p0;
             && d4 == ((v1 != v2) != v4) && d3 == ((v0 != v1) != v3) && d2 == ((v0 != v1) != v4)
             && d1 == ((v0 != v3) != v4) && d0 == (v2 != v3)
    requires (x4 != d4) == (y4 != c4) && (x3 != d3) == (y3 != c3) && (x2 != d2) == (y2 != c2)
    requires (x1 != d1) == (y1 != c1) && (x0 != d0) == (y0 != c0)
    ensures x4 == y4 && x3 == y3 && x2 == y2 && x1 == y1 && x0 == y0
  {
  }

  /** Swapping two different symbols is noticed. */
  lemma Crc5SeesSwap(x: Symbol, y: Symbol, p: Symbol)
    requires Crc5Sym(x, p) < 32 && Crc5Sym(y, p) < 32
    requires Crc5Sym(y, Crc5Sym(x, p)) == Crc5Sym(x, Crc5Sym(y, p))
    ensures x == y
  {
    var x4, x3, x2, x1, x0 := AsFive(x);
    var y4, y3, y2, y1, y0 := AsFive(y);
    var p4, p3, p2, p1, p0 := AsFive(p);
    var c4, c3, c2, c1, c0 := AsFive(Crc5Sym(x, p));
    var d4, d3, d2, d1, d0 := AsFive(Crc5Sym(y, p));
    SameRegister(x4, x3, x2, x1, x0, d4, d3, d2, d1, d0, y4, y3, y2, y1, y0, c4, c3, c2, c1, c0);
    CrcBits(x4, x3, x2, x1, x0, p4, p3, p2, p1, p0, c4, c3, c2, c1, c0);
    CrcBits(y4, y3, y2, y1, y0, p4, p3, p2, p1, p0, d4, d3, d2, d1, d0);
    SwapSums(x4, x3, x2, x1, x0, y4, y3, y2, y1, y0, p4, p3, p2, p1, p0,
             c4, c3, c2, c1, c0, d4, d3, d2, d1, d0);
  }

  lemma SameRegister(x4: bool, x3: bool, x2: bool, x1: bool, x0: bool, d4: bool, d3: bool, d2: bool, d1: bool, d0: bool,
                     y4: bool, y3: bool, y2: bool, y1: bool, y0: bool, c4: bool, c3: bool, c2: bool, c1: bool, c0: bool)
    requires Crc5Sym(Five(x4, x3, x2, x1, x0), Five(d4, d3, d2, d1, d0))
          == Crc5Sym(Five(y4, y3, y2, y1, y0), Five(c4, c3, c2, c1, c0))
    ensures (x4 != d4) == (y4 != c4) && (x3 != d3) == (y3 != c3) && (x2 != d2) == (y2 != c2)
    ensures (x1 != d1) == (y1 != c1) && (x0 != d0) == (y0 != c0)
  {
    XorFive(x4, x3, x2, x1, x0, d4, d3, d2, d1, d0);
    XorFive(y4, y3, y2, y1, y0, c4, c3, c2, c1, c0);
    Crc5OfByteInjective(x4 != d4, x3 != d3, x2 != d2, x1 != d1, x0 != d0,
                        y4 != c4, y3 != c3, y2 != c2, y1 != c1, y0 != c0);
  }

  lemma CrcBits(x4: bool, x3: bool, x2: bool, x1: bool, x0: bool, p4: bool, p3: bool, p2: bool, p1: bool, p0: bool,
                c4: bool, c3: bool, c2: bool, c1: bool, c0: bool)
    requires Five(c4, c3, c2, c1, c0) == Crc5Sym(Five(x4, x3, x2, x1, x0), Five(p4, p3, p2, p1, p0))
    ensures var u4, u3, u2, u1, u0 := x4 != p4, x3 != p3, x2 != p2, x1 != p1, x0 != p0;
            && c4 == ((u1 != u2) != u4) && c3 == ((u0 != u1) != u3) && c2 == ((u0 != u1) != u4)
            && c1 == ((u0 != u3) != u4) && c0 == (u2 != u3)
  {
    Crc5SymFive(x4, x3, x2, x1, x0, p4, p3, p2, p1, p0);
    var u4, u3, u2, u1, u0 := x4 != p4, x3 != p3, x2 != p2, x1 != p1, x0 != p0;
    SameFive(c4, c3, c2, c1, c0,
             (u1 != u2) != u4, (u0 != u1) != u3, (u0 != u1) != u4, (u0 != u3) != u4, u2 != u3);
  }

  /** Nor does a symbol change places with the CRC that follows it unnoticed. */
  lemma Crc5SeesCrcSwap(x: Symbol, c: Symbol, p: Symbol)
    requires Crc5Sym(x, p) == c && Crc5Sym(c, p) == x
    ensures x == c
  {
    var x4, x3, x2, x1, x0 := AsFive(x);
    var c4, c3, c2, c1, c0 := AsFive(c);
    var p4, p3, p2, p1, p0 := AsFive(p);
    CrcBits(x4, x3, x2, x1, x0, p4, p3, p2, p1, p0, c4, c3, c2, c1, c0);
    CrcBits(c4, c3, c2, c1, c0, p4, p3, p2, p1, p0, x4, x3, x2, x1, x0);
    CrcSwapBits(x4, x3, x2, x1, x0, c4, c3, c2, c1, c0, p4, p3, p2, p1, p0);
  }

  lemma CrcSwapBits(x4: bool, x3: bool, x2: bool, x1: bool, x0: bool, c4: bool, c3: bool, c2: bool, c1: bool, c0: bool,
                    p4: bool, p3: bool, p2: bool, p1: bool, p0: bool)
    requires var u4, u3, u2, u1, u0 := x4 != p4, x3 != p3, x2 != p2, x1 != p1, x0 != p0;
             && c4 == ((u1 != u2) != u4) && c3 == ((u0 != u1) != u3) && c2 == ((u0 != u1) != u4)
             && c1 == ((u0 != u3) != u4) && c0 == (u2 != u3)
    requires var u4, u3, u2, u1, u0 := c4 != p4, c3 != p3, c2 != p2, c1 != p1, c0 != p0;
             && x4 == ((u1 != u2) != u4) && x3 == ((u0 != u1) != u3) && x2 == ((u0 != u1) != u4)
             && x1 == ((u0 != u3) != u4) && x0 == (u2 != u3)
    ensures x4 == c4 && x3 == c3 && x2 == c2 && x1 == c1 && x0 == c0
  {
  }
}
