/** The bit cursor of a CEC message on the wire (common/cec.c:46-81), most significant bit first. */
module CecTransfer {
  import opened Arithmetic
  import opened Bitwise
  import opened Memory

  /** Bit `j` of a message. */
  predicate WireBit(buf: seq<byte>, j: nat)
    requires j < 8 * |buf|
  {
    Bit(buf[j / 8], 7 - j % 8)
  }

  /** The first bit of each byte is its highest one. */
  lemma WireBitIs(buf: seq<byte>, j: nat)
    requires j < 8 * |buf|
    ensures WireBit(buf, j) <==> buf[j / 8] / Pow2(7 - j % 8) % 2 == 1
    ensures j % 8 == 0 ==> (WireBit(buf, j) <==> buf[j / 8] >= 128)
  {
    BitIsDigit(buf[j / 8], 7 - j % 8);
    assert Pow2(7) == 128;
  }

  lemma {:induction false} Pow2Below(k: nat, m: nat)
    requires k < m
    ensures Pow2(k) < Pow2(m)
  {
    if k > 0 {
      Pow2Below(k - 1, m - 1);
    } else if m > 1 {
      Pow2Below(0, m - 1);
    }
  }

  lemma {:induction false} Pow2Bit(k: nat, j: nat)
    ensures Bit(Pow2(k), j) == (j == k)
  {
    if j > 0 && k > 0 {
      Pow2Bit(k - 1, j - 1);
    } else if j > 0 {
      ZeroBit(j - 1);
    }
  }

  /** All ones below bit `m` but one. */
  lemma {:induction false} MaskBit(m: nat, k: nat, mask: nat, j: nat)
    requires k < m && mask == Pow2(m) - 1 - Pow2(k)
    ensures Bit(mask, j) == (j < m && j != k)
    decreases m
  {
    var half := Pow2(m - 1) - 1;
    if k == 0 {
      assert mask == 2 * half;
      if j > 0 {
        OnesBit(m - 1, j - 1);
      }
    } else {
      Pow2Below(k - 1, m - 1);
      assert mask == 2 * (half - Pow2(k - 1)) + 1;
      if j > 0 {
        MaskBit(m - 1, k - 1, half - Pow2(k - 1), j - 1);
      }
    }
  }

  /** The byte with the flag of bit `k` cleared, and set again if `val` is set. */
  function WithBit(a: byte, k: nat, val: bool): nat
    requires k < 8
  {
    Pow2Below(k, 8);
    var cleared := And(a, Pow2(8) - 1 - Pow2(k));
    if val then Or(cleared, Pow2(k)) else cleared
  }

  lemma WithBitIs(a: byte, k: nat, val: bool, j: nat)
    requires k < 8
    ensures WithBit(a, k, val) < 256
    ensures j < 8 ==> Bit(WithBit(a, k, val), j) == if j == k then val else Bit(a, j)
  {
    assert Pow2(8) == 256;
    Pow2Below(k, 8);
    var mask := Pow2(8) - 1 - Pow2(k);
    MaskBit(8, k, mask, j);
    AndBit(a, mask, j);
    AndBound(a, mask, 8);
    if val {
      Pow2Bit(k, j);
      OrBit(And(a, mask), Pow2(k), j);
      OrBound(And(a, mask), Pow2(k), 8);
    }
  }

  class Transfer {
    var bit: nat
    var byteIdx: nat
    const buf: array<byte>

    ghost predicate Valid()
      reads this
    {
      byteIdx <= buf.Length && bit < (if byteIdx < buf.Length then 8 else 256)
    }

    constructor (maxLen: nat)
      ensures Valid() && Position() == 0 && buf.Length == maxLen && fresh(buf)
    {
      bit, byteIdx := 0, 0;
      buf := new byte[maxLen];
    }

    /** The number of bits in front of the cursor; it stops at the end of the buffer. */
    ghost function Position(): nat
      reads this
    {
      if byteIdx < buf.Length then 8 * byteIdx + bit else 8 * buf.Length
    }

    method GetBit() returns (val: bool)
      requires Valid()
      ensures val == (Position() < 8 * buf.Length && WireBit(buf[..], Position()))
    {
      if byteIdx >= buf.Length {
        return false;
      }
      val := Bit(buf[byteIdx], 7 - bit);
    }

    method SetBit(val: bool)
      requires Valid()
      modifies buf
      ensures forall j: nat {:trigger WireBit(buf[..], j)} :: j < 8 * buf.Length ==>
                WireBit(buf[..], j) == if j == Position() then val else WireBit(old(buf[..]), j)
    {
      if byteIdx >= buf.Length {
        return;
      }
      ghost var was := buf[..];
      WithBitIs(buf[byteIdx], 7 - bit, val, 0);
      buf[byteIdx] := WithBit(buf[byteIdx], 7 - bit, val);
      forall j: nat {:trigger WireBit(buf[..], j)} | j < 8 * buf.Length
        ensures WireBit(buf[..], j) == if j == Position() then val else WireBit(was, j)
      {
        if j / 8 == byteIdx {
          WithBitIs(was[byteIdx], 7 - bit, val, 7 - j % 8);
        }
      }
    }

    method IncBit()
      requires Valid()
      modifies this
      ensures Valid() && Position() == if old(Position()) < 8 * buf.Length then old(Position()) + 1 else old(Position())
    {
      bit := (bit + 1) % 256;
      if bit == 8 {
        if byteIdx >= buf.Length {
          return;
        }
        bit := 0;
        byteIdx := byteIdx + 1;
      }
    }

    /** Whether `len` bytes have passed. At the end of the buffer this is said only once. */
    method IsEom(len: nat) returns (eom: bool)
      requires Valid()
      ensures eom ==> Position() == 8 * len
      ensures Position() == 8 * len && (len < buf.Length || bit == 0) ==> eom
    {
      if bit != 0 {
        return false;
      }
      eom := byteIdx == len;
    }

    /** Bits that come in one after the other are the bits of the message. */
    method ReceiveBits(bits: seq<bool>)
      requires Valid() && Position() == 0 && |bits| <= 8 * buf.Length
      modifies this, buf
      ensures Valid() && Position() == |bits|
      ensures forall j: nat {:trigger WireBit(buf[..], j)} :: j < |bits| ==> WireBit(buf[..], j) == bits[j]
    {
      for i := 0 to |bits|
        invariant Valid() && Position() == i
        invariant forall j: nat {:trigger WireBit(buf[..], j)} :: j < i ==> WireBit(buf[..], j) == bits[j]
      {
        SetBit(bits[i]);
        IncBit();
      }
    }

    /** And the bits that go out are those of the message. */
    method SendBits(n: nat) returns (bits: seq<bool>)
      requires Valid() && Position() == 0 && n <= 8 * buf.Length
      modifies this
      ensures Valid() && Position() == n == |bits|
      ensures forall j: nat {:trigger bits[j]} :: j < n ==> bits[j] == WireBit(buf[..], j)
    {
      bits := [];
      for i := 0 to n
        invariant Valid() && Position() == i == |bits|
        invariant forall j: nat {:trigger bits[j]} :: j < i ==> bits[j] == WireBit(buf[..], j)
      {
        var val := GetBit();
        bits := bits + [val];
        IncBit();
      }
    }
  }
}
