/** Bitwise operators on natural numbers, given by their bits. */
module Bitwise {
  import opened Arithmetic

  /** Bit `k` of `v`, bit 0 being the least significant. */
  predicate Bit(v: nat, k: nat) {
    if k == 0 then v % 2 == 1 else Bit(v / 2, k - 1)
  }

  lemma HalfFirst(v: nat, p: nat)
    requires p > 0
    ensures v / (2 * p) == v / 2 / p
  {
    var q, r := v / 2 / p, v / 2 % p;
    assert v / 2 == q * p + r;
    assert v == q * (2 * p) + (2 * r + v % 2);
    QuotientAndRemainder(v, q, 2 * p, 2 * r + v % 2);
  }

  /** The digit of its power of two. */
  lemma {:induction false} BitIsDigit(v: nat, k: nat)
    ensures Bit(v, k) <==> v / Pow2(k) % 2 == 1
  {
    if k > 0 {
      BitIsDigit(v / 2, k - 1);
      HalfFirst(v, Pow2(k - 1));
    }
  }

  function Shl(v: nat, j: nat): nat {
    v * Pow2(j)
  }

  function Shr(v: nat, j: nat): nat
    decreases j
  {
    if j == 0 then v else Shr(v / 2, j - 1)
  }

  function Digit(b: bool): nat {
    if b then 1 else 0
  }

  function Or(a: nat, b: nat): nat
    decreases a + b
  {
    if a == 0 && b == 0 then 0 else 2 * Or(a / 2, b / 2) + Digit(a % 2 == 1 || b % 2 == 1)
  }

  function And(a: nat, b: nat): nat
    decreases a + b
  {
    if a == 0 && b == 0 then 0 else 2 * And(a / 2, b / 2) + Digit(a % 2 == 1 && b % 2 == 1)
  }

  function Xor(a: nat, b: nat): nat
    decreases a + b
  {
    if a == 0 && b == 0 then 0 else 2 * Xor(a / 2, b / 2) + Digit((a % 2 == 1) != (b % 2 == 1))
  }

  lemma {:induction false} ZeroBit(k: nat)
    ensures !Bit(0, k)
  {
    if k > 0 {
      ZeroBit(k - 1);
    }
  }

  lemma {:induction false} OrBit(a: nat, b: nat, k: nat)
    ensures Bit(Or(a, b), k) == (Bit(a, k) || Bit(b, k))
    decreases k
  {
    if a == 0 && b == 0 {
      ZeroBit(k);
    } else if k > 0 {
      OrBit(a / 2, b / 2, k - 1);
    }
  }

  lemma {:induction false} AndBit(a: nat, b: nat, k: nat)
    ensures Bit(And(a, b), k) == (Bit(a, k) && Bit(b, k))
    decreases k
  {
    if a == 0 && b == 0 {
      ZeroBit(k);
    } else if k > 0 {
      AndBit(a / 2, b / 2, k - 1);
    }
  }

  lemma {:induction false} ShrBit(v: nat, j: nat, k: nat)
    ensures Bit(Shr(v, j), k) == Bit(v, k + j)
    decreases j
  {
    if j > 0 {
      ShrBit(v / 2, j - 1, k);
    }
  }

  lemma {:induction false} ShlBit(v: nat, j: nat, k: nat)
    ensures Bit(Shl(v, j), k) == (k >= j && Bit(v, k - j))
    decreases j
  {
    if j > 0 {
      assert Shl(v, j) == 2 * Shl(v, j - 1);
      if k > 0 {
        ShlBit(v, j - 1, k - 1);
      }
    }
  }

  /** The ones below bit `m`. */
  lemma {:induction false} OnesBit(m: nat, j: nat)
    ensures Bit(Pow2(m) - 1, j) == (j < m)
    decreases m
  {
    if m == 0 {
      ZeroBit(j);
    } else if j > 0 {
      OnesBit(m - 1, j - 1);
    }
  }

  /** Cutting a number down to its low bits, as a store into a narrower type does. */
  lemma {:induction false} CutBit(v: nat, m: nat, k: nat)
    ensures v % Pow2(m) < Pow2(m) && Bit(v % Pow2(m), k) == (k < m && Bit(v, k))
    decreases m
  {
    if m == 0 {
      ZeroBit(k);
    } else {
      HalfOfCut(v, Pow2(m - 1));
      if k > 0 {
        CutBit(v / 2, m - 1, k - 1);
      }
    }
  }

  lemma HalfOfCut(v: nat, p: nat)
    requires p > 0
    ensures v % (2 * p) / 2 == v / 2 % p && v % (2 * p) % 2 == v % 2
  {
    var q, r := v / 2 / p, v / 2 % p;
    assert v / 2 == q * p + r;
    assert v == q * (2 * p) + (2 * r + v % 2);
    QuotientAndRemainder(v, q, 2 * p, 2 * r + v % 2);
  }

  lemma {:induction false} HighBit(v: nat, m: nat, k: nat)
    requires v < Pow2(m) && m <= k
    ensures !Bit(v, k)
    decreases m
  {
    if m == 0 {
      ZeroBit(k);
    } else {
      HighBit(v / 2, m - 1, k - 1);
    }
  }

  lemma {:induction false} OrBound(a: nat, b: nat, m: nat)
    requires a < Pow2(m) && b < Pow2(m)
    ensures Or(a, b) < Pow2(m)
    decreases m
  {
    if m > 0 {
      OrBound(a / 2, b / 2, m - 1);
    }
  }

  lemma {:induction false} AndBound(a: nat, b: nat, m: nat)
    requires b < Pow2(m)
    ensures And(a, b) < Pow2(m)
    decreases m
  {
    if m == 0 {
      AndZero(a);
    } else {
      AndBound(a / 2, b / 2, m - 1);
    }
  }

  lemma {:induction false} AndZero(a: nat)
    ensures And(a, 0) == 0
  {
    if a > 0 {
      AndZero(a / 2);
    }
  }

  lemma {:induction false} AndCommutes(a: nat, b: nat)
    ensures And(a, b) == And(b, a)
    decreases a + b
  {
    if a != 0 || b != 0 {
      AndCommutes(a / 2, b / 2);
    }
  }
}
