/** Binary digits: how the bit operations of C act on them. */
module Bits {
  import opened Words

  /** Binary digit `i` of a number. */
  function Bit(v: nat, i: nat): (b: nat)
    ensures b < 2
  {
    if i == 0 then v % 2 else Bit(v / 2, i - 1)
  }

  lemma {:induction false} XorBit(a: nat, b: nat, i: nat)
    ensures Bit(Xor(a, b), i) == (Bit(a, i) + Bit(b, i)) % 2
    decreases i
  {
    hide Xor;
    XorDigit(a, b);
    if i > 0 {
      XorBit(a / 2, b / 2, i - 1);
    }
  }

  /** Numbers agree modulo 2^n exactly when their n low digits agree. */
  lemma {:induction false} DigitsDecide(a: nat, b: nat, n: nat)
    ensures a % Pow2(n) == b % Pow2(n) <==> forall i :: 0 <= i < n ==> Bit(a, i) == Bit(b, i)
    decreases n
  {
    hide Bit, Pow2;
    if n == 0 {
      Pow2Zero();
    } else {
      HalveMod(a, n);
      HalveMod(b, n);
      DigitsDecide(a / 2, b / 2, n - 1);
      BitZero(a);
      BitZero(b);
      if forall i :: 0 <= i < n ==> Bit(a, i) == Bit(b, i) {
        forall i | 0 <= i < n - 1 ensures Bit(a / 2, i) == Bit(b / 2, i) {
          NextBit(a, i);
          NextBit(b, i);
          assert Bit(a, i + 1) == Bit(b, i + 1);
        }
      } else {
        var i :| 0 <= i < n && Bit(a, i) != Bit(b, i);
        if i > 0 {
          NextBit(a, i - 1);
          NextBit(b, i - 1);
          assert Bit(a / 2, i - 1) != Bit(b / 2, i - 1);
        }
      }
    }
  }

  lemma BitZero(v: nat)
    ensures Bit(v, 0) == v % 2
  {
  }

  lemma NextBit(v: nat, i: nat)
    ensures Bit(v, i + 1) == Bit(v / 2, i)
  {
  }

  lemma {:induction false} ModBit(v: nat, n: nat, i: nat)
    ensures Bit(v % Pow2(n), i) == if i < n then Bit(v, i) else 0
    decreases i
  {
    hide Pow2;
    if n == 0 {
      Pow2Zero();
      ZeroBit(i);
    } else {
      HalveMod(v, n);
      DivModUnique(v % Pow2(n), 2, v / 2 % Pow2(n - 1), v % 2);
      if i > 0 {
        ModBit(v / 2, n - 1, i - 1);
      }
    }
  }

  lemma {:induction false} ZeroBit(i: nat)
    ensures Bit(0, i) == 0
  {
    if i > 0 {
      ZeroBit(i - 1);
    }
  }

  /** `v << k` */
  lemma {:induction false} LeftShiftBit(v: nat, k: nat, i: nat)
    ensures Bit(Pow2(k) * v, i) == if i < k then 0 else Bit(v, i - k)
    decreases k
  {
    if k > 0 {
      assert Pow2(k) * v == 2 * (Pow2(k - 1) * v);
      if i > 0 {
        LeftShiftBit(v, k - 1, i - 1);
      }
    }
  }

  /** The `>>` operator of C on non-negative values. */
  function ShiftRight(v: nat, k: nat): nat {
    if k == 0 then v else ShiftRight(v / 2, k - 1)
  }

  lemma {:induction false} RightShiftBit(v: nat, k: nat, i: nat)
    ensures Bit(ShiftRight(v, k), i) == Bit(v, i + k)
    decreases k
  {
    if k > 0 {
      RightShiftBit(v / 2, k - 1, i);
    }
  }

  /** The `|` operator of C on non-negative values. */
  function Or(a: nat, b: nat): nat
    decreases a + b
  {
    if a == 0 then b
    else if b == 0 then a
    else (if a % 2 + b % 2 > 0 then 1 else 0) + 2 * Or(a / 2, b / 2)
  }

  lemma OrUnfolds(a: nat, b: nat)
    ensures Or(a, b) % 2 == (if a % 2 + b % 2 > 0 then 1 else 0) && Or(a, b) / 2 == Or(a / 2, b / 2)
  {
    if a == 0 {
      assert Or(0, b / 2) == b / 2;
    } else if b == 0 {
      assert Or(a / 2, 0) == a / 2;
    } else {
      DivModUnique(Or(a, b), 2, Or(a / 2, b / 2), if a % 2 + b % 2 > 0 then 1 else 0);
    }
  }

  lemma {:induction false} OrBit(a: nat, b: nat, i: nat)
    ensures Bit(Or(a, b), i) == if Bit(a, i) + Bit(b, i) > 0 then 1 else 0
    decreases i
  {
    hide Or;
    OrUnfolds(a, b);
    if i > 0 {
      OrBit(a / 2, b / 2, i - 1);
    }
  }

  /** The `&` operator of C on non-negative values. */
  function And(a: nat, b: nat): nat
    decreases a
  {
    if a == 0 then 0 else (a % 2) * (b % 2) + 2 * And(a / 2, b / 2)
  }

  /** Masking with n ones is reducing modulo 2^n. */
  lemma {:induction false} MaskIsModulo(v: nat, n: nat)
    ensures And(v, Pow2(n) - 1) == v % Pow2(n)
    decreases n
  {
    hide Pow2;
    if n == 0 {
      Pow2Zero();
      AndZero(v);
    } else {
      Pow2Double(n);
      var p := Pow2(n - 1);
      DivModUnique(2 * p - 1, 2, p - 1, 1);
      HalveMod(v, n);
      MaskIsModulo(v / 2, n - 1);
      if v == 0 {
        DivModUnique(0, 2 * p, 0, 0);
      }
    }
  }

  lemma {:induction false} AndZero(v: nat)
    ensures And(v, 0) == 0
  {
    if v > 0 {
      AndZero(v / 2);
    }
  }

  lemma {:induction false} OnesBit(n: nat, i: nat)
    ensures Bit(Pow2(n) - 1, i) == if i < n then 1 else 0
    decreases n
  {
    hide Pow2;
    if n == 0 {
      Pow2Zero();
      ZeroBit(i);
    } else {
      Pow2Double(n);
      var p := Pow2(n - 1);
      DivModUnique(2 * p - 1, 2, p - 1, 1);
      if i > 0 {
        OnesBit(n - 1, i - 1);
      }
    }
  }

  /** Numbers with the same digits are equal. */
  lemma {:induction false} SameDigits(a: nat, b: nat)
    requires forall i: nat :: Bit(a, i) == Bit(b, i)
    ensures a == b
    decreases a + b
  {
    hide Bit;
    BitZero(a);
    BitZero(b);
    if a + b > 0 {
      forall i: nat ensures Bit(a / 2, i) == Bit(b / 2, i) {
        NextBit(a, i);
        NextBit(b, i);
        assert Bit(a, i + 1) == Bit(b, i + 1);
      }
      SameDigits(a / 2, b / 2);
    }
  }

  /** How many binary digits a number has. */
  function Digits(v: nat): nat {
    if v == 0 then 0 else 1 + Digits(v / 2)
  }

  /** The highest digit is a one, and there is none behind it. */
  lemma {:induction false} HighestDigit(v: nat)
    ensures v > 0 ==> Digits(v) > 0 && Bit(v, Digits(v) - 1) == 1
    ensures forall i: nat :: i >= Digits(v) ==> Bit(v, i) == 0
  {
    if v == 0 {
      forall i: nat ensures Bit(v, i) == 0 {
        ZeroBit(i);
      }
    } else {
      HighestDigit(v / 2);
      forall i: nat | i >= Digits(v) ensures Bit(v, i) == 0 {
        assert Bit(v, i) == Bit(v / 2, i - 1);
      }
    }
  }

  lemma {:induction false} DigitsBelow(v: nat, n: nat)
    requires v < Pow2(n)
    ensures Digits(v) <= n
  {
    if v > 0 {
      DigitsBelow(v / 2, n - 1);
    }
  }

  lemma {:induction false} Pow2Grows(m: nat, n: nat)
    requires m <= n
    ensures Pow2(m) <= Pow2(n)
    decreases n
  {
    if m < n {
      Pow2Grows(m, n - 1);
    }
  }
}
