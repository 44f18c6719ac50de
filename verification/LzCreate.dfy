/** The hash mask that MatchFinder_Create computes: the number of buckets is a power of two. */
module LzCreate {
  import opened Words
  import opened Bits

  /** `hs |= (hs >> k)` */
  function Smear(hs: nat, k: nat): nat {
    Or(hs, ShiftRight(hs, k))
  }

  /** p->hashMask for the given history, expected data size and number of hashed bytes. */
  function HashMask(historySize: UInt32, expectedSize: UInt64, bytes: nat): nat {
    if bytes == 2 then 0xFFFF
    else
      var size: nat := if historySize > expectedSize then expectedSize else historySize;
      var hs := if size != 0 then size - 1 else 0;
      var smeared := Smear(Smear(Smear(Smear(hs, 1), 2), 4), 8);
      var mask := Or(ShiftRight(smeared, 1), 0xFFFF);
      if mask > 0x100_0000 then (if bytes == 3 then 0xFF_FFFF else ShiftRight(mask, 1)) else mask
  }

  /** The highest one of `v` is at `top`, and the `width` digits down from there are ones. */
  ghost predicate Ones(v: nat, top: nat, width: nat) {
    forall i: nat :: i > top - width ==> Bit(v, i) == if i <= top then 1 else 0
  }

  /** Smearing by the width doubles it. */
  lemma SmearDoubles(v: nat, top: nat, width: nat)
    requires Ones(v, top, width) && width > 0
    ensures Ones(Smear(v, width), top, 2 * width)
  {
    hide Bit, Or, ShiftRight;
    forall i: nat | i > top - 2 * width
      ensures Bit(Smear(v, width), i) == if i <= top then 1 else 0
    {
      OrBit(v, ShiftRight(v, width), i);
      RightShiftBit(v, width, i);
    }
  }

  /** The number of ones in the mask: 16 at least, then one less than the size has digits, and from 2^25
      on another one less (24 for three bytes). */
  function MaskBits(historySize: UInt32, expectedSize: UInt64, bytes: nat): nat {
    var last := Min(historySize, expectedSize) - 1;
    var n := if bytes == 2 || last < 0x2_0000 then 16 else Digits(last) - 1;
    if n <= 24 then n else if bytes == 3 then 24 else n - 1
  }

  lemma SmearedMask(hs: UInt32)
    ensures var smeared := Smear(Smear(Smear(Smear(hs, 1), 2), 4), 8);
            Or(ShiftRight(smeared, 1), 0xFFFF) == Pow2(if hs < 0x2_0000 then 16 else Digits(hs) - 1) - 1
  {
    hide Bit, Or, ShiftRight, Smear, Pow2, Digits;
    Words32();
    HighestDigit(hs);
    DigitsBelow(hs, 32);
    if hs < 0x2_0000 {
      DigitsBelow(hs, 17);
    } else {
      AtLeastDigits(hs, 17);
    }
    var s1, n := Smear(hs, 1), if hs < 0x2_0000 then 16 else Digits(hs) - 1;
    var s2 := Smear(s1, 2);
    var s3 := Smear(s2, 4);
    var s4 := Smear(s3, 8);
    if hs > 0 {
      var top := Digits(hs) - 1;
      assert Ones(hs, top, 1);
      SmearDoubles(hs, top, 1);
      SmearDoubles(s1, top, 2);
      SmearDoubles(s2, top, 4);
      SmearDoubles(s3, top, 8);
    } else {
      ZeroSmears();
    }
    forall i: nat ensures Bit(Or(ShiftRight(s4, 1), 0xFFFF), i) == Bit(Pow2(n) - 1, i) {
      OrBit(ShiftRight(s4, 1), 0xFFFF, i);
      RightShiftBit(s4, 1, i);
      OnesBit(16, i);
      OnesBit(n, i);
      if hs == 0 {
        ZeroBit(i + 1);
      }
    }
    SameDigits(Or(ShiftRight(s4, 1), 0xFFFF), Pow2(n) - 1);
  }

  lemma Words32()
    ensures Pow2(16) == 0x1_0000 && Pow2(17) == 0x2_0000 && Pow2(24) == 0x100_0000 && Pow2(32) == 0x1_0000_0000
  {
    Pow2Bytes();
    Pow2Plus8(24);
  }

  lemma {:induction false} AtLeastDigits(v: nat, n: nat)
    requires v >= Pow2(n)
    ensures Digits(v) > n
  {
    if n > 0 {
      AtLeastDigits(v / 2, n - 1);
    }
  }

  lemma ZeroSmears()
    ensures Smear(Smear(Smear(Smear(0, 1), 2), 4), 8) == 0
  {
    assert forall k :: 0 <= k <= 8 ==> ShiftRight(0, k) == 0 by {
      forall k | 0 <= k <= 8 ensures ShiftRight(0, k) == 0 {
        ZeroShifts(k);
      }
    }
  }

  lemma {:induction false} ZeroShifts(k: nat)
    ensures ShiftRight(0, k) == 0
  {
    if k > 0 {
      ZeroShifts(k - 1);
    }
  }

  /** The mask is a number of ones, 16 to 30 of them. So the number of buckets is a power of two, and
      masking a hash is reducing it modulo that number. */
  lemma HashMaskIsOnes(historySize: UInt32, expectedSize: UInt64, bytes: nat, hash: nat)
    ensures var n := MaskBits(historySize, expectedSize, bytes);
            && 16 <= n <= 30
            && HashMask(historySize, expectedSize, bytes) == Pow2(n) - 1
            && And(hash, HashMask(historySize, expectedSize, bytes)) == hash % Pow2(n)
  {
    hide Or, ShiftRight, Smear, Pow2, Digits, And;
    Words32();
    MaskIsModulo(hash, MaskBits(historySize, expectedSize, bytes));
    if bytes != 2 {
      var size := Min(historySize, expectedSize);
      var hs: UInt32 := if size != 0 then size - 1 else 0;
      SmearedMask(hs);
      DigitsBelow(hs, 32);
      if hs >= 0x2_0000 {
        AtLeastDigits(hs, 17);
      }
      var n := if hs < 0x2_0000 then 16 else Digits(hs) - 1;
      if n <= 24 {
        Pow2Grows(n, 24);
      } else {
        Pow2Grows(25, n);
        Pow2Double(25);
        Pow2Double(n);
        HalfOfOnes(Pow2(n - 1));
      }
    }
  }

  lemma HalfOfOnes(p: nat)
    requires p > 0
    ensures ShiftRight(2 * p - 1, 1) == p - 1
  {
    assert ShiftRight(2 * p - 1, 1) == ShiftRight((2 * p - 1) / 2, 0);
  }
}
