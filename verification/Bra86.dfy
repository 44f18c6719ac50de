/** The x86 branch converter (BCJ filter): CALL/JMP operands between relative and absolute form. */
module Bra86 {
  import opened Words

  /** What one call leaves behind: the processed bytes, the bytes it did not get to, the history. */
  datatype Converted = Converted(done: seq<Byte>, left: seq<Byte>, mask: Mask) {
    function Bytes(): seq<Byte> { done + left }
  }

  type Mask = m: nat | m < 8

  predicate Test86MSByte(b: Byte) { b == 0x00 || b == 0xFF }

  predicate IsOpcode(b: Byte) { b == 0xE8 || b == 0xE9 }

  /** The guard: with pending opcodes in the history, skip unless exactly one is pending
      and the operand byte it also looks at is neither 00 nor FF. */
  predicate Guarded(mask: Mask, s: seq<Byte>)
    requires |s| >= 5
  {
    mask != 0 && (mask > 4 || mask == 3 || Test86MSByte(s[mask / 2 + 1]))
  }

  /** An opcode whose operand is left alone. */
  predicate Skips(mask: Mask, s: seq<Byte>)
    requires |s| >= 5
  {
    Guarded(mask, s) || !Test86MSByte(s[4])
  }

  function Add32(v: UInt32, cur: UInt32, encoding: bool): UInt32 {
    if encoding then (v + cur) % 0x1_0000_0000 else (v - cur) % 0x1_0000_0000
  }

  /** `(UInt32)0x100 << sh` for sh = (mask & 6) << 2. */
  function FlipSize(mask: Mask): (m: nat)
    ensures m >= 0x100
  {
    if mask < 2 then 0x100 else if mask < 4 then 0x1_0000 else if mask < 6 then 0x100_0000 else 0x1_0000_0000
  }

  function TopByte(v: UInt32, mask: Mask): Byte {
    v / (FlipSize(mask) / 0x100) % 0x100
  }

  function Flip(v: UInt32, mask: Mask): UInt32 {
    Xor(v, FlipSize(mask) - 1) % 0x1_0000_0000
  }

  /** The rewritten operand value, with the flip-and-re-add correction. */
  function Rewrite(v: UInt32, cur: UInt32, mask: Mask, encoding: bool): UInt32 {
    var v1 := Add32(v, cur, encoding);
    if mask != 0 && Test86MSByte(TopByte(v1, mask)) then
      Add32(Flip(v1, mask), cur, encoding)
    else
      v1
  }

  /** The four operand bytes written back. */
  function Operand(v: UInt32): (o: seq<Byte>)
    ensures |o| == 4
  {
    [v % 0x100, v / 0x100 % 0x100, v / 0x1_0000 % 0x100, if v / 0x100_0000 % 2 == 1 then 0xFF else 0x00]
  }

  /** What happens at the current position: the bytes settled there and the next history. */
  datatype Step = Step(head: seq<Byte>, mask: Mask)

  function NextStep(s: seq<Byte>, ip: nat, mask: Mask, encoding: bool): (step: Step)
    requires |s| >= 5
    ensures |step.head| == 1 || |step.head| == 5
  {
    if !IsOpcode(s[0]) then
      Step(s[..1], mask / 2)
    else if Skips(mask, s) then
      Step(s[..1], mask / 2 + 4)
    else
      Step(s[..1] + Operand(Rewrite(ReadU32(s, 1), (ip + 5) % 0x1_0000_0000, mask, encoding)), 0)
  }

  function Prepend(head: seq<Byte>, rest: Converted): Converted {
    rest.(done := head + rest.done)
  }

  /** What a call does to the bytes from the current position on.
      `ip` is the address of the first byte of `s`, not yet reduced to 32 bits. */
  function Convert(s: seq<Byte>, ip: nat, mask: Mask, encoding: bool): (c: Converted)
    ensures |c.done| + |c.left| == |s| && c.left == s[|c.done|..]
    decreases |s|
  {
    if |s| < 5 then
      Converted([], s, mask)
    else
      var step := NextStep(s, ip, mask, encoding);
      Prepend(step.head, Convert(s[|step.head|..], ip + |step.head|, step.mask, encoding))
  }

  // ---- The operand rewriting is its own inverse, direction swapped ----

  lemma FlipValue(v: UInt32, mask: Mask)
    requires mask < 6
    ensures Flip(v, mask) == v + FlipSize(mask) - 1 - 2 * (v % FlipSize(mask))
  {
    var k := if mask < 2 then 8 else if mask < 4 then 16 else 24;
    hide Xor, Pow2;
    Pow2Bytes();
    XorOnes(v, k);
  }

  /** A single pending opcode at distance 3, 2 or 1, or none. */
  predicate SinglePending(mask: Mask) { mask == 0 || mask == 1 || mask == 2 || mask == 4 }

  lemma FlipSizeIs(mask: Mask)
    requires mask < 6
    ensures var m := FlipSize(mask);
            var unit := m / 0x100;
            m == 0x100 * unit && unit > 0 && m * (0x1_0000_0000 / m) == 0x1_0000_0000
  {
  }

  /** The outermost digits of a number below 0x100 units. */
  lemma OuterDigit(r: nat, unit: nat)
    requires unit > 0 && r < 0x100 * unit
    ensures 0 <= r / unit < 0x100
    ensures r / unit == 0 <==> r < unit
    ensures r / unit == 0xFF <==> r >= 0xFF * unit
  {
    var d, e := r / unit, r % unit;
    assert r == unit * d + e;
    MulAtLeast(unit, d - 0x100);
    MulAtLeast(unit, d - 0xFF);
    MulAtLeast(unit, d);
    MulDistributes(unit, d, -0x100, 0);
    MulDistributes(unit, d, -0xFF, 0);
  }

  /** The guarded byte is 00 or FF exactly when the flipped bits lie in the outermost 1/256ths. */
  lemma TopByteRange(v: UInt32, mask: Mask)
    requires mask < 6
    ensures var m := FlipSize(mask);
            Test86MSByte(TopByte(v, mask)) <==> v % m < m / 0x100 || v % m >= m - m / 0x100
  {
    hide TopByte;
    TopByteIs(v, mask);
    if mask < 2 {
      OuterDigit(v % 0x100, 1);
    } else if mask < 4 {
      OuterDigit(v % 0x1_0000, 0x100);
    } else {
      OuterDigit(v % 0x100_0000, 0x1_0000);
    }
  }

  lemma TopByteIs(v: UInt32, mask: Mask)
    requires mask < 6
    ensures TopByte(v, mask)
            == if mask < 2 then v % 0x100 / 1 else if mask < 4 then v % 0x1_0000 / 0x100 else v % 0x100_0000 / 0x1_0000
  {
    if mask < 2 {
      DigitOf(v, 0x100, 1, v / 0x100, v % 0x100);
    } else if mask < 4 {
      DigitOf(v, 0x1_0000, 0x100, v / 0x1_0000, v % 0x1_0000);
    } else {
      DigitOf(v, 0x100_0000, 0x1_0000, v / 0x100_0000, v % 0x100_0000);
    }
  }

  lemma DigitOf(v: nat, m: nat, unit: nat, q: nat, r: nat)
    requires unit > 0 && m == 0x100 * unit && v == m * q + r && r < m
    ensures v / unit % 0x100 == r / unit
  {
    var d, e := r / unit, r % unit;
    OuterDigit(r, unit);
    MulAssoc(unit, 0x100, q);
    MulDistributes(unit, 0x100 * q, d, 0);
    DivModUnique(v, unit, 0x100 * q + d, e);
    DivModUnique(v / unit, 0x100, q, d);
  }

  /** Adding, seen on the low bits alone. */
  lemma AddLow(v: UInt32, cur: UInt32, m: nat, n: nat, encoding: bool)
    requires m > 0 && m * n == 0x1_0000_0000
    ensures var low := if encoding then v % m + cur % m else v % m - cur % m;
            Add32(v, cur, encoding) % m ==
              (if low >= m then low - m else if low < 0 then low + m else low)
  {
    WrapMod(if encoding then v + cur else v - cur, 0x1_0000_0000, m, n);
    SumMod(v, cur, m);
    DifferenceMod(v, cur, m);
  }

  /** Flipping, seen on the flipped bits alone. */
  lemma FlipLow(v: UInt32, mask: Mask)
    requires mask < 6
    ensures Flip(v, mask) % FlipSize(mask) == FlipSize(mask) - 1 - v % FlipSize(mask)
    ensures Flip(Flip(v, mask), mask) == v
  {
    var m := FlipSize(mask);
    var f := Flip(v, mask);
    FlipValue(v, mask);
    DivModUnique(f, m, v / m, m - 1 - v % m);
    FlipValue(f, mask);
  }

  /** Flip and re-add amounts to complementing the flipped bits of the old value. */
  lemma FlippedTwice(v: UInt32, v1: UInt32, v2: UInt32, v3: UInt32, cur: UInt32, mask: Mask, encoding: bool)
    requires mask < 6
    requires v1 == Add32(v, cur, encoding) && v2 == Flip(v1, mask) && v3 == Add32(v2, cur, encoding)
    requires !Test86MSByte(TopByte(v, mask)) && Test86MSByte(TopByte(v1, mask))
    ensures Test86MSByte(TopByte(v2, mask)) && !Test86MSByte(TopByte(v3, mask))
  {
    hide FlipSize, Add32, Flip, TopByte, Test86MSByte;
    FlipSizeIs(mask);
    var m := FlipSize(mask);
    var n := 0x1_0000_0000 / m;
    AddLow(v, cur, m, n, encoding);
    AddLow(v2, cur, m, n, encoding);
    FlipLow(v1, mask);
    TopByteRange(v, mask);
    TopByteRange(v1, mask);
    TopByteRange(v2, mask);
    TopByteRange(v3, mask);
    FlippedLow(m, m / 0x100, v % m, cur % m, v1 % m, v2 % m, v3 % m, encoding);
  }

  /** The same on the low bits: with them `a` before, `b` added, `a1`, `a2`, `a3` after each step. */
  lemma FlippedLow(m: nat, unit: nat, a: nat, b: nat, a1: nat, a2: nat, a3: nat, encoding: bool)
    requires m == 0x100 * unit && a < m && b < m && a1 < m && a2 < m && a3 < m
    requires var low := if encoding then a + b else a - b;
             a1 == if low >= m then low - m else if low < 0 then low + m else low
    requires a2 == m - 1 - a1
    requires var low := if encoding then a2 + b else a2 - b;
             a3 == if low >= m then low - m else if low < 0 then low + m else low
    requires unit <= a < m - unit && (a1 < unit || a1 >= m - unit)
    ensures a2 < unit || a2 >= m - unit
    ensures unit <= a3 < m - unit
  {
    assert a3 == m - 1 - a;
  }

  /** If the guarded byte was neither 00 nor FF, it still is neither, and the swapped direction
      computes the old value back. */
  lemma RewriteInverse(v: UInt32, cur: UInt32, mask: Mask, encoding: bool)
    requires SinglePending(mask)
    requires mask != 0 ==> !Test86MSByte(TopByte(v, mask))
    ensures mask != 0 ==> !Test86MSByte(TopByte(Rewrite(v, cur, mask, encoding), mask))
    ensures Rewrite(Rewrite(v, cur, mask, encoding), cur, mask, !encoding) == v
  {
    var v1 := Add32(v, cur, encoding);
    AddBack(v, cur, encoding);
    if mask != 0 && Test86MSByte(TopByte(v1, mask)) {
      var v2 := Flip(v1, mask);
      var v3 := Add32(v2, cur, encoding);
      FlipLow(v1, mask);
      AddBack(v2, cur, encoding);
      FlippedTwice(v, v1, v2, v3, cur, mask, encoding);
      assert Rewrite(v, cur, mask, encoding) == v3;
      assert Add32(v3, cur, !encoding) == v2;
      assert Rewrite(v3, cur, mask, !encoding) == Add32(v1, cur, !encoding);
    }
  }

  lemma Add32Is(v: UInt32, cur: UInt32, encoding: bool)
    ensures var sum := if encoding then v + cur else v - cur;
            Add32(v, cur, encoding)
            == if sum >= 0x1_0000_0000 then sum - 0x1_0000_0000 else if sum < 0 then sum + 0x1_0000_0000 else sum
  {
    var sum := if encoding then v + cur else v - cur;
    var q := if sum >= 0x1_0000_0000 then 1 else if sum < 0 then -1 else 0;
    DivModUnique(sum, 0x1_0000_0000, q, sum - 0x1_0000_0000 * q);
  }

  lemma AddBack(v: UInt32, cur: UInt32, encoding: bool)
    ensures Add32(Add32(v, cur, encoding), cur, !encoding) == v
  {
    hide Add32;
    Add32Is(v, cur, encoding);
    Add32Is(Add32(v, cur, encoding), cur, !encoding);
  }

  lemma FlipSizeDivides(v: UInt32, mask: Mask)
    requires mask < 6
    ensures v % FlipSize(mask) == v % 0x200_0000 % FlipSize(mask)
  {
    var m := FlipSize(mask);
    WrapMod(v, 0x200_0000, m, 0x200_0000 / m);
  }

  lemma AddCongruent(v: UInt32, w: UInt32, cur: UInt32, encoding: bool)
    requires v % 0x200_0000 == w % 0x200_0000
    ensures Add32(v, cur, encoding) % 0x200_0000 == Add32(w, cur, encoding) % 0x200_0000
  {
    AddLow(v, cur, 0x200_0000, 0x80, encoding);
    AddLow(w, cur, 0x200_0000, 0x80, encoding);
  }

  lemma FlipCongruent(v: UInt32, w: UInt32, mask: Mask)
    requires mask < 6
    requires v % 0x200_0000 == w % 0x200_0000
    ensures TopByte(v, mask) in {0, 0xFF} <==> TopByte(w, mask) in {0, 0xFF}
    ensures Flip(v, mask) % 0x200_0000 == Flip(w, mask) % 0x200_0000
  {
    FlipSizeDivides(v, mask);
    FlipSizeDivides(w, mask);
    TopByteRange(v, mask);
    TopByteRange(w, mask);
    FlipValue(v, mask);
    FlipValue(w, mask);
    var change := FlipSize(mask) - 1 - 2 * (v % FlipSize(mask));
    SumMod(v, change, 0x200_0000);
    SumMod(w, change, 0x200_0000);
  }

  /** Only the low 25 bits of the operand matter. */
  lemma RewriteCongruent(v: UInt32, w: UInt32, cur: UInt32, mask: Mask, encoding: bool)
    requires SinglePending(mask)
    requires v % 0x200_0000 == w % 0x200_0000
    ensures Rewrite(v, cur, mask, encoding) % 0x200_0000 == Rewrite(w, cur, mask, encoding) % 0x200_0000
  {
    AddCongruent(v, w, cur, encoding);
    if mask != 0 {
      var v1, w1 := Add32(v, cur, encoding), Add32(w, cur, encoding);
      FlipCongruent(v1, w1, mask);
      AddCongruent(Flip(v1, mask), Flip(w1, mask), cur, encoding);
    }
  }

  lemma OperandCongruent(v: UInt32, w: UInt32)
    requires v % 0x200_0000 == w % 0x200_0000
    ensures Operand(v) == Operand(w)
  {
    OperandLow(v);
    OperandLow(w);
  }

  lemma OperandLow(v: UInt32)
    ensures Operand(v) == Operand(v % 0x200_0000)
  {
    var q, r := v / 0x200_0000, v % 0x200_0000;
    assert v == 0x200_0000 * q + r;
    DigitLow(v, q, r, 0x1, 0x200_0000, 0x100, 0x2_0000);
    DigitLow(v, q, r, 0x100, 0x2_0000, 0x100, 0x200);
    DigitLow(v, q, r, 0x1_0000, 0x200, 0x100, 2);
    DigitLow(v, q, r, 0x100_0000, 2, 2, 1);
  }

  /** On operand bytes: rewriting keeps the outer byte 00 or FF and the guarded byte neither,
      and the swapped direction restores the bytes. */
  lemma OperandInverse(o: seq<Byte>, cur: UInt32, mask: Mask, encoding: bool)
    requires |o| == 4 && Test86MSByte(o[3])
    requires SinglePending(mask) && (mask != 0 ==> !Test86MSByte(o[mask / 2]))
    ensures var rewritten := Operand(Rewrite(ReadU32(o, 0), cur, mask, encoding));
            && Test86MSByte(rewritten[3])
            && (mask != 0 ==> !Test86MSByte(rewritten[mask / 2]))
            && Operand(Rewrite(ReadU32(rewritten, 0), cur, mask, !encoding)) == o
  {
    var v := ReadU32(o, 0);
    var w := Rewrite(v, cur, mask, encoding);
    var rewritten := Operand(w);
    ReadDigits(o);
    TopByteDigit(v, mask);
    TopByteDigit(w, mask);
    RewriteInverse(v, cur, mask, encoding);
    OperandReadsBack(w);
    RewriteCongruent(w, ReadU32(rewritten, 0), cur, mask, !encoding);
    OperandCongruent(v, Rewrite(ReadU32(rewritten, 0), cur, mask, !encoding));
  }

  lemma ReadDigits(o: seq<Byte>)
    requires |o| == 4
    ensures var v := ReadU32(o, 0);
            v % 0x100 == o[0] && v / 0x100 % 0x100 == o[1] && v / 0x1_0000 % 0x100 == o[2] && v / 0x100_0000 == o[3]
    ensures Test86MSByte(o[3]) ==> Operand(ReadU32(o, 0)) == o
  {
    var v := ReadU32(o, 0);
    DivModUnique(v, 0x100, o[1] + 0x100 * o[2] as int + 0x1_0000 * o[3] as int, o[0]);
    DivModUnique(v / 0x100, 0x100, o[2] + 0x100 * o[3] as int, o[1]);
    DivModUnique(v, 0x1_0000, o[2] + 0x100 * o[3] as int, o[0] + 0x100 * o[1] as int);
    DivModUnique(v / 0x1_0000, 0x100, o[3], o[2]);
    DivModUnique(v, 0x100_0000, o[3], o[0] + 0x100 * o[1] as int + 0x1_0000 * o[2] as int);
  }

  lemma TopByteDigit(v: UInt32, mask: Mask)
    requires SinglePending(mask)
    ensures mask != 0 ==> TopByte(v, mask) == Operand(v)[mask / 2]
  {
  }

  lemma OperandReadsBack(w: UInt32)
    ensures ReadU32(Operand(w), 0) % 0x200_0000 == w % 0x200_0000
  {
    var o := Operand(w);
    assert w / 0x1_0000 == 0x100 * (w / 0x100_0000) + w / 0x1_0000 % 0x100;
    assert w / 0x100 == 0x100 * (w / 0x1_0000) + w / 0x100 % 0x100;
    var h := w / 0x100_0000;
    var low := o[0] + 0x100 * o[1] as int + 0x1_0000 * o[2] as int;
    assert w == 0x100_0000 * h + low;
    DivModUnique(w, 0x200_0000, h / 2, 0x100_0000 * (h % 2) + low);
    DivModUnique(ReadU32(o, 0), 0x200_0000, o[3] / 2, 0x100_0000 * (h % 2) + low);
  }

  // ---- Both directions take the same branches ----

  /** The bytes of `s` and `t` at distance 1, 2, 3 that some pending opcode depends on
      are 00 or FF together, and the first bytes are equal. */
  predicate Guards(mask: Mask, s: seq<Byte>, t: seq<Byte>)
    requires |s| == |t|
  {
    && (|s| > 0 ==> t[0] == s[0])
    && (|s| > 1 && mask % 2 == 1 ==> (Test86MSByte(t[1]) <==> Test86MSByte(s[1])))
    && (|s| > 2 && mask / 2 % 2 == 1 ==> (Test86MSByte(t[2]) <==> Test86MSByte(s[2])))
    && (|s| > 3 && mask >= 4 ==> (Test86MSByte(t[3]) <==> Test86MSByte(s[3])))
  }

  /** One position forward: if the rest is guarded for the next history, the whole is for this one. */
  lemma GuardsStep(s: seq<Byte>, ip: nat, mask: Mask, encoding: bool, rest: seq<Byte>)
    requires |s| >= 5
    requires var step := NextStep(s, ip, mask, encoding);
             |rest| == |s| - |step.head| && Guards(step.mask, s[|step.head|..], rest)
    ensures Guards(mask, s, NextStep(s, ip, mask, encoding).head + rest)
  {
    hide Rewrite, Operand, ReadU32, Test86MSByte, Guards;
    if IsOpcode(s[0]) && !Skips(mask, s) {
      ReadShifted(s);
      OperandInverse(s[1..5], (ip + 5) % 0x1_0000_0000, mask, encoding);
      GuardsRewritten(s, mask, NextStep(s, ip, mask, encoding).head[1..], rest);
    } else {
      GuardsShifted(s, mask, NextStep(s, ip, mask, encoding).mask, rest);
    }
  }

  lemma ReadShifted(s: seq<Byte>)
    requires |s| >= 5
    ensures ReadU32(s, 1) == ReadU32(s[1..5], 0)
  {
  }

  /** Behind a byte that is kept, every pending distance is one larger. */
  lemma GuardsShifted(s: seq<Byte>, mask: Mask, next: Mask, rest: seq<Byte>)
    requires |s| >= 5 && |rest| == |s| - 1 && (next == mask / 2 || next == mask / 2 + 4)
    requires Guards(next, s[1..], rest)
    ensures Guards(mask, s, s[..1] + rest)
  {
    hide Test86MSByte;
    var t := s[..1] + rest;
    assert t[1] == rest[0] && t[2] == rest[1] && t[3] == rest[2];
    assert s[1] == s[1..][0] && s[2] == s[1..][1] && s[3] == s[1..][2];
  }

  /** The guarded byte of a rewritten operand is neither 00 nor FF, before and after. */
  lemma GuardsRewritten(s: seq<Byte>, mask: Mask, operand: seq<Byte>, rest: seq<Byte>)
    requires |s| >= 5 && |operand| == 4 && |rest| == |s| - 5 && SinglePending(mask)
    requires mask != 0 ==> !Test86MSByte(s[mask / 2 + 1]) && !Test86MSByte(operand[mask / 2])
    ensures Guards(mask, s, s[..1] + operand + rest)
  {
    hide Test86MSByte;
    var t := s[..1] + operand + rest;
    assert t[1] == operand[0] && t[2] == operand[1] && t[3] == operand[2];
  }

  lemma ConvertEnds(s: seq<Byte>, ip: nat, mask: Mask, encoding: bool)
    requires |s| < 5
    ensures Convert(s, ip, mask, encoding) == Converted([], s, mask)
  {
  }

  lemma ConvertUnfolds(s: seq<Byte>, ip: nat, mask: Mask, encoding: bool)
    requires |s| >= 5
    ensures var step := NextStep(s, ip, mask, encoding); var n := |step.head|;
            Convert(s, ip, mask, encoding) == Prepend(step.head, Convert(s[n..], ip + n, step.mask, encoding))
  {
    hide NextStep;
  }

  /** A byte that a pending opcode still depends on is guarded: conversions further on
      do not change whether it is 00 or FF. The first byte is never changed at all. */
  lemma {:induction false} PendingBytesGuarded(s: seq<Byte>, ip: nat, mask: Mask, encoding: bool)
    ensures Guards(mask, s, Convert(s, ip, mask, encoding).Bytes())
    decreases |s|
  {
    hide NextStep, Convert;
    if |s| < 5 {
      ConvertEnds(s, ip, mask, encoding);
      return;
    }
    var step := NextStep(s, ip, mask, encoding);
    var n := |step.head|;
    var rest := Convert(s[n..], ip + n, step.mask, encoding);
    ConvertUnfolds(s, ip, mask, encoding);
    PendingBytesGuarded(s[n..], ip + n, step.mask, encoding);
    GuardsStep(s, ip, mask, encoding, rest.Bytes());
    Assoc(step.head, rest.done, rest.left);
  }

  /** The swapped direction takes the same step and restores the settled bytes. */
  lemma StepInverse(s: seq<Byte>, ip: nat, mask: Mask, encoding: bool, rest: seq<Byte>)
    requires |s| >= 5
    requires var step := NextStep(s, ip, mask, encoding);
             |rest| == |s| - |step.head| && Guards(step.mask, s[|step.head|..], rest)
    ensures var step := NextStep(s, ip, mask, encoding);
            NextStep(step.head + rest, ip, mask, !encoding) == Step(s[..|step.head|], step.mask)
  {
    hide Rewrite, Operand, ReadU32, Test86MSByte;
    var step := NextStep(s, ip, mask, encoding);
    var t := step.head + rest;
    assert t[..1] == s[..1];
    if IsOpcode(s[0]) && !Skips(mask, s) {
      ReadShifted(s);
      ReadShifted(t);
      OperandInverse(s[1..5], (ip + 5) % 0x1_0000_0000, mask, encoding);
      assert t[1..5] == step.head[1..];
      assert s[..5] == s[..1] + s[1..5];
    }
  }

  /** Decoding undoes encoding and encoding undoes decoding: same bytes back, same processed
      count, same final history. */
  lemma {:induction false} ConvertInverse(s: seq<Byte>, ip: nat, mask: Mask, encoding: bool)
    ensures var c := Convert(s, ip, mask, encoding);
            Convert(c.Bytes(), ip, mask, !encoding) == Converted(s[..|c.done|], c.left, c.mask)
    decreases |s|
  {
    hide NextStep, Guards, Convert;
    if |s| < 5 {
      ConvertEnds(s, ip, mask, encoding);
      ConvertEnds(s, ip, mask, !encoding);
      assert [] + s == s;
      return;
    }
    var step := NextStep(s, ip, mask, encoding);
    var n := |step.head|;
    var rest := Convert(s[n..], ip + n, step.mask, encoding);
    var t := step.head + rest.Bytes();
    ConvertUnfolds(s, ip, mask, encoding);
    Assoc(step.head, rest.done, rest.left);
    PendingBytesGuarded(s[n..], ip + n, step.mask, encoding);
    StepInverse(s, ip, mask, encoding, rest.Bytes());
    ConvertInverse(s[n..], ip + n, step.mask, encoding);
    ConvertUnfolds(t, ip, mask, !encoding);
    DropHead(step.head, rest.Bytes());
    TakeTwice(s, n, |rest.done|);
  }

  lemma DropHead(a: seq<Byte>, b: seq<Byte>)
    ensures (a + b)[|a|..] == b
  {
  }

  lemma TakeTwice(s: seq<Byte>, n: nat, k: nat)
    requires n + k <= |s|
    ensures s[..n] + s[n..][..k] == s[..n + k]
  {
  }

  // ---- Feeding a stream in pieces ----

  lemma PrependTwice(a: seq<Byte>, b: seq<Byte>, c: Converted)
    ensures Prepend(a, Prepend(b, c)) == Prepend(a + b, c)
  {
    Assoc(a, b, c.done);
  }

  lemma PrependNothing(c: Converted)
    ensures Prepend([], c) == c
  {
  }

  lemma PrependParts(a: seq<Byte>, c: Converted)
    ensures var r := Prepend(a, c);
            r.done == a + c.done && r.left == c.left && r.mask == c.mask
  {
  }

  /** Only the low 32 bits of the address matter. */
  lemma {:induction false} AddressWraps(s: seq<Byte>, ip: nat, low: nat, mask: Mask, encoding: bool)
    requires ip % 0x1_0000_0000 == low % 0x1_0000_0000
    ensures Convert(s, ip, mask, encoding) == Convert(s, low, mask, encoding)
    decreases |s|
  {
    hide NextStep, Convert;
    if |s| < 5 {
      ConvertEnds(s, ip, mask, encoding);
      ConvertEnds(s, low, mask, encoding);
      return;
    }
    StepWraps(s, ip, low, mask, encoding);
    var step := NextStep(s, ip, mask, encoding);
    var n := |step.head|;
    ConvertUnfolds(s, ip, mask, encoding);
    ConvertUnfolds(s, low, mask, encoding);
    SumMod(ip, n, 0x1_0000_0000);
    SumMod(low, n, 0x1_0000_0000);
    AddressWraps(s[n..], ip + n, low + n, step.mask, encoding);
  }

  lemma StepWraps(s: seq<Byte>, ip: nat, low: nat, mask: Mask, encoding: bool)
    requires |s| >= 5
    requires ip % 0x1_0000_0000 == low % 0x1_0000_0000
    ensures NextStep(s, ip, mask, encoding) == NextStep(s, low, mask, encoding)
  {
    hide Operand, Rewrite, Skips;
    SumMod(ip, 5, 0x1_0000_0000);
    SumMod(low, 5, 0x1_0000_0000);
  }

  lemma StepLooksAhead(s: seq<Byte>, more: seq<Byte>, ip: nat, mask: Mask, encoding: bool)
    requires |s| >= 5
    ensures NextStep(s + more, ip, mask, encoding) == NextStep(s, ip, mask, encoding)
  {
    hide Operand, Rewrite;
    assert (s + more)[..1] == s[..1];
    assert ReadU32(s + more, 1) == ReadU32(s, 1);
  }

  lemma MoreBehind(s: seq<Byte>, more: seq<Byte>, n: nat)
    requires n <= |s|
    ensures (s + more)[n..] == s[n..] + more
  {
  }

  /** Stopping after `s` and going on with what it left, with the address advanced and the
      history carried, is the same as converting `s + more` at once. */
  lemma {:induction false} ConvertResumes(s: seq<Byte>, more: seq<Byte>, ip: nat, mask: Mask, encoding: bool)
    ensures var c := Convert(s, ip, mask, encoding);
            Convert(s + more, ip, mask, encoding) ==
              Prepend(c.done, Convert(c.left + more, ip + |c.done|, c.mask, encoding))
    decreases |s|
  {
    hide NextStep, Convert, Prepend;
    if |s| < 5 {
      ConvertEnds(s, ip, mask, encoding);
      PrependNothing(Convert(s + more, ip, mask, encoding));
      return;
    }
    var step := NextStep(s, ip, mask, encoding);
    var n := |step.head|;
    var rest := Convert(s[n..], ip + n, step.mask, encoding);
    StepLooksAhead(s, more, ip, mask, encoding);
    ConvertUnfolds(s, ip, mask, encoding);
    ConvertUnfolds(s + more, ip, mask, encoding);
    MoreBehind(s, more, n);
    ConvertResumes(s[n..], more, ip + n, step.mask, encoding);
    var last := Convert(rest.left + more, ip + n + |rest.done|, rest.mask, encoding);
    PrependTwice(step.head, rest.done, last);
    PrependParts(step.head, rest);
  }

  /** The documented calling loop: each piece is appended to what the last call left unprocessed. */
  function ConvertPieces(left: seq<Byte>, pieces: seq<seq<Byte>>, ip: UInt32, mask: Mask, encoding: bool): Converted
    decreases |pieces|
  {
    if |pieces| == 0 then
      Convert(left, ip, mask, encoding)
    else
      var c := Convert(left + pieces[0], ip, mask, encoding);
      Prepend(c.done, ConvertPieces(c.left, pieces[1..], (ip + |c.done|) % 0x1_0000_0000, c.mask, encoding))
  }

  function Concat(pieces: seq<seq<Byte>>): seq<Byte> {
    if |pieces| == 0 then [] else pieces[0] + Concat(pieces[1..])
  }

  /** Any way of cutting the stream into pieces gives the bytes, the count and the history of
      one call on the whole. */
  lemma {:induction false} PiecesAsOne(left: seq<Byte>, pieces: seq<seq<Byte>>, ip: UInt32, mask: Mask, encoding: bool)
    ensures ConvertPieces(left, pieces, ip, mask, encoding) == Convert(left + Concat(pieces), ip, mask, encoding)
    decreases |pieces|
  {
    hide Convert;
    if |pieces| == 0 {
      assert left + [] == left;
    } else {
      var s := left + pieces[0];
      var more := Concat(pieces[1..]);
      var c := Convert(s, ip, mask, encoding);
      var at := (ip + |c.done|) % 0x1_0000_0000;
      PiecesAsOne(c.left, pieces[1..], at, c.mask, encoding);
      AddressWraps(c.left + more, ip + |c.done|, at, c.mask, encoding);
      ConvertResumes(s, more, ip, mask, encoding);
      Assoc(left, pieces[0], more);
    }
  }

  // ---- The in-place loop ----

  function ShiftRight(mask: Mask, d: nat): Mask {
    if d > 2 then 0 else if d == 2 then mask / 4 else if d == 1 then mask / 2 else mask
  }

  /** What is still to be done from `pos` on, after the bytes before it are settled. */
  ghost function Rest(data: seq<Byte>, pos: nat, size: nat, ip: nat, mask: Mask, encoding: bool): Converted
    requires pos <= size <= |data|
  {
    Prepend(data[..pos], Convert(data[pos..size], ip + pos, mask, encoding))
  }

  /** One settled position, in place. */
  lemma RestStep(before: seq<Byte>, after: seq<Byte>, pos: nat, size: nat, ip: nat, mask: Mask, encoding: bool)
    requires pos + 5 <= size <= |before| == |after|
    requires var step := NextStep(before[pos..size], ip + pos, mask, encoding);
             var n := |step.head|;
             after[..pos] == before[..pos] && after[pos..pos + n] == step.head && after[pos + n..] == before[pos + n..]
    ensures var step := NextStep(before[pos..size], ip + pos, mask, encoding);
            Rest(before, pos, size, ip, mask, encoding) == Rest(after, pos + |step.head|, size, ip, step.mask, encoding)
  {
    hide NextStep, Convert;
    var s := before[pos..size];
    var step := NextStep(s, ip + pos, mask, encoding);
    var n := |step.head|;
    ConvertUnfolds(s, ip + pos, mask, encoding);
    Splice(before, after, pos, step.head, size);
    PrependTwice(before[..pos], step.head, Convert(s[n..], ip + pos + n, step.mask, encoding));
  }

  lemma Splice(before: seq<Byte>, after: seq<Byte>, pos: nat, head: seq<Byte>, size: nat)
    requires pos + |head| <= size <= |before|
    requires |after| == |before|
    requires after[..pos] == before[..pos] && after[pos..pos + |head|] == head
    requires after[pos + |head|..] == before[pos + |head|..]
    ensures after[..pos + |head|] == before[..pos] + head
    ensures after[pos + |head|..size] == before[pos..size][|head|..]
  {
    var n := pos + |head|;
    assert after[..n] == after[..pos] + after[pos..n];
    assert after[n..size] == after[n..][..size - n];
    assert before[pos..size][|head|..] == before[n..][..size - n];
  }

  lemma RestSkips(data: seq<Byte>, pos: nat, size: nat, ip: nat, mask: Mask, encoding: bool)
    requires pos + 5 <= size <= |data|
    requires !IsOpcode(data[pos]) || Skips(mask, data[pos..size])
    ensures var mask' := if IsOpcode(data[pos]) then mask / 2 + 4 else mask / 2;
            Rest(data, pos, size, ip, mask, encoding) == Rest(data, pos + 1, size, ip, mask', encoding)
  {
    hide Rest, Convert;
    assert data[pos..pos + 1] == data[pos..size][..1];
    RestStep(data, data, pos, size, ip, mask, encoding);
  }

  /** Running over bytes that are no opcode only ages the history. */
  lemma {:induction false} ScanAges(data: seq<Byte>, pos: nat, p: nat, size: nat, ip: nat, mask: Mask, encoding: bool)
    requires pos <= p && p + 4 <= size <= |data|
    requires forall i :: pos <= i < p ==> !IsOpcode(data[i])
    ensures Rest(data, pos, size, ip, mask, encoding) == Rest(data, p, size, ip, ShiftRight(mask, p - pos), encoding)
    decreases p - pos
  {
    hide Rest, Convert;
    if pos < p {
      RestSkips(data, pos, size, ip, mask, encoding);
      ScanAges(data, pos + 1, p, size, ip, mask / 2, encoding);
      assert ShiftRight(mask / 2, p - pos - 1) == ShiftRight(mask, p - pos);
    }
  }

  /** The bytes of the buffer once nothing more can be settled. */
  lemma RestEnds(data: seq<Byte>, pos: nat, size: nat, ip: nat, mask: Mask, encoding: bool)
    requires pos <= size <= |data| && size < pos + 5
    ensures Rest(data, pos, size, ip, mask, encoding) == Converted(data[..pos], data[pos..size], mask)
  {
    assert data[..pos] + [] == data[..pos];
  }

  lemma RestBegins(data: seq<Byte>, size: nat, ip: nat, mask: Mask, encoding: bool)
    requires size <= |data|
    ensures Rest(data, 0, size, ip, mask, encoding) == Convert(data[..size], ip, mask, encoding)
  {
    hide Convert;
    assert data[0..size] == data[..size];
    var c := Convert(data[..size], ip, mask, encoding);
    assert data[..0] + c.done == c.done;
  }

  /** The branch that rewrites four operand bytes. */
  method RewriteOperand(data: array<Byte>, pos: nat, size: nat, ip: UInt32, mask: Mask, encoding: bool)
    requires pos + 5 <= size <= data.Length
    requires IsOpcode(data[pos]) && !Skips(mask, data[pos..size])
    modifies data
    ensures data[size..] == old(data[size..])
    ensures Rest(old(data[..]), pos, size, ip, mask, encoding) == Rest(data[..], pos + 5, size, ip, 0, encoding)
  {
    hide Rest, Convert, Rewrite, Operand;
    ghost var before := data[..];
    ghost var s := before[pos..size];
    assert s == data[pos..size];
    var v := ReadU32(data[pos + 1..pos + 5], 0);
    assert v == ReadU32(s, 1);
    var o := Operand(Rewrite(v, (ip + pos + 5) % 0x1_0000_0000, mask, encoding));
    data[pos + 1], data[pos + 2], data[pos + 3], data[pos + 4] := o[0], o[1], o[2], o[3];
    assert data[pos..pos + 5] == s[..1] + o;
    RestStep(before, data[..], pos, size, ip, mask, encoding);
  }

  /** The inner loop: the next opcode before `limit`. */
  method ScanOpcode(data: array<Byte>, pos: nat, limit: nat) returns (p: nat)
    requires limit <= data.Length
    ensures pos <= p && (p <= limit || p == pos)
    ensures forall i :: pos <= i < p ==> !IsOpcode(data[i])
    ensures p < limit ==> IsOpcode(data[p])
  {
    p := pos;
    while p < limit && !IsOpcode(data[p])
      invariant pos <= p && (p <= limit || p == pos)
      invariant forall i :: pos <= i < p ==> !IsOpcode(data[i])
    {
      p := p + 1;
    }
  }

  /** x86_Convert: rewrites the first `size` bytes of `data` in place. */
  method X86Convert(data: array<Byte>, size: nat, ip: UInt32, state: UInt32, encoding: bool)
    returns (processed: nat, state': UInt32)
    requires size <= data.Length
    modifies data
    ensures var c := Convert(old(data[..size]), ip, state % 8, encoding);
            && data[..] == c.Bytes() + old(data[size..])
            && processed == |c.done|
            && (if size < 5 then state' == state else state' == c.mask)
  {
    hide Rest, Convert, Skips;
    if size < 5 {
      ConvertEnds(data[..size], ip, state % 8, encoding);
      assert data[..] == data[..size] + data[size..];
      return 0, state;
    }
    var pos, mask: Mask := 0, state % 8;
    var limit := size - 4;
    ghost var goal := Convert(data[..size], ip, mask, encoding);
    RestBegins(data[..], size, ip, mask, encoding);
    assert data[..][..size] == data[..size];
    while true
      invariant 0 <= pos <= size
      invariant data[size..] == old(data[size..])
      invariant goal == Rest(data[..], pos, size, ip, mask, encoding)
      decreases size - pos
    {
      var p := ScanOpcode(data, pos, limit);
      if p <= limit {
        ScanAges(data[..], pos, p, size, ip, mask, encoding);
      }
      mask := ShiftRight(mask, p - pos);
      pos := p;
      if p >= limit {
        RestEnds(data[..], pos, size, ip, mask, encoding);
        assert data[..] == data[..pos] + data[pos..size] + data[size..];
        return pos, mask;
      }
      var s := data[pos..size];
      assert data[..][pos..size] == s;
      assert pos + 5 <= size && IsOpcode(data[..][pos]);
      if Skips(mask, s) {
        RestSkips(data[..], pos, size, ip, mask, encoding);
        mask := mask / 2 + 4;
        pos := pos + 1;
      } else {
        RewriteOperand(data, pos, size, ip, mask, encoding);
        mask := 0;
        pos := pos + 5;
      }
    }
  }
}
