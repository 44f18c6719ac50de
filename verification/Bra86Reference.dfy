/** What the converter computes, said without masks and shifts: opcodes that were passed over lately are
    remembered by their distance, and operands are sums of numbers. */
module Bra86Reference {
  import opened Words
  import opened Bra86

  /** Whether an opcode that was left alone is one, two or three bytes back. */
  datatype History = History(one: bool, two: bool, three: bool) {
    function Aged(left: bool): History { History(left, one, two) }

    function Count(): nat {
      (if one then 1 else 0) + (if two then 1 else 0) + if three then 1 else 0
    }

    function Mask(): Mask { (if one then 4 else 0) + (if two then 2 else 0) + if three then 1 else 0 }

    /** The distance of a single remembered opcode. */
    function Distance(): nat
      requires Count() == 1
      ensures 1 <= Distance() <= 3
    {
      if one then 1 else if two then 2 else 3
    }
  }

  predicate Outer(b: int) { b == 0 || b == 255 }

  /** An operand is rewritten when its last byte is 00 or FF, and no opcode is remembered or just one, the
      last byte of whose operand, in the same place, is neither. */
  predicate Rewritten(s: seq<Byte>, h: History)
    requires |s| >= 5
  {
    && Outer(s[4])
    && (h.Count() == 0 || (h.Count() == 1 && !Outer(s[4 - h.Distance()])))
  }

  /** The number of low bytes of the operand up to the last byte of the remembered opcode's operand, as
      a size. */
  function Size(h: History): nat
    requires h.Count() == 1
    ensures Size(h) > 0
  {
    if h.one then 0x100_0000 else if h.two then 0x1_0000 else 0x100
  }

  /** The sum of operand and address. When it has 00 or FF where the remembered operand ends, its bytes up
      to there are complemented and the address is added again. */
  function Target(v: UInt32, address: int, h: History): int
    requires h.Count() <= 1
  {
    var sum := (v + address) % 0x1_0000_0000;
    if h.Count() == 0 then sum
    else
      var low := sum % Size(h);
      if Outer(low / (Size(h) / 0x100)) then sum - low + (Size(h) - 1 - low) + address else sum
  }

  /** The low 25 bits of a number, sign-extended to 32 bits. */
  function Extended(n: int): (o: seq<Byte>)
    ensures |o| == 4 && ReadU32(o, 0) % 0x200_0000 == n % 0x200_0000 && Outer(ReadU32(o, 0) / 0x100_0000)
  {
    var low := n % 0x200_0000;
    BytesOfU32(if low < 0x100_0000 then low else 0xFE00_0000 + low)
  }

  /** What an address adds in the given direction. */
  function Address(at: nat, encoding: bool): int { if encoding then at else -(at as int) }

  function Reference(s: seq<Byte>, ip: nat, h: History, encoding: bool): (c: Converted)
    decreases |s|
  {
    if |s| < 5 then Converted([], s, h.Mask())
    else if s[0] != 232 && s[0] != 233 then Prepend([s[0]], Reference(s[1..], ip + 1, h.Aged(false), encoding))
    else if !Rewritten(s, h) then Prepend([s[0]], Reference(s[1..], ip + 1, h.Aged(true), encoding))
    else
      Prepend([s[0]] + Extended(Target(ReadU32(s, 1), Address(ip + 5, encoding), h)),
              Reference(s[5..], ip + 5, History(false, false, false), encoding))
  }

  lemma HistoryOfMask(h: History)
    ensures h.Aged(false).Mask() == h.Mask() / 2 && h.Aged(true).Mask() == h.Mask() / 2 + 4
    ensures h.Count() == 0 <==> h.Mask() == 0
    ensures h.Count() <= 1 <==> SinglePending(h.Mask())
    ensures h.Count() == 1 ==> h.Mask() / 2 + 1 == 4 - h.Distance() && FlipSize(h.Mask()) == Size(h)
  {
  }

  lemma SkipsReference(s: seq<Byte>, h: History)
    requires |s| >= 5
    ensures Rewritten(s, h) <==> !Skips(h.Mask(), s)
  {
    HistoryOfMask(h);
  }

  /** Both forms are one: whatever the bytes, the address, the history and the direction. */
  lemma {:induction false} ConvertIsReference(s: seq<Byte>, ip: nat, h: History, encoding: bool)
    ensures Convert(s, ip, h.Mask(), encoding) == Reference(s, ip, h, encoding)
    decreases |s|
  {
    hide NextStep, Convert, Reference;
    if |s| < 5 {
      ConvertEnds(s, ip, h.Mask(), encoding);
      ReferenceEnds(s, ip, h, encoding);
    } else {
      ConvertUnfolds(s, ip, h.Mask(), encoding);
      ReferenceUnfolds(s, ip, h, encoding);
      StepReference(s, ip, h, encoding);
      if IsOpcode(s[0]) && Rewritten(s, h) {
        ConvertIsReference(s[5..], ip + 5, History(false, false, false), encoding);
      } else {
        ConvertIsReference(s[1..], ip + 1, h.Aged(IsOpcode(s[0])), encoding);
      }
    }
  }

  lemma ReferenceEnds(s: seq<Byte>, ip: nat, h: History, encoding: bool)
    requires |s| < 5
    ensures Reference(s, ip, h, encoding) == Converted([], s, h.Mask())
  {
  }

  lemma ReferenceUnfolds(s: seq<Byte>, ip: nat, h: History, encoding: bool)
    requires |s| >= 5
    ensures Reference(s, ip, h, encoding) ==
            if IsOpcode(s[0]) && Rewritten(s, h) then
              Prepend([s[0]] + Extended(Target(ReadU32(s, 1), Address(ip + 5, encoding), h)),
                      Reference(s[5..], ip + 5, History(false, false, false), encoding))
            else
              Prepend([s[0]], Reference(s[1..], ip + 1, h.Aged(IsOpcode(s[0])), encoding))
  {
    hide Extended, Target, ReadU32;
  }

  lemma StepReference(s: seq<Byte>, ip: nat, h: History, encoding: bool)
    requires |s| >= 5
    ensures NextStep(s, ip, h.Mask(), encoding) ==
            if IsOpcode(s[0]) && Rewritten(s, h) then
              Step([s[0]] + Extended(Target(ReadU32(s, 1), Address(ip + 5, encoding), h)), 0)
            else
              Step([s[0]], h.Aged(IsOpcode(s[0])).Mask())
  {
    hide Extended, Target, ReadU32, Operand, Rewrite, Skips;
    HistoryOfMask(h);
    SkipsReference(s, h);
    assert s[..1] == [s[0]];
    if Rewritten(s, h) {
      RewriteReference(ReadU32(s, 1), ip + 5, h, encoding);
    }
  }

  lemma RewriteReference(v: UInt32, at: nat, h: History, encoding: bool)
    requires h.Count() <= 1
    ensures Operand(Rewrite(v, at % 0x1_0000_0000, h.Mask(), encoding))
            == Extended(Target(v, Address(at, encoding), h))
  {
    hide Operand, Extended, TopByte, Flip;
    HistoryOfMask(h);
    var cur, address := at % 0x1_0000_0000, Address(at, encoding);
    var v1 := Add32(v, cur, encoding);
    SameSum(v, at, encoding);
    if h.Count() == 1 {
      TopByteIs(v1, h.Mask());
      if Test86MSByte(TopByte(v1, h.Mask())) {
        var v2 := Flip(v1, h.Mask());
        FlipValue(v1, h.Mask());
        SameSum(v2, at, encoding);
        WrapMod(v2 + address, 0x1_0000_0000, 0x200_0000, 0x80);
        OperandExtended(Add32(v2, cur, encoding), v2 + address);
      } else {
        OperandExtended(v1, v1);
      }
    } else {
      OperandExtended(v1, v1);
    }
  }

  /** Reducing the address first makes no difference to a sum. */
  lemma SameSum(v: UInt32, at: nat, encoding: bool)
    ensures Add32(v, at % 0x1_0000_0000, encoding) == (v + Address(at, encoding)) % 0x1_0000_0000
  {
    var word, q, cur := 0x1_0000_0000, at / 0x1_0000_0000, at % 0x1_0000_0000;
    var sum := if encoding then v + cur else v - cur;
    var k := if encoding then q else -q;
    MulDistributes(word, sum / word, k, 0);
    DivModUnique(v + Address(at, encoding), word, sum / word + k, sum % word);
  }

  lemma OperandExtended(w: UInt32, n: int)
    requires w % 0x200_0000 == n % 0x200_0000
    ensures Operand(w) == Extended(n)
  {
    hide Operand, Extended, ReadU32;
    var o := Extended(n);
    ReadDigits(o);
    OperandCongruent(w, ReadU32(o, 0));
  }

  /** The documented meaning for a single call or jump: its operand, relative to the next instruction,
      becomes the target, modulo 2^25; decoding makes the target relative again. */
  lemma CallTarget(b: Byte, v: UInt32, rest: seq<Byte>, ip: nat, encoding: bool)
    requires (b == 0xE8 || b == 0xE9) && (v < 0x100_0000 || v >= 0xFF00_0000)
    ensures var c := Convert([b] + BytesOfU32(v) + rest, ip, 0, encoding);
            && |c.done| >= 5 && c.done[0] == b && Outer(c.done[4])
            && ReadU32(c.done, 1) % 0x200_0000 == (if encoding then v + (ip + 5) else v - (ip + 5)) % 0x200_0000
  {
    hide Convert, Reference, Extended, ReadU32, BytesOfU32;
    var s, h := [b] + BytesOfU32(v) + rest, History(false, false, false);
    ConvertIsReference(s, ip, h, encoding);
    ReferenceUnfolds(s, ip, h, encoding);
    ReadShifted(s);
    assert s[1..5] == BytesOfU32(v);
    OuterByte(v);
    var o, sum := Extended(Target(v, Address(ip + 5, encoding), h)), v + Address(ip + 5, encoding);
    var c := Convert(s, ip, 0, encoding);
    assert c.done[..5] == [b] + o;
    assert c.done[1..5] == c.done[..5][1..] == o;
    ReadShifted(c.done);
    ReadDigits(o);
    WrapMod(sum, 0x1_0000_0000, 0x200_0000, 0x80);
    assert c.done[4] == c.done[1..5][3];
  }

  lemma OuterByte(v: UInt32)
    requires v < 0x100_0000 || v >= 0xFF00_0000
    ensures Outer(BytesOfU32(v)[3])
  {
    hide BytesOfU32, ReadU32;
    ReadDigits(BytesOfU32(v));
  }

  /** Two calls of one target get the same operand, wherever they are; so do two jumps. */
  lemma SameTarget(b: Byte, v: UInt32, w: UInt32, rest: seq<Byte>, more: seq<Byte>, ip: nat, at: nat)
    requires b == 0xE8 || b == 0xE9
    requires (v < 0x100_0000 || v >= 0xFF00_0000) && (w < 0x100_0000 || w >= 0xFF00_0000)
    requires v + ip == w + at
    ensures var c := Convert([b] + BytesOfU32(v) + rest, ip, 0, true);
            var d := Convert([b] + BytesOfU32(w) + more, at, 0, true);
            |c.done| >= 5 && |d.done| >= 5 && c.done[..5] == d.done[..5]
  {
    hide Convert, ReadU32, BytesOfU32;
    var c, d := Convert([b] + BytesOfU32(v) + rest, ip, 0, true), Convert([b] + BytesOfU32(w) + more, at, 0, true);
    CallTarget(b, v, rest, ip, true);
    CallTarget(b, w, more, at, true);
    ReadShifted(c.done);
    ReadShifted(d.done);
    ReadDigits(c.done[1..5]);
    ReadDigits(d.done[1..5]);
    OperandCongruent(ReadU32(c.done, 1), ReadU32(d.done, 1));
    assert c.done[..5] == [b] + c.done[1..5] && d.done[..5] == [b] + d.done[1..5];
  }
}
