/** The hash functions of the match finder, for an arbitrary crc table. */
module LzHash {
  import opened Words

  const HASH2_SIZE: nat := 0x400
  const HASH3_SIZE: nat := 0x1_0000

  /** A crc table: 256 words, nothing else is assumed about it. */
  type CrcTable = crc: seq<UInt32> | |crc| == 256 witness seq(256, _ => 0)

  /** The first mixing step common to HASH3_CALC and HASH4_CALC. */
  function Mix2(crc: CrcTable, b0: Byte, b1: Byte): nat {
    Xor(crc[b0], b1)
  }

  function Mix3(crc: CrcTable, b0: Byte, b1: Byte, b2: Byte): nat {
    Xor(Mix2(crc, b0, b1), 0x100 * b2)
  }

  /** `h2` and `h3` of HASH4_CALC, and `hv` of HASH2_CALC, HASH3_CALC and HASH4_CALC,
      for a table of 2^bits buckets. */
  function H2(crc: CrcTable, b0: Byte, b1: Byte): (h: nat)
    ensures h < 0x400
  {
    Mix2(crc, b0, b1) % 0x400
  }

  function H3(crc: CrcTable, b0: Byte, b1: Byte, b2: Byte): (h: nat)
    ensures h < 0x1_0000
  {
    Mix3(crc, b0, b1, b2) % 0x1_0000
  }

  function Main2(b0: Byte, b1: Byte): (h: nat)
    ensures h < 0x1_0000
  {
    b0 + 0x100 * b1 as int
  }

  function Main3(crc: CrcTable, b0: Byte, b1: Byte, b2: Byte, size: nat): (h: nat)
    requires size > 0
    ensures h < size
  {
    Mix3(crc, b0, b1, b2) % size
  }

  function Main4(crc: CrcTable, b0: Byte, b1: Byte, b2: Byte, b3: Byte, size: nat): (h: nat)
    requires size > 0
    ensures h < size
  {
    Xor(Mix3(crc, b0, b1, b2), 0x20 * (crc[b3] as int) % 0x1_0000_0000) % size
  }

  lemma Pow2Sizes()
    ensures Pow2(10) == 0x400 && Pow2(16) == 0x1_0000
  {
    Pow2Bytes();
    Pow2Plus8(2);
    assert Pow2(1) == 2 && Pow2(2) == 4;
  }

  lemma SmallerMod(a: nat, b: nat, m: nat, n: nat)
    requires m > 0 && n > 0 && a % (m * n) == b % (m * n)
    ensures a % m == b % m
  {
    WrapMod(a, m * n, m, n);
    WrapMod(b, m * n, m, n);
  }

  /** Equal first bytes and equal h2 force equal second bytes, whatever the crc table. */
  lemma H2Genuine(crc: CrcTable, a0: Byte, a1: Byte, b0: Byte, b1: Byte)
    requires a0 == b0 && H2(crc, a0, a1) == H2(crc, b0, b1)
    ensures a1 == b1
  {
    hide Xor, Pow2;
    Pow2Sizes();
    XorCancel(crc[a0], a1, b1, 10);
  }

  /** Equal first bytes and equal h3 force equal second and third bytes, whatever the crc table. */
  lemma H3Genuine(crc: CrcTable, a0: Byte, a1: Byte, a2: Byte, b0: Byte, b1: Byte, b2: Byte)
    requires a0 == b0 && H3(crc, a0, a1, a2) == H3(crc, b0, b1, b2)
    ensures a1 == b1 && a2 == b2
  {
    hide Xor, Pow2;
    Pow2Sizes();
    Pow2Bytes();
    var x, y := Mix2(crc, a0, a1), Mix2(crc, b0, b1);
    LowByte(x, a2);
    LowByte(y, b2);
    SmallerMod(Mix3(crc, a0, a1, a2), Mix3(crc, b0, b1, b2), 0x100, 0x100);
    XorCancel(crc[a0], a1, b1, 8);
    XorCancel(x, 0x100 * a2, 0x100 * b2, 16);
  }

  /** A byte shifted up does not reach the low byte. */
  lemma LowByte(x: nat, b: Byte)
    ensures Xor(x, 0x100 * b) % 0x100 == x % 0x100
  {
    Pow2Bytes();
    XorLow(x, 0x100 * b, 8);
  }

  lemma {:induction false} XorLow(x: nat, y: nat, k: nat)
    requires y % Pow2(k) == 0
    ensures Xor(x, y) % Pow2(k) == x % Pow2(k)
  {
    hide Xor;
    if k > 0 {
      HalveMod(y, k);
      XorDigit(x, y);
      XorLow(x / 2, y / 2, k - 1);
      HalveMod(x, k);
      HalveMod(Xor(x, y), k);
    }
  }
}
