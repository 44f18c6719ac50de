/** The buckets in terms of the strings in them: which strings share one, and when a report is complete. */
module LzStrings {
  import opened Words
  import opened Bits
  import opened LzTree
  import opened LzHash
  import opened LzWindow
  import opened LzBuckets
  import opened LzMatches
  import opened LzRun
  import opened LzIndex
  import opened LzChain
  import opened LzHcRun

  // ---- The hashes digit by digit ----

  /** Digit `i` of the word of the third byte of a string, and of its fourth. */
  function Third(b: Byte, i: nat): nat { if i < 8 then 0 else Bit(b, i - 8) }
  function Fourth(w: UInt32, i: nat): (d: nat)
    ensures d < 2
  {
    if i < 5 then 0 else Bit(w, i - 5)
  }

  lemma MixBits(crc: CrcTable, b0: Byte, b1: Byte, b2: Byte, i: nat)
    ensures Bit(Mix2(crc, b0, b1), i) == (Bit(crc[b0], i) + Bit(b1, i)) % 2
    ensures Bit(Mix3(crc, b0, b1, b2), i) == (Bit(crc[b0], i) + Bit(b1, i) + Third(b2, i)) % 2
  {
    hide Bit, Xor, Pow2;
    Pow2Bytes();
    XorBit(crc[b0], b1, i);
    XorBit(Mix2(crc, b0, b1), 0x100 * b2, i);
    LeftShiftBit(b2, 8, i);
  }

  /** Digit by digit, the 2-byte and 3-byte hashes are sums modulo 2 over the bytes. */
  lemma HeadHashBits(crc: CrcTable, b0: Byte, b1: Byte, b2: Byte, i: nat)
    ensures i < 10 ==> Bit(H2(crc, b0, b1), i) == (Bit(crc[b0], i) + Bit(b1, i)) % 2
    ensures i < 16 ==> Bit(H3(crc, b0, b1, b2), i) == (Bit(crc[b0], i) + Bit(b1, i) + Third(b2, i)) % 2
  {
    hide Bit, Mix2, Mix3, Pow2;
    Pow2Sizes();
    MixBits(crc, b0, b1, b2, i);
    ModBit(Mix2(crc, b0, b1), 10, i);
    ModBit(Mix3(crc, b0, b1, b2), 16, i);
  }

  /** So are the bucket hashes for 2^n buckets. */
  lemma MainHashBits(crc: CrcTable, b0: Byte, b1: Byte, b2: Byte, b3: Byte, n: nat, i: nat)
    requires i < n <= 32
    ensures Bit(Main3(crc, b0, b1, b2, Pow2(n)), i) == (Bit(crc[b0], i) + Bit(b1, i) + Third(b2, i)) % 2
    ensures Bit(Main4(crc, b0, b1, b2, b3, Pow2(n)), i)
            == (Bit(crc[b0], i) + Bit(b1, i) + Third(b2, i) + Fourth(crc[b3], i)) % 2
  {
    hide Bit, Mix3, Xor, Pow2, Third, Fourth;
    var mixed, shifted := Mix3(crc, b0, b1, b2), Shifted(crc[b3]);
    MixBits(crc, b0, b1, b2, i);
    ModBit(mixed, n, i);
    ModBit(Xor(mixed, shifted), n, i);
    XorBit(mixed, shifted, i);
    ShiftedBit(crc[b3], i);
  }

  /** `p->crc[cur[3]] << 5`, as a 32-bit word. */
  function Shifted(w: UInt32): UInt32 { 0x20 * (w as int) % 0x1_0000_0000 }

  lemma ShiftedBit(w: UInt32, i: nat)
    requires i < 32
    ensures Bit(Shifted(w), i) == Fourth(w, i)
  {
    hide Bit, Pow2;
    Pow2Of32();
    ModBit(0x20 * (w as int), 32, i);
    LeftShiftBit(w, 5, i);
  }

  lemma Pow2Of32()
    ensures Pow2(5) == 0x20 && Pow2(32) == 0x1_0000_0000
  {
    Pow2Bytes();
    Pow2Plus8(24);
    assert Pow2(1) == 2 && Pow2(3) == 8;
  }

  // ---- Which strings share a bucket ----

  /** The sum over the hashed bytes of a string at digit `i`. */
  function Sum(c: Config, data: seq<Byte>, x: int, i: nat): nat {
    Bit(c.crc[At(data, x, 0)], i) + Bit(At(data, x, 1), i) + Third(At(data, x, 2), i)
      + if c.bytes == 4 then Fourth(c.crc[At(data, x, 3)], i) else 0
  }

  /** Two strings collide when they agree on two bytes or, with more hashed bytes, when their sums have the
      same parity at each of the `n` digits. */
  ghost predicate Collide(c: Config, n: nat, data: seq<Byte>, x: int, y: int) {
    if c.bytes == 2 then At(data, x, 0) == At(data, y, 0) && At(data, x, 1) == At(data, y, 1)
    else forall i :: 0 <= i < n ==> Sum(c, data, x, i) % 2 == Sum(c, data, y, i) % 2
  }

  /** The strings of a bucket are those that collide. */
  lemma BucketExactly(c: Config, n: nat, data: seq<Byte>, x: int, y: int)
    requires c.Ok() && c.buckets == Pow2(n) && n <= 32
    ensures c.MainHash(data, x) == c.MainHash(data, y) <==> Collide(c, n, data, x, y)
  {
    hide Bit, Main3, Main4, Pow2, Third, Fourth;
    if c.bytes > 2 {
      HashesDecide(c.MainHash(data, x), c.MainHash(data, y), n);
      forall i | 0 <= i < n
        ensures Bit(c.MainHash(data, x), i) == Sum(c, data, x, i) % 2
        ensures Bit(c.MainHash(data, y), i) == Sum(c, data, y, i) % 2
      {
        MainHashBits(c.crc, At(data, x, 0), At(data, x, 1), At(data, x, 2), At(data, x, 3), n, i);
        MainHashBits(c.crc, At(data, y, 0), At(data, y, 1), At(data, y, 2), At(data, y, 3), n, i);
      }
    }
  }

  lemma HashesDecide(a: nat, b: nat, n: nat)
    requires a < Pow2(n) && b < Pow2(n)
    ensures a == b <==> forall i :: 0 <= i < n ==> Bit(a, i) == Bit(b, i)
  {
    hide Pow2, Bit;
    DigitsDecide(a, b, n);
    DivModUnique(a, Pow2(n), 0, a);
    DivModUnique(b, Pow2(n), 0, b);
  }

  /** Two bytes are hashed without any loss. */
  lemma Main2Exactly(a0: Byte, a1: Byte, b0: Byte, b1: Byte)
    ensures Main2(a0, a1) == Main2(b0, b1) <==> a0 == b0 && a1 == b1
  {
  }

  /** With 2^16 buckets or more, strings that share the first byte are in one bucket exactly when they share
      the next two; for four bytes, when they share the fourth as well. */
  lemma MiddleBytes(crc: CrcTable, a0: Byte, a1: Byte, a2: Byte, b1: Byte, b2: Byte, b3: Byte, n: nat)
    requires 16 <= n <= 32
    ensures Main3(crc, a0, a1, a2, Pow2(n)) == Main3(crc, a0, b1, b2, Pow2(n)) <==> a1 == b1 && a2 == b2
    ensures Main4(crc, a0, a1, a2, b3, Pow2(n)) == Main4(crc, a0, b1, b2, b3, Pow2(n)) <==> a1 == b1 && a2 == b2
  {
    hide Bit, Main3, Main4, H3, Pow2, Third, Fourth;
    Pow2Sizes();
    HashesDecide(H3(crc, a0, a1, a2), H3(crc, a0, b1, b2), 16);
    forall i | 0 <= i < 16
      ensures Bit(Main3(crc, a0, a1, a2, Pow2(n)), i) == Bit(Main3(crc, a0, b1, b2, Pow2(n)), i)
              <==> Bit(H3(crc, a0, a1, a2), i) == Bit(H3(crc, a0, b1, b2), i)
      ensures Bit(Main4(crc, a0, a1, a2, b3, Pow2(n)), i) == Bit(Main4(crc, a0, b1, b2, b3, Pow2(n)), i)
              <==> Bit(H3(crc, a0, a1, a2), i) == Bit(H3(crc, a0, b1, b2), i)
    {
      MainHashBits(crc, a0, a1, a2, b3, n, i);
      MainHashBits(crc, a0, b1, b2, b3, n, i);
      HeadHashBits(crc, a0, a1, a2, i);
      HeadHashBits(crc, a0, b1, b2, i);
    }
    if H3(crc, a0, a1, a2) == H3(crc, a0, b1, b2) {
      H3Genuine(crc, a0, a1, a2, a0, b1, b2);
    }
  }

  /** Strings that share the first three bytes are in one bucket exactly when the shifted words of their
      fourth bytes agree modulo the number of buckets. */
  lemma LastByte(crc: CrcTable, b0: Byte, b1: Byte, b2: Byte, a3: Byte, b3: Byte, n: nat)
    requires n <= 32
    ensures Main4(crc, b0, b1, b2, a3, Pow2(n)) == Main4(crc, b0, b1, b2, b3, Pow2(n))
            <==> Shifted(crc[a3]) % Pow2(n) == Shifted(crc[b3]) % Pow2(n)
  {
    hide Bit, Main4, Pow2, Shifted;
    var a, b := Main4(crc, b0, b1, b2, a3, Pow2(n)), Main4(crc, b0, b1, b2, b3, Pow2(n));
    var v, w := Shifted(crc[a3]), Shifted(crc[b3]);
    HashesDecide(a, b, n);
    DigitsDecide(v, w, n);
    if a == b {
      forall i | 0 <= i < n ensures Bit(v, i) == Bit(w, i) {
        LastDigit(crc, b0, b1, b2, a3, b3, n, i);
      }
    } else if v % Pow2(n) == w % Pow2(n) {
      forall i | 0 <= i < n ensures Bit(a, i) == Bit(b, i) {
        LastDigit(crc, b0, b1, b2, a3, b3, n, i);
      }
    }
  }

  lemma LastDigit(crc: CrcTable, b0: Byte, b1: Byte, b2: Byte, a3: Byte, b3: Byte, n: nat, i: nat)
    requires i < n <= 32
    ensures Bit(Main4(crc, b0, b1, b2, a3, Pow2(n)), i) == Bit(Main4(crc, b0, b1, b2, b3, Pow2(n)), i)
            <==> Bit(Shifted(crc[a3]), i) == Bit(Shifted(crc[b3]), i)
  {
    hide Bit, Main4, Pow2, Third, Fourth, Shifted;
    MainHashBits(crc, b0, b1, b2, a3, n, i);
    MainHashBits(crc, b0, b1, b2, b3, n, i);
    ShiftedBit(crc[a3], i);
    ShiftedBit(crc[b3], i);
    var x := Bit(crc[b0], i) + Bit(b1, i) + Third(b2, i);
    SameParity(x, Fourth(crc[a3], i), Fourth(crc[b3], i));
  }

  lemma SameParity(x: nat, a: nat, b: nat)
    requires a < 2 && b < 2
    ensures (x + a) % 2 == (x + b) % 2 <==> a == b
  {
  }

  // ---- Runs ----

  /** The strings from `lo` on and before `b` that collide with the one at `y`, newest first. */
  ghost function Rivals(c: Config, n: nat, data: seq<Byte>, b: nat, lo: int, y: int): seq<nat> {
    if b == 0 || b - 1 < lo then []
    else (if Collide(c, n, data, b - 1, y) then [b - 1] else []) + Rivals(c, n, data, b - 1, lo, y)
  }

  lemma {:induction false} RivalsAreMates(c: Config, n: nat, data: seq<Byte>, b: nat, lo: int, y: int)
    requires c.Ok() && c.buckets == Pow2(n) && n <= 32
    ensures Rivals(c, n, data, b, lo, y) == Mates(c, data, b, lo, c.MainHash(data, y))
    decreases b
  {
    hide Collide, Config.MainHash, Pow2;
    if b > 0 && b - 1 >= lo {
      BucketExactly(c, n, data, b - 1, y);
      RivalsAreMates(c, n, data, b - 1, lo, y);
    }
  }

  /** A tree finder's report is complete when no string of the window that collides with the current one,
      nor the current one, has more than cutValue colliding strings before it in its own window. */
  lemma FewRivals(p: Params, c: Config, n: nat, data: seq<Byte>, son: seq<UInt32>, k: nat)
    requires Setup(p, c, data, son) && k < |data| && c.buckets == Pow2(n) && n <= 32
    requires forall j: nat :: (j == k || k + 1 - p.cyclicSize < j < k) && Collide(c, n, data, j, k) ==>
               |Rivals(c, n, data, j, j + 1 - p.cyclicSize, j)| <= c.cutValue
    ensures CompleteReport(p, c, data, k, Report(p, c, data, After(p, c, data, son, k).0))
  {
    hide Collide, Rivals, Config.MainHash, Mates, IndexTrees, After, Report, Roomy, Scan, Long, Pow2;
    EveryPosition(p, c, data, son, k);
    if LimitAt(p, data, k) >= c.bytes {
      forall j: nat | (j == k || k + 1 - p.cyclicSize < j < k) && c.MainHash(data, j) == c.MainHash(data, k)
        ensures Roomy(p, c, data, j)
      {
        BucketExactly(c, n, data, j, k);
        RivalsAreMates(c, n, data, j, j + 1 - p.cyclicSize, j);
        FewStringsAreRoomy(p, c, data, j);
      }
      assert AllRoomy(p, c, data, k);
    }
  }

  /** The report of Hc4 is complete when the current string has no more colliding strings in the window
      than are visited. */
  lemma FewRivalsHc(p: Params, c: Config, n: nat, data: seq<Byte>, son: seq<UInt32>, k: nat)
    requires SetupHc(p, c, data, son) && k < |data| && c.buckets == Pow2(n) && n <= 32
    requires |Rivals(c, n, data, k, k + 1 - p.cyclicSize, k)| <= Visits(c.cutValue)
    ensures CompleteReport(p, c, data, k, ReportHc(p, c, data, AfterHc(p, c, data, son, k).0))
  {
    hide Rivals, Config.MainHash, Mates, AfterHc, ReportHc, CompleteReport, Pow2;
    EveryPositionHc(p, c, data, son, k);
    RivalsAreMates(c, n, data, k, k + 1 - p.cyclicSize, k);
  }
}
