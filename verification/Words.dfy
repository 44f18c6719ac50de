/** Bytes, fixed-width words and the bit operations of the modelled C code, on unbounded integers.
    Wrap-around is written out with `%`; exclusive or is defined bit by bit. */
module Words {

  datatype Option<T> = None | Some(value: T)

  type Byte = b: int | 0 <= b < 0x100

  type UInt16 = x: int | 0 <= x < 0x1_0000
  type UInt32 = x: int | 0 <= x < 0x1_0000_0000
  type UInt64 = x: int | 0 <= x < 0x1_0000_0000_0000_0000

  function Min(a: int, b: int): int { if a < b then a else b }

  /** The `^` operator of C on non-negative values. */
  function Xor(a: nat, b: nat): nat
    decreases a + b
  {
    if a == 0 then b
    else if b == 0 then a
    else (if a % 2 == b % 2 then 0 else 1) + 2 * Xor(a / 2, b / 2)
  }

  function Pow2(k: nat): (p: nat)
    ensures p >= 1
  {
    if k == 0 then 1 else 2 * Pow2(k - 1)
  }

  lemma Pow2Bytes()
    ensures Pow2(8) == 0x100 && Pow2(16) == 0x1_0000 && Pow2(24) == 0x100_0000
  {
    Pow2Plus8(0);
    Pow2Plus8(8);
    Pow2Plus8(16);
  }

  lemma Pow2Plus8(k: nat)
    ensures Pow2(k + 8) == 0x100 * Pow2(k)
  {
    assert Pow2(k + 4) == 0x10 * Pow2(k) by {
      assert Pow2(k + 2) == 4 * Pow2(k);
    }
    assert Pow2(k + 6) == 4 * Pow2(k + 4);
  }

  /** The defining equation also holds for zero operands. */
  lemma XorUnfolds(a: nat, b: nat)
    ensures Xor(a, b) == (if a % 2 == b % 2 then 0 else 1) + 2 * Xor(a / 2, b / 2)
  {
    if a == 0 {
      assert Xor(0, b / 2) == b / 2;
    } else if b == 0 {
      assert Xor(a / 2, 0) == a / 2;
    }
  }

  /** Exclusive or works digit by digit: the low bit and the rest do not mix. */
  lemma XorDigit(a: nat, b: nat)
    ensures Xor(a, b) % 2 == (if a % 2 == b % 2 then 0 else 1)
    ensures Xor(a, b) / 2 == Xor(a / 2, b / 2)
  {
    hide Xor;
    XorUnfolds(a, b);
    DivModUnique(Xor(a, b), 2, Xor(a / 2, b / 2), if a % 2 == b % 2 then 0 else 1);
  }

  lemma HalveMod(a: nat, k: nat)
    requires k > 0
    ensures a % Pow2(k) == a % 2 + 2 * ((a / 2) % Pow2(k - 1))
  {
    var p := Pow2(k - 1);
    var q, r := (a / 2) / p, (a / 2) % p;
    assert a == (2 * p) * q + (a % 2 + 2 * r) by {
      assert a / 2 == p * q + r;
      assert a == 2 * (a / 2) + a % 2;
    }
    DivModUnique(a, 2 * p, q, a % 2 + 2 * r);
  }

  lemma DivModUnique(a: int, m: int, q: int, r: int)
    requires m > 0 && 0 <= r < m && a == m * q + r
    ensures a / m == q && a % m == r
  {
    var d := a / m - q;
    assert m * d == r - a % m by {
      assert a == m * (a / m) + a % m;
      assert m * d == m * (a / m) - m * q;
    }
    MulAtLeast(m, d);
  }

  lemma MulDistributes(m: int, a: int, b: int, c: int)
    ensures m * (a + b + c) == m * a + m * b + m * c
  {
  }

  lemma Assoc<T>(a: seq<T>, b: seq<T>, c: seq<T>)
    ensures a + b + c == a + (b + c)
  {
  }

  lemma MulAssoc(a: int, b: int, c: int)
    ensures a * (b * c) == a * b * c
  {
  }

  /** Addition is compatible with the remainder for a divisor of the word size. */
  lemma WrapMod(a: int, word: int, m: int, n: int)
    requires m > 0 && word > 0 && word == m * n
    ensures a % word % m == a % m
  {
    var j, s := a / word, a % word;
    assert a == word * j + s;
    assert word * j == m * (n * j) by { MulAssoc(m, n, j); }
    MulDistributes(m, n * j, s / m, 0);
    DivModUnique(a, m, n * j + s / m, s % m);
  }

  /** The remainder of a sum, from the remainders of its parts. */
  lemma SumMod(a: int, b: int, m: int)
    requires m > 0
    ensures var low := a % m + b % m;
            (a + b) % m == if low >= m then low - m else low
  {
    var low := a % m + b % m;
    var t := if low >= m then 1 else 0;
    MulDistributes(m, a / m, b / m, t);
    DivModUnique(a + b, m, a / m + b / m + t, low - m * t);
  }

  lemma DifferenceMod(a: int, b: int, m: int)
    requires m > 0
    ensures var low := a % m - b % m;
            (a - b) % m == if low < 0 then low + m else low
  {
    var low := a % m - b % m;
    var t := if low < 0 then -1 else 0;
    MulDistributes(m, a / m, -(b / m), t);
    assert m * -(b / m) == -(m * (b / m));
    DivModUnique(a - b, m, a / m - b / m + t, low - m * t);
  }

  /** A digit of a number does not depend on higher digits. */
  lemma DigitLow(v: nat, q: nat, r: nat, unit: nat, n: nat, base: nat, k: nat)
    requires unit > 0 && base > 0 && n == base * k && v == unit * n * q + r
    ensures v / unit % base == r / unit % base
  {
    MulAssoc(unit, n, q);
    MulDistributes(unit, n * q, r / unit, 0);
    DivModUnique(v, unit, n * q + r / unit, r % unit);
    MulAssoc(base, k, q);
    MulDistributes(base, k * q, r / unit / base, 0);
    DivModUnique(v / unit, base, k * q + r / unit / base, r / unit % base);
  }

  lemma MulAtLeast(m: int, d: int)
    requires m > 0
    ensures d >= 1 ==> m * d >= m
    ensures d <= -1 ==> m * d <= -m
    ensures d == 0 ==> m * d == 0
  {
    if d >= 1 {
      assert m * d == m * (d - 1) + m;
    } else if d <= -1 {
      assert m * d == m * (d + 1) - m;
    }
  }

  /** Exclusive or can be cancelled on any number of low bits. */
  lemma {:induction false} XorCancel(t: nat, a: nat, b: nat, k: nat)
    requires Xor(t, a) % Pow2(k) == Xor(t, b) % Pow2(k)
    ensures a % Pow2(k) == b % Pow2(k)
  {
    if k > 0 {
      HalveMod(Xor(t, a), k);
      HalveMod(Xor(t, b), k);
      XorDigit(t, a);
      XorDigit(t, b);
      XorCancel(t / 2, a / 2, b / 2, k - 1);
      HalveMod(a, k);
      HalveMod(b, k);
    }
  }

  /** Exclusive or with k ones complements the low k bits and leaves the others alone. */
  lemma {:induction false} XorOnes(v: nat, k: nat)
    ensures Xor(v, Pow2(k) - 1) == v + Pow2(k) - 1 - 2 * (v % Pow2(k))
  {
    hide Xor, Pow2;
    if k == 0 {
      Pow2Zero();
      XorZero(v);
    } else {
      var p := Pow2(k - 1);
      Pow2Double(k);
      DivModUnique(2 * p - 1, 2, p - 1, 1);
      XorUnfolds(v, 2 * p - 1);
      XorOnes(v / 2, k - 1);
      HalveMod(v, k);
    }
  }

  lemma Pow2Zero()
    ensures Pow2(0) == 1
  {
  }

  lemma Pow2Double(k: nat)
    requires k > 0
    ensures Pow2(k) == 2 * Pow2(k - 1)
  {
  }

  lemma XorZero(v: nat)
    ensures Xor(v, 0) == v && Xor(0, v) == v
  {
  }

  /** Little-endian reads, as the packed structures of the source are read on the supported hosts. */
  function ReadU16(s: seq<Byte>, at: nat): UInt16
    requires at + 2 <= |s|
  {
    s[at] as int + 0x100 * s[at + 1] as int
  }

  function ReadU32(s: seq<Byte>, at: nat): UInt32
    requires at + 4 <= |s|
  {
    s[at] as int + 0x100 * s[at + 1] as int + 0x1_0000 * s[at + 2] as int + 0x100_0000 * s[at + 3] as int
  }

  function ReadU64(s: seq<Byte>, at: nat): UInt64
    requires at + 8 <= |s|
  {
    ReadU32(s, at) as int + 0x1_0000_0000 * ReadU32(s, at + 4) as int
  }

  function BytesOfU16(x: UInt16): (s: seq<Byte>)
    ensures |s| == 2 && ReadU16(s, 0) == x
  {
    [x % 0x100, x / 0x100]
  }

  function BytesOfU32(x: UInt32): (s: seq<Byte>)
    ensures |s| == 4 && ReadU32(s, 0) == x
  {
    var x1 := x / 0x100;
    var x2 := x1 / 0x100;
    [x % 0x100, x1 % 0x100, x2 % 0x100, x2 / 0x100]
  }

  function BytesOfU64(x: UInt64): (s: seq<Byte>)
    ensures |s| == 8 && ReadU64(s, 0) == x
  {
    BytesOfU32(x % 0x1_0000_0000) + BytesOfU32(x / 0x1_0000_0000)
  }

  /** Writing what was read gives the same bytes. */
  lemma U32Unique(s: seq<Byte>, at: nat)
    requires at + 4 <= |s|
    ensures BytesOfU32(ReadU32(s, at)) == s[at..at + 4]
  {
    var x0, x1, x2, x3 := s[at] as int, s[at + 1] as int, s[at + 2] as int, s[at + 3] as int;
    var x := ReadU32(s, at);
    DivModUnique(x, 0x100, x1 + 0x100 * x2 + 0x1_0000 * x3, x0);
    DivModUnique(x1 + 0x100 * x2 + 0x1_0000 * x3, 0x100, x2 + 0x100 * x3, x1);
    DivModUnique(x2 + 0x100 * x3, 0x100, x3, x2);
  }

  /** A read depends on its own bytes only. */
  lemma ReadSlice(s: seq<Byte>, at: nat)
    requires at + 4 <= |s|
    ensures ReadU32(s, at) == ReadU32(s[at..at + 4], 0)
  {
    var t := s[at..at + 4];
    assert t[0] == s[at] && t[1] == s[at + 1] && t[2] == s[at + 2] && t[3] == s[at + 3];
  }

  function Ascii(s: string): (b: seq<Byte>)
    requires forall i :: 0 <= i < |s| ==> s[i] as int < 0x80
    ensures |b| == |s|
  {
    seq(|s|, i requires 0 <= i < |s| => s[i] as int)
  }

  function Zeros(n: nat): (s: seq<Byte>)
    ensures |s| == n && forall i :: 0 <= i < n ==> s[i] == 0
  {
    seq(n, _ => 0)
  }
}
