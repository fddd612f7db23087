/** Bytes, and the fixed-width integer encodings that the wire formats share. */
module Bytes {

  type byte = x: int | 0 <= x < 256

  type bytes = seq<byte>

  const INT64_MAX: int := 0x7FFF_FFFF_FFFF_FFFF

  function Max(a: nat, b: nat): nat {
    if a < b then b else a
  }

  /** 2^n. */
  function Pow2(n: nat): (r: nat)
    ensures r > 0
  {
    if n == 0 then 1 else 2 * Pow2(n - 1)
  }

  /** The exclusive or of the low n bits of a and b. */
  function XorBits(a: nat, b: nat, n: nat): (r: nat)
    ensures r < Pow2(n)
  {
    if n == 0 then 0 else (if a % 2 == b % 2 then 0 else 1) + 2 * XorBits(a / 2, b / 2, n - 1)
  }

  lemma XorBitsStep(a: nat, b: nat, n: nat)
    requires n > 0
    ensures var x, y := XorBits(a, b, n), XorBits(a / 2, b / 2, n - 1);
            x / 2 == y && x % 2 == if a % 2 == b % 2 then 0 else 1
  {
  }

  lemma {:induction false} XorBitsTwice(a: nat, b: nat, n: nat)
    requires a < Pow2(n)
    ensures XorBits(XorBits(a, b, n), b, n) == a
  {
    if n > 0 {
      assert a / 2 < Pow2(n - 1);
      hide XorBits, Pow2;
      XorBitsTwice(a / 2, b / 2, n - 1);
      XorBitsStep(a, b, n);
      XorBitsStep(XorBits(a, b, n), b, n);
      var back := XorBits(XorBits(a, b, n), b, n);
      assert back / 2 == a / 2 && back % 2 == a % 2;
    }
  }

  lemma Pow2Byte()
    ensures Pow2(8) == 256
  {
    assert Pow2(4) == 16;
    assert Pow2(6) == 64;
  }

  /** The exclusive or of two bytes (Go's `^` on `byte`). */
  function Xor(a: byte, b: byte): byte {
    Pow2Byte();
    XorBits(a, b, 8)
  }

  lemma XorTwice(a: byte, b: byte)
    ensures Xor(Xor(a, b), b) == a
  {
    Pow2Byte();
    XorBitsTwice(a, b, 8);
  }

  /** The values of the eight bits of a byte. */
  const BITS: seq<nat> := [1, 2, 4, 8, 16, 32, 64, 128]

  function Halved(x: nat, n: nat): nat {
    if n == 0 then x else Halved(x / 2, n - 1)
  }

  lemma {:induction false} HalvedOnceMore(x: nat, n: nat)
    ensures Halved(x, n + 1) == Halved(x, n) / 2
  {
    if n > 0 {
      HalvedOnceMore(x / 2, n - 1);
    }
  }

  lemma {:induction false} HalvedIs(x: nat, n: nat)
    requires n < 8
    ensures Halved(x, n) == x / BITS[n]
  {
    if n > 0 {
      HalvedIs(x, n - 1);
      HalvedOnceMore(x, n - 1);
      hide Halved;
      assert x / BITS[n - 1] / 2 == x / BITS[n];
    }
  }

  lemma {:induction false} XorHalved(a: nat, b: nat, n: nat, k: nat)
    requires k < n
    ensures Halved(XorBits(a, b, n), k) % 2 == if Halved(a, k) % 2 == Halved(b, k) % 2 then 0 else 1
  {
    XorBitsStep(a, b, n);
    hide XorBits;
    if k > 0 {
      XorHalved(a / 2, b / 2, n - 1, k - 1);
    }
  }

  /** Bit by bit, the exclusive or of two bytes is set exactly where they differ. */
  lemma XorBit(a: byte, b: byte, n: nat)
    requires n < 8
    ensures Xor(a, b) / BITS[n] % 2 == 1 <==> a / BITS[n] % 2 != b / BITS[n] % 2
  {
    hide XorBits, Halved;
    XorHalved(a, b, 8, n);
    HalvedIs(a, n);
    HalvedIs(b, n);
    HalvedIs(XorBits(a, b, 8), n);
  }

  /** 256^n, the number of values that n bytes can hold. */
  function Pow256(n: nat): (r: nat)
    ensures r > 0
  {
    if n == 0 then 1 else 256 * Pow256(n - 1)
  }

  lemma Pow256Values()
    ensures Pow256(1) == 0x100 && Pow256(2) == 0x1_0000 && Pow256(4) == 0x1_0000_0000
    ensures Pow256(8) == 0x1_0000_0000_0000_0000
  {
    assert Pow256(3) == 0x100_0000;
    assert Pow256(5) == 0x100_0000_0000;
    assert Pow256(7) == 0x100_0000_0000_0000;
  }

  /** The low n bytes of v, most significant first. */
  function BigEndian(v: nat, n: nat): (r: bytes)
    ensures |r| == n
  {
    if n == 0 then [] else BigEndian(v / 256, n - 1) + [v % 256]
  }

  function FromBigEndian(b: bytes): nat {
    if b == [] then 0 else 256 * FromBigEndian(b[..|b| - 1]) + b[|b| - 1]
  }

  lemma {:induction false} BigEndianDecodes(v: nat, n: nat)
    requires v < Pow256(n)
    ensures FromBigEndian(BigEndian(v, n)) == v
  {
    if n > 0 {
      BigEndianDecodes(v / 256, n - 1);
      assert BigEndian(v, n)[..n - 1] == BigEndian(v / 256, n - 1);
    }
  }

  lemma {:induction false} BigEndianEncodes(b: bytes)
    ensures FromBigEndian(b) < Pow256(|b|)
    ensures BigEndian(FromBigEndian(b), |b|) == b
  {
    if b != [] {
      var front, last := b[..|b| - 1], b[|b| - 1];
      BigEndianEncodes(front);
      var v, high := FromBigEndian(b), FromBigEndian(front);
      assert v == 256 * high + last && v / 256 == high && v % 256 == last;
      assert BigEndian(v, |b|) == BigEndian(high, |b| - 1) + [last];
      assert Pow256(|b|) == 256 * Pow256(|b| - 1);
      hide BigEndian, FromBigEndian, Pow256;
      assert b == front + [last];
    }
  }

  /** A number in front of one more byte. */
  function Word(high: nat, low: nat): nat {
    256 * high + low
  }

  lemma FromBigEndianTwo(b: bytes)
    requires |b| == 2
    ensures FromBigEndian(b) == Word(b[0], b[1])
  {
    assert FromBigEndian(b[..1]) == 256 * FromBigEndian(b[..1][..0]) + b[0];
  }

  lemma FromBigEndianSplits(b: bytes)
    requires b != []
    ensures FromBigEndian(b) == Word(FromBigEndian(b[..|b| - 1]), b[|b| - 1])
  {
  }

  /** The first byte is the most significant one. */
  lemma FromBigEndianEight(b: bytes)
    requires |b| == 8
    ensures FromBigEndian(b) == Word(Word(Word(Word(Word(Word(Word(b[0], b[1]), b[2]), b[3]), b[4]), b[5]), b[6]), b[7])
  {
    var b2, b3, b4, b5, b6, b7 := b[..2], b[..3], b[..4], b[..5], b[..6], b[..7];
    FromBigEndianTwo(b2);
    assert b[..|b| - 1] == b7 && b7[..6] == b6 && b6[..5] == b5 && b5[..4] == b4 && b4[..3] == b3 && b3[..2] == b2;
    FromBigEndianSplits(b3);
    FromBigEndianSplits(b4);
    FromBigEndianSplits(b5);
    FromBigEndianSplits(b6);
    FromBigEndianSplits(b7);
    FromBigEndianSplits(b);
    hide FromBigEndian;
  }

  /** The low n bytes of v, least significant first. */
  function LittleEndian(v: nat, n: nat): (r: bytes)
    ensures |r| == n
  {
    if n == 0 then [] else [v % 256] + LittleEndian(v / 256, n - 1)
  }

  function FromLittleEndian(b: bytes): nat {
    if b == [] then 0 else b[0] + 256 * FromLittleEndian(b[1..])
  }

  lemma {:induction false} LittleEndianDecodes(v: nat, n: nat)
    requires v < Pow256(n)
    ensures FromLittleEndian(LittleEndian(v, n)) == v
  {
    if n > 0 {
      LittleEndianDecodes(v / 256, n - 1);
      assert LittleEndian(v, n)[1..] == LittleEndian(v / 256, n - 1);
    }
  }

  lemma {:induction false} LittleEndianEncodes(b: bytes)
    ensures FromLittleEndian(b) < Pow256(|b|)
    ensures LittleEndian(FromLittleEndian(b), |b|) == b
  {
    if b != [] {
      LittleEndianEncodes(b[1..]);
      assert b == [b[0]] + b[1..];
    }
  }

  lemma FromLittleEndianSplits(b: bytes)
    requires b != []
    ensures FromLittleEndian(b) == Word(FromLittleEndian(b[1..]), b[0])
  {
  }

  lemma FromLittleEndianTwo(b: bytes)
    requires |b| == 2
    ensures FromLittleEndian(b) == Word(b[1], b[0])
  {
    assert FromLittleEndian(b[1..]) == b[1] + 256 * FromLittleEndian(b[1..][1..]);
  }

  lemma FromLittleEndianFour(b: bytes)
    requires |b| == 4
    ensures FromLittleEndian(b) == Word(Word(Word(b[3], b[2]), b[1]), b[0])
  {
    var b1, b2 := b[1..], b[2..];
    assert b1[1..] == b2;
    FromLittleEndianSplits(b);
    FromLittleEndianSplits(b1);
    hide FromLittleEndian;
    FromLittleEndianTwo(b2);
  }

  /** The first byte is the least significant one. */
  lemma FromLittleEndianIs(b: bytes)
    ensures |b| == 2 ==> FromLittleEndian(b) == Word(b[1], b[0])
    ensures |b| == 4 ==> FromLittleEndian(b) == Word(Word(Word(b[3], b[2]), b[1]), b[0])
    ensures |b| == 8 ==>
              FromLittleEndian(b) ==
              Word(Word(Word(Word(Word(Word(Word(b[7], b[6]), b[5]), b[4]), b[3]), b[2]), b[1]), b[0])
  {
    if |b| == 2 {
      FromLittleEndianTwo(b);
    } else if |b| == 4 {
      FromLittleEndianFour(b);
    } else if |b| == 8 {
      var b1, b2, b3, b4 := b[1..], b[2..], b[3..], b[4..];
      assert b1[1..] == b2 && b2[1..] == b3 && b3[1..] == b4;
      FromLittleEndianSplits(b);
      FromLittleEndianSplits(b1);
      FromLittleEndianSplits(b2);
      FromLittleEndianSplits(b3);
      hide FromLittleEndian;
      FromLittleEndianFour(b4);
    }
  }

  /** Taking a sequence in two bites is taking it in one. */
  lemma SliceJoin(before: bytes, s: bytes, i: nat, j: nat)
    requires i <= j <= |s|
    ensures (before + s[..i]) + s[i..j] == before + s[..j]
  {
    assert s[..i] + s[i..j] == s[..j];
  }

  lemma SliceTwice(s: bytes, i: nat, n: nat)
    requires i + n <= |s|
    ensures s[i..][..n] == s[i..i + n] && s[i..][n..] == s[i + n..]
  {
  }

  /** Quotient and remainder are unique. */
  lemma DivModUnique(x: int, m: nat, q: int, r: nat)
    requires r < m && x == m * q + r
    ensures x % m == r
  {
    var d, e := x / m, x % m;
    assert m * (q - d) == e - r;
    assert q - d >= 1 ==> m * (q - d) >= m;
    assert q - d <= -1 ==> m * (q - d) + m <= 0;
  }

  lemma Regroup<T>(a: seq<T>, b: seq<T>, c: seq<T>)
    ensures (a + b) + c == a + (b + c)
  {
  }
}
