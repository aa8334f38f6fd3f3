/** Bytes, words, and most-significant-bit-first bit strings.
    The wire format is stated on bit strings; a byte is eight bits. */
module Bits {
  type byte = x: int | 0 <= x < 0x100
  type uint32 = x: int | 0 <= x < 0x1_0000_0000
  type int32 = x: int | -0x8000_0000 <= x < 0x8000_0000
  type bit = x: int | 0 <= x < 2

  function Pow2(n: nat): (p: nat)
    ensures p >= 1
  {
    if n == 0 then 1 else 2 * Pow2(n - 1)
  }

  /** `x << n` without a width. */
  function Shl(x: nat, n: nat): nat {
    if n == 0 then x else 2 * Shl(x, n - 1)
  }

  /** `x >> n`. */
  function Shr(x: nat, n: nat): nat {
    if n == 0 then x else Shr(x / 2, n - 1)
  }

  /** Bitwise or of unsigned numbers. */
  function Or(x: nat, y: nat): nat
    decreases x + y
  {
    if x == 0 && y == 0 then 0
    else 2 * Or(x / 2, y / 2) + (if x % 2 == 1 || y % 2 == 1 then 1 else 0)
  }

  lemma {:induction false} OrZero(x: nat)
    ensures Or(x, 0) == x == Or(0, x)
  {
    if x == 0 {
    } else {
      OrZero(x / 2);
    }
  }

  /** Or-ing into bits that are clear adds. */
  lemma {:induction false} OrDisjoint(q: nat, r: nat, w: nat)
    requires r < Pow2(w)
    ensures Or(Shl(q, w), r) == Shl(q, w) + r
  {
    if w == 0 {
      OrZero(q);
    } else {
      OrDisjoint(q, r / 2, w - 1);
      assert Shl(q, w) / 2 == Shl(q, w - 1);
    }
  }

  /** The last n bits of v as a number. */
  function LowBits(v: nat, n: nat): nat {
    if n == 0 then 0 else 2 * LowBits(v / 2, n - 1) + v % 2
  }

  lemma {:induction false} LowBitsFit(v: nat, n: nat)
    ensures LowBits(v, n) < Pow2(n)
  {
    if n == 0 {
    } else {
      LowBitsFit(v / 2, n - 1);
    }
  }

  lemma {:induction false} LowBitsOfWord(v: nat, n: nat)
    requires v < Pow2(n)
    ensures LowBits(v, n) == v
  {
    if n == 0 {
    } else {
      LowBitsOfWord(v / 2, n - 1);
    }
  }

  lemma OrHalves(x: nat, y: nat)
    ensures Or(x, y) == 2 * Or(x / 2, y / 2) + (if x % 2 == 1 || y % 2 == 1 then 1 else 0)
  {
    if x == 0 && y == 0 {
      OrZero(0);
    }
  }

  /** Or-ing q above bit n meets only the bits of v from there on. */
  lemma {:induction false} OrAbove(q: nat, v: nat, n: nat)
    ensures Or(Shl(q, n), v) == Shl(Or(q, Shr(v, n)), n) + LowBits(v, n)
  {
    if n == 0 {
    } else {
      OrAbove(q, v / 2, n - 1);
      assert Shl(q, n) / 2 == Shl(q, n - 1);
      OrHalves(Shl(q, n), v);
    }
  }

  lemma {:induction false} OrOnes(h: nat, k: nat)
    requires h < Pow2(k)
    ensures Or(Pow2(k) - 1, h) == Pow2(k) - 1
  {
    if k == 0 {
    } else {
      OrOnes(h / 2, k - 1);
      OrHalves(Pow2(k) - 1, h);
    }
  }

  lemma {:induction false} ShrFits(v: nat, w: nat, n: nat)
    requires n <= w && v < Pow2(w)
    ensures Shr(v, n) < Pow2(w - n)
  {
    if n == 0 {
    } else {
      ShrFits(v / 2, w - 1, n - 1);
    }
  }

  lemma {:induction false} Pow2Monotone(a: nat, b: nat)
    requires a <= b
    ensures Pow2(a) <= Pow2(b)
  {
    if a == b {
    } else {
      Pow2Monotone(a, b - 1);
    }
  }

  lemma {:induction false} ShlIsTimesPow2(x: nat, n: nat)
    ensures Shl(x, n) == x * Pow2(n)
  {
    if n == 0 {
    } else {
      ShlIsTimesPow2(x, n - 1);
      assert 2 * (x * Pow2(n - 1)) == x * (2 * Pow2(n - 1));
    }
  }

  lemma {:induction false} ShlShl(x: nat, a: nat, b: nat)
    ensures Shl(x, a + b) == Shl(Shl(x, a), b)
  {
    if b == 0 {
    } else {
      ShlShl(x, a, b - 1);
    }
  }

  lemma {:induction false} ShlAdd(x: nat, y: nat, n: nat)
    ensures Shl(x, n) + Shl(y, n) == Shl(x + y, n)
  {
    if n == 0 {
    } else {
      ShlAdd(x, y, n - 1);
    }
  }

  lemma {:induction false} ShrShr(x: nat, a: nat, b: nat)
    ensures Shr(x, a + b) == Shr(Shr(x, a), b)
  {
    if a == 0 {
    } else {
      ShrShr(x / 2, a - 1, b);
    }
  }

  lemma {:induction false} ShrShl(q: nat, r: nat, w: nat)
    requires r < Pow2(w)
    ensures Shr(Shl(q, w) + r, w) == q
  {
    if w == 0 {
    } else {
      ShrShl(q, r / 2, w - 1);
      assert (Shl(q, w) + r) / 2 == Shl(q, w - 1) + r / 2;
    }
  }

  function Magnitude(n: int): nat {
    if n < 0 then -n else n
  }

  /** The number a bit string denotes, first bit most significant. */
  function FromBits(b: seq<bit>): (n: nat)
    ensures n < Pow2(|b|)
  {
    if b == [] then 0 else 2 * FromBits(b[..|b| - 1]) + b[|b| - 1]
  }

  /** The last `w` binary digits of `v`, most significant first. */
  function ToBits(v: nat, w: nat): (b: seq<bit>)
    ensures |b| == w
  {
    if w == 0 then [] else ToBits(v / 2, w - 1) + [v % 2]
  }

  lemma {:induction false} FromToBits(v: nat, w: nat)
    requires v < Pow2(w)
    ensures FromBits(ToBits(v, w)) == v
  {
    if w == 0 {
    } else {
      FromToBits(v / 2, w - 1);
      assert ToBits(v, w)[..w - 1] == ToBits(v / 2, w - 1);
    }
  }

  lemma {:induction false} ToFromBits(b: seq<bit>)
    ensures ToBits(FromBits(b), |b|) == b
  {
    if b == [] {
    } else {
      var front := b[..|b| - 1];
      ToFromBits(front);
      assert FromBits(b) / 2 == FromBits(front) && FromBits(b) % 2 == b[|b| - 1];
      assert b == front + [b[|b| - 1]];
    }
  }

  lemma {:induction false} FromBitsConcat(a: seq<bit>, b: seq<bit>)
    ensures FromBits(a + b) == Shl(FromBits(a), |b|) + FromBits(b)
  {
    if b == [] {
      assert a + b == a;
    } else {
      var front := b[..|b| - 1];
      FromBitsConcat(a, front);
      assert (a + b)[..|a + b| - 1] == a + front;
    }
  }

  lemma {:induction false} ToBitsIndex(v: nat, w: nat, j: nat)
    requires j < w
    ensures ToBits(v, w)[j] == Shr(v, w - 1 - j) % 2
  {
    if j < w - 1 {
      ToBitsIndex(v / 2, w - 1, j);
    }
  }

  lemma {:induction false} ToBitsSplit(v: nat, w: nat, low: nat)
    ensures ToBits(v, w + low) == ToBits(Shr(v, low), w) + ToBits(v, low)
  {
    if low == 0 {
    } else {
      ToBitsSplit(v / 2, w, low - 1);
      assert ToBits(v, w + low) == ToBits(v / 2, w + (low - 1)) + [v % 2];
    }
  }

  /** Bits above the width do not matter. */
  lemma {:induction false} ToBitsLow(q: nat, r: nat, w: nat)
    ensures ToBits(Shl(q, w) + r, w) == ToBits(r, w)
  {
    if w == 0 {
    } else {
      ToBitsLow(q, r / 2, w - 1);
      assert (Shl(q, w) + r) / 2 == Shl(q, w - 1) + r / 2;
    }
  }

  /** A byte string as bits, each byte most significant bit first. */
  function BitsOf(data: seq<byte>): (b: seq<bit>)
    ensures |b| == 8 * |data|
  {
    if data == [] then [] else ToBits(data[0], 8) + BitsOf(data[1..])
  }

  lemma {:induction false} BitsOfConcat(a: seq<byte>, b: seq<byte>)
    ensures BitsOf(a + b) == BitsOf(a) + BitsOf(b)
  {
    if a == [] {
      assert a + b == b;
    } else {
      BitsOfConcat(a[1..], b);
      assert (a + b)[1..] == a[1..] + b;
    }
  }

  /** What `(data[i] >> (7 - j)) & 1` reads. */
  lemma {:induction false} BitsOfIndex(data: seq<byte>, i: nat, j: nat)
    requires i < |data| && j < 8
    ensures BitsOf(data)[8 * i + j] == Shr(data[i], 7 - j) % 2
  {
    if i == 0 {
      ToBitsIndex(data[0], 8, j);
    } else {
      BitsOfIndex(data[1..], i - 1, j);
      assert BitsOf(data)[8 * i + j] == BitsOf(data[1..])[8 * (i - 1) + j];
    }
  }

  lemma ByteFits(x: byte)
    ensures x < Pow2(8) == 256
  {
    assert Pow2(3) == 8;
    assert Pow2(5) == 32;
  }

  lemma {:induction false} BitsOfInjective(a: seq<byte>, b: seq<byte>)
    requires BitsOf(a) == BitsOf(b)
    ensures a == b
  {
    assert |a| == |b|;
    if a == [] {
    } else {
      assert ToBits(a[0], 8) == BitsOf(a)[..8] == ToBits(b[0], 8);
      assert BitsOf(a[1..]) == BitsOf(a)[8..] == BitsOf(b[1..]);
      ByteFits(a[0]);
      ByteFits(b[0]);
      FromToBits(a[0], 8);
      FromToBits(b[0], 8);
      BitsOfInjective(a[1..], b[1..]);
    }
  }

  lemma PowValues()
    ensures Pow2(1) == 2 && Pow2(3) == 8 && Pow2(4) == 16 && Pow2(8) == 256
    ensures Pow2(16) == 0x1_0000 && Pow2(24) == 0x100_0000 && Pow2(32) == 0x1_0000_0000
  {
    assert Pow2(3) == 8;
    assert Pow2(6) == 64;
    assert Pow2(9) == 512;
    assert Pow2(12) == 4096;
    assert Pow2(15) == 32768;
    assert Pow2(18) == 262144;
    assert Pow2(21) == 2097152;
    assert Pow2(24) == 0x100_0000;
    assert Pow2(27) == 0x800_0000;
    assert Pow2(30) == 0x4000_0000;
  }

  /** Big-endian bytes of a number, as Python's `to_bytes(n, "big")`. */
  function BigEndian(v: nat, n: nat): (s: seq<byte>)
    ensures |s| == n
  {
    if n == 0 then [] else BigEndian(v / 256, n - 1) + [v % 256]
  }

  lemma Shr8(v: nat)
    ensures Shr(v, 8) == v / 256
  {
    assert Shr(v, 8) == Shr(v / 2, 7) == Shr(v / 4, 6);
    assert Shr(v / 4, 6) == Shr(v / 8, 5) == Shr(v / 16, 4);
    assert Shr(v / 16, 4) == Shr(v / 32, 3) == Shr(v / 64, 2);
    assert Shr(v / 64, 2) == Shr(v / 128, 1) == Shr(v / 256, 0);
  }

  lemma Shl8(v: nat)
    ensures Shl(v, 8) == 256 * v
  {
    assert Shl(v, 1) == 2 * Shl(v, 0);
    assert Shl(v, 3) == 2 * Shl(v, 2);
    assert Shl(v, 5) == 2 * Shl(v, 4);
    assert Shl(v, 7) == 2 * Shl(v, 6);
  }

  lemma LastByteBits(v: nat, high: nat)
    ensures ToBits(v, high + 8) == ToBits(v / 256, high) + ToBits(v % 256, 8)
  {
    ToBitsSplit(v, high, 8);
    Shr8(v);
    ToBitsLow(v / 256, v % 256, 8);
    Shl8(v / 256);
  }

  lemma BitsOfByte(b: byte)
    ensures BitsOf([b]) == ToBits(b, 8)
  {
    assert [b][1..] == [];
  }

  lemma {:induction false} BitsOfBigEndian(v: nat, n: nat)
    ensures BitsOf(BigEndian(v, n)) == ToBits(v, 8 * n)
  {
    if n == 0 {
    } else {
      BitsOfBigEndian(v / 256, n - 1);
      BitsOfConcat(BigEndian(v / 256, n - 1), [v % 256]);
      LastByteBits(v, 8 * (n - 1));
      BitsOfByte(v % 256);
    }
  }
}
