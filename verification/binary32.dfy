/** Integers as binary32 words (IEEE 754-2019, sections 3.4 and 4.3.1): what
    `static_cast<float>(int)` stores, and when it stores the number itself. */
module Binary32 {
  import opened Bits

  function ExponentField(w: uint32): (e: nat)
    ensures e < 256
  {
    w / 0x80_0000 % 256
  }

  function FractionField(w: uint32): (f: nat)
    ensures f < 0x80_0000
  {
    w % 0x80_0000
  }

  predicate Negative(w: uint32) {
    w >= 0x8000_0000
  }

  /** The significand as an integer and the exponent of its unit above 2^-149. */
  function Significand(w: uint32): nat {
    if ExponentField(w) == 0 then FractionField(w) else 0x80_0000 + FractionField(w)
  }

  function Scale(w: uint32): nat {
    if ExponentField(w) == 0 then 0 else ExponentField(w) - 1
  }

  /** A finite word whose value is exactly n. In units of 2^-149 its value is
      the significand shifted left by the scale. */
  ghost predicate Denotes(w: uint32, n: int) {
    && ExponentField(w) != 255
    && Shl(Significand(w), Scale(w)) == Shl(Magnitude(n), 149)
    && (n != 0 ==> Negative(w) == (n < 0))
  }

  function BitLength(m: nat): nat {
    if m == 0 then 0 else 1 + BitLength(m / 2)
  }

  lemma {:induction false} BitLengthRange(m: nat, k: nat)
    requires BitLength(m) == k + 1
    ensures Pow2(k) <= m < Pow2(k + 1)
  {
    if k == 0 {
    } else {
      BitLengthRange(m / 2, k - 1);
    }
  }

  lemma {:induction false} BitLengthUnique(m: nat, k: nat)
    requires Pow2(k) <= m < Pow2(k + 1)
    ensures BitLength(m) == k + 1
  {
    if k > 0 {
      BitLengthUnique(m / 2, k - 1);
    } else {
      assert m == 1 && BitLength(0) == 0;
    }
  }

  lemma {:induction false} BitLengthShl(m: nat, n: nat)
    requires m > 0
    ensures Shl(m, n) > 0 && BitLength(Shl(m, n)) == BitLength(m) + n
  {
    if n == 0 {
    } else {
      BitLengthShl(m, n - 1);
      assert Shl(m, n) / 2 == Shl(m, n - 1);
    }
  }

  lemma {:induction false} BitLengthShr(m: nat, n: nat)
    requires n <= BitLength(m)
    ensures BitLength(Shr(m, n)) == BitLength(m) - n
  {
    if n == 0 {
    } else {
      BitLengthShr(m / 2, n - 1);
    }
  }

  lemma {:induction false} ShlInjective(a: nat, b: nat, n: nat)
    requires Shl(a, n) == Shl(b, n)
    ensures a == b
  {
    if n == 0 {
    } else {
      ShlInjective(a, b, n - 1);
    }
  }

  lemma ShrOfShl(q: nat, n: nat)
    ensures Shr(Shl(q, n), n) == q
  {
    ShrShl(q, 0, n);
  }

  /** m over 2^drop, rounded to nearest with ties to even. */
  function RoundedQuotient(m: nat, drop: nat): nat {
    var q := Shr(m, drop);
    var twice := 2 * (m - Shl(q, drop));
    if twice > Pow2(drop) || (twice == Pow2(drop) && q % 2 == 1) then q + 1 else q
  }

  /** The 24-bit significand of a nonzero magnitude; 2^24 means it rounded up. */
  function Significand24(m: nat): (q: nat)
    requires m > 0
    ensures 0x80_0000 <= q <= 0x100_0000
  {
    var k := BitLength(m);
    assert Pow2(23) == 0x80_0000 && Pow2(24) == 0x100_0000 by {
      PowValues();
      assert Pow2(24) == 2 * Pow2(23);
    }
    if k <= 24 then
      BitLengthShl(m, 24 - k);
      BitLengthRange(Shl(m, 24 - k), 23);
      Shl(m, 24 - k)
    else
      BitLengthShr(m, k - 24);
      BitLengthRange(Shr(m, k - 24), 23);
      RoundedQuotient(m, k - 24)
  }

  lemma MagnitudeLength(n: int32)
    requires n != 0
    ensures 1 <= BitLength(Magnitude(n)) <= 32
  {
    var k := BitLength(Magnitude(n));
    if k > 32 {
      BitLengthRange(Magnitude(n), k - 1);
      PowValues();
      Pow2Monotone(32, k - 1);
    }
  }

  /** `static_cast<float>(n)`. */
  function FloatOfInt(n: int32): uint32 {
    if n == 0 then 0
    else
      MagnitudeLength(n);
      var q, k := Significand24(Magnitude(n)), BitLength(Magnitude(n));
      var exponent := if q == 0x100_0000 then 127 + k else 126 + k;
      var fraction := if q == 0x100_0000 then 0 else q - 0x80_0000;
      (if n < 0 then 0x8000_0000 else 0) + exponent * 0x80_0000 + fraction
  }

  /** A number of k bits and a significand that agree at their scales. */
  lemma AlignedSmall(sig: nat, m: nat, k: nat)
    requires k <= 24 && Shl(sig, k + 125) == Shl(m, 149)
    ensures sig == Shl(m, 24 - k)
  {
    ShlShl(m, 24 - k, k + 125);
    ShlInjective(sig, Shl(m, 24 - k), k + 125);
  }

  lemma AlignedLarge(sig: nat, m: nat, k: nat)
    requires k > 24 && Shl(sig, k + 125) == Shl(m, 149)
    ensures m == Shl(sig, k - 24)
  {
    ShlShl(sig, k - 24, 149);
    ShlInjective(Shl(sig, k - 24), m, 149);
  }

  /** Nothing is rounded off a multiple of the unit. */
  lemma ExactQuotient(q: nat, drop: nat)
    ensures RoundedQuotient(Shl(q, drop), drop) == q
  {
    ShrOfShl(q, drop);
  }

  lemma SmallSignificand(w: uint32)
    ensures BitLength(Significand(w)) <= 24
    ensures ExponentField(w) != 0 ==> BitLength(Significand(w)) == 24
  {
    var k := BitLength(Significand(w));
    PowValues();
    assert Pow2(24) == 2 * Pow2(23);
    if k > 24 {
      BitLengthRange(Significand(w), k - 1);
      Pow2Monotone(24, k - 1);
    }
    if ExponentField(w) != 0 {
      BitLengthUnique(Significand(w), 23);
    }
  }

  /** A word that denotes a nonzero number is normal, and its exponent and
      significand are the number's own. */
  lemma DenotedParts(w: uint32, n: int)
    requires Denotes(w, n) && n != 0
    ensures var m := Magnitude(n);
      ExponentField(w) == BitLength(m) + 126 && Significand(w) == Significand24(m) < 0x100_0000
  {
    var m, sig, scale := Magnitude(n), Significand(w), Scale(w);
    var k := BitLength(m);
    BitLengthShl(m, 149);
    ShlIsTimesPow2(0, scale);
    assert sig > 0;
    BitLengthShl(sig, scale);
    SmallSignificand(w);
    assert scale == k + 125;
    if k <= 24 {
      AlignedSmall(sig, m, k);
    } else {
      AlignedLarge(sig, m, k);
      ExactQuotient(sig, k - 24);
    }
  }

  /** A word put together from sign, exponent and fraction has those fields. */
  lemma Fields(sign: nat, exponent: nat, fraction: nat)
    requires sign <= 1 && 0 < exponent < 256 && fraction < 0x80_0000
    ensures var w := sign * 0x8000_0000 + exponent * 0x80_0000 + fraction;
      && w < 0x1_0000_0000 && Negative(w) == (sign == 1)
      && ExponentField(w) == exponent && Significand(w) == 0x80_0000 + fraction
  {
    var w := sign * 0x8000_0000 + exponent * 0x80_0000 + fraction;
    assert w / 0x80_0000 == 256 * sign + exponent && w % 0x80_0000 == fraction;
  }

  lemma CastFields(n: int32)
    requires n != 0
    ensures var w, q, k := FloatOfInt(n), Significand24(Magnitude(n)), BitLength(Magnitude(n));
      && Negative(w) == (n < 0)
      && ExponentField(w) == (if q == 0x100_0000 then 127 + k else 126 + k) < 255
      && Significand(w) == if q == 0x100_0000 then 0x80_0000 else q
  {
    MagnitudeLength(n);
    var q, k := Significand24(Magnitude(n)), BitLength(Magnitude(n));
    var sign := if n < 0 then 1 else 0;
    var exponent := if q == 0x100_0000 then 127 + k else 126 + k;
    var fraction := if q == 0x100_0000 then 0 else q - 0x80_0000;
    assert FloatOfInt(n) == sign * 0x8000_0000 + exponent * 0x80_0000 + fraction;
    Fields(sign, exponent, fraction);
  }

  lemma SameFields(v: uint32, w: uint32)
    requires Negative(v) == Negative(w) && ExponentField(v) == ExponentField(w) != 0 && Significand(v) == Significand(w)
    ensures v == w
  {
    assert v / 0x80_0000 == (if Negative(v) then 256 else 0) + ExponentField(v);
    assert w / 0x80_0000 == (if Negative(w) then 256 else 0) + ExponentField(w);
  }

  lemma NonzeroWord(w: uint32, n: int32)
    requires Denotes(w, n) && n != 0
    ensures w == FloatOfInt(n)
  {
    DenotedParts(w, n);
    CastFields(n);
    SameFields(w, FloatOfInt(n));
  }

  lemma ZeroSignificand(sig: nat, scale: nat)
    requires Shl(sig, scale) == 0
    ensures sig == 0
  {
    ShlIsTimesPow2(0, scale);
    ShlInjective(sig, 0, scale);
  }

  lemma ZeroWords(w: uint32)
    requires Denotes(w, 0)
    ensures (w == 0 || w == 0x8000_0000) && Denotes(0, 0)
  {
    ShlIsTimesPow2(0, 149);
    ZeroSignificand(Significand(w), Scale(w));
  }

  /** The cast is exact whenever an exact word exists, and a nonzero number has
      only one; zero has two, and the cast gives the positive one. */
  lemma CastIsExact(w: uint32, n: int32)
    requires Denotes(w, n)
    ensures w == FloatOfInt(n) || (n == 0 && w == 0x8000_0000)
    ensures Denotes(FloatOfInt(n), n)
  {
    if n == 0 {
      ZeroWords(w);
    } else {
      NonzeroWord(w, n);
    }
  }

  lemma CastNotNegativeZero(n: int32)
    ensures FloatOfInt(n) != 0x8000_0000
  {
    if n != 0 {
      MagnitudeLength(n);
    }
  }

  lemma BothZeros()
    ensures Denotes(0, 0) && Denotes(0x8000_0000, 0)
  {
    ShlIsTimesPow2(0, 149);
    assert Shl(0, 149) == 0 && Shl(0, 0) == 0;
    assert Significand(0) == 0 && Significand(0x8000_0000) == 0;
  }

  // ------------------------------------------------- what the cast stands for

  function RoundedMagnitude(m: nat): nat {
    var k := BitLength(m);
    if k <= 24 then m else Shl(RoundedQuotient(m, k - 24), k - 24)
  }

  /** The nearest number of 24 significant bits, ties to even. */
  function Rounded(n: int32): int {
    if n < 0 then 0 - RoundedMagnitude(Magnitude(n)) else RoundedMagnitude(Magnitude(n))
  }

  /** The significand at its scale is the rounded magnitude in smaller units. */
  lemma ScaledSignificand(m: nat, unit: nat)
    requires m > 0 && unit >= 24
    ensures Shl(Significand24(m), unit - 24 + BitLength(m)) == Shl(RoundedMagnitude(m), unit)
  {
    var k := BitLength(m);
    if k <= 24 {
      ShlShl(m, 24 - k, unit - 24 + k);
    } else {
      ShlShl(RoundedQuotient(m, k - 24), k - 24, unit);
    }
  }

  /** A significand that rounded up to 2^24 is stored halved, one exponent up. */
  lemma HalvedSignificand(scale: nat)
    ensures Shl(0x80_0000, scale + 1) == Shl(0x100_0000, scale)
  {
    ShlShl(0x80_0000, 1, scale);
    assert Shl(0x80_0000, 1) == 2 * Shl(0x80_0000, 0) == 0x100_0000;
  }

  /** The cast stands for the rounded number, exact or not. */
  lemma CastRounds(n: int32)
    ensures Denotes(FloatOfInt(n), Rounded(n))
  {
    if n == 0 {
      BothZeros();
    } else {
      CastFields(n);
      ScaledSignificand(Magnitude(n), 149);
      HalvedSignificand(125 + BitLength(Magnitude(n)));
    }
  }

  /** A word stands for one number. */
  lemma OneDenotation(w: uint32, m: int, n: int)
    requires Denotes(w, m) && Denotes(w, n)
    ensures m == n
  {
    ShlInjective(Magnitude(m), Magnitude(n), 149);
  }

  /** A number other than zero has one word. */
  lemma OneWord(v: uint32, w: uint32, n: int)
    requires Denotes(v, n) && Denotes(w, n) && n != 0
    ensures v == w
  {
    DenotedParts(v, n);
    DenotedParts(w, n);
    SameFields(v, w);
  }

  lemma OneWordApart(v: uint32, w: uint32, n: int)
    requires Denotes(v, n) && n != 0
    ensures v != w ==> !Denotes(w, n)
  {
    if Denotes(w, n) {
      OneWord(v, w, n);
    }
  }

  /** Exactly when a cast gives back a word that stands for n. */
  lemma CastReturns(m: int32, w: uint32, n: int)
    requires Denotes(w, n)
    ensures FloatOfInt(m) == w <==> Rounded(m) == n && w != 0x8000_0000
  {
    CastRounds(m);
    CastNotNegativeZero(m);
    if FloatOfInt(m) == w {
      OneDenotation(w, Rounded(m), n);
    } else if Rounded(m) == n {
      if n == 0 {
        ZeroWords(w);
        ZeroWords(FloatOfInt(m));
      } else if Denotes(FloatOfInt(m), n) {
        OneWordApart(w, FloatOfInt(m), n);
      }
    }
  }

  lemma {:induction false} ShlMonotone(a: nat, b: nat, n: nat)
    requires a <= b
    ensures Shl(a, n) <= Shl(b, n)
  {
    if n == 0 {
    } else {
      ShlMonotone(a, b, n - 1);
    }
  }

  lemma RoundedAtMost(m: nat)
    requires m > 0
    ensures BitLength(m) <= 24 ==> RoundedMagnitude(m) == m
    ensures BitLength(m) > 24 ==> RoundedMagnitude(m) <= Pow2(BitLength(m))
  {
    var k := BitLength(m);
    if k > 24 {
      var q := Significand24(m);
      ShlMonotone(q, 0x100_0000, k - 24);
      PowValues();
      ShlIsTimesPow2(1, 24);
      ShlIsTimesPow2(1, k);
      ShlShl(1, 24, k - 24);
    }
  }

  lemma FourBits(m: nat)
    ensures Shr(m, 7) == Shr(m / 8, 4) && Shr(m, 3) == m / 8 && Pow2(7) == 128
  {
    assert Shr(m, 7) == Shr(m / 2, 6) == Shr(m / 4, 5) == Shr(m / 8, 4);
    assert Shr(m, 3) == Shr(m / 2, 2) == Shr(m / 4, 1) == Shr(m / 8, 0);
    PowValues();
    assert Pow2(8) == 2 * Pow2(7);
  }

  lemma SevenBits(m: nat)
    ensures Shr(m, 7) == m / 128 && Shl(m, 7) == 128 * m && Pow2(7) == 128
  {
    FourBits(m);
    assert Shr(m / 8, 4) == Shr(m / 16, 3);
    FourBits(m / 16);
    ShlIsTimesPow2(m, 7);
  }

  lemma QuotientBy128(m: nat)
    ensures RoundedQuotient(m, 7) ==
      m / 128 + if m % 128 > 64 || (m % 128 == 64 && m / 128 % 2 == 1) then 1 else 0
  {
    SevenBits(m);
    SevenBits(m / 128);
  }

  lemma RoundsUpTo2To24(high: nat, low: nat)
    requires high < 0x100_0000 && low < 128
    ensures var q := high + if low > 64 || (low == 64 && high % 2 == 1) then 1 else 0;
      q <= 0x100_0000 && (q == 0x100_0000 <==> 128 * high + low >= 0x7FFF_FFC0)
  {
  }

  /** A magnitude of 31 bits rounds up to 2^31 from 2^31 - 64 on. */
  lemma RoundedTop(m: nat)
    requires BitLength(m) == 31
    ensures RoundedMagnitude(m) <= 0x8000_0000
    ensures RoundedMagnitude(m) == 0x8000_0000 <==> m >= 0x7FFF_FFC0
  {
    BitLengthRange(m, 30);
    PowValues();
    QuotientBy128(m);
    SevenBits(RoundedQuotient(m, 7));
    RoundsUpTo2To24(m / 128, m % 128);
    assert m == 128 * (m / 128) + m % 128;
  }

  lemma RoundedSmallest()
    ensures BitLength(0x8000_0000) == 32 && RoundedMagnitude(0x8000_0000) == 0x8000_0000
  {
    PowValues();
    assert Pow2(32) == 2 * Pow2(31);
    BitLengthUnique(0x8000_0000, 31);
    Shr8(0x8000_0000);
    Shl8(0x80_0000);
  }

  /** Only the 64 largest ints round to a number that is not an int, to 2^31. */
  lemma RoundedOutOfRange(n: int32)
    ensures Rounded(n) == 0x8000_0000 <==> n >= 0x7FFF_FFC0
    ensures -0x8000_0000 <= Rounded(n) <= 0x8000_0000
  {
    var m := Magnitude(n);
    if n == 0 {
    } else {
      MagnitudeLength(n);
      PowValues();
      assert Pow2(32) == 2 * Pow2(31) == 4 * Pow2(30);
      var k := BitLength(m);
      BitLengthRange(m, k - 1);
      if k == 31 {
        RoundedTop(m);
      } else if k == 32 {
        RoundedSmallest();
      } else {
        RoundedAtMost(m);
        Pow2Monotone(k, 30);
      }
    }
  }
}
