/** The bit cursor of ByteParser.hpp, and the fields it reads.
    The cursor's meaning is a log of the fields read so far: their bits, in
    order, are exactly the bits of the data before the cursor. */
module ByteParsing {
  import opened Bits
  import opened Seqs

  datatype ByteOrder = BigEndianOrder | LittleEndianOrder

  /** std::out_of_range and std::invalid_argument. */
  datatype Result<+T> = Ok(value: T) | OutOfRange

  /** `width` bits holding `value`, most significant bit first. */
  datatype Field = Field(width: nat, value: nat)

  ghost predicate InRange(fs: seq<Field>) {
    forall i :: 0 <= i < |fs| ==> fs[i].value < Pow2(fs[i].width)
  }

  ghost predicate SameWidths(fs: seq<Field>, gs: seq<Field>) {
    |fs| == |gs| && forall i :: 0 <= i < |fs| ==> fs[i].width == gs[i].width
  }

  function FieldBits(fs: seq<Field>): seq<bit> {
    if fs == [] then []
    else ToBits(fs[0].value, fs[0].width) + FieldBits(fs[1..])
  }

  lemma {:induction false} FieldBitsConcat(fs: seq<Field>, gs: seq<Field>)
    ensures FieldBits(fs + gs) == FieldBits(fs) + FieldBits(gs)
  {
    if fs == [] {
      assert fs + gs == gs;
    } else {
      FieldBitsConcat(fs[1..], gs);
      assert (fs + gs)[0] == fs[0] && (fs + gs)[1..] == fs[1..] + gs;
      Associative(ToBits(fs[0].value, fs[0].width), FieldBits(fs[1..]), FieldBits(gs));
    }
  }

  lemma WidthFrom(fs: seq<Field>, k: nat)
    requires k < |fs|
    ensures |FieldBits(fs[k..])| == fs[k].width + |FieldBits(fs[k + 1..])|
    ensures k + 1 == |fs| ==> |FieldBits(fs[k..])| == fs[k].width
  {
    assert fs[k..][0] == fs[k] && fs[k..][1..] == fs[k + 1..];
  }

  /** The layout theorem: fields of known widths are determined by their bits. */
  lemma {:induction false} FieldBitsInjective(fs: seq<Field>, gs: seq<Field>)
    requires SameWidths(fs, gs) && InRange(fs) && InRange(gs)
    requires FieldBits(fs) == FieldBits(gs)
    ensures fs == gs
  {
    if fs == [] {
    } else {
      var w := fs[0].width;
      assert ToBits(fs[0].value, w) == FieldBits(fs)[..w] == ToBits(gs[0].value, w);
      assert FieldBits(fs[1..]) == FieldBits(fs)[w..] == FieldBits(gs[1..]);
      FromToBits(fs[0].value, w);
      FromToBits(gs[0].value, w);
      FieldBitsInjective(fs[1..], gs[1..]);
      assert fs == [fs[0]] + fs[1..] && gs == [gs[0]] + gs[1..];
    }
  }

  // ---------------------------------------------------------------- byte order

  function Reverse<T>(s: seq<T>): (r: seq<T>)
    ensures |r| == |s|
  {
    if s == [] then [] else Reverse(s[1..]) + [s[0]]
  }

  /** Python's `to_bytes(n, "little")`. */
  function LittleEndian(v: nat, n: nat): (s: seq<byte>)
    ensures |s| == n
  {
    if n == 0 then [] else [v % 256] + LittleEndian(v / 256, n - 1)
  }

  /** The low `n` bytes of a word in the opposite order. */
  function SwapBytes(v: nat, n: nat): nat {
    if n == 0 then 0 else Shl(v % 256, 8 * (n - 1)) + SwapBytes(v / 256, n - 1)
  }

  lemma {:induction false} ByteShlFits(x: byte, w: nat)
    ensures Shl(x, w) + Pow2(w) <= Pow2(w + 8)
  {
    if w == 0 {
      ByteFits(x);
    } else {
      ByteShlFits(x, w - 1);
    }
  }

  lemma {:induction false} SwapBytesFits(v: nat, n: nat)
    ensures SwapBytes(v, n) < Pow2(8 * n)
  {
    if n == 0 {
    } else {
      SwapBytesFits(v / 256, n - 1);
      ByteShlFits(v % 256, 8 * (n - 1));
    }
  }

  lemma FirstByteBits(first: byte, rest: nat, low: nat)
    requires rest < Pow2(low)
    ensures ToBits(Shl(first, low) + rest, 8 + low) == ToBits(first, 8) + ToBits(rest, low)
  {
    ToBitsSplit(Shl(first, low) + rest, 8, low);
    ShrShl(first, rest, low);
    ToBitsLow(first, rest, low);
  }

  lemma SwappedFirst(v: nat, n: nat)
    requires n > 0
    ensures ToBits(SwapBytes(v, n), 8 * n) == ToBits(v % 256, 8) + ToBits(SwapBytes(v / 256, n - 1), 8 * (n - 1))
  {
    SwapBytesFits(v / 256, n - 1);
    FirstByteBits(v % 256, SwapBytes(v / 256, n - 1), 8 * (n - 1));
  }

  lemma LittleFirst(v: nat, n: nat)
    requires n > 0
    ensures BitsOf(LittleEndian(v, n)) == ToBits(v % 256, 8) + BitsOf(LittleEndian(v / 256, n - 1))
  {
    assert LittleEndian(v, n)[1..] == LittleEndian(v / 256, n - 1);
  }

  /** Swapping the bytes of a word turns one encoding into the other. */
  lemma {:induction false} SwapTurnsEndianness(v: nat, n: nat)
    ensures ToBits(SwapBytes(v, n), 8 * n) == BitsOf(LittleEndian(v, n))
  {
    if n == 0 {
    } else {
      SwapTurnsEndianness(v / 256, n - 1);
      SwappedFirst(v, n);
      LittleFirst(v, n);
    }
  }

  lemma {:induction false} ReverseSnoc<T>(s: seq<T>, x: T)
    ensures Reverse(s + [x]) == [x] + Reverse(s)
  {
    if s == [] {
    } else {
      ReverseSnoc(s[1..], x);
      assert (s + [x])[1..] == s[1..] + [x];
    }
  }

  lemma {:induction false} ReverseTwice<T>(s: seq<T>)
    ensures Reverse(Reverse(s)) == s
  {
    if s == [] {
    } else {
      ReverseTwice(s[1..]);
      ReverseSnoc(Reverse(s[1..]), s[0]);
    }
  }

  lemma {:induction false} LittleEndianIsReversed(v: nat, n: nat)
    ensures LittleEndian(v, n) == Reverse(BigEndian(v, n))
  {
    if n == 0 {
    } else {
      var low: byte := v % 256;
      LittleEndianIsReversed(v / 256, n - 1);
      ReverseSnoc(BigEndian(v / 256, n - 1), low);
    }
  }

  /** A word of `n` bytes survives two swaps. */
  lemma SwapTwice(v: nat, n: nat)
    requires v < Pow2(8 * n)
    ensures SwapBytes(SwapBytes(v, n), n) == v
  {
    var s := SwapBytes(v, n);
    SwapBytesFits(v, n);
    SwapBytesFits(s, n);
    SwapTurnsEndianness(s, n);
    SwapTurnsEndianness(v, n);
    BitsOfBigEndian(s, n);
    BitsOfBigEndian(v, n);
    BitsOfInjective(BigEndian(s, n), LittleEndian(v, n));
    LittleEndianIsReversed(s, n);
    LittleEndianIsReversed(v, n);
    ReverseTwice(BigEndian(v, n));
    FromToBits(SwapBytes(s, n), 8 * n);
    FromToBits(v, 8 * n);
  }

  /** After i bytes: the bytes placed sit on top of those still to come. */
  ghost predicate Placed(value: nat, n: nat, i: nat, result: nat, top: nat)
    requires i <= n
  {
    && result == Shl(top, 8 * (n - i))
    && result + SwapBytes(Shr(value, 8 * i), n - i) == SwapBytes(value, n)
  }

  lemma SwapBytesStep(v: nat, rest: nat)
    ensures SwapBytes(v, rest + 1) == Shl(v % 256, 8 * rest) + SwapBytes(v / 256, rest)
  {
  }

  lemma PlacedByteFits(x: byte, rest: nat)
    requires rest < 4
    ensures Shl(x, 8 * rest) < 0x1_0000_0000
    ensures Shl(x, 8 * rest) < Pow2(8 * (rest + 1))
  {
    ByteShlFits(x, 8 * rest);
    Pow2Monotone(8 * rest + 8, 32);
    PowValues();
  }

  /** One iteration: the next byte lands below all the bytes already placed. */
  lemma SwapStep(v: nat, top: nat, rest: nat) returns (top': nat)
    requires rest < 4
    ensures Shl(v % 256, 8 * rest) < 0x1_0000_0000
    ensures Or(Shl(top, 8 * (rest + 1)), Shl(v % 256, 8 * rest)) == Shl(top', 8 * rest)
    ensures Shl(top', 8 * rest) == Shl(top, 8 * (rest + 1)) + Shl(v % 256, 8 * rest)
  {
    var x: byte := v % 256;
    top' := Shl(top, 8) + x;
    PlacedByteFits(x, rest);
    OrDisjoint(top, Shl(x, 8 * rest), 8 * (rest + 1));
    ShlShl(top, 8, 8 * rest);
    ShlAdd(Shl(top, 8), x, 8 * rest);
  }

  lemma PlaceByte(value: nat, n: nat, i: nat, result: nat, top: nat) returns (top': nat)
    requires i < n <= 4 && Placed(value, n, i, result, top)
    ensures Shl(Shr(value, 8 * i) % 256, 8 * (n - 1 - i)) < 0x1_0000_0000
    ensures Placed(value, n, i + 1, Or(result, Shl(Shr(value, 8 * i) % 256, 8 * (n - 1 - i))), top')
  {
    var v, rest := Shr(value, 8 * i), n - 1 - i;
    top' := SwapStep(v, top, rest);
    ShrShr(value, 8 * i, 8);
    Shr8(v);
    SwapBytesStep(v, rest);
  }

  /** One iteration: byte i of the value moves to its mirrored place. */
  method OrByteInto(value: uint32, numBytes: nat, i: nat, result: nat, ghost top: nat)
    returns (r: nat, ghost top': nat)
    requires i < numBytes <= 4 && Placed(value, numBytes, i, result, top)
    ensures Placed(value, numBytes, i + 1, r, top')
  {
    top' := PlaceByte(value, numBytes, i, result, top);
    var placed := Shl(Shr(value, 8 * i) % 256, 8 * (numBytes - 1 - i));
    assert placed % 0x1_0000_0000 == placed;
    r := Or(result, placed % 0x1_0000_0000);
  }

  lemma NothingPlaced(value: nat, n: nat)
    ensures Placed(value, n, 0, 0, 0)
  {
    ShlIsTimesPow2(0, 8 * n);
  }

  lemma AllPlaced(value: nat, n: nat, result: nat, top: nat)
    requires Placed(value, n, n, result, top)
    ensures result == SwapBytes(value, n)
  {
  }

  lemma SwappedWordFits(v: nat, n: nat)
    requires n <= 4
    ensures SwapBytes(v, n) < 0x1_0000_0000
  {
    SwapBytesFits(v, n);
    PowValues();
    Pow2Monotone(8 * n, 32);
  }

  /** ByteParser::swap_byte_order, with the 32-bit shifts of the source. */
  method SwapByteOrder(value: uint32, numBytes: nat) returns (r: Result<uint32>)
    ensures r.Ok? <==> 1 <= numBytes <= 4
    ensures r.Ok? ==> r.value == SwapBytes(value, numBytes)
  {
    if numBytes == 0 || numBytes > 4 {
      return OutOfRange;
    }
    var result: nat := 0;
    var i := 0;
    ghost var top: nat := 0;
    NothingPlaced(value, numBytes);
    while i < numBytes
      invariant 0 <= i <= numBytes
      invariant Placed(value, numBytes, i, result, top)
    {
      result, top := OrByteInto(value, numBytes, i, result, top);
      i := i + 1;
    }
    AllPlaced(value, numBytes, result, top);
    SwappedWordFits(value, numBytes);
    return Ok(result);
  }

  // ------------------------------------------------------------ one field

  /** The value a field reads as: little-endian streams swap its bytes. */
  function InOrder(order: ByteOrder, f: Field): nat {
    if order.LittleEndianOrder? then SwapBytes(f.value, (f.width + 7) / 8) else f.value
  }

  lemma OneByteInOrder(order: ByteOrder, f: Field)
    requires 1 <= f.width <= 8 && f.value < Pow2(f.width)
    ensures f.value < 256 && InOrder(order, f) == f.value
  {
    Pow2Monotone(f.width, 8);
    PowValues();
    assert (f.width + 7) / 8 == 1;
    assert SwapBytes(f.value, 1) == Shl(f.value % 256, 0) + SwapBytes(f.value / 256, 0);
  }

  lemma OrderedFits(order: ByteOrder, f: Field)
    requires f.value < Pow2(f.width) && 1 <= f.width <= 32
    requires order.BigEndianOrder? || f.width <= 8 || f.width % 8 == 0
    ensures InOrder(order, f) < Pow2(f.width)
  {
    if order.LittleEndianOrder? {
      if f.width < 8 {
        Pow2Monotone(f.width, 8);
        OneByteInOrder(order, f);
      } else {
        var bytes := f.width / 8;
        assert (f.width + 7) / 8 == bytes && 8 * bytes == f.width;
        SwapBytesFits(f.value, bytes);
      }
    }
  }

  function CharFields(s: seq<byte>): (fs: seq<Field>)
    ensures |fs| == |s|
  {
    seq(|s|, i requires 0 <= i < |s| => Field(8, s[i]))
  }

  lemma WholeBytes(left: nat, n: nat)
    requires left < 8
    ensures (left + 8 * n) % 8 == left
  {
  }

  lemma CharFieldsSnoc(s: seq<byte>, c: byte)
    ensures CharFields(s + [c]) == CharFields(s) + [Field(8, c)]
  {
  }

  lemma NextBit(bits: seq<bit>, start: nat, i: nat)
    requires start + i < |bits|
    ensures FromBits(bits[start..start + i + 1]) == 2 * FromBits(bits[start..start + i]) + bits[start + i]
  {
    var next := bits[start..start + i + 1];
    assert next[..|next| - 1] == bits[start..start + i];
  }

  lemma RoomForBit(x: nat, i: nat)
    requires i < 32 && x < Pow2(i)
    ensures 2 * x + 1 < 0x1_0000_0000
  {
    Pow2Monotone(i, 31);
    PowValues();
    assert Pow2(32) == 2 * Pow2(31);
  }

  /** Before the last of 32 bits the accumulator has room for one more. */
  lemma ShiftInBit(x: nat, b: bit, i: nat)
    requires i < 32 && x < Pow2(i)
    ensures Or(Shl(x, 1) % 0x1_0000_0000, b) == 2 * x + b < 0x1_0000_0000
  {
    RoomForBit(x, i);
    assert Shl(x, 1) == 2 * x by {
      assert Shl(x, 0) == x;
    }
    assert Or(Shl(x, 1), b) == Shl(x, 1) + b by {
      OrDisjoint(x, b, 1);
    }
  }

  /** `result = (result << 1) | b` in 32 bits. */
  method AppendBit(ghost bits: seq<bit>, ghost start: nat, i: nat, b: bit, result: uint32) returns (r: uint32)
    requires start + i < |bits| && i < 32 && b == bits[start + i]
    requires result == FromBits(bits[start..start + i])
    ensures r == FromBits(bits[start..start + i + 1])
  {
    NextBit(bits, start, i);
    ShiftInBit(result, b, i);
    r := Or(Shl(result, 1) % 0x1_0000_0000, b);
  }

  lemma LogRead(bits: seq<bit>, log: seq<Field>, start: nat, n: nat)
    requires start + n <= |bits| && InRange(log) && FieldBits(log) == bits[..start]
    ensures var log' := log + [Field(n, FromBits(bits[start..start + n]))];
      InRange(log') && FieldBits(log') == bits[..start + n]
  {
    var f := Field(n, FromBits(bits[start..start + n]));
    FieldBitsConcat(log, [f]);
    ToFromBits(bits[start..start + n]);
    assert FieldBits([f]) == ToBits(f.value, n);
  }

  // ------------------------------------------------------------- signed values

  function TwosComplement(v: nat, n: nat): int
    requires n >= 1
  {
    if v >= Pow2(n - 1) then v - Pow2(n) else v
  }

  /** The unsigned digits of a two's complement number. */
  function Unsigned(x: int, n: nat): int {
    if x < 0 then x + Pow2(n) else x
  }

  predicate FitsSigned(x: int, n: nat)
    requires n >= 1
  {
    0 <= x + Pow2(n - 1) < Pow2(n)
  }

  lemma TwosComplementInverse(x: int, n: nat)
    requires n >= 1 && FitsSigned(x, n)
    ensures 0 <= Unsigned(x, n) < Pow2(n) && TwosComplement(Unsigned(x, n), n) == x
  {
    assert Pow2(n) == 2 * Pow2(n - 1);
  }

  /** What the last n bits of v say as a two's complement number if their sign is
      set, and the cast of the whole word if it is not. */
  function SignExtended(v: nat, n: nat): int
    requires n >= 1
  {
    if n < 32 && LowBits(v, n) >= Pow2(n - 1) then LowBits(v, n) - Pow2(n) else TwosComplement(v, 32)
  }

  lemma PositiveWord(v: nat, n: nat, w: nat)
    requires 1 <= n <= w
    ensures v < Pow2(n - 1) ==> TwosComplement(v, w) == v == TwosComplement(v, n)
    ensures v >= Pow2(n - 1) ==> TwosComplement(v, n) == v - Pow2(n)
  {
    Pow2Monotone(n - 1, w - 1);
  }

  /** A word of n bits sign-extends to its two's complement value. */
  lemma SignExtendedWord(v: nat, n: nat)
    requires 1 <= n <= 32 && v < Pow2(n)
    ensures SignExtended(v, n) == TwosComplement(v, n)
  {
    LowBitsOfWord(v, n);
    PositiveWord(v, n, 32);
  }

  /** So does a field in either byte order, if its swap stays within its width. */
  lemma SignedField(order: ByteOrder, f: Field)
    requires f.value < Pow2(f.width) && 1 <= f.width <= 32
    requires order.BigEndianOrder? || f.width <= 8 || f.width % 8 == 0
    ensures SignExtended(InOrder(order, f), f.width) == TwosComplement(InOrder(order, f), f.width)
  {
    OrderedFits(order, f);
    SignExtendedWord(InOrder(order, f), f.width);
  }

  lemma WordHalves()
    ensures Pow2(31) == 0x8000_0000 && Pow2(32) == 0x1_0000_0000
  {
    PowValues();
    assert Pow2(32) == 2 * Pow2(31);
  }

  lemma OnesAbove(q: nat, v: nat, n: nat)
    requires n < 32 && v < Pow2(32) && q == Pow2(32 - n) - 1
    ensures Or(Shl(q, n), v) == Shl(q, n) + LowBits(v, n) && LowBits(v, n) < Pow2(n)
  {
    OrAbove(q, v, n);
    ShrFits(v, 32, n);
    OrOnes(Shr(v, n), 32 - n);
    LowBitsFit(v, n);
  }

  /** The mask of ones above bit n is 32 - n ones shifted left by n. */
  lemma HighOnes(n: nat) returns (q: nat)
    requires 1 <= n < 32
    ensures Shl(1, n) == Pow2(n) <= 0x8000_0000 && q == Pow2(32 - n) - 1
    ensures 0x1_0000_0000 - Shl(1, n) == Shl(q, n)
  {
    ShlIsTimesPow2(1, n);
    ShlIsTimesPow2(1, 32 - n);
    ShlIsTimesPow2(1, 32);
    PowValues();
    Pow2Monotone(n, 31);
    assert Pow2(32) == 2 * Pow2(31);
    q := Shl(1, 32 - n) - 1;
    ShlShl(1, 32 - n, n);
    ShlAdd(q, 1, n);
  }

  /** Or-ing the ones above bit n into a word keeps its last n bits only. */
  lemma OrHighOnes(v: uint32, n: nat)
    requires 1 <= n < 32
    ensures Shl(1, n) == Pow2(n) <= 0x8000_0000 && LowBits(v, n) < Pow2(n)
    ensures Or(0x1_0000_0000 - Shl(1, n), v) == 0x1_0000_0000 - Pow2(n) + LowBits(v, n)
  {
    var q := HighOnes(n);
    WordHalves();
    OnesAbove(q, v, n);
  }

  /** `value |= ~((1 << num_bits) - 1)`, modulo 2^32, at width 31 too. */
  method FillHighBits(value: uint32, numBits: nat) returns (v: uint32)
    requires 1 <= numBits < 32
    ensures v == 0x1_0000_0000 - Pow2(numBits) + LowBits(value, numBits)
  {
    OrHighOnes(value, numBits);
    var mask := 0x1_0000_0000 - Shl(1, numBits);
    v := Or(mask, value);
  }

  lemma HighBitsAreNegative(n: nat, low: nat)
    requires 1 <= n < 32 && Pow2(n - 1) <= low < Pow2(n)
    ensures 0x8000_0000 <= 0x1_0000_0000 - Pow2(n) + low < 0x1_0000_0000
  {
    Pow2Monotone(n - 1, 30);
    PowValues();
    assert Pow2(32) == 2 * Pow2(31) == 4 * Pow2(30);
    assert Pow2(n) == 2 * Pow2(n - 1);
  }

  lemma {:induction false} TopBit(v: nat, n: nat)
    requires n >= 1
    ensures (Shr(v, n - 1) % 2 != 0) == (LowBits(v, n) >= Pow2(n - 1))
  {
    if n == 1 {
      assert LowBits(v, 1) == 2 * LowBits(v / 2, 0) + v % 2;
    } else {
      TopBit(v / 2, n - 1);
    }
  }

  /** The sign test, the or with the mask of high ones, and the cast to int32. */
  method SignExtend(value: uint32, numBits: nat) returns (r: int32)
    requires 1 <= numBits <= 32
    ensures r == SignExtended(value, numBits)
  {
    var v := value;
    WordHalves();
    if numBits < 32 {
      TopBit(value, numBits);
      LowBitsFit(value, numBits);
      if Shr(value, numBits - 1) % 2 != 0 {
        HighBitsAreNegative(numBits, LowBits(value, numBits));
        v := FillHighBits(value, numBits);
      }
    }
    r := if v >= 0x8000_0000 then v as int - 0x1_0000_0000 else v;
  }

  // ------------------------------------------------------------------ the cursor

  class ByteParser {
    const data: seq<byte>
    const size: nat
    const endianness: ByteOrder
    var byteIndex: nat
    var bitOffset: nat
    ghost const bits: seq<bit>
    ghost var log: seq<Field>

    ghost predicate WellFormed() {
      size <= |data| && bits == BitsOf(data[..size])
    }

    ghost predicate Valid()
      reads this
    {
      && WellFormed()
      && CursorInRange()
      && InRange(log)
      && FieldBits(log) == bits[..Cursor()]
    }

    /** Bits already read. */
    ghost function Cursor(): nat
      reads this
    {
      8 * byteIndex + bitOffset
    }

    constructor (data: seq<byte>, size: nat, endianness: ByteOrder)
      requires size <= |data|
      ensures Valid() && log == [] && Cursor() == 0
      ensures this.data == data && this.size == size && this.endianness == endianness
    {
      this.data, this.size, this.endianness := data, size, endianness;
      byteIndex, bitOffset := 0, 0;
      bits, log := BitsOf(data[..size]), [];
    }

    function BitsRemaining(): (n: int)
      requires Valid()
      reads this
      ensures n == 8 * size - Cursor() >= 0
    {
      (size - byteIndex) * 8 - bitOffset
    }

    method CurrentBit() returns (b: bit)
      requires WellFormed() && CursorInRange() && byteIndex < size
      ensures Cursor() < 8 * size == |bits| && b == bits[Cursor()]
    {
      BitsOfIndex(data[..size], byteIndex, bitOffset);
      b := Shr(data[byteIndex], 7 - bitOffset) % 2;
    }

    /** The bit loop: the cursor advances bit by bit and the value read is the
        number those bits denote. The guard that would stop it early is dead. */
    method ReadBits(numBits: nat) returns (result: uint32)
      requires Valid() && numBits <= 32 && numBits <= BitsRemaining()
      modifies this`byteIndex, this`bitOffset
      ensures CursorInRange() && Cursor() == old(Cursor()) + numBits
      ensures result == FromBits(bits[old(Cursor())..Cursor()])
    {
      result := 0;
      var i := 0;
      ghost var start := Cursor();
      assert |bits| == 8 * size;
      while i < numBits
        invariant 0 <= i <= numBits
        invariant CursorInRange() && Cursor() == start + i
        invariant result == FromBits(bits[start..start + i])
      {
        if byteIndex >= size { break; }
        var b := CurrentBit();
        result := AppendBit(bits, start, i, b, result);
        Advance();
        i := i + 1;
      }
    }

    method Advance()
      requires CursorInRange() && byteIndex < size
      modifies this`byteIndex, this`bitOffset
      ensures CursorInRange() && Cursor() == old(Cursor()) + 1
    {
      bitOffset := (bitOffset + 1) % 8;
      if bitOffset == 0 {
        byteIndex := byteIndex + 1;
      }
    }

    ghost predicate CursorInRange()
      reads this
    {
      bitOffset < 8 && byteIndex <= size && (byteIndex == size ==> bitOffset == 0)
    }

    /** A read of zero bits returns zero and leaves no trace; a read that asks
        for more than 32 bits, or more than remain, fails and moves nothing;
        any other read logs one field and returns it in the stream's byte order. */
    method ExtractUnsignedBits(numBits: nat) returns (r: Result<uint32>)
      requires Valid() && numBits < 256
      modifies this
      ensures Valid()
      ensures r.OutOfRange? <==> numBits != 0 && (numBits > 32 || numBits > old(BitsRemaining()))
      ensures r.OutOfRange? ==> Cursor() == old(Cursor()) && log == old(log)
      ensures r.Ok? ==> Cursor() == old(Cursor()) + numBits
      ensures numBits == 0 ==> r == Ok(0) && log == old(log)
      ensures r.Ok? && numBits != 0 ==>
        |log| == |old(log)| + 1 && log == old(log) + [Field(numBits, log[|log| - 1].value)]
        && r.value == InOrder(endianness, log[|log| - 1])
    {
      if numBits == 0 {
        return Ok(0);
      }
      if numBits > 32 || numBits > BitsRemaining() {
        return OutOfRange;
      }
      var result := ReadField(numBits);
      if endianness == LittleEndianOrder {
        var swapped := SwapByteOrder(result, (numBits + 7) / 8);
        return Ok(swapped.value);
      }
      return Ok(result);
    }

    method ReadField(numBits: nat) returns (result: uint32)
      requires Valid() && 1 <= numBits <= 32 && numBits <= BitsRemaining()
      modifies this
      ensures Valid() && Cursor() == old(Cursor()) + numBits
      ensures log == old(log) + [Field(numBits, result)]
    {
      ghost var start := Cursor();
      result := ReadBits(numBits);
      LogRead(bits, log, start, numBits);
      log := log + [Field(numBits, result)];
    }

    /** Sign-extended reads: two's complement, except that a little-endian field
        that is not whole bytes may swap into bits above its width. */
    method ExtractSignedBits(numBits: nat) returns (r: Result<int32>)
      requires Valid() && numBits < 256
      modifies this
      ensures Valid()
      ensures r.OutOfRange? <==> numBits != 0 && (numBits > 32 || numBits > old(BitsRemaining()))
      ensures r.OutOfRange? ==> Cursor() == old(Cursor()) && log == old(log)
      ensures r.Ok? ==> Cursor() == old(Cursor()) + numBits
      ensures numBits == 0 ==> r == Ok(0) && log == old(log)
      ensures r.Ok? && numBits != 0 ==>
        |log| == |old(log)| + 1 && log == old(log) + [Field(numBits, log[|log| - 1].value)]
        && r.value == SignExtended(InOrder(endianness, log[|log| - 1]), numBits)
    {
      if numBits == 0 {
        return Ok(0);
      }
      if numBits > 32 {
        return OutOfRange;
      }
      var unsigned := ExtractUnsignedBits(numBits);
      if unsigned.OutOfRange? {
        return OutOfRange;
      }
      var value: uint32 := unsigned.value;
      var signed := SignExtend(value, numBits);
      return Ok(signed);
    }

    method ExtractChar() returns (r: Result<byte>)
      requires Valid()
      modifies this
      ensures Valid()
      ensures r.OutOfRange? <==> 8 > old(BitsRemaining())
      ensures r.OutOfRange? ==> Cursor() == old(Cursor())
      ensures r.Ok? ==> Cursor() == old(Cursor()) + 8 && log == old(log) + [Field(8, r.value)]
    {
      var c := ExtractUnsignedBits(8);
      if c.OutOfRange? {
        return OutOfRange;
      }
      OneByteInOrder(endianness, log[|log| - 1]);
      return Ok(c.value);
    }

    /** Consecutive bytes as characters; a short stream is drained, then fails. */
    method ExtractString(numChars: nat) returns (r: Result<seq<byte>>)
      requires Valid() && numChars < 256
      modifies this
      ensures Valid()
      ensures r.OutOfRange? <==> 8 * numChars > old(BitsRemaining())
      ensures r.OutOfRange? ==> BitsRemaining() == old(BitsRemaining()) % 8
      ensures r.Ok? ==> |r.value| == numChars && log == old(log) + CharFields(r.value)
      ensures r.Ok? ==> Cursor() == old(Cursor()) + 8 * numChars
    {
      var result: seq<byte> := [];
      var i := 0;
      while i < numChars
        invariant 0 <= i <= numChars && |result| == i
        invariant Valid() && Cursor() == old(Cursor()) + 8 * i
        invariant BitsRemaining() == old(BitsRemaining()) - 8 * i
        invariant log == old(log) + CharFields(result)
      {
        var c := ExtractChar();
        if c.OutOfRange? {
          WholeBytes(BitsRemaining(), i);
          return OutOfRange;
        }
        CharFieldsSnoc(result, c.value);
        Associative(old(log), CharFields(result), [Field(8, c.value)]);
        result := result + [c.value];
        i := i + 1;
      }
      return Ok(result);
    }
  }

  // ------------------------------------------------------------ packing fields

  /** Eight bits to a byte. */
  function BytesOfBits(b: seq<bit>): (s: seq<byte>)
    requires |b| % 8 == 0
    ensures 8 * |s| == |b|
  {
    if b == [] then []
    else
      PowValues();
      [FromBits(b[..8])] + BytesOfBits(b[8..])
  }

  lemma {:induction false} BitsOfBytesOfBits(b: seq<bit>)
    requires |b| % 8 == 0
    ensures BitsOf(BytesOfBits(b)) == b
  {
    if b == [] {
    } else {
      BitsOfBytesOfBits(b[8..]);
      ToFromBits(b[..8]);
      assert b == b[..8] + b[8..];
    }
  }

  function Values(fs: seq<Field>): seq<nat> {
    seq(|fs|, i requires 0 <= i < |fs| => fs[i].value)
  }

  lemma FieldBitsPrefix(fs: seq<Field>, k: nat)
    requires k <= |fs|
    ensures |FieldBits(fs[..k])| <= |FieldBits(fs)|
  {
    FieldBitsConcat(fs[..k], fs[k..]);
    assert fs == fs[..k] + fs[k..];
  }

  lemma NextField(fs: seq<Field>, k: nat)
    requires k < |fs|
    ensures fs[..k + 1] == fs[..k] + [fs[k]]
    ensures |FieldBits(fs[..k + 1])| == |FieldBits(fs[..k])| + fs[k].width <= |FieldBits(fs)|
  {
    assert fs[..k + 1] == fs[..k] + [fs[k]];
    FieldBitsConcat(fs[..k], [fs[k]]);
    FieldBitsPrefix(fs, k + 1);
  }

  /** The codec theorem: fields packed most significant bit first into whole
      bytes come back, in order, from successive reads that consume every bit. */
  method ReadBack(fields: seq<Field>) returns (values: seq<nat>, left: int)
    requires InRange(fields) && forall i :: 0 <= i < |fields| ==> 1 <= fields[i].width <= 32
    requires |FieldBits(fields)| % 8 == 0
    ensures values == Values(fields) && left == 0
  {
    var data := BytesOfBits(FieldBits(fields));
    BitsOfBytesOfBits(FieldBits(fields));
    var parser := new ByteParser(data, |data|, BigEndianOrder);
    assert data[..|data|] == data;
    values := [];
    for k := 0 to |fields|
      invariant fresh(parser) && parser.Valid() && parser.size == |data| && parser.endianness.BigEndianOrder?
      invariant parser.bits == FieldBits(fields)
      invariant parser.Cursor() == |FieldBits(fields[..k])|
      invariant SameWidths(parser.log, fields[..k]) && values == Values(parser.log)
    {
      NextField(fields, k);
      var r := parser.ExtractUnsignedBits(fields[k].width);
      values := values + [r.value];
    }
    assert fields[..|fields|] == fields;
    left := parser.BitsRemaining();
    FieldBitsInjective(parser.log, fields);
  }
}
