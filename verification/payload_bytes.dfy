/** The packets of AV_TO_GCS_DATA_1.hpp and AV_TO_GCS_DATA_2.hpp byte by byte: where
    each field lies and what number its bytes denote, without the bit cursor. */
module PayloadBytes {
  import opened Bits
  import opened ByteParsing
  import opened Payloads

  // ----------------------------------------------------------- fields by their bytes

  /** Four bytes, most significant first. */
  function Word(a: byte, b: byte, c: byte, d: byte): uint32 {
    0x100_0000 * (a as int) + 0x1_0000 * (b as int) + 0x100 * (c as int) + d
  }

  /** Two bytes in two's complement. */
  function Int16(a: byte, b: byte): int16 {
    if a < 0x80 then 0x100 * (a as int) + b else 0x100 * (a as int) + b - 0x1_0000
  }

  function WordAt(d: seq<byte>, k: nat): uint32
    requires k + 4 <= |d|
  {
    Word(d[k], d[k + 1], d[k + 2], d[k + 3])
  }

  function LittleWordAt(d: seq<byte>, k: nat): uint32
    requires k + 4 <= |d|
  {
    Word(d[k + 3], d[k + 2], d[k + 1], d[k])
  }

  function Int16At(d: seq<byte>, k: nat): int16
    requires k + 2 <= |d|
  {
    Int16(d[k], d[k + 1])
  }

  function VecAt(d: seq<byte>, k: nat): Vec3
    requires k + 6 <= |d|
  {
    Vec3(x := Int16At(d, k), y := Int16At(d, k + 2), z := Int16At(d, k + 4))
  }

  function StateAt(b: byte): StateFlags {
    StateFlags(flight := b / 32, dualBoard := b / 16 % 2 == 1, recoveryReady := b / 8 % 2 == 1,
               gpsFix := b / 4 % 2 == 1, payload := b / 2 % 2 == 1, camera := b % 2 == 1)
  }

  function ContinuityAt(b: byte): Continuity {
    Continuity(primaryDone := b / 128 == 1, secondaryDone := b / 64 % 2 == 1, filler := b / 4 % 16,
               primaryOk := b / 2 % 2 == 1, secondaryOk := b % 2 == 1)
  }

  /** AV data 1 after its identifier: both metrics, the state byte, nine signed
      words, altitude and velocity, two continuity bytes, the broadcast byte. */
  function AvData1At(d: seq<byte>): AvData1
    requires |d| >= 39
  {
    AvData1(meta := Meta(rssi := WordAt(d, 0), snr := WordAt(d, 4)), flags := StateAt(d[8]),
            accelLow := VecAt(d, 9), accelHigh := VecAt(d, 15), gyro := VecAt(d, 21),
            altitude := WordAt(d, 27), velocity := WordAt(d, 31),
            apogee := ContinuityAt(d[35]), main := ContinuityAt(d[36]), broadcastByte := d[37], tail := d[38])
  }

  /** AV data 2 after its identifier: both metrics big-endian, then the state byte and
      little-endian words around the two status characters. */
  function AvData2At(d: seq<byte>): AvData2
    requires |d| >= 35
  {
    AvData2(meta := Meta(rssi := WordAt(d, 0), snr := WordAt(d, 4)), flags := StateAt(d[8]),
            latitude := LittleWordAt(d, 9), longitude := LittleWordAt(d, 13), nav := d[17..19],
            attitude := Quaternion(w := LittleWordAt(d, 19), x := LittleWordAt(d, 23),
                                   y := LittleWordAt(d, 27), z := LittleWordAt(d, 31)))
  }

  // ------------------------------------------------------------- bits of each part

  lemma WordBits(w: uint32)
    ensures BitsOf(BigEndian(w, 4)) == FieldBits([Field(32, w)])
    ensures BitsOf(LittleEndian(w, 4)) == FieldBits([LittleWord(w)])
  {
    BitsOfBigEndian(w, 4);
    SwapTurnsEndianness(w, 4);
  }

  lemma OneByteBits(x: byte)
    ensures BitsOf([x]) == FieldBits([Field(8, x)])
  {
  }

  lemma CharBits(c: byte, d: byte)
    ensures BitsOf([c, d]) == FieldBits(CharFields([c, d]))
  {
    BitsOfConcat([c], [d]);
    OneByteBits(c);
    OneByteBits(d);
    FieldBitsConcat([Field(8, c)], [Field(8, d)]);
    assert [c] + [d] == [c, d];
    assert [Field(8, c)] + [Field(8, d)] == CharFields([c, d]);
  }

  lemma ThreeBytes(a: byte, b: byte, c: byte)
    ensures var x := 0x1_0000 * (a as int) + 0x100 * (b as int) + c;
      BigEndian(x, 3) == [a, b, c] && LittleEndian(x, 3) == [c, b, a]
  {
    var x, y := 0x1_0000 * (a as int) + 0x100 * (b as int) + c, 0x100 * (a as int) + b;
    assert x / 256 == y && x % 256 == c && y / 256 == a && y % 256 == b;
    assert BigEndian(a, 1) == BigEndian(0, 0) + [a] == [a];
    assert LittleEndian(a, 1) == [a] + LittleEndian(0, 0) == [a];
    assert BigEndian(y, 2) == [a] + [b] && LittleEndian(y, 2) == [b] + [a];
    assert BigEndian(x, 3) == [a, b] + [c] && LittleEndian(x, 3) == [c] + [b, a];
  }

  lemma WordBytes(a: byte, b: byte, c: byte, d: byte)
    ensures BigEndian(Word(a, b, c, d), 4) == [a, b, c, d]
    ensures LittleEndian(Word(a, b, c, d), 4) == [d, c, b, a]
  {
    var w := Word(a, b, c, d);
    ThreeBytes(a, b, c);
    assert w / 256 == 0x1_0000 * (a as int) + 0x100 * (b as int) + c && w % 256 == d;
  }

  lemma Int16Spelled(a: byte, b: byte)
    ensures BigEndian(Digits16(Int16(a, b)), 2) == [a, b]
  {
    PowValues();
    var v := 0x100 * (a as int) + b;
    assert Digits16(Int16(a, b)) == v && v / 256 == a && v % 256 == b;
    assert BigEndian(a, 1) == BigEndian(0, 0) + [a] == [a];
  }

  lemma ShrMore(v: nat, n: nat)
    ensures Shr(v, n + 1) == Shr(v, n) / 2
  {
    ShrShr(v, n, 1);
    assert Shr(Shr(v, n), 1) == Shr(Shr(v, n) / 2, 0);
  }

  lemma Shifts(v: nat)
    ensures Shr(v, 0) == v && Shr(v, 1) == v / 2 && Shr(v, 2) == v / 4 && Shr(v, 3) == v / 8
    ensures Shr(v, 4) == v / 16 && Shr(v, 5) == v / 32 && Shr(v, 6) == v / 64 && Shr(v, 7) == v / 128
  {
    ShrMore(v, 0);
    ShrMore(v, 1);
    ShrMore(v, 2);
    ShrMore(v, 3);
    ShrMore(v, 4);
    ShrMore(v, 5);
    ShrMore(v, 6);
  }

  /** Fields that spell the last bits of a byte, with one more field before them. */
  lemma NextField(b: byte, n: nat, f: Field, fs: seq<Field>)
    requires FieldBits(fs) == ToBits(b, n) && ToBits(f.value, f.width) == ToBits(Shr(b, n), f.width)
    ensures FieldBits([f] + fs) == ToBits(b, f.width + n)
  {
    ToBitsSplit(b, f.width, n);
    assert ([f] + fs)[0] == f && ([f] + fs)[1..] == fs;
  }

  lemma NextFlag(b: byte, n: nat, on: bool, fs: seq<Field>)
    requires FieldBits(fs) == ToBits(b, n) && on == (Shr(b, n) % 2 == 1)
    ensures FieldBits([Flag(on)] + fs) == ToBits(b, 1 + n)
  {
    var v := Shr(b, n);
    assert ToBits(v, 1) == ToBits(v / 2, 0) + [v % 2];
    assert ToBits(v % 2, 1) == ToBits(v % 2 / 2, 0) + [v % 2 % 2];
    NextField(b, n, Flag(on), fs);
  }

  lemma StateBits(b: byte)
    ensures FieldBits(StateFields(StateAt(b))) == BitsOf([b])
  {
    var f := StateAt(b);
    var last1 := [Flag(f.camera)] + [];
    var last2 := [Flag(f.payload)] + last1;
    var last3 := [Flag(f.gpsFix)] + last2;
    var last4 := [Flag(f.recoveryReady)] + last3;
    var last5 := [Flag(f.dualBoard)] + last4;
    Shifts(b);
    NextFlag(b, 0, f.camera, []);
    NextFlag(b, 1, f.payload, last1);
    NextFlag(b, 2, f.gpsFix, last2);
    NextFlag(b, 3, f.recoveryReady, last3);
    NextFlag(b, 4, f.dualBoard, last4);
    NextField(b, 5, Field(3, f.flight), last5);
    BitsOfByte(b);
    assert StateFields(f) == [Field(3, f.flight)] + last5;
  }

  lemma LowFourBits(v: nat)
    ensures ToBits(v % 16, 4) == ToBits(v, 4)
  {
    ShlIsTimesPow2(v / 16, 4);
    PowValues();
    ToBitsLow(v / 16, v % 16, 4);
  }

  lemma TwoFlags(b: byte, n: nat, on: bool, last: bool, fs: seq<Field>)
    requires FieldBits(fs) == ToBits(b, n) && last == (Shr(b, n) % 2 == 1) && on == (Shr(b, n + 1) % 2 == 1)
    ensures FieldBits([Flag(on)] + ([Flag(last)] + fs)) == ToBits(b, 2 + n)
  {
    NextFlag(b, n, last, fs);
    NextFlag(b, n + 1, on, [Flag(last)] + fs);
  }

  lemma LastSixBits(b: byte, filler: nat, on: bool, last: bool)
    requires filler == b / 4 % 16 && on == (b / 2 % 2 == 1) && last == (b % 2 == 1)
    ensures FieldBits([Field(4, filler)] + ([Flag(on)] + ([Flag(last)] + []))) == ToBits(b, 6)
  {
    Shifts(b);
    LowFourBits(b / 4);
    TwoFlags(b, 0, on, last, []);
    NextField(b, 2, Field(4, filler), [Flag(on)] + ([Flag(last)] + []));
  }

  lemma ContinuityByteBits(b: byte)
    ensures ContinuityAt(b).filler < 16 && FieldBits(ContinuityFields(ContinuityAt(b))) == BitsOf([b])
  {
    var c := ContinuityAt(b);
    var rest := [Field(4, c.filler)] + ([Flag(c.primaryOk)] + ([Flag(c.secondaryOk)] + []));
    LastSixBits(b, c.filler, c.primaryOk, c.secondaryOk);
    Shifts(b);
    TwoFlags(b, 6, c.primaryDone, c.secondaryDone, rest);
    BitsOfByte(b);
    assert ContinuityFields(c) == [Flag(c.primaryDone)] + ([Flag(c.secondaryDone)] + rest);
  }

  // ------------------------------------------------------------ bits of the packets

  lemma CutAt(d: seq<byte>, n: nat)
    requires n <= |d|
    ensures d == d[..n] + d[n..]
  {
  }

  /** The bits of some bytes, part by part. */
  lemma PeelBits(d: seq<byte>, n: nat, fs: seq<Field>, gs: seq<Field>)
    requires n <= |d| && FieldBits(fs) == BitsOf(d[..n]) && FieldBits(gs) == BitsOf(d[n..])
    ensures FieldBits(fs + gs) == BitsOf(d)
  {
    BitsOfConcat(d[..n], d[n..]);
    FieldBitsConcat(fs, gs);
    CutAt(d, n);
  }

  lemma WordAtBits(d: seq<byte>, k: nat)
    requires k + 4 <= |d|
    ensures FieldBits([Field(32, WordAt(d, k))]) == FieldBits([LittleWord(LittleWordAt(d, k))]) == BitsOf(d[k..k + 4])
  {
    WordBytes(d[k], d[k + 1], d[k + 2], d[k + 3]);
    WordBytes(d[k + 3], d[k + 2], d[k + 1], d[k]);
    WordBits(WordAt(d, k));
    WordBits(LittleWordAt(d, k));
    assert d[k..k + 4] == [d[k], d[k + 1], d[k + 2], d[k + 3]];
  }

  lemma TwoFieldBits(d: seq<byte>, f: Field, g: Field)
    requires |d| == 8 && FieldBits([f]) == BitsOf(d[0..4]) && FieldBits([g]) == BitsOf(d[4..8])
    ensures FieldBits([f, g]) == BitsOf(d)
  {
    assert d[0..4] == d[..4] && d[4..8] == d[4..];
    PeelBits(d, 4, [f], [g]);
    assert [f] + [g] == [f, g];
  }

  lemma TwoWordsAtBits(d: seq<byte>)
    requires |d| == 8
    ensures FieldBits([Field(32, WordAt(d, 0)), Field(32, WordAt(d, 4))]) == BitsOf(d)
  {
    WordAtBits(d, 0);
    WordAtBits(d, 4);
    TwoFieldBits(d, Field(32, WordAt(d, 0)), Field(32, WordAt(d, 4)));
  }

  lemma TwoLittleWordsAtBits(d: seq<byte>)
    requires |d| == 8
    ensures FieldBits([LittleWord(LittleWordAt(d, 0)), LittleWord(LittleWordAt(d, 4))]) == BitsOf(d)
  {
    WordAtBits(d, 0);
    WordAtBits(d, 4);
    TwoFieldBits(d, LittleWord(LittleWordAt(d, 0)), LittleWord(LittleWordAt(d, 4)));
  }

  lemma Int16AtBits(d: seq<byte>, k: nat)
    requires k + 2 <= |d|
    ensures FieldBits([Field(16, Digits16(Int16At(d, k)))]) == BitsOf(d[k..k + 2])
  {
    Int16Spelled(d[k], d[k + 1]);
    BitsOfBigEndian(Digits16(Int16At(d, k)), 2);
    assert d[k..k + 2] == [d[k], d[k + 1]];
    assert Int16At(d[k..k + 2], 0) == Int16At(d, k);
  }

  lemma VecAtBits(d: seq<byte>)
    requires |d| == 6
    ensures FieldBits(VecFields(VecAt(d, 0))) == BitsOf(d)
  {
    Int16AtBits(d, 0);
    Int16AtBits(d, 2);
    Int16AtBits(d, 4);
    var x, y, z := [Field(16, Digits16(Int16At(d, 0)))], [Field(16, Digits16(Int16At(d, 2)))],
                   [Field(16, Digits16(Int16At(d, 4)))];
    assert d[2..][..2] == d[2..4] && d[2..][2..] == d[4..6] && d[..2] == d[0..2];
    PeelBits(d[2..], 2, y, z);
    PeelBits(d, 2, x, y + z);
    assert x + (y + z) == VecFields(VecAt(d, 0));
  }

  lemma VectorsBits(d: seq<byte>)
    requires |d| == 18
    ensures FieldBits(VecFields(VecAt(d, 0)) + (VecFields(VecAt(d, 6)) + VecFields(VecAt(d, 12)))) == BitsOf(d)
  {
    VecAtBits(d[..6]);
    VecAtBits(d[6..12]);
    VecAtBits(d[12..]);
    assert d[6..][..6] == d[6..12] && d[6..][6..] == d[12..];
    PeelBits(d[6..], 6, VecFields(VecAt(d, 6)), VecFields(VecAt(d, 12)));
    PeelBits(d, 6, VecFields(VecAt(d, 0)), VecFields(VecAt(d, 6)) + VecFields(VecAt(d, 12)));
  }

  lemma Motion1Bits(d: seq<byte>, a: AvData1)
    requires |d| == 39 && a == AvData1At(d)
    ensures FieldBits(Motion1(a)) == BitsOf(d[..27])
  {
    var m := d[..27];
    TwoWordsAtBits(d[..8]);
    StateBits(d[8]);
    VectorsBits(d[9..27]);
    assert m[8..][..1] == [d[8]] && m[8..][1..] == d[9..27] && m[..8] == d[..8];
    var vectors := VecFields(a.accelLow) + (VecFields(a.accelHigh) + VecFields(a.gyro));
    PeelBits(m[8..], 1, StateFields(a.flags), vectors);
    PeelBits(m, 8, MetaFields(a.meta), StateFields(a.flags) + vectors);
  }

  lemma LastBytesBits(c: byte, d: byte)
    ensures FieldBits([Field(8, c), Field(8, d)]) == BitsOf([c, d])
  {
    CharBits(c, d);
    assert CharFields([c, d]) == [Field(8, c), Field(8, d)];
  }

  lemma Status1Bits(d: seq<byte>, a: AvData1)
    requires |d| == 39 && a == AvData1At(d)
    ensures FieldBits(Status1(a)) == BitsOf(d[27..]) && WellFormed1(a)
  {
    var m := d[27..];
    var words, last := [Field(32, a.altitude), Field(32, a.velocity)], [Field(8, a.broadcastByte), Field(8, a.tail)];
    TwoWordsAtBits(m[..8]);
    ContinuityByteBits(d[35]);
    ContinuityByteBits(d[36]);
    LastBytesBits(d[37], d[38]);
    assert m[8..][..1] == [d[35]] && m[8..][1..] == m[9..];
    assert m[9..][..1] == [d[36]] && m[9..][1..] == [d[37], d[38]];
    PeelBits(m[9..], 1, ContinuityFields(a.main), last);
    PeelBits(m[8..], 1, ContinuityFields(a.apogee), ContinuityFields(a.main) + last);
    PeelBits(m, 8, words, ContinuityFields(a.apogee) + (ContinuityFields(a.main) + last));
  }

  /** The bits of AV data 1 have one reading, and it is the one by bytes. */
  lemma ReadByBytes1(a: AvData1, d: seq<byte>)
    requires |d| == 39 && WellFormed1(a) && FieldBits(Layout1(a)) == BitsOf(d)
    ensures a == AvData1At(d)
  {
    var b := AvData1At(d);
    Motion1Bits(d, b);
    Status1Bits(d, b);
    PeelBits(d, 27, Motion1(b), Status1(b));
    Layout1Injective(a, b);
  }

  /** Bytes behind the packet do not matter. */
  lemma BytesBehind1(d: seq<byte>)
    requires |d| >= 39
    ensures AvData1At(d[..39]) == AvData1At(d)
  {
  }

  lemma QuaternionAtBits(d: seq<byte>, q: Quaternion)
    requires |d| == 16
    requires q == Quaternion(w := LittleWordAt(d, 0), x := LittleWordAt(d, 4),
                             y := LittleWordAt(d, 8), z := LittleWordAt(d, 12))
    ensures FieldBits(QuaternionFields(q)) == BitsOf(d)
  {
    TwoLittleWordsAtBits(d[..8]);
    TwoLittleWordsAtBits(d[8..]);
    var front, back := [LittleWord(q.w), LittleWord(q.x)], [LittleWord(q.y), LittleWord(q.z)];
    PeelBits(d, 8, front, back);
    assert front + back == QuaternionFields(q);
  }

  lemma Body2Bits(d: seq<byte>, a: AvData2)
    requires |d| == 35 && a == AvData2At(d)
    ensures FieldBits(BodyLayout2(a)) == BitsOf(d[8..])
  {
    var m := d[8..];
    var position := [LittleWord(a.latitude), LittleWord(a.longitude)];
    StateBits(d[8]);
    TwoLittleWordsAtBits(d[9..17]);
    CharBits(d[17], d[18]);
    QuaternionAtBits(d[19..], a.attitude);
    assert m[..1] == [d[8]] && m[1..][..8] == d[9..17] && m[1..][8..] == m[9..];
    assert m[9..][..2] == [d[17], d[18]] == a.nav && m[9..][2..] == d[19..];
    PeelBits(m[9..], 2, CharFields(a.nav), QuaternionFields(a.attitude));
    PeelBits(m[1..], 8, position, CharFields(a.nav) + QuaternionFields(a.attitude));
    PeelBits(m, 1, StateFields(a.flags), position + (CharFields(a.nav) + QuaternionFields(a.attitude)));
  }

  lemma MetaByBytes(m: Meta, d: seq<byte>)
    requires |d| == 8 && FieldBits(MetaFields(m)) == BitsOf(d)
    ensures m == Meta(rssi := WordAt(d, 0), snr := WordAt(d, 4))
  {
    var n := Meta(rssi := WordAt(d, 0), snr := WordAt(d, 4));
    TwoWordsAtBits(d);
    MetaInRange(m);
    MetaInRange(n);
    FieldBitsInjective(MetaFields(m), MetaFields(n));
    MetaInjective(m, n);
  }

  /** The same of AV data 2. */
  lemma ReadByBytes2(a: AvData2, d: seq<byte>)
    requires |d| == 35 && WellFormed2(a)
    requires FieldBits(MetaFields(a.meta)) == BitsOf(d[..8]) && FieldBits(BodyLayout2(a)) == BitsOf(d[8..])
    ensures a == AvData2At(d)
  {
    var b := AvData2At(d);
    MetaByBytes(a.meta, d[..8]);
    Body2Bits(d, b);
    BodyLayout2Injective(a, b);
  }

  lemma BytesBehind2(d: seq<byte>)
    requires |d| >= 35
    ensures AvData2At(d[..35]) == AvData2At(d)
  {
    assert d[..35][17..19] == d[17..19];
  }
}
