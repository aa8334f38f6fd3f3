/** Avionics packets: what device_emulator.py and metric.py write, and what the
    constructors of AV_TO_GCS_DATA_1.hpp and AV_TO_GCS_DATA_2.hpp read back.
    A float is an opaque binary32 word (IEEE 754-2019, section 3.4). */
module Payloads {
  import opened Bits
  import opened ByteParsing

  type int16 = x: int | -0x8000 <= x < 0x8000
  type int3 = x: int | 0 <= x < 8

  // -------------------------------------------------------------- packet parts

  datatype Meta = Meta(rssi: uint32, snr: uint32)
  datatype StateFlags = StateFlags(flight: int3, dualBoard: bool, recoveryReady: bool, gpsFix: bool,
                                   payload: bool, camera: bool)
  datatype Vec3 = Vec3(x: int16, y: int16, z: int16)
  /** A continuity byte: two completions, four fixed bits, two results. */
  datatype Continuity = Continuity(primaryDone: bool, secondaryDone: bool, filler: nat,
                                   primaryOk: bool, secondaryOk: bool)
  datatype Quaternion = Quaternion(w: uint32, x: uint32, y: uint32, z: uint32)

  datatype AvData1 = AvData1(meta: Meta, flags: StateFlags, accelLow: Vec3, accelHigh: Vec3, gyro: Vec3,
                             altitude: uint32, velocity: uint32, apogee: Continuity, main: Continuity,
                             broadcastByte: byte, tail: byte)
  datatype AvData2 = AvData2(meta: Meta, flags: StateFlags, latitude: uint32, longitude: uint32,
                             nav: seq<byte>, attitude: Quaternion)

  // --------------------------------------------------------- layouts on the wire

  function Flag(b: bool): (f: Field)
    ensures f.width == 1 && f.value < 2 == Pow2(1)
  {
    PowValues();
    Field(1, if b then 1 else 0)
  }

  function MetaFields(m: Meta): seq<Field> {
    [Field(32, m.rssi), Field(32, m.snr)]
  }

  function StateFields(f: StateFlags): seq<Field> {
    [Field(3, f.flight), Flag(f.dualBoard), Flag(f.recoveryReady), Flag(f.gpsFix), Flag(f.payload), Flag(f.camera)]
  }

  /** The sixteen two's complement digits of a signed number. */
  function Digits16(x: int16): (d: nat)
    ensures d < 0x1_0000 == Pow2(16)
    ensures TwosComplement(d, 16) == x
  {
    PowValues();
    assert Pow2(16) == 2 * Pow2(15);
    TwosComplementInverse(x, 16);
    Unsigned(x, 16)
  }

  function VecFields(v: Vec3): seq<Field> {
    [Field(16, Digits16(v.x)), Field(16, Digits16(v.y)), Field(16, Digits16(v.z))]
  }

  function ContinuityFields(c: Continuity): seq<Field> {
    [Flag(c.primaryDone), Flag(c.secondaryDone), Field(4, c.filler), Flag(c.primaryOk), Flag(c.secondaryOk)]
  }

  function LittleWord(w: uint32): Field {
    Field(32, SwapBytes(w, 4))
  }

  function QuaternionFields(q: Quaternion): seq<Field> {
    [LittleWord(q.w), LittleWord(q.x), LittleWord(q.y), LittleWord(q.z)]
  }

  ghost predicate WellFormed1(a: AvData1) {
    a.apogee.filler < 16 && a.main.filler < 16
  }

  ghost predicate WellFormed2(a: AvData2) {
    |a.nav| == 2
  }

  function Motion1(a: AvData1): seq<Field> {
    MetaFields(a.meta) + (StateFields(a.flags)
      + (VecFields(a.accelLow) + (VecFields(a.accelHigh) + VecFields(a.gyro))))
  }

  function Status1(a: AvData1): seq<Field> {
    [Field(32, a.altitude), Field(32, a.velocity)]
    + (ContinuityFields(a.apogee) + (ContinuityFields(a.main)
      + [Field(8, a.broadcastByte), Field(8, a.tail)]))
  }

  function Layout1(a: AvData1): seq<Field> {
    Motion1(a) + Status1(a)
  }

  function BodyLayout2(a: AvData2): seq<Field> {
    StateFields(a.flags) + ([LittleWord(a.latitude), LittleWord(a.longitude)]
      + (CharFields(a.nav) + QuaternionFields(a.attitude)))
  }

  // ------------------------------------------------- fields of a layout are in range

  lemma LittleWordFits(w: uint32)
    ensures LittleWord(w).value < Pow2(32)
  {
    SwapBytesFits(w, 4);
  }

  lemma MetaInRange(m: Meta)
    ensures InRange(MetaFields(m))
  {
    PowValues();
  }

  lemma StateInRange(f: StateFlags)
    ensures InRange(StateFields(f))
  {
    assert Pow2(3) == 8;
  }

  lemma VecInRange(v: Vec3)
    ensures InRange(VecFields(v))
  {
  }

  lemma ContinuityInRange(c: Continuity)
    requires c.filler < 16
    ensures InRange(ContinuityFields(c))
  {
    assert Pow2(4) == 16;
  }

  lemma Layout1InRange(a: AvData1)
    requires WellFormed1(a)
    ensures InRange(Layout1(a))
  {
    PowValues();
    MetaInRange(a.meta);
    StateInRange(a.flags);
    VecInRange(a.accelLow);
    VecInRange(a.accelHigh);
    VecInRange(a.gyro);
    ContinuityInRange(a.apogee);
    ContinuityInRange(a.main);
    assert InRange([Field(32, a.altitude), Field(32, a.velocity)]);
    assert InRange([Field(8, a.broadcastByte), Field(8, a.tail)]);
  }

  lemma BodyLayout2InRange(a: AvData2)
    ensures InRange(BodyLayout2(a))
  {
    PowValues();
    StateInRange(a.flags);
    LittleWordFits(a.latitude);
    LittleWordFits(a.longitude);
    LittleWordFits(a.attitude.w);
    LittleWordFits(a.attitude.x);
    LittleWordFits(a.attitude.y);
    LittleWordFits(a.attitude.z);
    assert InRange(CharFields(a.nav));
  }

  // ------------------------------------------------------ a layout has one reading

  lemma MetaInjective(m: Meta, n: Meta)
    requires MetaFields(m) == MetaFields(n)
    ensures m == n
  {
    assert MetaFields(m)[0] == MetaFields(n)[0] && MetaFields(m)[1] == MetaFields(n)[1];
  }

  lemma StateInjective(f: StateFlags, g: StateFlags)
    requires StateFields(f) == StateFields(g)
    ensures f == g
  {
    var x, y := StateFields(f), StateFields(g);
    assert x[0] == y[0] && x[1] == y[1] && x[2] == y[2] && x[3] == y[3] && x[4] == y[4] && x[5] == y[5];
  }

  lemma VecInjective(v: Vec3, w: Vec3)
    requires VecFields(v) == VecFields(w)
    ensures v == w
  {
    var x, y := VecFields(v), VecFields(w);
    assert x[0] == y[0] && x[1] == y[1] && x[2] == y[2];
  }

  lemma ContinuityInjective(c: Continuity, d: Continuity)
    requires ContinuityFields(c) == ContinuityFields(d)
    ensures c == d
  {
    var x, y := ContinuityFields(c), ContinuityFields(d);
    assert x[0] == y[0] && x[1] == y[1] && x[2] == y[2] && x[3] == y[3] && x[4] == y[4];
  }

  lemma LittleWordInjective(v: uint32, w: uint32)
    requires LittleWord(v) == LittleWord(w)
    ensures v == w
  {
    PowValues();
    SwapTwice(v, 4);
    SwapTwice(w, 4);
  }

  lemma Peel<T>(a: seq<T>, b: seq<T>, c: seq<T>, d: seq<T>)
    requires |a| == |c| && a + b == c + d
    ensures a == c && b == d
  {
    assert a == (a + b)[..|a|] && b == (a + b)[|a|..];
    assert c == (c + d)[..|c|] && d == (c + d)[|c|..];
  }

  lemma Motion1Injective(a: AvData1, b: AvData1)
    requires Motion1(a) == Motion1(b)
    ensures a.meta == b.meta && a.flags == b.flags
    ensures a.accelLow == b.accelLow && a.accelHigh == b.accelHigh && a.gyro == b.gyro
  {
    var highA, highB := VecFields(a.accelHigh) + VecFields(a.gyro), VecFields(b.accelHigh) + VecFields(b.gyro);
    var lowA, lowB := VecFields(a.accelLow) + highA, VecFields(b.accelLow) + highB;
    Peel(MetaFields(a.meta), StateFields(a.flags) + lowA, MetaFields(b.meta), StateFields(b.flags) + lowB);
    Peel(StateFields(a.flags), lowA, StateFields(b.flags), lowB);
    Peel(VecFields(a.accelLow), highA, VecFields(b.accelLow), highB);
    Peel(VecFields(a.accelHigh), VecFields(a.gyro), VecFields(b.accelHigh), VecFields(b.gyro));
    MetaInjective(a.meta, b.meta);
    StateInjective(a.flags, b.flags);
    VecInjective(a.accelLow, b.accelLow);
    VecInjective(a.accelHigh, b.accelHigh);
    VecInjective(a.gyro, b.gyro);
  }

  lemma Status1Injective(a: AvData1, b: AvData1)
    requires Status1(a) == Status1(b)
    ensures a.altitude == b.altitude && a.velocity == b.velocity
    ensures a.apogee == b.apogee && a.main == b.main
    ensures a.broadcastByte == b.broadcastByte && a.tail == b.tail
  {
    var lastA, lastB := [Field(8, a.broadcastByte), Field(8, a.tail)], [Field(8, b.broadcastByte), Field(8, b.tail)];
    var wordsA := [Field(32, a.altitude), Field(32, a.velocity)];
    var wordsB := [Field(32, b.altitude), Field(32, b.velocity)];
    var mainA, mainB := ContinuityFields(a.main) + lastA, ContinuityFields(b.main) + lastB;
    Peel(wordsA, ContinuityFields(a.apogee) + mainA, wordsB, ContinuityFields(b.apogee) + mainB);
    Peel(ContinuityFields(a.apogee), mainA, ContinuityFields(b.apogee), mainB);
    Peel(ContinuityFields(a.main), lastA, ContinuityFields(b.main), lastB);
    assert wordsA[0] == wordsB[0] && wordsA[1] == wordsB[1] && lastA[0] == lastB[0] && lastA[1] == lastB[1];
    ContinuityInjective(a.apogee, b.apogee);
    ContinuityInjective(a.main, b.main);
  }

  lemma SameWidthsConcat(a: seq<Field>, b: seq<Field>, c: seq<Field>, d: seq<Field>)
    requires SameWidths(a, b) && SameWidths(c, d)
    ensures SameWidths(a + c, b + d)
  {
  }

  lemma PartWidths(m: Meta, n: Meta, f: StateFlags, g: StateFlags)
    ensures SameWidths(MetaFields(m), MetaFields(n)) && SameWidths(StateFields(f), StateFields(g))
  {
  }

  lemma VecWidths(v: Vec3, w: Vec3)
    ensures SameWidths(VecFields(v), VecFields(w))
  {
  }

  lemma ContinuityWidths(c: Continuity, d: Continuity)
    ensures SameWidths(ContinuityFields(c), ContinuityFields(d))
  {
  }

  lemma Motion1SameWidths(a: AvData1, b: AvData1)
    ensures SameWidths(Motion1(a), Motion1(b))
  {
    var highA, highB := VecFields(a.accelHigh) + VecFields(a.gyro), VecFields(b.accelHigh) + VecFields(b.gyro);
    var lowA, lowB := VecFields(a.accelLow) + highA, VecFields(b.accelLow) + highB;
    PartWidths(a.meta, b.meta, a.flags, b.flags);
    VecWidths(a.accelLow, b.accelLow);
    VecWidths(a.accelHigh, b.accelHigh);
    VecWidths(a.gyro, b.gyro);
    SameWidthsConcat(VecFields(a.accelHigh), VecFields(b.accelHigh), VecFields(a.gyro), VecFields(b.gyro));
    SameWidthsConcat(VecFields(a.accelLow), VecFields(b.accelLow), highA, highB);
    SameWidthsConcat(StateFields(a.flags), StateFields(b.flags), lowA, lowB);
    SameWidthsConcat(MetaFields(a.meta), MetaFields(b.meta), StateFields(a.flags) + lowA, StateFields(b.flags) + lowB);
  }

  lemma Status1SameWidths(a: AvData1, b: AvData1)
    ensures SameWidths(Status1(a), Status1(b))
  {
    var lastA, lastB := [Field(8, a.broadcastByte), Field(8, a.tail)], [Field(8, b.broadcastByte), Field(8, b.tail)];
    var mainA, mainB := ContinuityFields(a.main) + lastA, ContinuityFields(b.main) + lastB;
    ContinuityWidths(a.apogee, b.apogee);
    ContinuityWidths(a.main, b.main);
    SameWidthsConcat(ContinuityFields(a.main), ContinuityFields(b.main), lastA, lastB);
    SameWidthsConcat(ContinuityFields(a.apogee), ContinuityFields(b.apogee), mainA, mainB);
  }

  /** Two packets with the same bits are the same packet. */
  lemma Layout1Injective(a: AvData1, b: AvData1)
    requires WellFormed1(a) && WellFormed1(b)
    requires FieldBits(Layout1(a)) == FieldBits(Layout1(b))
    ensures a == b
  {
    Layout1InRange(a);
    Layout1InRange(b);
    Motion1SameWidths(a, b);
    Status1SameWidths(a, b);
    SameWidthsConcat(Motion1(a), Motion1(b), Status1(a), Status1(b));
    FieldBitsInjective(Layout1(a), Layout1(b));
    Peel(Motion1(a), Status1(a), Motion1(b), Status1(b));
    Motion1Injective(a, b);
    Status1Injective(a, b);
  }

  lemma QuaternionInjective(p: Quaternion, q: Quaternion)
    requires QuaternionFields(p) == QuaternionFields(q)
    ensures p == q
  {
    var x, y := QuaternionFields(p), QuaternionFields(q);
    assert x[0] == y[0] && x[1] == y[1] && x[2] == y[2] && x[3] == y[3];
    LittleWordInjective(p.w, q.w);
    LittleWordInjective(p.x, q.x);
    LittleWordInjective(p.y, q.y);
    LittleWordInjective(p.z, q.z);
  }

  lemma BodyLayout2Injective(a: AvData2, b: AvData2)
    requires WellFormed2(a) && WellFormed2(b)
    requires FieldBits(BodyLayout2(a)) == FieldBits(BodyLayout2(b))
    ensures a == b.(meta := a.meta)
  {
    BodyLayout2InRange(a);
    BodyLayout2InRange(b);
    FieldBitsInjective(BodyLayout2(a), BodyLayout2(b));
    var gpsA := [LittleWord(a.latitude), LittleWord(a.longitude)];
    var gpsB := [LittleWord(b.latitude), LittleWord(b.longitude)];
    var navA := CharFields(a.nav) + QuaternionFields(a.attitude);
    var navB := CharFields(b.nav) + QuaternionFields(b.attitude);
    Peel(StateFields(a.flags), gpsA + navA, StateFields(b.flags), gpsB + navB);
    Peel(gpsA, navA, gpsB, navB);
    Peel(CharFields(a.nav), QuaternionFields(a.attitude), CharFields(b.nav), QuaternionFields(b.attitude));
    StateInjective(a.flags, b.flags);
    assert gpsA[0] == gpsB[0] && gpsA[1] == gpsB[1];
    LittleWordInjective(a.latitude, b.latitude);
    LittleWordInjective(a.longitude, b.longitude);
    assert CharFields(a.nav)[0] == CharFields(b.nav)[0] && CharFields(a.nav)[1] == CharFields(b.nav)[1];
    QuaternionInjective(a.attitude, b.attitude);
  }
}
