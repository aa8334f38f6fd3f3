/** The emulator's raw frames: metric.py's encoders and get_payload_bytes, and
    the round trip through the packet constructors. */
module PayloadEncoding {
  import opened Wrappers
  import opened Bits
  import opened ByteParsing
  import opened Payloads
  import opened PayloadBytes
  import opened PayloadParsing
  import opened Seqs

  // ------------------------------------------------------------------ metric.py

  /** `result = (result << w) | v` for each field in turn. */
  function PackFlags(fs: seq<Field>): nat {
    if fs == [] then 0
    else
      var f := fs[|fs| - 1];
      Or(Shl(PackFlags(fs[..|fs| - 1]), f.width), f.value)
  }

  lemma {:induction false} PackFlagsBits(fs: seq<Field>)
    requires InRange(fs)
    ensures PackFlags(fs) == FromBits(FieldBits(fs))
  {
    if fs == [] {
    } else {
      var front, f := fs[..|fs| - 1], fs[|fs| - 1];
      PackFlagsBits(front);
      assert fs == front + [f];
      FieldBitsConcat(front, [f]);
      assert FieldBits([f]) == ToBits(f.value, f.width);
      FromBitsConcat(FieldBits(front), ToBits(f.value, f.width));
      FromToBits(f.value, f.width);
      OrDisjoint(PackFlags(front), f.value, f.width);
    }
  }

  /** Flags that fill one byte. */
  function FlagByte(fs: seq<Field>): (s: seq<byte>)
    requires InRange(fs) && |FieldBits(fs)| == 8
    ensures |s| == 1 && BitsOf(s) == FieldBits(fs)
  {
    PackFlagsBits(fs);
    ToFromBits(FieldBits(fs));
    ByteFits(0);
    [PackFlags(fs)]
  }

  /** The range of struct.pack's float32: neither infinite nor NaN. */
  predicate ValidFloat32(w: uint32) {
    w / 0x80_0000 % 256 != 255
  }

  predicate ValidInt16(x: int) {
    -32768 <= x <= 32767
  }

  datatype Triple = Triple(x: int, y: int, z: int)
  datatype Checks = Checks(primaryDone: bool, secondaryDone: bool, primaryOk: bool, secondaryOk: bool)

  /** The arguments of AVtoGCSData1, before any range check. */
  datatype Input1 = Input1(rssi: uint32, snr: uint32, flight: int, links: StateFlags,
                           low: Triple, high: Triple, gyro: Triple, altitude: uint32, velocity: uint32,
                           apogee: Checks, main: Checks, broadcast: bool)

  /** The arguments of AVtoGCSData2. */
  datatype Input2 = Input2(rssi: uint32, snr: uint32, flight: int, links: StateFlags,
                           latitude: uint32, longitude: uint32, nav: string, attitude: Quaternion)

  predicate ValidTriple(t: Triple) {
    ValidInt16(t.x) && ValidInt16(t.y) && ValidInt16(t.z)
  }

  /** No field encoder of the packet raises ValueError. */
  predicate Encodable1(i: Input1) {
    && 0 <= i.flight <= 7
    && ValidTriple(i.low) && ValidTriple(i.high) && ValidTriple(i.gyro)
    && ValidFloat32(i.altitude) && ValidFloat32(i.velocity)
  }

  predicate Encodable2(i: Input2) {
    && 0 <= i.flight <= 7
    && ValidFloat32(i.latitude) && ValidFloat32(i.longitude)
    && ValidFloat32(i.attitude.w) && ValidFloat32(i.attitude.x)
    && ValidFloat32(i.attitude.y) && ValidFloat32(i.attitude.z)
    && |i.nav| == 2
  }

  lemma StateFlagBits(f: StateFlags)
    ensures InRange(StateFields(f)) && |FieldBits(StateFields(f))| == 8
  {
    StateInRange(f);
    var fs := StateFields(f);
    assert fs[0..] == fs;
    WidthFrom(fs, 0);
    WidthFrom(fs, 1);
    WidthFrom(fs, 2);
    WidthFrom(fs, 3);
    WidthFrom(fs, 4);
    WidthFrom(fs, 5);
  }

  function StateFlagS3p0(flight: int, links: StateFlags): Option<seq<byte>> {
    if 0 <= flight <= 7 then
      StateFlagBits(links.(flight := flight));
      Some(FlagByte(StateFields(links.(flight := flight))))
    else None
  }

  /** Both continuity packers carry the fixed bits 1010 in the middle. */
  function ContinuityOf(c: Checks): Continuity {
    Continuity(c.primaryDone, c.secondaryDone, 10, c.primaryOk, c.secondaryOk)
  }

  lemma ContinuityBits(c: Continuity)
    requires c.filler < 16
    ensures InRange(ContinuityFields(c)) && |FieldBits(ContinuityFields(c))| == 8
  {
    ContinuityInRange(c);
    var fs := ContinuityFields(c);
    assert fs[0..] == fs;
    WidthFrom(fs, 0);
    WidthFrom(fs, 1);
    WidthFrom(fs, 2);
    WidthFrom(fs, 3);
    WidthFrom(fs, 4);
  }

  function ContinuityCheckResults(c: Checks): seq<byte> {
    ContinuityBits(ContinuityOf(c));
    FlagByte(ContinuityFields(ContinuityOf(c)))
  }

  /** `_int_to_multiple_bytes_signed(value, 2)` behind its range check. */
  function Int16Bytes(x: int): Option<seq<byte>> {
    if ValidInt16(x) then Some(BigEndian(Digits16(x), 2)) else None
  }

  /** A value is accepted exactly when two bytes can say it. */
  lemma Int16Exact(x: int)
    ensures Int16Bytes(x).Some? <==> exists a: byte, b: byte :: Int16(a, b) == x
  {
    if ValidInt16(x) {
      var v := if x < 0 then x + 0x1_0000 else x;
      assert Int16(v / 256, v % 256) == x;
    }
  }

  function Float32Bytes(w: uint32): Option<seq<byte>> {
    if ValidFloat32(w) then Some(BigEndian(w, 4)) else None
  }

  function LittleFloat32Bytes(w: uint32): Option<seq<byte>> {
    if ValidFloat32(w) then Some(LittleEndian(w, 4)) else None
  }

  function MovingToBroadcastFlag(b: bool): seq<byte> {
    [if b then 0xAA else 0]
  }

  /** UTF-8 (RFC 3629, section 3) of one character. */
  function Utf8(c: char): (s: seq<byte>)
    ensures |s| == 1 <==> c as int < 0x80
    ensures |s| == 1 ==> s[0] == c as int
    ensures |s| >= 1
  {
    var x := c as int;
    if x < 0x80 then [x]
    else if x < 0x800 then [0xC0 + x / 64, 0x80 + x % 64]
    else if x < 0x1_0000 then [0xE0 + x / 4096, 0x80 + x / 64 % 64, 0x80 + x % 64]
    else [0xF0 + x / 262144, 0x80 + x / 4096 % 64, 0x80 + x / 64 % 64, 0x80 + x % 64]
  }

  /** Two characters, however many bytes they take. */
  function NavigationStatus(nav: string): Option<seq<byte>> {
    if |nav| == 2 then Some(Utf8(nav[0]) + Utf8(nav[1])) else None
  }

  // -------------------------------------------------------------- fragment lists

  function VecFragments(v: Vec3): seq<seq<byte>> {
    [BigEndian(Digits16(v.x), 2), BigEndian(Digits16(v.y), 2), BigEndian(Digits16(v.z), 2)]
  }

  function Int16s(t: Triple): Vec3
    requires ValidTriple(t)
  {
    Vec3(t.x, t.y, t.z)
  }

  function Fragments1(i: Input1): seq<seq<byte>>
    requires Encodable1(i)
  {
    [StateFlagS3p0(i.flight, i.links).value]
    + (VecFragments(Int16s(i.low)) + (VecFragments(Int16s(i.high)) + (VecFragments(Int16s(i.gyro))
    + ([BigEndian(i.altitude, 4), BigEndian(i.velocity, 4)]
    + [ContinuityCheckResults(i.apogee), ContinuityCheckResults(i.main),
       MovingToBroadcastFlag(i.broadcast), [0]]))))
  }

  function Fragments2(i: Input2): seq<seq<byte>>
    requires Encodable2(i)
  {
    [StateFlagS3p0(i.flight, i.links).value,
     LittleEndian(i.latitude, 4) + LittleEndian(i.longitude, 4),
     NavigationStatus(i.nav).value]
    + [LittleEndian(i.attitude.w, 4), LittleEndian(i.attitude.x, 4),
       LittleEndian(i.attitude.y, 4), LittleEndian(i.attitude.z, 4)]
  }

  function EncodeTriple(t: Triple): Option<seq<seq<byte>>> {
    var x :- Int16Bytes(t.x);
    var y :- Int16Bytes(t.y);
    var z :- Int16Bytes(t.z);
    Some([x, y, z])
  }

  /** The fragment list of AVtoGCSData1; the first failing encoder aborts it. */
  function EncodeFragments1(i: Input1): (r: Option<seq<seq<byte>>>)
    ensures r == if Encodable1(i) then Some(Fragments1(i)) else None
  {
    var state :- StateFlagS3p0(i.flight, i.links);
    var low :- EncodeTriple(i.low);
    var high :- EncodeTriple(i.high);
    var gyro :- EncodeTriple(i.gyro);
    var altitude :- Float32Bytes(i.altitude);
    var velocity :- Float32Bytes(i.velocity);
    Some([state] + (low + (high + (gyro + ([altitude, velocity]
      + [ContinuityCheckResults(i.apogee), ContinuityCheckResults(i.main),
         MovingToBroadcastFlag(i.broadcast), [0]])))))
  }

  function EncodeQuaternion(q: Quaternion): Option<seq<seq<byte>>> {
    var w :- LittleFloat32Bytes(q.w);
    var x :- LittleFloat32Bytes(q.x);
    var y :- LittleFloat32Bytes(q.y);
    var z :- LittleFloat32Bytes(q.z);
    Some([w, x, y, z])
  }

  /** The fragment list of AVtoGCSData2. */
  function EncodeFragments2(i: Input2): (r: Option<seq<seq<byte>>>)
    ensures r == if Encodable2(i) then Some(Fragments2(i)) else None
  {
    var state :- StateFlagS3p0(i.flight, i.links);
    var latitude :- LittleFloat32Bytes(i.latitude);
    var longitude :- LittleFloat32Bytes(i.longitude);
    var nav :- NavigationStatus(i.nav);
    var attitude :- EncodeQuaternion(i.attitude);
    Some([state, latitude + longitude, nav] + attitude)
  }

  /** The internal TEST frame: identifier, metrics, fragments. */
  function RawFrame(id: byte, rssi: uint32, snr: uint32, frags: seq<seq<byte>>): seq<byte> {
    [id] + BigEndian(rssi, 4) + BigEndian(snr, 4) + Flatten(frags)
  }

  /** get_payload_bytes for the TEST interface; `external` leaves the metrics out. */
  method GetPayloadBytes(id: byte, rssi: uint32, snr: uint32, frags: seq<seq<byte>>, external: bool)
    returns (r: Option<seq<byte>>)
    ensures r.None? <==> !external && !(ValidFloat32(rssi) && ValidFloat32(snr))
    ensures r.Some? ==> r.value == if external then [id] + Flatten(frags) else RawFrame(id, rssi, snr, frags)
  {
    var output: seq<byte> := [id];
    if !external {
      if !ValidFloat32(rssi) || !ValidFloat32(snr) {
        return None;
      }
      output := output + BigEndian(rssi, 4);
      output := output + BigEndian(snr, 4);
    }
    ghost var head := output;
    for k := 0 to |frags|
      invariant output == head + Flatten(frags[..k])
    {
      assert frags[..k + 1] == frags[..k] + [frags[k]];
      FlattenSnoc(frags[..k], frags[k]);
      output := output + frags[k];
    }
    assert frags[..|frags|] == frags;
    return Some(output);
  }

  // -------------------------------------------- the frames carry the layouts' bits

  function Packet1(i: Input1): AvData1
    requires Encodable1(i)
  {
    AvData1(Meta(i.rssi, i.snr), i.links.(flight := i.flight), Int16s(i.low), Int16s(i.high), Int16s(i.gyro),
            i.altitude, i.velocity, ContinuityOf(i.apogee), ContinuityOf(i.main),
            if i.broadcast then 0xAA else 0, 0)
  }

  function Packet2(i: Input2): AvData2
    requires Encodable2(i)
  {
    AvData2(Meta(i.rssi, i.snr), i.links.(flight := i.flight), i.latitude, i.longitude,
            NavigationStatus(i.nav).value, i.attitude)
  }

  /** Fragments whose bits are those of fields, one fragment a group. */
  lemma {:induction false} FlattenBits(frags: seq<seq<byte>>, groups: seq<seq<Field>>)
    requires |frags| == |groups|
    requires forall k :: 0 <= k < |frags| ==> BitsOf(frags[k]) == FieldBits(groups[k])
    ensures BitsOf(Flatten(frags)) == FieldBits(Flatten(groups))
  {
    if frags == [] {
    } else {
      FlattenBits(frags[1..], groups[1..]);
      BitsOfConcat(frags[0], Flatten(frags[1..]));
      FieldBitsConcat(groups[0], Flatten(groups[1..]));
    }
  }

  lemma JoinTwo(a: seq<Field>, b: seq<Field>)
    ensures Flatten([a, b]) == a + b
  {
    assert Flatten([a, b][1..]) == b + Flatten([]);
  }

  lemma JoinThree(a: seq<Field>, b: seq<Field>, c: seq<Field>)
    ensures Flatten([a, b, c]) == a + (b + c)
  {
    assert [a, b, c][1..] == [b, c];
    JoinTwo(b, c);
  }

  lemma JoinFour(a: seq<Field>, b: seq<Field>, c: seq<Field>, d: seq<Field>)
    ensures Flatten([a, b, c, d]) == a + (b + (c + d))
  {
    assert [a, b, c, d][1..] == [b, c, d];
    JoinThree(b, c, d);
  }

  lemma VecFragmentBits(v: Vec3)
    ensures BitsOf(Flatten(VecFragments(v))) == FieldBits(VecFields(v))
  {
    BitsOfBigEndian(Digits16(v.x), 2);
    BitsOfBigEndian(Digits16(v.y), 2);
    BitsOfBigEndian(Digits16(v.z), 2);
    var a, b, c := [Field(16, Digits16(v.x))], [Field(16, Digits16(v.y))], [Field(16, Digits16(v.z))];
    FlattenBits(VecFragments(v), [a, b, c]);
    JoinThree(a, b, c);
    assert a + (b + c) == VecFields(v);
  }

  lemma AppendParts(frags: seq<seq<byte>>, fs: seq<Field>, rest: seq<seq<byte>>, gs: seq<Field>)
    requires BitsOf(Flatten(frags)) == FieldBits(fs) && BitsOf(Flatten(rest)) == FieldBits(gs)
    ensures BitsOf(Flatten(frags + rest)) == FieldBits(fs + gs)
  {
    FlattenConcat(frags, rest);
    BitsOfConcat(Flatten(frags), Flatten(rest));
    FieldBitsConcat(fs, gs);
  }

  lemma TwoWordBits(v: uint32, w: uint32)
    ensures BitsOf(Flatten([BigEndian(v, 4), BigEndian(w, 4)])) == FieldBits([Field(32, v), Field(32, w)])
  {
    var alt, vel := [Field(32, v)], [Field(32, w)];
    WordBits(v);
    WordBits(w);
    FlattenBits([BigEndian(v, 4), BigEndian(w, 4)], [alt, vel]);
    JoinTwo(alt, vel);
    assert alt + vel == [Field(32, v), Field(32, w)];
  }

  lemma CheckFragmentBits(apogee: Checks, main: Checks, broadcast: byte)
    ensures BitsOf(Flatten([ContinuityCheckResults(apogee), ContinuityCheckResults(main), [broadcast], [0]]))
      == FieldBits(ContinuityFields(ContinuityOf(apogee))
           + (ContinuityFields(ContinuityOf(main)) + [Field(8, broadcast), Field(8, 0)]))
  {
    var a, m := ContinuityFields(ContinuityOf(apogee)), ContinuityFields(ContinuityOf(main));
    var last, tail := [Field(8, broadcast)], [Field(8, 0)];
    OneByteBits(broadcast);
    OneByteBits(0);
    ContinuityBits(ContinuityOf(apogee));
    ContinuityBits(ContinuityOf(main));
    FlattenBits([ContinuityCheckResults(apogee), ContinuityCheckResults(main), [broadcast], [0]], [a, m, last, tail]);
    JoinFour(a, m, last, tail);
    assert last + tail == [Field(8, broadcast), Field(8, 0)];
  }

  lemma StatusFragmentBits(i: Input1)
    requires Encodable1(i)
    ensures BitsOf(Flatten([BigEndian(i.altitude, 4), BigEndian(i.velocity, 4)]
      + [ContinuityCheckResults(i.apogee), ContinuityCheckResults(i.main), MovingToBroadcastFlag(i.broadcast), [0]]))
      == FieldBits(Status1(Packet1(i)))
  {
    var p := Packet1(i);
    TwoWordBits(i.altitude, i.velocity);
    CheckFragmentBits(i.apogee, i.main, p.broadcastByte);
    AppendParts([BigEndian(i.altitude, 4), BigEndian(i.velocity, 4)], [Field(32, i.altitude), Field(32, i.velocity)],
                [ContinuityCheckResults(i.apogee), ContinuityCheckResults(i.main), [p.broadcastByte], [0]],
                ContinuityFields(p.apogee)
                + (ContinuityFields(p.main) + [Field(8, p.broadcastByte), Field(8, p.tail)]));
  }

  lemma MotionFragmentBits(i: Input1)
    requires Encodable1(i)
    ensures var p := Packet1(i);
      BitsOf(Flatten(Fragments1(i))) == FieldBits(StateFields(p.flags)
        + (VecFields(p.accelLow) + (VecFields(p.accelHigh) + (VecFields(p.gyro) + Status1(p)))))
  {
    var p := Packet1(i);
    var state := [StateFlagS3p0(i.flight, i.links).value];
    var low, high, gyro := VecFragments(p.accelLow), VecFragments(p.accelHigh), VecFragments(p.gyro);
    var status := [BigEndian(i.altitude, 4), BigEndian(i.velocity, 4)]
      + [ContinuityCheckResults(i.apogee), ContinuityCheckResults(i.main), MovingToBroadcastFlag(i.broadcast), [0]];
    StatusFragmentBits(i);
    VecFragmentBits(p.accelLow);
    VecFragmentBits(p.accelHigh);
    VecFragmentBits(p.gyro);
    AppendParts(gyro, VecFields(p.gyro), status, Status1(p));
    AppendParts(high, VecFields(p.accelHigh), gyro + status, VecFields(p.gyro) + Status1(p));
    var fromHigh := VecFields(p.accelHigh) + (VecFields(p.gyro) + Status1(p));
    AppendParts(low, VecFields(p.accelLow), high + (gyro + status), fromHigh);
    StateFlagBits(p.flags);
    assert Flatten(state) == state[0] + Flatten([]);
    AppendParts(state, StateFields(p.flags), low + (high + (gyro + status)), VecFields(p.accelLow) + fromHigh);
  }

  lemma MetaBits(m: Meta)
    ensures BitsOf(BigEndian(m.rssi, 4) + BigEndian(m.snr, 4)) == FieldBits(MetaFields(m))
  {
    WordBits(m.rssi);
    WordBits(m.snr);
    BitsOfConcat(BigEndian(m.rssi, 4), BigEndian(m.snr, 4));
    FieldBitsConcat([Field(32, m.rssi)], [Field(32, m.snr)]);
    assert [Field(32, m.rssi)] + [Field(32, m.snr)] == MetaFields(m);
  }

  lemma FrameBits1(i: Input1)
    requires Encodable1(i)
    ensures BitsOf(BigEndian(i.rssi, 4) + BigEndian(i.snr, 4) + Flatten(Fragments1(i)))
      == FieldBits(Layout1(Packet1(i)))
  {
    var p := Packet1(i);
    MotionFragmentBits(i);
    MetaBits(p.meta);
    var vectors := VecFields(p.accelLow) + (VecFields(p.accelHigh) + VecFields(p.gyro));
    var rest := StateFields(p.flags)
      + (VecFields(p.accelLow) + (VecFields(p.accelHigh) + (VecFields(p.gyro) + Status1(p))));
    FieldBitsConcat(MetaFields(p.meta), rest);
    BitsOfConcat(BigEndian(i.rssi, 4) + BigEndian(i.snr, 4), Flatten(Fragments1(i)));
    Associative(VecFields(p.accelHigh), VecFields(p.gyro), Status1(p));
    Associative(VecFields(p.accelLow), VecFields(p.accelHigh) + VecFields(p.gyro), Status1(p));
    Associative(StateFields(p.flags), vectors, Status1(p));
    Associative(MetaFields(p.meta), StateFields(p.flags) + vectors, Status1(p));
  }

  predicate AsciiNav(i: Input2)
    requires |i.nav| == 2
  {
    i.nav[0] as int < 0x80 && i.nav[1] as int < 0x80
  }

  function QuaternionFragments(q: Quaternion): seq<seq<byte>> {
    [LittleEndian(q.w, 4), LittleEndian(q.x, 4), LittleEndian(q.y, 4), LittleEndian(q.z, 4)]
  }

  lemma QuaternionBits(q: Quaternion)
    ensures BitsOf(Flatten(QuaternionFragments(q))) == FieldBits(QuaternionFields(q))
  {
    WordBits(q.w);
    WordBits(q.x);
    WordBits(q.y);
    WordBits(q.z);
    var w, x, y, z := [LittleWord(q.w)], [LittleWord(q.x)], [LittleWord(q.y)], [LittleWord(q.z)];
    FlattenBits(QuaternionFragments(q), [w, x, y, z]);
    JoinFour(w, x, y, z);
    assert w + (x + (y + z)) == QuaternionFields(q);
  }

  function HeadFragments(i: Input2): seq<seq<byte>>
    requires Encodable2(i)
  {
    [StateFlagS3p0(i.flight, i.links).value, LittleEndian(i.latitude, 4) + LittleEndian(i.longitude, 4),
     NavigationStatus(i.nav).value]
  }

  function HeadFields(p: AvData2): seq<Field> {
    StateFields(p.flags) + ([LittleWord(p.latitude), LittleWord(p.longitude)] + CharFields(p.nav))
  }

  lemma PositionBits(latitude: uint32, longitude: uint32)
    ensures BitsOf(LittleEndian(latitude, 4) + LittleEndian(longitude, 4))
      == FieldBits([LittleWord(latitude), LittleWord(longitude)])
  {
    var lat, lon := [LittleWord(latitude)], [LittleWord(longitude)];
    WordBits(latitude);
    WordBits(longitude);
    BitsOfConcat(LittleEndian(latitude, 4), LittleEndian(longitude, 4));
    FieldBitsConcat(lat, lon);
    assert lat + lon == [LittleWord(latitude), LittleWord(longitude)];
  }

  lemma HeadFragmentBits(i: Input2)
    requires Encodable2(i) && AsciiNav(i)
    ensures BitsOf(Flatten(HeadFragments(i))) == FieldBits(HeadFields(Packet2(i)))
  {
    var p := Packet2(i);
    var position := [LittleWord(i.latitude), LittleWord(i.longitude)];
    StateFlagBits(p.flags);
    PositionBits(i.latitude, i.longitude);
    CharBits(p.nav[0], p.nav[1]);
    assert p.nav == [p.nav[0], p.nav[1]];
    FlattenBits(HeadFragments(i), [StateFields(p.flags), position, CharFields(p.nav)]);
    JoinThree(StateFields(p.flags), position, CharFields(p.nav));
  }

  lemma Body2FragmentBits(i: Input2)
    requires Encodable2(i) && AsciiNav(i)
    ensures BitsOf(Flatten(Fragments2(i))) == FieldBits(BodyLayout2(Packet2(i)))
  {
    var p := Packet2(i);
    HeadFragmentBits(i);
    QuaternionBits(i.attitude);
    AppendParts(HeadFragments(i), HeadFields(p), QuaternionFragments(i.attitude), QuaternionFields(i.attitude));
    assert HeadFields(p) + QuaternionFields(i.attitude) == BodyLayout2(p);
  }

  // -------------------------------------------------------------- the round trips

  /** Any reading of the 39 bytes after an AV data 1 frame's identifier is the packet that was sent. */
  lemma Frame1HasOneReading(i: Input1, a: AvData1)
    requires Encodable1(i) && WellFormed1(a)
    requires FieldBits(Layout1(a)) == BitsOf(RawFrame(3, i.rssi, i.snr, Fragments1(i))[1..])
    ensures a == Packet1(i)
  {
    assert RawFrame(3, i.rssi, i.snr, Fragments1(i))[1..]
        == BigEndian(i.rssi, 4) + BigEndian(i.snr, 4) + Flatten(Fragments1(i));
    FrameBits1(i);
    Layout1Injective(a, Packet1(i));
  }

  lemma VecWidth(v: Vec3)
    ensures |FieldBits(VecFields(v))| == 48
  {
    VecFragmentBits(v);
    var f := VecFragments(v);
    assert Flatten(f) == f[0] + Flatten(f[1..]) && Flatten(f[1..]) == f[1] + Flatten(f[2..]);
    assert Flatten(f[2..]) == f[2] + Flatten(f[3..]);
  }

  lemma TwoFieldsWidth(f: Field, g: Field)
    ensures |FieldBits([f, g])| == f.width + g.width
  {
    assert [f, g][0..] == [f, g];
    WidthFrom([f, g], 0);
    WidthFrom([f, g], 1);
  }

  lemma Layout1Width(a: AvData1)
    requires WellFormed1(a)
    ensures |FieldBits(Layout1(a))| == 8 * INTERNAL_SIZE_1
  {
    var words, last := [Field(32, a.altitude), Field(32, a.velocity)], [Field(8, a.broadcastByte), Field(8, a.tail)];
    var high := VecFields(a.accelHigh) + VecFields(a.gyro);
    StateFlagBits(a.flags);
    ContinuityBits(a.apogee);
    ContinuityBits(a.main);
    VecWidth(a.accelLow);
    VecWidth(a.accelHigh);
    VecWidth(a.gyro);
    TwoFieldsWidth(Field(32, a.meta.rssi), Field(32, a.meta.snr));
    TwoFieldsWidth(words[0], words[1]);
    TwoFieldsWidth(last[0], last[1]);
    FieldBitsConcat(Motion1(a), Status1(a));
    FieldBitsConcat(MetaFields(a.meta), StateFields(a.flags) + (VecFields(a.accelLow) + high));
    FieldBitsConcat(StateFields(a.flags), VecFields(a.accelLow) + high);
    FieldBitsConcat(VecFields(a.accelLow), high);
    FieldBitsConcat(VecFields(a.accelHigh), VecFields(a.gyro));
    FieldBitsConcat(words, ContinuityFields(a.apogee) + (ContinuityFields(a.main) + last));
    FieldBitsConcat(ContinuityFields(a.apogee), ContinuityFields(a.main) + last);
    FieldBitsConcat(ContinuityFields(a.main), last);
  }

  lemma Frame1Length(i: Input1)
    requires Encodable1(i)
    ensures |RawFrame(3, i.rssi, i.snr, Fragments1(i))| == INTERNAL_SIZE_1 + 1
  {
    FrameBits1(i);
    Layout1Width(Packet1(i));
  }

  /** The bytes the emulator sends as AV data 1 behind the identifier: the fields by
      their places, the fixed bits 1010 in both continuity bytes, and a zero byte last. */
  lemma EncodedBytes1(i: Input1)
    requires Encodable1(i)
    ensures var d := RawFrame(3, i.rssi, i.snr, Fragments1(i))[1..];
      && |d| == INTERNAL_SIZE_1 && AvData1At(d) == Packet1(i)
      && d[8] / 32 == i.flight && d[35] / 4 % 16 == 0xA && d[36] / 4 % 16 == 0xA
      && d[37] == (if i.broadcast then 0xAA else 0) && d[38] == 0
  {
    var d := RawFrame(3, i.rssi, i.snr, Fragments1(i))[1..];
    Frame1Length(i);
    FrameBits1(i);
    assert d == BigEndian(i.rssi, 4) + BigEndian(i.snr, 4) + Flatten(Fragments1(i));
    ReadByBytes1(Packet1(i), d);
    assert StateAt(d[8]) == Packet1(i).flags;
    assert ContinuityAt(d[35]) == ContinuityOf(i.apogee) && ContinuityAt(d[36]) == ContinuityOf(i.main);
  }

  /** What the emulator sends as AV data 1 is what the constructor reads: every
      raw field, the flight state and the broadcast flag, and every bit. */
  method RoundTrip1(i: Input1)
    returns (r: Option<AvData1>, flight: FlightState, broadcast: Option<bool>, left: int)
    ensures r.Some? <==> Encodable1(i) && ValidFloat32(i.rssi) && ValidFloat32(i.snr)
    ensures r.Some? ==> r.value == Packet1(i) && left == 0
    ensures r.Some? ==> flight == CalcFlightState(i.flight) && broadcast == Some(i.broadcast)
  {
    flight, broadcast, left := OhNo, None, 0;
    var frags := EncodeFragments1(i);
    if frags.None? {
      return None, flight, broadcast, left;
    }
    var frame := GetPayloadBytes(3, i.rssi, i.snr, frags.value, false);
    if frame.None? {
      return None, flight, broadcast, left;
    }
    Frame1Length(i);
    var a, f, b, l := ParseAvToGcsData1(frame.value[1..]);
    assert frame.value[1..][..INTERNAL_SIZE_1] == frame.value[1..];
    Frame1HasOneReading(i, a);
    NumberDecides(f, CalcFlightState(i.flight));
    return Some(a), f, b, l;
  }

  lemma Frame2Shape(i: Input2)
    requires Encodable2(i)
    ensures var body := Flatten(Fragments2(i));
      |body| >= SIZE_2 && (|body| == SIZE_2 <==> AsciiNav(i))
  {
    var head := [StateFlagS3p0(i.flight, i.links).value,
                 LittleEndian(i.latitude, 4) + LittleEndian(i.longitude, 4), NavigationStatus(i.nav).value];
    var q := QuaternionFragments(i.attitude);
    StateFlagBits(i.links.(flight := i.flight));
    FlattenConcat(head, q);
    QuaternionBits(i.attitude);
    assert Flatten(head) == head[0] + Flatten(head[1..]) && Flatten(head[1..]) == head[1] + Flatten(head[2..]);
    assert Flatten(head[2..]) == head[2] + Flatten(head[3..]);
    assert Flatten(q) == q[0] + Flatten(q[1..]) && Flatten(q[1..]) == q[1] + Flatten(q[2..]);
    assert Flatten(q[2..]) == q[2] + Flatten(q[3..]) && Flatten(q[3..]) == q[3] + Flatten(q[4..]);
  }

  /** Any reading of an AV data 2 frame with an ASCII status is the packet sent. */
  lemma Frame2HasOneReading(i: Input2, a: AvData2)
    requires Encodable2(i) && AsciiNav(i) && WellFormed2(a)
    requires FieldBits(MetaFields(a.meta)) == BitsOf(BigEndian(i.rssi, 4) + BigEndian(i.snr, 4))
    requires FieldBits(BodyLayout2(a)) == BitsOf(Flatten(Fragments2(i)))
    ensures a == Packet2(i)
  {
    var p := Packet2(i);
    Body2FragmentBits(i);
    BodyLayout2Injective(a, p);
    MetaBits(p.meta);
    MetaInRange(a.meta);
    MetaInRange(p.meta);
    FieldBitsInjective(MetaFields(a.meta), MetaFields(p.meta));
    MetaInjective(a.meta, p.meta);
  }

  /** AV data 2 comes back exactly when both status characters are ASCII: the
      encoder only counts characters, and any other one takes more bytes. */
  method RoundTrip2(i: Input2) returns (r: Option<AvData2>, left: int)
    ensures r.Some? <==> Encodable2(i) && ValidFloat32(i.rssi) && ValidFloat32(i.snr)
    ensures r.Some? ==> (r.value == Packet2(i) <==> AsciiNav(i)) && left == 0
  {
    var frags := EncodeFragments2(i);
    if frags.None? {
      return None, 0;
    }
    var frame := GetPayloadBytes(4, i.rssi, i.snr, frags.value, false);
    if frame.None? {
      return None, 0;
    }
    ghost var body, meta := Flatten(Fragments2(i)), BigEndian(i.rssi, 4) + BigEndian(i.snr, 4);
    Frame2Shape(i);
    var data := frame.value[1..];
    assert data == meta + body && data[..8] == meta;
    var a, l := ParseAvToGcsData2(data);
    if AsciiNav(i) {
      assert data[8..INTERNAL_SIZE_2] == body;
      Frame2HasOneReading(i, a);
    }
    return Some(a), l;
  }

  /** A status of an accented and a plain letter passes every check of the encoder,
      is decoded, and does not come back. */
  method AccentedStatusIsLost(i: Input2) returns (r: Option<AvData2>)
    requires Encodable2(i.(nav := "\U{00E9}A")) && ValidFloat32(i.rssi) && ValidFloat32(i.snr)
    ensures r.Some? && r.value != Packet2(i.(nav := "\U{00E9}A"))
  {
    var accented := i.(nav := "\U{00E9}A");
    assert !AsciiNav(accented);
    var back, left := RoundTrip2(accented);
    return back;
  }
}
