/** The packet constructors of AV_TO_GCS_DATA_1.hpp and AV_TO_GCS_DATA_2.hpp.
    Each part is read by its own method, whose log entry is the part's layout. */
module PayloadParsing {
  import opened Wrappers
  import opened Bits
  import opened ByteParsing
  import opened Payloads
  import opened PayloadBytes

  /** The protobuf flight states, in FlightState.proto's order. */
  datatype FlightState =
    | PreFlightNoFlightReady | PreFlightFlightReady | Launch | Coast | Apogee | Descent | Landed | OhNo

  /** The number of a state in FlightState.proto. */
  function ProtoNumber(f: FlightState): nat {
    match f
    case PreFlightNoFlightReady => 0
    case PreFlightFlightReady => 1
    case Launch => 2
    case Coast => 3
    case Apogee => 4
    case Descent => 5
    case Landed => 6
    case OhNo => 7
  }

  /** The avionics number the states of the flight from 1 on; the protobuf, which has
      two states before launch, from 2 on. Codes past the flight are the error state. */
  function ProtoOfCode(v: int3): nat {
    if v == 0 then 0 else if v <= 5 then v + 1 else 7
  }

  /** calc_flight_state of AVHelper.hpp. Flight ready before launch has no code. */
  function CalcFlightState(v: int3): (f: FlightState)
    ensures ProtoNumber(f) == ProtoOfCode(v)
  {
    match v
    case 0 => PreFlightNoFlightReady
    case 1 => Launch
    case 2 => Coast
    case 3 => Apogee
    case 4 => Descent
    case 5 => Landed
    case _ => OhNo
  }

  lemma NumberDecides(f: FlightState, g: FlightState)
    requires ProtoNumber(f) == ProtoNumber(g)
    ensures f == g
  {
  }

  /** The constructor sets the flag for two byte values and leaves it unset otherwise. */
  function BroadcastFlag(b: byte): Option<bool> {
    if b == 0xAA then Some(true) else if b == 0 then Some(false) else None
  }

  const SIZE_1 := 31
  const INTERNAL_SIZE_1 := SIZE_1 + 8
  const SIZE_2 := 27
  const INTERNAL_SIZE_2 := SIZE_2 + 8

  /** bit_cast of the signed reading of a 32-bit word. */
  function FloatWord(x: int32): uint32 {
    if x < 0 then x + 0x1_0000_0000 else x
  }

  lemma FloatWordRestores(v: nat)
    requires v < Pow2(32)
    ensures v < 0x1_0000_0000
    ensures -0x8000_0000 <= TwosComplement(v, 32) < 0x8000_0000
    ensures FloatWord(TwosComplement(v, 32)) == v
  {
    PowValues();
    assert Pow2(32) == 2 * Pow2(31);
  }

  method ReadFloat(p: ByteParser) returns (w: uint32)
    requires p.Valid() && p.endianness.BigEndianOrder? && p.BitsRemaining() >= 32
    modifies p
    ensures p.Valid() && p.Cursor() == old(p.Cursor()) + 32
    ensures p.log == old(p.log) + [Field(32, w)]
  {
    var r := p.ExtractSignedBits(32);
    SignedField(p.endianness, p.log[|p.log| - 1]);
    FloatWordRestores(p.log[|p.log| - 1].value);
    w := FloatWord(r.value);
  }

  method ReadFlag(p: ByteParser) returns (b: bool)
    requires p.Valid() && p.BitsRemaining() >= 1
    modifies p
    ensures p.Valid() && p.Cursor() == old(p.Cursor()) + 1
    ensures p.log == old(p.log) + [Flag(b)]
  {
    var r := p.ExtractUnsignedBits(1);
    PowValues();
    OneByteInOrder(p.endianness, p.log[|p.log| - 1]);
    b := r.value != 0;
  }

  method ReadSmall(p: ByteParser, n: nat) returns (v: byte)
    requires p.Valid() && 1 <= n <= 8 && p.BitsRemaining() >= n
    modifies p
    ensures p.Valid() && p.Cursor() == old(p.Cursor()) + n
    ensures v < Pow2(n) && p.log == old(p.log) + [Field(n, v)]
  {
    var r := p.ExtractUnsignedBits(n);
    OneByteInOrder(p.endianness, p.log[|p.log| - 1]);
    v := r.value;
  }

  lemma Digits16Restores(v: nat)
    requires v < Pow2(16)
    ensures -0x8000 <= TwosComplement(v, 16) < 0x8000
    ensures Digits16(TwosComplement(v, 16)) == v
  {
    PowValues();
    assert Pow2(16) == 2 * Pow2(15);
  }

  method ReadInt16(p: ByteParser) returns (x: int16)
    requires p.Valid() && p.endianness.BigEndianOrder? && p.BitsRemaining() >= 16
    modifies p
    ensures p.Valid() && p.Cursor() == old(p.Cursor()) + 16
    ensures p.log == old(p.log) + [Field(16, Digits16(x))]
  {
    var r := p.ExtractSignedBits(16);
    SignedField(p.endianness, p.log[|p.log| - 1]);
    Digits16Restores(p.log[|p.log| - 1].value);
    x := r.value;
  }

  method ReadMeta(p: ByteParser) returns (m: Meta)
    requires p.Valid() && p.endianness.BigEndianOrder? && p.BitsRemaining() >= 64
    modifies p
    ensures p.Valid() && p.Cursor() == old(p.Cursor()) + 64
    ensures p.log == old(p.log) + MetaFields(m)
  {
    var rssi := ReadFloat(p);
    var snr := ReadFloat(p);
    m := Meta(rssi, snr);
  }

  method ReadTwoFlags(p: ByteParser) returns (b: bool, c: bool)
    requires p.Valid() && p.BitsRemaining() >= 2
    modifies p
    ensures p.Valid() && p.Cursor() == old(p.Cursor()) + 2
    ensures p.log == old(p.log) + [Flag(b), Flag(c)]
  {
    b := ReadFlag(p);
    c := ReadFlag(p);
  }

  method ReadState(p: ByteParser) returns (f: StateFlags)
    requires p.Valid() && p.BitsRemaining() >= 8
    modifies p
    ensures p.Valid() && p.Cursor() == old(p.Cursor()) + 8
    ensures p.log == old(p.log) + StateFields(f)
  {
    var flight := ReadSmall(p, 3);
    assert Pow2(3) == 8;
    var dualBoard, recoveryReady := ReadTwoFlags(p);
    var gpsFix := ReadFlag(p);
    var payload, camera := ReadTwoFlags(p);
    f := StateFlags(flight, dualBoard, recoveryReady, gpsFix, payload, camera);
  }

  method ReadVec(p: ByteParser) returns (v: Vec3)
    requires p.Valid() && p.endianness.BigEndianOrder? && p.BitsRemaining() >= 48
    modifies p
    ensures p.Valid() && p.Cursor() == old(p.Cursor()) + 48
    ensures p.log == old(p.log) + VecFields(v)
  {
    var x := ReadInt16(p);
    var y := ReadInt16(p);
    var z := ReadInt16(p);
    v := Vec3(x, y, z);
  }

  method ReadContinuity(p: ByteParser) returns (c: Continuity)
    requires p.Valid() && p.BitsRemaining() >= 8
    modifies p
    ensures p.Valid() && p.Cursor() == old(p.Cursor()) + 8
    ensures c.filler < 16 && p.log == old(p.log) + ContinuityFields(c)
  {
    var primaryDone, secondaryDone := ReadTwoFlags(p);
    var filler := ReadSmall(p, 4);
    PowValues();
    var primaryOk, secondaryOk := ReadTwoFlags(p);
    c := Continuity(primaryDone, secondaryDone, filler, primaryOk, secondaryOk);
  }

  method ReadMotion1(p: ByteParser) returns (meta: Meta, flags: StateFlags, low: Vec3, high: Vec3, gyro: Vec3)
    requires p.Valid() && p.endianness.BigEndianOrder? && p.BitsRemaining() >= 216 && p.log == []
    modifies p
    ensures p.Valid() && p.Cursor() == old(p.Cursor()) + 216
    ensures p.log == MetaFields(meta) + (StateFields(flags) + (VecFields(low) + (VecFields(high) + VecFields(gyro))))
  {
    meta := ReadMeta(p);
    flags := ReadState(p);
    low := ReadVec(p);
    high := ReadVec(p);
    gyro := ReadVec(p);
  }

  method ReadStatus1(p: ByteParser)
    returns (altitude: uint32, velocity: uint32, apogee: Continuity, main: Continuity, broadcast: byte, tail: byte)
    requires p.Valid() && p.endianness.BigEndianOrder? && p.BitsRemaining() >= 96
    modifies p
    ensures p.Valid() && p.Cursor() == old(p.Cursor()) + 96
    ensures apogee.filler < 16 && main.filler < 16
    ensures p.log == old(p.log) + ([Field(32, altitude), Field(32, velocity)]
      + (ContinuityFields(apogee) + (ContinuityFields(main) + [Field(8, broadcast), Field(8, tail)])))
  {
    altitude := ReadFloat(p);
    velocity := ReadFloat(p);
    apogee := ReadContinuity(p);
    main := ReadContinuity(p);
    broadcast := ReadSmall(p, 8);
    tail := ReadSmall(p, 8);
  }

  /** AV_TO_GCS_DATA_1: the packet read is the one whose layout is the input, each
      field is the number its bytes denote, and no bit is left for the destructor to
      complain about. The constructor keeps the flight state its three bits encode,
      and a broadcast flag that is set only by two of the byte's values. */
  method ParseAvToGcsData1(data: seq<byte>)
    returns (a: AvData1, flight: FlightState, broadcast: Option<bool>, left: int)
    requires |data| >= INTERNAL_SIZE_1
    ensures WellFormed1(a) && FieldBits(Layout1(a)) == BitsOf(data[..INTERNAL_SIZE_1])
    ensures a == AvData1At(data)
    ensures ProtoNumber(flight) == ProtoOfCode(data[8] / 32)
    ensures broadcast == Some(true) <==> data[37] == 0xAA
    ensures broadcast == Some(false) <==> data[37] == 0
    ensures left == 0
  {
    var p := new ByteParser(data, INTERNAL_SIZE_1, BigEndianOrder);
    var meta, flags, low, high, gyro := ReadMotion1(p);
    var altitude, velocity, apogee, main, broadcastByte, tail := ReadStatus1(p);
    a := AvData1(meta, flags, low, high, gyro, altitude, velocity, apogee, main, broadcastByte, tail);
    assert p.log == Layout1(a);
    flight, broadcast := CalcFlightState(flags.flight), BroadcastFlag(broadcastByte);
    left := p.BitsRemaining();
    ReadByBytes1(a, data[..INTERNAL_SIZE_1]);
    BytesBehind1(data);
  }

  method ReadLittleWord(p: ByteParser) returns (w: uint32)
    requires p.Valid() && p.endianness.LittleEndianOrder? && p.BitsRemaining() >= 32
    modifies p
    ensures p.Valid() && p.Cursor() == old(p.Cursor()) + 32
    ensures p.log == old(p.log) + [LittleWord(w)]
  {
    var r := p.ExtractUnsignedBits(32);
    w := r.value;
    SwapTwice(p.log[|p.log| - 1].value, 4);
  }

  method ReadQuaternion(p: ByteParser) returns (q: Quaternion)
    requires p.Valid() && p.endianness.LittleEndianOrder? && p.BitsRemaining() >= 128
    modifies p
    ensures p.Valid() && p.Cursor() == old(p.Cursor()) + 128
    ensures p.log == old(p.log) + QuaternionFields(q)
  {
    var w := ReadLittleWord(p);
    var x := ReadLittleWord(p);
    var y := ReadLittleWord(p);
    var z := ReadLittleWord(p);
    q := Quaternion(w, x, y, z);
  }

  method ParseMeta2(data: seq<byte>) returns (meta: Meta, left: int)
    requires |data| >= 8
    ensures FieldBits(MetaFields(meta)) == BitsOf(data[..8]) && left == 0
  {
    var p := new ByteParser(data, 8, BigEndianOrder);
    meta := ReadMeta(p);
    assert p.bits[..64] == p.bits && p.log == MetaFields(meta);
    left := p.BitsRemaining();
  }

  method ReadBody2(p: ByteParser)
    returns (flags: StateFlags, latitude: uint32, longitude: uint32, nav: seq<byte>, attitude: Quaternion)
    requires p.Valid() && p.endianness.LittleEndianOrder? && p.BitsRemaining() >= 216 && p.log == []
    modifies p
    ensures p.Valid() && p.Cursor() == old(p.Cursor()) + 216 && |nav| == 2
    ensures p.log == StateFields(flags) + ([LittleWord(latitude), LittleWord(longitude)]
      + (CharFields(nav) + QuaternionFields(attitude)))
  {
    flags := ReadState(p);
    latitude := ReadLittleWord(p);
    longitude := ReadLittleWord(p);
    var chars := p.ExtractString(2);
    nav := chars.value;
    attitude := ReadQuaternion(p);
  }

  method ParseBody2(data: seq<byte>, meta: Meta) returns (a: AvData2, left: int)
    requires |data| == SIZE_2
    ensures WellFormed2(a) && a.meta == meta && FieldBits(BodyLayout2(a)) == BitsOf(data) && left == 0
  {
    var p := new ByteParser(data, SIZE_2, LittleEndianOrder);
    var flags, latitude, longitude, nav, attitude := ReadBody2(p);
    a := AvData2(meta, flags, latitude, longitude, nav, attitude);
    left := p.BitsRemaining();
    assert data[..SIZE_2] == data && p.bits[..p.Cursor()] == p.bits;
  }

  /** AV_TO_GCS_DATA_2: big-endian metrics, then a little-endian body, each field the
      number its bytes denote. The flight bits are read and dropped; the packet's own
      state is never set. */
  method ParseAvToGcsData2(data: seq<byte>) returns (a: AvData2, left: int)
    requires |data| >= INTERNAL_SIZE_2
    ensures WellFormed2(a)
    ensures FieldBits(MetaFields(a.meta)) == BitsOf(data[..8])
    ensures FieldBits(BodyLayout2(a)) == BitsOf(data[8..INTERNAL_SIZE_2])
    ensures a == AvData2At(data)
    ensures left == 0
  {
    var meta, metaLeft := ParseMeta2(data);
    a, left := ParseBody2(data[8..INTERNAL_SIZE_2], meta);
    left := left + metaLeft;
    var packet := data[..INTERNAL_SIZE_2];
    assert packet[..8] == data[..8] && packet[8..] == data[8..INTERNAL_SIZE_2];
    ReadByBytes2(a, packet);
    BytesBehind2(data);
  }
}
