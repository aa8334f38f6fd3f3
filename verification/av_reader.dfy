/** The reader loop's case for AV data 1 in main.cpp: from the bytes of a radio
    packet to the sequence state. */
module AvReader {
  import opened Bits
  import opened ByteParsing
  import opened Wrappers
  import opened Payloads
  import opened PayloadBytes
  import opened PayloadParsing
  import opened PayloadEncoding
  import opened AvSequencing

  const BUFFER_SIZE := 1024

  ghost predicate FieldsOf(a: AvData1, data: seq<byte>)
    requires |data| >= INTERNAL_SIZE_1
  {
    WellFormed1(a) && FieldBits(Layout1(a)) == BitsOf(data[..INTERNAL_SIZE_1])
  }

  /** process_packet and what follows it. The guard compares the count with the
      packet's own size, without the metrics inserted after the identifier; `unset`
      is the value of a broadcast flag that the constructor leaves uninitialised. */
  method ReceiveAvData1(sequence: AvSequence, buffer: seq<byte>, count: nat, serialized: bool, unset: bool)
    returns (p: Packet, a: Option<AvData1>)
    requires count <= |buffer| && |buffer| >= BUFFER_SIZE
    modifies sequence`progress, sequence.lock
    ensures a.Some? <==> count >= SIZE_1 + 1
    ensures a.Some? ==> FieldsOf(a.value, buffer[1..]) && a.value == AvData1At(buffer[1..])
    ensures p.Garbage? <==> a.None? || !serialized
    ensures p.Parsed? ==> ProtoNumber(p.flight) == ProtoOfCode(buffer[9] / 32)
    ensures p.Parsed? ==> p.acknowledged == (buffer[38] == 0xAA || (buffer[38] != 0 && unset))
    ensures sequence.progress == Handle(old(sequence.progress), p)
    ensures sequence.lock.State() == old(sequence.lock.State()).ClearFlag().ReleaseMutex()
  {
    p, a := Garbage, None;
    if count >= SIZE_1 + 1 {
      var packet, flight, broadcast, left := ParseAvToGcsData1(buffer[1..]);
      a := Some(packet);
      if serialized {
        p := Parsed(flight, if broadcast.Some? then broadcast.value else unset);
      }
    }
    sequence.ReceivePacket(p);
  }

  lemma FrameInBuffer(i: Input1, buffer: seq<byte>)
    requires Encodable1(i) && RawFrame(3, i.rssi, i.snr, Fragments1(i)) <= buffer
    ensures |RawFrame(3, i.rssi, i.snr, Fragments1(i))| == INTERNAL_SIZE_1 + 1
    ensures buffer[9] / 32 == i.flight && buffer[38] == if i.broadcast then 0xAA else 0
  {
    var frame := RawFrame(3, i.rssi, i.snr, Fragments1(i));
    EncodedBytes1(i);
    assert buffer[9] == frame[1..][8] && buffer[38] == frame[1..][37];
  }

  /** From the emulator's encoder to the launch sequence: a frame received whole is
      handled as the state and the acknowledgement that were sent, whatever is left
      in the buffer behind it. */
  method ReceiveEmulated1(sequence: AvSequence, i: Input1, buffer: seq<byte>, unset: bool) returns (p: Packet)
    requires Encodable1(i) && |buffer| >= BUFFER_SIZE
    requires RawFrame(3, i.rssi, i.snr, Fragments1(i)) <= buffer
    modifies sequence`progress, sequence.lock
    ensures p == Parsed(CalcFlightState(i.flight), i.broadcast)
    ensures sequence.progress == Handle(old(sequence.progress), p)
  {
    var frame := RawFrame(3, i.rssi, i.snr, Fragments1(i));
    FrameInBuffer(i, buffer);
    var a;
    p, a := ReceiveAvData1(sequence, buffer, |frame|, true, unset);
    NumberDecides(p.flight, CalcFlightState(i.flight));
  }
}
