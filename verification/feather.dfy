/** The Feather driver of uart_feather_interface.cpp: a persistent line buffer,
    asynchronous +RECV lines between command responses, and a queue of packets.
    Serial bytes are characters. */
module Feather {
  import opened Bits
  import opened Wrappers
  import opened PayloadEncoding
  import opened Numerals
  import opened Binary32
  import opened Text
  import opened Seqs

  const MAX_PAYLOAD_BYTES := 251
  const RECV := "+RECV:"

  // -------------------------------------------------------- the stream, as lines

  /** The complete lines of a stream, without their newlines. */
  function Lines(s: string): seq<string> {
    var k := FindChar(s, '\n');
    if k == |s| then [] else [s[..k]] + Lines(s[k + 1..])
  }

  /** What follows the last newline. */
  function Tail(s: string): (t: string)
    ensures '\n' !in t
  {
    var k := FindChar(s, '\n');
    if k == |s| then
      assert s[..k] == s;
      s
    else Tail(s[k + 1..])
  }

  lemma NoLines(s: string)
    requires '\n' !in s
    ensures Lines(s) == [] && Tail(s) == s
  {
    assert FindChar(s, '\n') == |s|;
  }

  lemma FirstLine(line: string, rest: string)
    requires '\n' !in line
    ensures Lines(line + ['\n'] + rest) == [line] + Lines(rest)
    ensures Tail(line + ['\n'] + rest) == Tail(rest)
  {
    FindCharAt(line, '\n', rest);
    var s := line + ['\n'] + rest;
    assert s[..|line|] == line && s[|line| + 1..] == rest;
  }

  lemma NoNewline(s: string)
    requires FindChar(s, '\n') == |s|
    ensures Lines(s) == [] && Tail(s) == s
  {
    assert s[..|s|] == s;
    NoLines(s);
  }

  /** However a stream is cut in two, its lines are those of the first part,
      then those of the first part's tail continued by the second. */
  lemma {:induction false} LinesOfConcat(a: string, b: string)
    ensures Lines(a + b) == Lines(a) + Lines(Tail(a) + b)
    ensures Tail(a + b) == Tail(Tail(a) + b)
    decreases |a|
  {
    var k := FindChar(a, '\n');
    if k == |a| {
      assert a[..k] == a;
      NoLines(a);
    } else {
      var line, rest := a[..k], a[k + 1..];
      assert a == line + ['\n'] + rest && a + b == line + ['\n'] + (rest + b);
      FirstLine(line, rest);
      FirstLine(line, rest + b);
      LinesOfConcat(rest, b);
      Associative([line], Lines(rest), Lines(Tail(rest) + b));
    }
  }

  // -------------------------------------------------------------- one line's worth

  /** Metrics after the identifier byte, as every reader of the radio inserts them. */
  function InsertMetrics(payload: seq<byte>, rssi: uint32, snr: uint32): seq<byte>
    requires payload != []
  {
    [payload[0]] + BigEndian(rssi, 4) + BigEndian(snr, 4) + payload[1..]
  }

  /** handle_recv_line: the packet a +RECV line carries; None when a comma is
      missing, a number or a hex pair does not parse, or no payload follows. */
  function DecodeRecv(line: string): Option<seq<byte>>
    requires StartsWith(line, RECV)
  {
    var body := line[|RECV|..];
    var comma1 := FindChar(body, ',');
    if comma1 == |body| then None
    else
      var afterRssi := body[comma1 + 1..];
      var comma2 := FindChar(afterRssi, ',');
      if comma2 == |afterRssi| then None
      else
        var rssi :- Stoi(body[..comma1]);
        var snr :- Stoi(afterRssi[..comma2]);
        var payload :- HexToBytes(afterRssi[comma2 + 1..]);
        if payload == [] then None
        else Some(InsertMetrics(payload, FloatOfInt(rssi), FloatOfInt(snr)))
  }

  /** The two insertions, one after the other. */
  method InsertWords(payload: seq<byte>, rssi: uint32, snr: uint32) returns (packet: seq<byte>)
    requires payload != []
    ensures packet == InsertMetrics(payload, rssi, snr)
  {
    packet := payload[..1] + BigEndian(rssi, 4) + payload[1..];
    packet := packet[..5] + BigEndian(snr, 4) + packet[5..];
  }

  /** The guarded part of handle_recv_line, up to the queue. */
  method ParseRecvLine(line: string) returns (r: Option<seq<byte>>)
    requires StartsWith(line, RECV)
    ensures r == DecodeRecv(line)
  {
    var body := line[|RECV|..];
    var comma1 := FindChar(body, ',');
    if comma1 == |body| {
      return None;
    }
    var afterRssi := body[comma1 + 1..];
    var comma2 := FindChar(afterRssi, ',');
    if comma2 == |afterRssi| {
      return None;
    }
    var rssi := Stoi(body[..comma1]);
    var snr := Stoi(afterRssi[..comma2]);
    var payload := HexStringToBytes(afterRssi[comma2 + 1..]);
    if rssi.None? || snr.None? || payload.None? || payload.value == [] {
      return None;
    }
    var packet := InsertWords(payload.value, FloatOfInt(rssi.value), FloatOfInt(snr.value));
    return Some(packet);
  }

  function PacketOf(line: string): seq<seq<byte>> {
    var clean := Remove(line, '\r');
    if StartsWith(clean, RECV) && DecodeRecv(clean).Some? then [DecodeRecv(clean).value] else []
  }

  function ResponseOf(line: string): seq<string> {
    var clean := Remove(line, '\r');
    if clean == "" || StartsWith(clean, RECV) then [] else [clean]
  }

  /** The packets of a list of lines, in order. */
  function Packets(lines: seq<string>): seq<seq<byte>> {
    FlatMap(PacketOf, lines)
  }

  function Responses(lines: seq<string>): seq<string> {
    FlatMap(ResponseOf, lines)
  }

  /** What a stream yields as a whole: packets, responses and the unfinished line. */
  datatype Yield = Yield(packets: seq<seq<byte>>, responses: seq<string>, buffer: string)

  function Feed(y: Yield, bytes: string): Yield {
    var s := y.buffer + bytes;
    Yield(y.packets + Packets(Lines(s)), y.responses + Responses(Lines(s)), Tail(s))
  }

  function FeedAll(y: Yield, chunks: seq<string>): Yield {
    if chunks == [] then y else Feed(FeedAll(y, chunks[..|chunks| - 1]), chunks[|chunks| - 1])
  }

  /** Packets and responses of a stream cut in two. */
  lemma YieldsOfConcat(a: string, b: string)
    ensures Packets(Lines(a + b)) == Packets(Lines(a)) + Packets(Lines(Tail(a) + b))
    ensures Responses(Lines(a + b)) == Responses(Lines(a)) + Responses(Lines(Tail(a) + b))
    ensures Tail(a + b) == Tail(Tail(a) + b)
  {
    LinesOfConcat(a, b);
    FlatMapConcat(PacketOf, Lines(a), Lines(Tail(a) + b));
    FlatMapConcat(ResponseOf, Lines(a), Lines(Tail(a) + b));
  }

  lemma FeedFromStart(s: string)
    ensures Feed(Yield([], [], ""), s) == Yield(Packets(Lines(s)), Responses(Lines(s)), Tail(s))
  {
    EmptyPrefix(s);
    EmptyPrefix(Packets(Lines(s)));
    EmptyPrefix(Responses(Lines(s)));
  }

  lemma FeedTwice(a: string, b: string)
    ensures Feed(Feed(Yield([], [], ""), a), b) == Feed(Yield([], [], ""), a + b)
  {
    FeedFromStart(a);
    FeedFromStart(a + b);
    YieldsOfConcat(a, b);
  }

  /** Chunk independence: any cutting of a stream into reads and polls yields
      what the uncut stream yields. */
  lemma {:induction false} ChunkIndependence(chunks: seq<string>)
    ensures FeedAll(Yield([], [], ""), chunks) == Feed(Yield([], [], ""), Flatten(chunks))
  {
    if chunks == [] {
      NoLines("");
    } else {
      var front, last := chunks[..|chunks| - 1], chunks[|chunks| - 1];
      ChunkIndependence(front);
      assert chunks == front + [last];
      FlattenSnoc(front, last);
      FeedTwice(Flatten(front), last);
    }
  }

  /** One turn of the demultiplexing loop. */
  lemma FirstLineYields(line: string, rest: string)
    requires '\n' !in line
    ensures var buffer := line + ['\n'] + rest;
      && Packets(Lines(buffer)) == PacketOf(line) + Packets(Lines(rest))
      && Responses(Lines(buffer)) == ResponseOf(line) + Responses(Lines(rest))
      && Tail(buffer) == Tail(rest)
  {
    FirstLine(line, rest);
    assert ([line] + Lines(rest))[1..] == Lines(rest);
  }

  lemma PacketSize(line: string)
    ensures forall p <- PacketOf(line) :: |p| >= 9
  {
  }

  /** A decoded packet is never empty: it has the identifier and both metrics. */
  lemma {:induction false} PacketSizes(lines: seq<string>)
    ensures forall p <- Packets(lines) :: |p| >= 9
  {
    if lines == [] {
    } else {
      PacketSize(lines[0]);
      PacketSizes(lines[1..]);
    }
  }

  // -------------------------------------------------------------------- the driver

  datatype CommandResult = Success | ErrorReply | TimedOut | WriteFailed

  predicate Terminator(line: string) {
    line == "OK" || StartsWith(line, "ERROR")
  }

  /** The index of the first OK or ERROR line, or the length. */
  function FirstTerminator(lines: seq<string>): (k: nat)
    ensures k <= |lines| && (k < |lines| ==> Terminator(lines[k]))
    ensures forall i :: 0 <= i < k ==> !Terminator(lines[i])
  {
    if lines == [] || Terminator(lines[0]) then 0 else 1 + FirstTerminator(lines[1..])
  }

  function Verdict(lines: seq<string>): CommandResult {
    var t := FirstTerminator(lines);
    if t == |lines| then TimedOut else if lines[t] == "OK" then Success else ErrorReply
  }

  /** The reply that the lines heard since the command decide: the first OK or
      ERROR line, with the lines before it as data, or a timeout. */
  predicate Decides(lines: seq<string>, result: CommandResult, dataLines: seq<string>) {
    result == Verdict(lines) && dataLines == lines[..FirstTerminator(lines)]
  }

  /** Some line is OK, and none before it ends a reply. */
  predicate OkFirst(lines: seq<string>) {
    exists k :: 0 <= k < |lines| && lines[k] == "OK"
      && forall j :: 0 <= j < k ==> lines[j] != "OK" && !("ERROR" <= lines[j])
  }

  /** Some line begins with ERROR, and none before it ends a reply. */
  predicate ErrorFirst(lines: seq<string>) {
    exists k :: 0 <= k < |lines| && "ERROR" <= lines[k]
      && forall j :: 0 <= j < k ==> lines[j] != "OK" && !("ERROR" <= lines[j])
  }

  predicate Unanswered(lines: seq<string>) {
    forall j :: 0 <= j < |lines| ==> lines[j] != "OK" && !("ERROR" <= lines[j])
  }

  lemma TerminatorText(line: string)
    ensures Terminator(line) <==> line == "OK" || "ERROR" <= line
    ensures line == "OK" ==> !("ERROR" <= line)
  {
    assert "ERROR" <= line ==> line[..|"ERROR"|] == "ERROR";
  }

  lemma LinesBefore(lines: seq<string>, k: nat)
    requires k <= |lines| && forall j :: 0 <= j < k ==> !Terminator(lines[j])
    ensures Unanswered(lines[..k])
    ensures k < |lines| && Terminator(lines[k]) ==> !Unanswered(lines[..k + 1])
  {
    forall j | 0 <= j < k
      ensures lines[j] != "OK" && !("ERROR" <= lines[j])
    {
      TerminatorText(lines[j]);
    }
    if k < |lines| && Terminator(lines[k]) {
      TerminatorText(lines[k]);
      assert lines[..k + 1][k] == lines[k];
    }
  }

  lemma FirstEnds(lines: seq<string>, k: nat)
    requires k < |lines| && Terminator(lines[k]) && Unanswered(lines[..k])
    ensures OkFirst(lines) <==> lines[k] == "OK"
    ensures ErrorFirst(lines) <==> lines[k] != "OK"
    ensures !Unanswered(lines)
  {
    TerminatorText(lines[k]);
    assert forall j :: 0 <= j < k ==> lines[..k][j] == lines[j];
  }

  /** What a command reports of the lines heard since it was written: success if an OK
      comes first, an error if an ERROR does, a timeout if neither comes; and the lines
      before it as data. */
  predicate Reported(lines: seq<string>, result: CommandResult, dataLines: seq<string>) {
    && (result.Success? <==> OkFirst(lines)) && (result.ErrorReply? <==> ErrorFirst(lines))
    && (result.TimedOut? <==> Unanswered(lines)) && dataLines <= lines && Unanswered(dataLines)
    && if result.TimedOut? then dataLines == lines
       else |dataLines| < |lines| && !Unanswered(lines[..|dataLines| + 1])
  }

  lemma DecidesIsReported(lines: seq<string>, result: CommandResult, dataLines: seq<string>)
    requires Decides(lines, result, dataLines)
    ensures Reported(lines, result, dataLines)
  {
    var t := FirstTerminator(lines);
    LinesBefore(lines, t);
    if t < |lines| {
      FirstEnds(lines, t);
    } else {
      assert lines[..t] == lines;
    }
  }

  predicate Sendable(data: seq<byte>) {
    1 <= |data| <= MAX_PAYLOAD_BYTES
  }

  lemma {:induction false} FirstTerminatorAt(a: seq<string>, b: seq<string>)
    requires FirstTerminator(a) == |a| && b != [] && Terminator(b[0])
    ensures FirstTerminator(a + b) == |a|
  {
    assert forall i :: 0 <= i < |a| ==> (a + b)[i] == a[i];
    assert (a + b)[|a|] == b[0];
    var k := FirstTerminator(a + b);
    assert k >= |a|;
  }

  lemma FirstTerminatorSnoc(a: seq<string>, line: string)
    requires FirstTerminator(a) == |a| && !Terminator(line)
    ensures FirstTerminator(a + [line]) == |a| + 1
  {
    assert forall i :: 0 <= i < |a| ==> (a + [line])[i] == a[i];
    assert (a + [line])[|a|] == line;
    var k := FirstTerminator(a + [line]);
    assert k >= |a|;
  }

  /** The line loop of one poll, after the lines of the polls before it. */
  method ScanReply(before: seq<string>, lines: seq<string>)
    returns (ended: bool, result: CommandResult, dataLines: seq<string>)
    requires FirstTerminator(before) == |before|
    ensures ended <==> !result.TimedOut?
    ensures Decides(before + lines, result, dataLines)
  {
    dataLines := before;
    for i := 0 to |lines|
      invariant dataLines == before + lines[..i]
      invariant FirstTerminator(dataLines) == |dataLines|
    {
      if Terminator(lines[i]) {
        FirstTerminatorAt(dataLines, lines[i..]);
        assert before + lines == dataLines + lines[i..];
        return true, if lines[i] == "OK" then Success else ErrorReply, dataLines;
      }
      FirstTerminatorSnoc(dataLines, lines[i]);
      dataLines := dataLines + [lines[i]];
    }
    assert lines[..|lines|] == lines;
    return false, TimedOut, dataLines;
  }

  lemma FlattenOneMore(polls: seq<seq<string>>, k: nat)
    requires k < |polls|
    ensures Flatten(Flatten(polls[..k + 1])) == Flatten(Flatten(polls[..k])) + Flatten(polls[k])
  {
    assert polls[..k + 1] == polls[..k] + [polls[k]];
    FlattenSnoc(polls[..k], polls[k]);
    FlattenConcat(Flatten(polls[..k]), polls[k]);
  }

  class UartFeatherInterface {
    var lineBuffer: string
    var rxPackets: seq<seq<byte>>
    ghost var heard: string
    ghost var handed: seq<seq<byte>>
    ghost var answers: seq<string>

    /** The buffer is the unfinished line of everything heard; the packets handed
        out and then those queued are the packets of its lines, each once, in
        order; the response lines produced are its other lines. */
    ghost predicate Valid()
      reads this
    {
      && lineBuffer == Tail(heard)
      && handed + rxPackets == Packets(Lines(heard))
      && answers == Responses(Lines(heard))
    }

    constructor ()
      ensures Valid() && heard == "" && handed == [] && answers == []
    {
      lineBuffer, rxPackets, heard, handed, answers := "", [], "", [], [];
      new;
      NoLines("");
    }

    method HandleRecvLine(line: string)
      requires StartsWith(line, RECV)
      modifies this`rxPackets
      ensures rxPackets == old(rxPackets) + if DecodeRecv(line).Some? then [DecodeRecv(line).value] else []
    {
      var packet := ParseRecvLine(line);
      if packet.Some? {
        rxPackets := rxPackets + [packet.value];
      }
    }

    /** The read loop takes what the port gives; the demultiplexing loop then
        takes every complete line out of the buffer. */
    method PollLines(chunks: seq<string>) returns (responses: seq<string>)
      requires Valid()
      modifies this
      ensures Valid() && handed == old(handed)
      ensures heard == old(heard) + Flatten(chunks)
      ensures answers == old(answers) + responses
    {
      ReadPort(chunks);
      responses := DrainLines();
      YieldsOfConcat(heard, Flatten(chunks));
      Associative(handed, old(rxPackets), Packets(Lines(Tail(heard) + Flatten(chunks))));
      heard := heard + Flatten(chunks);
      answers := answers + responses;
    }

    method ReadPort(chunks: seq<string>)
      modifies this`lineBuffer
      ensures lineBuffer == old(lineBuffer) + Flatten(chunks)
    {
      NothingMore(lineBuffer);
      for i := 0 to |chunks|
        invariant lineBuffer == old(lineBuffer) + Flatten(chunks[..i])
      {
        assert chunks[..i + 1] == chunks[..i] + [chunks[i]];
        FlattenSnoc(chunks[..i], chunks[i]);
        Associative(old(lineBuffer), Flatten(chunks[..i]), chunks[i]);
        lineBuffer := lineBuffer + chunks[i];
      }
      assert chunks[..|chunks|] == chunks;
    }

    method DrainLines() returns (responses: seq<string>)
      modifies this`lineBuffer, this`rxPackets
      ensures lineBuffer == Tail(old(lineBuffer))
      ensures rxPackets == old(rxPackets) + Packets(Lines(old(lineBuffer)))
      ensures responses == Responses(Lines(old(lineBuffer)))
    {
      responses := [];
      EmptyPrefix(Responses(Lines(lineBuffer)));
      var lineEnd := FindChar(lineBuffer, '\n');
      while lineEnd < |lineBuffer|
        invariant lineEnd == FindChar(lineBuffer, '\n') && Tail(lineBuffer) == Tail(old(lineBuffer))
        invariant rxPackets + Packets(Lines(lineBuffer)) == old(rxPackets) + Packets(Lines(old(lineBuffer)))
        invariant responses + Responses(Lines(lineBuffer)) == Responses(Lines(old(lineBuffer)))
        decreases |lineBuffer|
      {
        ghost var queued := rxPackets;
        var response, line := DrainLine(lineEnd);
        Associative(queued, PacketOf(line), Packets(Lines(lineBuffer)));
        Associative(responses, ResponseOf(line), Responses(Lines(lineBuffer)));
        responses := responses + response;
        lineEnd := FindChar(lineBuffer, '\n');
      }
      NoNewline(lineBuffer);
      NothingMore(rxPackets);
      NothingMore(responses);
    }

    /** Takes the first line out of the buffer. */
    method DrainLine(lineEnd: nat) returns (response: seq<string>, ghost line: string)
      requires lineEnd == FindChar(lineBuffer, '\n') < |lineBuffer|
      modifies this`lineBuffer, this`rxPackets
      ensures |lineBuffer| < |old(lineBuffer)| && Tail(lineBuffer) == Tail(old(lineBuffer))
      ensures Packets(Lines(old(lineBuffer))) == PacketOf(line) + Packets(Lines(lineBuffer))
      ensures Responses(Lines(old(lineBuffer))) == ResponseOf(line) + Responses(Lines(lineBuffer))
      ensures rxPackets == old(rxPackets) + PacketOf(line) && response == ResponseOf(line)
    {
      var first, rest := lineBuffer[..lineEnd], lineBuffer[lineEnd + 1..];
      assert lineBuffer == first + ['\n'] + rest;
      FirstLineYields(first, rest);
      line := first;
      lineBuffer := rest;
      response := HandleLine(first);
    }

    method HandleLine(raw: string) returns (response: seq<string>)
      modifies this`rxPackets
      ensures rxPackets == old(rxPackets) + PacketOf(raw) && response == ResponseOf(raw)
    {
      var line := Remove(raw, '\r');
      if line == "" {
        return [];
      }
      if StartsWith(line, RECV) {
        HandleRecvLine(line);
        return [];
      }
      return [line];
    }

    /** Sends a command and polls until a terminator or the timeout, after at
        most the polls given. The reply is decided by the first OK or ERROR line
        of this command; lines of the same poll after it are dropped. */
    method AtSendCommand(written: bool, polls: seq<seq<string>>)
      returns (result: CommandResult, dataLines: seq<string>, used: nat)
      requires Valid()
      modifies this
      ensures Valid() && handed == old(handed) && used <= |polls|
      ensures heard == old(heard) + Flatten(Flatten(polls[..used]))
      ensures old(answers) <= answers
      ensures !written <==> result.WriteFailed?
      ensures !written ==> used == 0 && dataLines == []
      ensures written ==> Decides(answers[|old(answers)|..], result, dataLines)
      ensures written ==> Reported(answers[|old(answers)|..], result, dataLines)
      ensures result.TimedOut? ==> used == |polls|
    {
      dataLines, used := [], 0;
      if !written {
        return WriteFailed, dataLines, used;
      }
      while used < |polls|
        invariant Valid() && handed == old(handed) && used <= |polls|
        invariant heard == old(heard) + Flatten(Flatten(polls[..used]))
        invariant answers == old(answers) + dataLines && FirstTerminator(dataLines) == |dataLines|
      {
        FlattenOneMore(polls, used);
        Associative(old(heard), Flatten(Flatten(polls[..used])), Flatten(polls[used]));
        var ended;
        ghost var before, lines := dataLines, [];
        ended, result, dataLines, lines := PollReply(polls[used], dataLines);
        Associative(old(answers), before, lines);
        used := used + 1;
        if ended {
          Suffix(old(answers), before + lines);
          DecidesIsReported(before + lines, result, dataLines);
          return result, dataLines, used;
        }
      }
      Suffix(old(answers), dataLines);
      DecidesIsReported(dataLines, TimedOut, dataLines);
      return TimedOut, dataLines, used;
    }

    /** One poll of a command and the scan of its lines. */
    method PollReply(chunks: seq<string>, before: seq<string>)
      returns (ended: bool, result: CommandResult, dataLines: seq<string>, ghost lines: seq<string>)
      requires Valid() && FirstTerminator(before) == |before|
      modifies this
      ensures Valid() && handed == old(handed) && heard == old(heard) + Flatten(chunks)
      ensures answers == old(answers) + lines && Decides(before + lines, result, dataLines)
      ensures ended <==> !result.TimedOut?
      ensures !ended ==> dataLines == before + lines && FirstTerminator(dataLines) == |dataLines|
      ensures result in {Success, ErrorReply, TimedOut}
    {
      var polled := PollLines(chunks);
      lines := polled;
      ended, result, dataLines := ScanReply(before, polled);
    }

    /** Pops the oldest packet: the next of all packets heard so far. */
    method ReadData(open: bool, chunks: seq<string>) returns (count: int, packet: seq<byte>)
      requires Valid()
      modifies this
      ensures Valid() && old(answers) <= answers
      ensures !open ==> count == -1 && heard == old(heard) && handed == old(handed)
      ensures open ==> heard == old(heard) + Flatten(chunks)
      ensures open && |Packets(Lines(heard))| <= |old(handed)| ==> count == 0 && handed == old(handed)
      ensures open && |Packets(Lines(heard))| > |old(handed)| ==>
        packet == Packets(Lines(heard))[|old(handed)|] && count == |packet| > 0 && handed == old(handed) + [packet]
    {
      packet := [];
      if !open {
        return -1, packet;
      }
      var stray := PollLines(chunks);
      if rxPackets == [] {
        return 0, packet;
      }
      packet := PopPacket();
      PacketSizes(Lines(heard));
      return |packet|, packet;
    }

    method PopPacket() returns (packet: seq<byte>)
      requires Valid() && rxPackets != []
      modifies this`rxPackets, this`handed
      ensures Valid() && handed == old(handed) + [packet]
      ensures |old(handed)| < |Packets(Lines(heard))| && packet == Packets(Lines(heard))[|old(handed)|]
    {
      packet := rxPackets[0];
      assert (handed + rxPackets)[|handed|] == packet;
      assert handed + [packet] + rxPackets[1..] == handed + rxPackets;
      rxPackets := rxPackets[1..];
      handed := handed + [packet];
    }

    /** Transmission. What is heard meanwhile is added to what was heard before, so
        by the invariant no packet is lost; the size is returned exactly when the
        first OK or ERROR line heard since the command is an OK. */
    method WriteData(open: bool, data: seq<byte>, written: bool, polls: seq<seq<string>>)
      returns (count: int, command: string, used: nat)
      requires Valid()
      modifies this
      ensures Valid() && handed == old(handed) && used <= |polls|
      ensures heard == old(heard) + Flatten(Flatten(polls[..used])) && old(answers) <= answers
      ensures !(open && 1 <= |data| <= 251) ==> count == -1 && used == 0 && command == ""
      ensures open && 1 <= |data| <= 251 ==> command == "AT+SENDX=" + BytesToHex(data, true)
      ensures open && 1 <= |data| <= 251 ==>
        count == if written && OkFirst(answers[|old(answers)|..]) then |data| else -1
    {
      used := 0;
      if !open || !Sendable(data) {
        return -1, "", used;
      }
      var hex := WriteHex(data);
      command := "AT+SENDX=" + hex;
      var result, lines, polled := AtSendCommand(written, polls);
      used := polled;
      count := if result.Success? then |data| else -1;
    }
  }

  /** What the driver is asked to do, with what the port offers meanwhile. */
  datatype Op =
    | Poll(chunks: seq<string>)
    | Command(written: bool, polls: seq<seq<string>>)
    | Read(open: bool, chunks: seq<string>)
    | Send(open: bool, data: seq<byte>, written: bool, polls: seq<seq<string>>)
  {
    /** An operation takes all that its one poll offers, or whole polls up to some
        point, or nothing when it fails beforehand. */
    predicate Takes(bytes: string) {
      match this
      case Poll(chunks) => bytes == Flatten(chunks)
      case Read(open, chunks) => bytes == if open then Flatten(chunks) else ""
      case Command(_, polls) => exists used: nat :: used <= |polls| && bytes == Flatten(Flatten(polls[..used]))
      case Send(_, _, _, polls) => exists used: nat :: used <= |polls| && bytes == Flatten(Flatten(polls[..used]))
    }
  }

  /** One operation on a driver. */
  method Perform(driver: UartFeatherInterface, op: Op) returns (delivered: seq<seq<byte>>, bytes: string)
    requires driver.Valid()
    modifies driver
    ensures driver.Valid() && driver.heard == old(driver.heard) + bytes && op.Takes(bytes)
    ensures driver.handed == old(driver.handed) + delivered
    ensures delivered != [] ==> op.Read?
  {
    delivered := [];
    NothingMore(driver.handed);
    match op {
      case Poll(chunks) =>
        var responses := driver.PollLines(chunks);
        bytes := Flatten(chunks);
      case Command(written, polls) =>
        var result, lines, used := driver.AtSendCommand(written, polls);
        bytes := Flatten(Flatten(polls[..used]));
      case Read(open, chunks) =>
        var count, packet := driver.ReadData(open, chunks);
        bytes := if open then Flatten(chunks) else "";
        if count > 0 {
          delivered := [packet];
        }
      case Send(open, data, written, polls) =>
        var count, command, used := driver.WriteData(open, data, written, polls);
        bytes := Flatten(Flatten(polls[..used]));
    }
  }

  predicate TakenBy(ops: seq<Op>, taken: seq<string>) {
    |taken| == |ops| && forall k :: 0 <= k < |ops| ==> ops[k].Takes(taken[k])
  }

  lemma TakenOneMore(ops: seq<Op>, n: nat, taken: seq<string>, bytes: string)
    requires n < |ops| && TakenBy(ops[..n], taken) && ops[n].Takes(bytes)
    ensures TakenBy(ops[..n + 1], taken + [bytes])
  {
    forall k | 0 <= k <= n
      ensures ops[..n + 1][k].Takes((taken + [bytes])[k])
    {
      assert k < n ==> ops[..n][k].Takes(taken[k]);
    }
  }

  /** No loss over whole runs: from a fresh driver, after any mix of polls, commands,
      reads and transmissions, the packets delivered and then those still queued are
      the packets of all lines taken from the port, each once, in order. */
  method Session(ops: seq<Op>)
    returns (delivered: seq<seq<byte>>, queued: seq<seq<byte>>, taken: seq<string>)
    ensures TakenBy(ops, taken)
    ensures delivered + queued == Packets(Lines(Flatten(taken)))
  {
    var driver := new UartFeatherInterface();
    delivered, taken := [], [];
    for n := 0 to |ops|
      invariant fresh(driver) && driver.Valid() && driver.handed == delivered
      invariant driver.heard == Flatten(taken)
      invariant TakenBy(ops[..n], taken)
    {
      var more, bytes := Perform(driver, ops[n]);
      FlattenSnoc(taken, bytes);
      TakenOneMore(ops, n, taken, bytes);
      delivered := delivered + more;
      taken := taken + [bytes];
    }
    assert ops[..|ops|] == ops;
    queued := driver.rxPackets;
  }

  // ------------------------------------------------- the line format, end to end

  /** The line the bridge firmware sends for a received packet. */
  function RecvLine(rssi: int, snr: int, payload: seq<byte>, upper: bool): string {
    RECV + " " + ShowInt(rssi) + "," + ShowInt(snr) + "," + BytesToHex(payload, upper)
  }

  lemma {:induction false} IntCharacters(n: int)
    ensures forall c :: c in ShowInt(n) ==> IsDigit(c) || c == '-'
  {
    assert forall c :: c in ShowNat(Magnitude(n)) ==> IsDigit(c);
  }

  /** The three parts of a line that has both commas. */
  lemma DecodeParts(line: string, r: string, s: string, hex: string)
    requires ',' !in r && ',' !in s && line == RECV + (r + [','] + (s + [','] + hex))
    requires Stoi(r).Some? && Stoi(s).Some? && HexToBytes(hex).Some? && HexToBytes(hex).value != []
    ensures StartsWith(line, RECV)
    ensures DecodeRecv(line)
      == Some(InsertMetrics(HexToBytes(hex).value, FloatOfInt(Stoi(r).value), FloatOfInt(Stoi(s).value)))
  {
    var afterRssi := s + [','] + hex;
    var body := r + [','] + afterRssi;
    assert line[..|RECV|] == RECV && line[|RECV|..] == body;
    FindCharAt(r, ',', afterRssi);
    FindCharAt(s, ',', hex);
    assert body[..|r|] == r && body[|r| + 1..] == afterRssi;
    assert afterRssi[..|s|] == s && afterRssi[|s| + 1..] == hex;
  }

  /** A line after its prefix: two decimal fields and a hex payload. */
  ghost predicate IsRecv(text: string, r: string, s: string, hex: string) {
    && text == r + [','] + (s + [','] + hex) && ',' !in r && ',' !in s
    && Stoi(r).Some? && Stoi(s).Some? && HexToBytes(hex).Some? && HexToBytes(hex).value != []
  }

  lemma SplitAtComma(text: string, k: nat)
    requires k < |text| && text[k] == ','
    ensures text == text[..k] + [','] + text[k + 1..]
  {
  }

  lemma PartsOfDecoded(line: string) returns (r: string, s: string, hex: string)
    requires StartsWith(line, RECV) && DecodeRecv(line).Some?
    ensures IsRecv(line[|RECV|..], r, s, hex)
  {
    var text := line[|RECV|..];
    var i := FindChar(text, ',');
    var rest := text[i + 1..];
    var j := FindChar(rest, ',');
    r, s, hex := text[..i], rest[..j], rest[j + 1..];
    SplitAtComma(text, i);
    SplitAtComma(rest, j);
  }

  /** A +RECV line carries a packet exactly when it has those three fields. */
  lemma DecodesExactly(line: string)
    requires StartsWith(line, RECV)
    ensures DecodeRecv(line).Some? <==> exists r, s, hex :: IsRecv(line[|RECV|..], r, s, hex)
  {
    if DecodeRecv(line).Some? {
      var r, s, hex := PartsOfDecoded(line);
    }
    forall r, s, hex | IsRecv(line[|RECV|..], r, s, hex)
      ensures DecodeRecv(line).Some?
    {
      assert line == RECV + line[|RECV|..];
      DecodeParts(line, r, s, hex);
    }
  }

  lemma JoinFields(r: string, s: string, hex: string)
    ensures RECV + " " + r + "," + s + "," + hex == RECV + ((" " + r) + [','] + (s + [','] + hex))
  {
  }

  /** The decimal fields read back as the integers printed. */
  lemma FieldsReadBack(rssi: int32, snr: int32)
    ensures ',' !in " " + ShowInt(rssi) && ',' !in ShowInt(snr)
    ensures Stoi(" " + ShowInt(rssi)) == Some(rssi) && Stoi(ShowInt(snr)) == Some(snr)
  {
    IntCharacters(rssi);
    IntCharacters(snr);
    StoiShowSpaced(rssi, "");
    StoiShow(snr, "");
    assert (" " + ShowInt(rssi)) + "" == " " + ShowInt(rssi) && ShowInt(snr) + "" == ShowInt(snr);
  }

  /** A packet sent over the bridge arrives as the internal frame of the raw
      transport: identifier, metrics as floats, fragments. */
  lemma {:induction false} BridgeRefinesRaw(id: byte, rssi: int32, snr: int32, frags: seq<seq<byte>>, upper: bool)
    ensures var line := RecvLine(rssi, snr, [id] + Flatten(frags), upper);
      StartsWith(line, RECV) && DecodeRecv(line) == Some(RawFrame(id, FloatOfInt(rssi), FloatOfInt(snr), frags))
  {
    var payload := [id] + Flatten(frags);
    var hex := BytesToHex(payload, upper);
    FieldsReadBack(rssi, snr);
    HexRoundTrip(payload, upper);
    JoinFields(ShowInt(rssi), ShowInt(snr), hex);
    DecodeParts(RecvLine(rssi, snr, payload, upper), " " + ShowInt(rssi), ShowInt(snr), hex);
    assert payload[1..] == Flatten(frags);
  }

  /** What the bridge says: a radio packet, a line of a command's reply, an empty
      line, or a packet line that arrives damaged. */
  datatype Said =
    | Radio(id: byte, rssi: int32, snr: int32, frags: seq<seq<byte>>)
    | Reply(text: string)
    | Blank
    | Damaged(rest: string)
  {
    ghost predicate Valid() {
      && (Reply? ==> '\r' !in text && '\n' !in text && text != "" && !StartsWith(text, RECV))
      && (Damaged? ==> '\r' !in rest && '\n' !in rest && !exists r, s, hex :: IsRecv(rest, r, s, hex))
    }

    function Line(): string {
      match this
      case Radio(id, rssi, snr, frags) => RecvLine(rssi, snr, [id] + Flatten(frags), true)
      case Reply(text) => text
      case Blank => ""
      case Damaged(rest) => RECV + rest
    }

    function Frames(): seq<seq<byte>> {
      if Radio? then [RawFrame(id, FloatOfInt(rssi), FloatOfInt(snr), frags)] else []
    }

    function Replies(): seq<string> {
      if Reply? then [text] else []
    }
  }

  function Transcript(said: seq<Said>): string {
    if said == [] then "" else said[0].Line() + "\r" + ['\n'] + Transcript(said[1..])
  }

  lemma LineCharacters(x: Said)
    requires x.Valid()
    ensures '\r' !in x.Line() && '\n' !in x.Line()
  {
    if x.Radio? {
      IntCharacters(x.rssi);
      IntCharacters(x.snr);
    }
  }

  lemma OneLine(x: Said)
    requires x.Valid()
    ensures PacketOf(x.Line() + "\r") == x.Frames() && ResponseOf(x.Line() + "\r") == x.Replies()
  {
    LineCharacters(x);
    RemoveConcat(x.Line(), "\r", '\r');
    assert Remove("\r", '\r') == "" && x.Line() + "" == x.Line();
    if x.Radio? {
      BridgeRefinesRaw(x.id, x.rssi, x.snr, x.frags, true);
    } else if x.Damaged? {
      assert (RECV + x.rest)[..|RECV|] == RECV && (RECV + x.rest)[|RECV|..] == x.rest;
      DecodesExactly(RECV + x.rest);
    }
  }

  lemma {:induction false} TranscriptYields(said: seq<Said>)
    requires forall x <- said :: x.Valid()
    ensures Packets(Lines(Transcript(said))) == FlatMap((x: Said) => x.Frames(), said)
    ensures Responses(Lines(Transcript(said))) == FlatMap((x: Said) => x.Replies(), said)
    ensures Tail(Transcript(said)) == ""
  {
    if said == [] {
      NoLines("");
    } else {
      var line := said[0].Line() + "\r";
      OneLine(said[0]);
      LineCharacters(said[0]);
      TranscriptYields(said[1..]);
      FirstLine(line, Transcript(said[1..]));
      assert ([line] + Lines(Transcript(said[1..])))[1..] == Lines(Transcript(said[1..]));
    }
  }

  /** End to end: packets interleaved with replies, empty lines and damaged lines in
      any way, and cut into reads in any way, come out as the raw frames in order and
      the replies in order, with nothing left over. */
  lemma {:induction false} DemultiplexesAnyTranscript(said: seq<Said>, chunks: seq<string>)
    requires (forall x <- said :: x.Valid()) && Flatten(chunks) == Transcript(said)
    ensures FeedAll(Yield([], [], ""), chunks)
      == Yield(FlatMap((x: Said) => x.Frames(), said), FlatMap((x: Said) => x.Replies(), said), "")
  {
    ChunkIndependence(chunks);
    FeedFromStart(Transcript(said));
    TranscriptYields(said);
  }

  /** No loss, end to end: when what a session took from the port is a transcript of
      the bridge, its packets were delivered or are queued as the raw frames sent. */
  method SessionOverTranscript(ops: seq<Op>, ghost said: seq<Said>)
    returns (delivered: seq<seq<byte>>, queued: seq<seq<byte>>, taken: seq<string>)
    requires forall x <- said :: x.Valid()
    ensures TakenBy(ops, taken)
    ensures Flatten(taken) == Transcript(said) ==> delivered + queued == FlatMap((x: Said) => x.Frames(), said)
  {
    delivered, queued, taken := Session(ops);
    TranscriptYields(said);
  }
}
