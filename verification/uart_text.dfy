/** The emulated E5 radio of test_uart_e5_interface.cpp: metrics and payload come
    as text messages, and the last payload of a read is the frame handed on. */
module UartText {
  import opened Bits
  import opened Wrappers
  import opened PayloadEncoding
  import opened Numerals
  import opened Binary32
  import opened Text
  import opened Seqs
  import opened Feather

  const CRLF := "\r\n"
  const LEN_MARK := "+TEST: LEN:"
  const RX_MARK := "+TEST: RX\""

  /** The locals of read_data that survive from message to message. */
  datatype Reader = Reader(rssi: int32, snr: int32, payload: seq<byte>)

  /** `message.substr(rssi + 5, snr - (rssi + 5) - 2)`: a negative count wraps to
      a huge one and takes the rest of the message. */
  function RssiText(message: string, rssi: nat, snr: nat): string
    requires rssi + 5 <= |message| && snr <= |message|
  {
    if snr - 2 < rssi + 5 then message[rssi + 5..] else message[rssi + 5..snr - 2]
  }

  /** A metrics message. An unreadable RSSI leaves both metrics, an unreadable
      SNR only the SNR. */
  function TakeMetrics(m: Reader, message: string): Reader {
    var rssiAt, snrAt := Find(message, "RSSI:"), Find(message, "SNR:");
    if rssiAt == -1 || snrAt == -1 then m
    else
      var rssi := Stoi(RssiText(message, rssiAt, snrAt));
      if rssi.None? then m
      else
        var snr := Stoi(message[snrAt + 4..]);
        m.(rssi := rssi.value, snr := if snr.Some? then snr.value else m.snr)
  }

  /** A payload message; an unreadable one leaves the payload, an empty one clears it. */
  function TakePayload(m: Reader, message: string): Reader
    requires Find(message, RX_MARK) != -1
  {
    var start := FindChar(message, '"');
    if start == |message| then m
    else
      var quoted := message[start + 1..];
      var end := FindChar(quoted, '"');
      if end == |quoted| then m
      else
        var data := HexToBytes(quoted[..end]);
        if data.None? then m
        else if data.value == [] then m.(payload := [])
        else m.(payload := InsertMetrics(data.value, FloatOfInt(m.rssi), FloatOfInt(m.snr)))
  }

  function Take(m: Reader, raw: string): Reader {
    var message := Remove(Remove(raw, '\r'), '\n');
    if StartsWith(message, LEN_MARK) then TakeMetrics(m, message)
    else if Find(message, RX_MARK) != -1 then TakePayload(m, message)
    else m
  }

  /** All complete messages of a text, in order. */
  function TakeAll(m: Reader, s: string): Reader
    decreases |s|
  {
    var k := Find(s, CRLF);
    if k == -1 then m else TakeAll(Take(m, s[..k]), s[k + 2..])
  }

  method ParseMetrics(rssi0: int32, snr0: int32, ghost payload: seq<byte>, message: string)
    returns (rssi: int32, snr: int32)
    ensures TakeMetrics(Reader(rssi0, snr0, payload), message) == Reader(rssi, snr, payload)
  {
    rssi, snr := rssi0, snr0;
    var rssiAt := Find(message, "RSSI:");
    var snrAt := Find(message, "SNR:");
    if rssiAt != -1 && snrAt != -1 {
      var text := RssiText(message, rssiAt, snrAt);
      var parsed := Stoi(text);
      if parsed.Some? {
        rssi := parsed.value;
        parsed := Stoi(message[snrAt + 4..]);
        if parsed.Some? {
          snr := parsed.value;
        }
      }
    }
  }

  method ParsePayload(rssi: int32, snr: int32, payload0: seq<byte>, message: string) returns (payload: seq<byte>)
    requires Find(message, RX_MARK) != -1
    ensures TakePayload(Reader(rssi, snr, payload0), message) == Reader(rssi, snr, payload)
  {
    payload := payload0;
    var start := FindChar(message, '"');
    if start == |message| {
      return;
    }
    var quoted := message[start + 1..];
    var end := FindChar(quoted, '"');
    if end == |quoted| {
      return;
    }
    var data := HexStringToBytes(quoted[..end]);
    if data.Some? {
      payload := data.value;
      if payload != [] {
        payload := InsertWords(payload, FloatOfInt(rssi), FloatOfInt(snr));
      }
    }
  }

  /** read_data on what one read of the device gave. */
  method ReadData(received: string) returns (payload: seq<byte>)
    ensures payload == TakeAll(Reader(0, 0, []), received).payload
  {
    var rssi: int32, snr: int32 := 0, 0;
    payload := [];
    var buffer := received;
    var messageEnd := Find(buffer, CRLF);
    while messageEnd != -1
      invariant messageEnd == Find(buffer, CRLF)
      invariant TakeAll(Reader(rssi, snr, payload), buffer) == TakeAll(Reader(0, 0, []), received)
      decreases |buffer|
    {
      var raw := buffer[..messageEnd];
      buffer := buffer[messageEnd + 2..];
      messageEnd := Find(buffer, CRLF);
      var message := Remove(raw, '\r');
      message := Remove(message, '\n');
      if StartsWith(message, LEN_MARK) {
        rssi, snr := ParseMetrics(rssi, snr, payload, message);
      } else if Find(message, RX_MARK) != -1 {
        payload := ParsePayload(rssi, snr, payload, message);
      }
    }
  }

  // --------------------------------------------------------------- the emulator

  /** A packet as the emulator formats it: the metrics are rounded to integers. */
  datatype Sent = Sent(id: byte, rssi: int, snr: int, frags: seq<seq<byte>>)

  function HeaderText(count: string, rssi: string, snr: string): string {
    LEN_MARK + count + ", RSSI:" + rssi + ", SNR:" + snr
  }

  function Header(x: Sent): string {
    HeaderText(ShowInt(|x.frags| + 1), ShowInt(x.rssi), ShowInt(x.snr))
  }

  function QuotedLine(hex: string): string {
    "+TEST: RX" + "\n" + "\"" + hex + "\""
  }

  function DataLine(x: Sent): string {
    QuotedLine(BytesToHex([x.id] + Flatten(x.frags), false))
  }

  /** The UART form of a packet. */
  function Format(x: Sent): string {
    Header(x) + CRLF + DataLine(x) + CRLF
  }

  function FormatAll(xs: seq<Sent>): string {
    if xs == [] then "" else Format(xs[0]) + FormatAll(xs[1..])
  }

  predicate FitsInt(n: int) {
    -0x8000_0000 <= n < 0x8000_0000
  }

  function Newer(m: (int32, int32), rssi: int, snr: int): (int32, int32) {
    if !FitsInt(rssi) then m
    else if !FitsInt(snr) then (rssi, m.1)
    else (rssi, snr)
  }

  /** The metrics the reader holds after a packet: an integer that does not fit
      in an int cannot be read, and an older value stays. */
  function Metrics(m: (int32, int32), x: Sent): (int32, int32) {
    Newer(m, x.rssi, x.snr)
  }

  function MetricsAll(m: (int32, int32), xs: seq<Sent>): (int32, int32)
    decreases |xs|
  {
    if xs == [] then m else MetricsAll(Metrics(m, xs[0]), xs[1..])
  }

  // ------------------------------------------------------------- finding markers

  lemma FindAt(a: string, p: string, b: string)
    requires p != "" && p[0] !in a
    ensures Find(a + p + b, p) == |a|
  {
    var s := a + p + b;
    assert StartsWith(s[|a|..], p);
    forall i | 0 <= i < |a|
      ensures !StartsWith(s[i..], p)
    {
      assert s[i..][0] == a[i];
    }
    FindFirst(s, p);
    assert Find(s, p) >= |a|;
  }

  predicate NoPair(s: string, c: char, d: char) {
    forall i :: 0 <= i < |s| - 1 ==> !(s[i] == c && s[i + 1] == d)
  }

  lemma NoPairConcat(a: string, b: string, c: char, d: char)
    requires NoPair(a, c, d) && NoPair(b, c, d) && (a == "" || a[|a| - 1] != c)
    ensures NoPair(a + b, c, d)
  {
    var s := a + b;
    forall i | 0 <= i < |s| - 1
      ensures !(s[i] == c && s[i + 1] == d)
    {
      if i < |a| - 1 {
        assert s[i] == a[i] && s[i + 1] == a[i + 1];
      } else if i == |a| - 1 {
        assert s[i] == a[|a| - 1];
      } else {
        assert s[i] == b[i - |a|] && s[i + 1] == b[i + 1 - |a|];
      }
    }
  }

  /** A marker may start inside the text before it only with its first two characters. */
  lemma FindAtPair(a: string, p: string, b: string)
    requires |p| >= 2 && NoPair(a + p[..1], p[0], p[1])
    ensures Find(a + p + b, p) == |a|
  {
    var s, t := a + p + b, a + p[..1];
    assert StartsWith(s[|a|..], p);
    forall i | 0 <= i < |a|
      ensures !StartsWith(s[i..], p)
    {
      assert s[i..][0] == t[i] && s[i..][1] == t[i + 1];
      assert !(t[i] == p[0] && t[i + 1] == p[1]);
    }
    FindFirst(s, p);
    assert Find(s, p) >= |a|;
  }

  // ----------------------------------------------------------- reading one packet

  lemma RssiMark(count: string, rssi: string, snr: string)
    requires 'R' !in count
    ensures Find(HeaderText(count, rssi, snr), "RSSI:") == |count| + 13
  {
    var a, b := LEN_MARK + count + ", ", rssi + ", SNR:" + snr;
    assert HeaderText(count, rssi, snr) == a + "RSSI:" + b;
    FindAt(a, "RSSI:", b);
  }

  lemma NoSnrBefore(count: string, rssi: string)
    requires 'S' !in count && 'S' !in rssi
    ensures NoPair(LEN_MARK + count + ", RSSI:" + rssi + ", S", 'S', 'N')
  {
    var a := LEN_MARK + count;
    var b := a + ", RSSI:";
    NoPairConcat(LEN_MARK, count, 'S', 'N');
    NoPairConcat(a, ", RSSI:", 'S', 'N');
    NoPairConcat(b, rssi, 'S', 'N');
    NoPairConcat(b + rssi, ", S", 'S', 'N');
  }

  lemma SnrMark(count: string, rssi: string, snr: string)
    requires 'S' !in count && 'S' !in rssi
    ensures Find(HeaderText(count, rssi, snr), "SNR:") == |count| + |rssi| + 20
  {
    var a := LEN_MARK + count + ", RSSI:" + rssi;
    NoSnrBefore(count, rssi);
    assert (a + ", ") + "SNR:"[..1] == a + ", S";
    assert HeaderText(count, rssi, snr) == (a + ", ") + "SNR:" + snr;
    FindAtPair(a + ", ", "SNR:", snr);
  }

  lemma MetricTexts(count: string, rssi: string, snr: string)
    ensures RssiText(HeaderText(count, rssi, snr), |count| + 13, |count| + |rssi| + 20) == rssi
    ensures HeaderText(count, rssi, snr)[|count| + |rssi| + 20 + 4..] == snr
  {
    var h := HeaderText(count, rssi, snr);
    var a := LEN_MARK + count + ", RSSI:";
    assert h == a + rssi + ", SNR:" + snr && |a| == |count| + 18;
    assert h[|a|..|a| + |rssi|] == rssi;
  }

  lemma HeaderCharacters(x: Sent)
    ensures '\r' !in Header(x) && '\n' !in Header(x) && StartsWith(Header(x), LEN_MARK)
  {
    IntCharacters(|x.frags| + 1);
    IntCharacters(x.rssi);
    IntCharacters(x.snr);
  }

  /** Where the metrics of a message are, and what they are as text. */
  predicate MetricsAt(h: string, rssiAt: nat, snrAt: nat, rssi: string, snr: string) {
    && rssiAt + 5 <= |h| && snrAt + 4 <= |h|
    && Find(h, "RSSI:") == rssiAt && Find(h, "SNR:") == snrAt
    && RssiText(h, rssiAt, snrAt) == rssi && h[snrAt + 4..] == snr
  }

  lemma HeaderParts(count: string, rssi: string, snr: string)
    requires 'R' !in count && 'S' !in count && 'S' !in rssi
    ensures MetricsAt(HeaderText(count, rssi, snr), |count| + 13, |count| + |rssi| + 20, rssi, snr)
  {
    RssiMark(count, rssi, snr);
    SnrMark(count, rssi, snr);
    MetricTexts(count, rssi, snr);
  }

  lemma TextMetrics(m: Reader, h: string, rssiAt: nat, snrAt: nat, rssi: int, snr: int)
    requires MetricsAt(h, rssiAt, snrAt, ShowInt(rssi), ShowInt(snr))
    ensures var k := Newer((m.rssi, m.snr), rssi, snr); TakeMetrics(m, h) == m.(rssi := k.0, snr := k.1)
  {
    StoiOfShown(rssi);
    StoiOfShown(snr);
  }

  lemma HeaderMetrics(m: Reader, x: Sent)
    ensures var k := Metrics((m.rssi, m.snr), x); TakeMetrics(m, Header(x)) == m.(rssi := k.0, snr := k.1)
  {
    var count, rssi := ShowInt(|x.frags| + 1), ShowInt(x.rssi);
    IntCharacters(|x.frags| + 1);
    IntCharacters(x.rssi);
    HeaderParts(count, rssi, ShowInt(x.snr));
    TextMetrics(m, Header(x), |count| + 13, |count| + |rssi| + 20, x.rssi, x.snr);
  }

  lemma TakeHeader(m: Reader, x: Sent)
    ensures '\r' !in Header(x)
    ensures var k := Metrics((m.rssi, m.snr), x); Take(m, Header(x)) == m.(rssi := k.0, snr := k.1)
  {
    HeaderCharacters(x);
    HeaderMetrics(m, x);
  }

  lemma CleanDataLine(hex: string)
    requires forall i :: 0 <= i < |hex| ==> hex[i] != '\r' && hex[i] != '\n' && hex[i] != '"'
    ensures var raw := "+TEST: RX" + "\n" + "\"" + hex + "\"";
      '\r' !in raw && Remove(Remove(raw, '\r'), '\n') == "+TEST: RX" + ['"'] + (hex + ['"'] + "")
  {
    var raw := "+TEST: RX" + "\n" + "\"" + hex + "\"";
    var rest := ['"'] + (hex + ['"'] + "");
    assert raw == "+TEST: RX" + ['\n'] + rest;
    RemoveOne("+TEST: RX", '\n', rest);
    Associative("+TEST: RX", ['"'], hex + ['"'] + "");
  }

  /** Its text once the control characters are gone. */
  function Quoted(hex: string): string {
    "+TEST: RX" + ['"'] + (hex + ['"'] + "")
  }

  lemma TakesPayload(m: Reader, hex: string)
    requires forall i :: 0 <= i < |hex| ==> hex[i] != '\r' && hex[i] != '\n' && hex[i] != '"'
    ensures '\r' !in QuotedLine(hex)
    ensures Find(Quoted(hex), RX_MARK) != -1 && Take(m, QuotedLine(hex)) == TakePayload(m, Quoted(hex))
  {
    var message := Quoted(hex);
    CleanDataLine(hex);
    assert message[7] == 'R' && LEN_MARK[7] == 'L';
    assert StartsWith(message, RX_MARK);
  }

  lemma QuotedParts(hex: string)
    requires '"' !in hex
    ensures FindChar(Quoted(hex), '"') == 9 && Quoted(hex)[10..] == hex + ['"'] + ""
    ensures FindChar(hex + ['"'] + "", '"') == |hex| && (hex + ['"'] + "")[..|hex|] == hex
  {
    FindCharAt("+TEST: RX", '"', hex + ['"'] + "");
    FindCharAt(hex, '"', "");
  }

  lemma BytesOfHex(hex: string)
    ensures HexToBytes(hex).Some? ==> (HexToBytes(hex).value == [] <==> hex == "")
  {
  }

  /** A payload message between quotes: one that cannot be read leaves the payload of
      the message before, and an empty one takes it away. */
  lemma TakeQuoted(m: Reader, hex: string)
    requires forall i :: 0 <= i < |hex| ==> hex[i] != '\r' && hex[i] != '\n' && hex[i] != '"'
    ensures '\r' !in QuotedLine(hex)
    ensures HexToBytes(hex).None? ==> Take(m, QuotedLine(hex)) == m
    ensures hex == "" ==> Take(m, QuotedLine(hex)) == m.(payload := [])
    ensures HexToBytes(hex).Some? && hex != "" ==>
      && HexToBytes(hex).value != []
      && Take(m, QuotedLine(hex))
         == m.(payload := InsertMetrics(HexToBytes(hex).value, FloatOfInt(m.rssi), FloatOfInt(m.snr)))
  {
    TakesPayload(m, hex);
    QuotedParts(hex);
    BytesOfHex(hex);
  }

  lemma TakeData(m: Reader, x: Sent)
    ensures '\r' !in DataLine(x)
    ensures Take(m, DataLine(x)) == m.(payload := RawFrame(x.id, FloatOfInt(m.rssi), FloatOfInt(m.snr), x.frags))
  {
    var data := [x.id] + Flatten(x.frags);
    TakeQuoted(m, BytesToHex(data, false));
    HexRoundTrip(data, false);
    assert data[1..] == Flatten(x.frags);
  }

  lemma FirstMessage(m: Reader, message: string, rest: string)
    requires '\r' !in message
    ensures TakeAll(m, message + CRLF + rest) == TakeAll(Take(m, message), rest)
  {
    var s := message + CRLF + rest;
    FindAt(message, CRLF, rest);
    assert s[..|message|] == message && s[|message| + 2..] == rest;
  }

  /** The reader after one packet: the metrics it could read and the frame. */
  function After(m: Reader, x: Sent): Reader {
    var k := Metrics((m.rssi, m.snr), x);
    Reader(k.0, k.1, RawFrame(x.id, FloatOfInt(k.0), FloatOfInt(k.1), x.frags))
  }

  lemma JoinMessages(a: string, b: string, rest: string)
    ensures (a + CRLF + b + CRLF) + rest == a + CRLF + (b + CRLF + rest)
  {
  }

  lemma TakeFormatted(m: Reader, x: Sent, rest: string)
    ensures TakeAll(m, Format(x) + rest) == TakeAll(After(m, x), rest)
  {
    var tail := DataLine(x) + CRLF + rest;
    TakeHeader(m, x);
    TakeData(Take(m, Header(x)), x);
    FirstMessage(m, Header(x), tail);
    FirstMessage(Take(m, Header(x)), DataLine(x), rest);
    JoinMessages(Header(x), DataLine(x), rest);
  }

  // -------------------------------------------------------------------- refinement

  /** The frame the last packet of a read would have on the raw transport, with
      given metric words. */
  function LastFrame(xs: seq<Sent>, rssi: uint32, snr: uint32): seq<byte>
    requires xs != []
  {
    RawFrame(xs[|xs| - 1].id, rssi, snr, xs[|xs| - 1].frags)
  }

  /** Any concatenation of formatted packets reads as the raw frame of the last
      one, with the metrics the reader could read. */
  lemma {:induction false} ReadsLastPacket(m: Reader, xs: seq<Sent>)
    requires xs != []
    ensures var r, k := TakeAll(m, FormatAll(xs)), MetricsAll((m.rssi, m.snr), xs);
      (r.rssi, r.snr) == k && r.payload == LastFrame(xs, FloatOfInt(k.0), FloatOfInt(k.1))
    decreases |xs|
  {
    TakeFormatted(m, xs[0], FormatAll(xs[1..]));
    if |xs| == 1 {
      assert Find("", CRLF) == -1;
      assert MetricsAll(Metrics((m.rssi, m.snr), xs[0]), []) == Metrics((m.rssi, m.snr), xs[0]);
    } else {
      ReadsLastPacket(After(m, xs[0]), xs[1..]);
    }
  }

  lemma {:induction false} TakePackets(m: Reader, xs: seq<Sent>, rest: string)
    ensures TakeAll(m, FormatAll(xs) + rest) == TakeAll(TakeAll(m, FormatAll(xs)), rest)
    decreases |xs|
  {
    if xs == [] {
      assert "" + rest == rest && Find("", CRLF) == -1;
    } else {
      TakeFormatted(m, xs[0], FormatAll(xs[1..]));
      TakeFormatted(m, xs[0], FormatAll(xs[1..]) + rest);
      Associative(Format(xs[0]), FormatAll(xs[1..]), rest);
      TakePackets(After(m, xs[0]), xs[1..], rest);
    }
  }

  /** A damaged payload message behind some packets does not displace the last of
      them; one that carries nothing does. */
  lemma {:induction false} DamagedMessageIsIgnored(xs: seq<Sent>, hex: string)
    requires forall i :: 0 <= i < |hex| ==> hex[i] != '\r' && hex[i] != '\n' && hex[i] != '"'
    ensures var r := TakeAll(Reader(0, 0, []), FormatAll(xs));
      var s := TakeAll(Reader(0, 0, []), FormatAll(xs) + (QuotedLine(hex) + CRLF));
      && (HexToBytes(hex).None? ==> s == r)
      && (hex == "" ==> s == r.(payload := []))
  {
    var r := TakeAll(Reader(0, 0, []), FormatAll(xs));
    var line := QuotedLine(hex);
    TakePackets(Reader(0, 0, []), xs, line + CRLF);
    TakeQuoted(r, hex);
    FirstMessage(r, line, "");
    NothingMore(line + CRLF);
    assert Find("", CRLF) == -1;
  }

  lemma WordInjective(a: uint32, b: uint32)
    requires BigEndian(a, 4) == BigEndian(b, 4)
    ensures a == b
  {
    BitsOfBigEndian(a, 4);
    BitsOfBigEndian(b, 4);
    PowValues();
    FromToBits(a, 32);
    FromToBits(b, 32);
  }

  lemma FrameInjective(id: byte, r1: uint32, s1: uint32, r2: uint32, s2: uint32, frags: seq<seq<byte>>)
    requires RawFrame(id, r1, s1, frags) == RawFrame(id, r2, s2, frags)
    ensures r1 == r2 && s1 == s2
  {
    var one, two := RawFrame(id, r1, s1, frags), RawFrame(id, r2, s2, frags);
    assert one[1..5] == BigEndian(r1, 4) && one[5..9] == BigEndian(s1, 4);
    assert two[1..5] == BigEndian(r2, 4) && two[5..9] == BigEndian(s2, 4);
    WordInjective(r1, r2);
    WordInjective(s1, s2);
  }

  /** A read of the formatted packets gives, byte for byte, the raw frame of the last. */
  predicate ReadsRaw(xs: seq<Sent>, rssi: uint32, snr: uint32)
    requires xs != []
  {
    TakeAll(Reader(0, 0, []), FormatAll(xs)).payload == LastFrame(xs, rssi, snr)
  }

  /** The newest RSSI that fits in an int, or zero. */
  function NewestRssi(xs: seq<Sent>): int32 {
    if xs == [] then 0
    else if FitsInt(xs[|xs| - 1].rssi) then xs[|xs| - 1].rssi
    else NewestRssi(xs[..|xs| - 1])
  }

  /** The SNR of the newest packet whose metrics both fit in an int, or zero: an
      RSSI that does not fit ends the parsing before the SNR. */
  function NewestSnr(xs: seq<Sent>): int32 {
    if xs == [] then 0
    else if FitsInt(xs[|xs| - 1].rssi) && FitsInt(xs[|xs| - 1].snr) then xs[|xs| - 1].snr
    else NewestSnr(xs[..|xs| - 1])
  }

  lemma {:induction false} MetricsSnoc(m: (int32, int32), xs: seq<Sent>, x: Sent)
    ensures MetricsAll(m, xs + [x]) == Metrics(MetricsAll(m, xs), x)
    decreases |xs|
  {
    if xs == [] {
      assert [x][1..] == [] && xs + [x] == [x];
    } else {
      MetricsSnoc(Metrics(m, xs[0]), xs[1..], x);
      assert (xs + [x])[1..] == xs[1..] + [x];
    }
  }

  lemma {:induction false} NewestMetrics(xs: seq<Sent>)
    ensures MetricsAll((0, 0), xs) == (NewestRssi(xs), NewestSnr(xs))
  {
    if xs == [] {
    } else {
      var front, x := xs[..|xs| - 1], xs[|xs| - 1];
      NewestMetrics(front);
      MetricsSnoc((0, 0), front, x);
      assert front + [x] == xs;
    }
  }

  /** When a metric sent as an integer, with a float word that denotes it, arrives as
      that word although the reader holds the integer `kept`. One that fits in an int
      does if the number kept rounds to it; one that does not fit only if it is 2^31
      and the number kept is one of the 64 largest ints. Negative zero never does. */
  predicate ComesBack(kept: int32, sent: int, word: uint32) {
    && word != 0x8000_0000
    && if FitsInt(sent) then Rounded(kept) == sent else sent == 0x8000_0000 && kept >= 0x7FFF_FFC0
  }

  lemma WordComesBack(kept: int32, sent: int, word: uint32)
    requires Denotes(word, sent)
    ensures FloatOfInt(kept) == word <==> ComesBack(kept, sent, word)
  {
    CastReturns(kept, word, sent);
    RoundedOutOfRange(kept);
  }

  lemma ExactComesBack(n: int32, word: uint32)
    requires Denotes(word, n)
    ensures Rounded(n) == n
  {
    CastIsExact(word, n);
    CastRounds(n);
    OneDenotation(FloatOfInt(n), n, Rounded(n));
  }

  lemma CastAgrees(kept: int32, word: uint32)
    ensures FloatOfInt(kept) == word <==> Denotes(word, Rounded(kept)) && word != 0x8000_0000
  {
    CastRounds(kept);
    if Denotes(word, Rounded(kept)) {
      CastReturns(kept, word, Rounded(kept));
    } else {
      assert FloatOfInt(kept) != word;
    }
    CastNotNegativeZero(kept);
  }

  lemma ReadsByMetrics(xs: seq<Sent>, rssi: uint32, snr: uint32)
    requires xs != []
    ensures ReadsRaw(xs, rssi, snr) <==> FloatOfInt(NewestRssi(xs)) == rssi && FloatOfInt(NewestSnr(xs)) == snr
  {
    var last, r, s := xs[|xs| - 1], FloatOfInt(NewestRssi(xs)), FloatOfInt(NewestSnr(xs));
    ReadsLastPacket(Reader(0, 0, []), xs);
    NewestMetrics(xs);
    if LastFrame(xs, r, s) == LastFrame(xs, rssi, snr) {
      FrameInjective(last.id, r, s, rssi, snr, last.frags);
    }
  }

  /** For any metric words, whatever was printed: the frames agree exactly when each
      word denotes the number its cast rounds to and is not negative zero. A word that
      denotes no integer never agrees. */
  lemma WordsThatAgree(xs: seq<Sent>, rssi: uint32, snr: uint32)
    requires xs != []
    ensures ReadsRaw(xs, rssi, snr)
      <==> Denotes(rssi, Rounded(NewestRssi(xs))) && rssi != 0x8000_0000
           && Denotes(snr, Rounded(NewestSnr(xs))) && snr != 0x8000_0000
    ensures (forall n :: !Denotes(rssi, n)) || (forall n :: !Denotes(snr, n)) ==> !ReadsRaw(xs, rssi, snr)
  {
    ReadsByMetrics(xs, rssi, snr);
    CastAgrees(NewestRssi(xs), rssi);
    CastAgrees(NewestSnr(xs), snr);
  }

  /** The text transport against the raw one, for metrics whose float words denote
      the integers printed. The frames agree exactly when both metrics come back; for
      metrics in int range, exactly when neither word is negative zero. */
  lemma {:induction false} TextRefinesRaw(xs: seq<Sent>, rssi: uint32, snr: uint32)
    requires xs != [] && Denotes(rssi, xs[|xs| - 1].rssi) && Denotes(snr, xs[|xs| - 1].snr)
    ensures var last := xs[|xs| - 1];
      && (ReadsRaw(xs, rssi, snr)
          <==> ComesBack(NewestRssi(xs), last.rssi, rssi) && ComesBack(NewestSnr(xs), last.snr, snr))
      && (FitsInt(last.rssi) && FitsInt(last.snr) ==>
            (ReadsRaw(xs, rssi, snr) <==> rssi != 0x8000_0000 && snr != 0x8000_0000))
  {
    var last := xs[|xs| - 1];
    ReadsByMetrics(xs, rssi, snr);
    WordComesBack(NewestRssi(xs), last.rssi, rssi);
    WordComesBack(NewestSnr(xs), last.snr, snr);
    if FitsInt(last.rssi) && FitsInt(last.snr) {
      ExactComesBack(last.rssi, rssi);
      ExactComesBack(last.snr, snr);
    }
  }

  /** A packet sent with an RSSI of negative zero arrives with positive zero. */
  lemma NegativeZeroIsLost()
    ensures Denotes(0x8000_0000, 0) && !ReadsRaw([Sent(3, 0, 0, [])], 0x8000_0000, 0)
    ensures Denotes(0, 0) && ReadsRaw([Sent(3, 0, 0, [])], 0, 0)
  {
    BothZeros();
    TextRefinesRaw([Sent(3, 0, 0, [])], 0x8000_0000, 0);
    TextRefinesRaw([Sent(3, 0, 0, [])], 0, 0);
  }

  /** An RSSI of 2^31, exact as a float, is not an int: zero arrives in its place. */
  lemma {:induction false} LargeMetricIsLost()
    ensures !FitsInt(0x8000_0000)
    ensures TakeAll(Reader(0, 0, []), FormatAll([Sent(3, 0x8000_0000, 0, [])])).payload == RawFrame(3, 0, 0, [])
  {
    var x := Sent(3, 0x8000_0000, 0, []);
    ReadsLastPacket(Reader(0, 0, []), [x]);
    assert MetricsAll((0, 0), [x]) == MetricsAll((0, 0), []);
  }
}
