/** The sending side of tcp_interface.cpp: reconnection with backoff, and a
    filter that skips a payload equal to the last one sent within 500 ms. */
module TcpLink {
  import opened Bits

  const TCP_HEARTBEAT := 500
  const INITIAL_TCP_RETRY_BACKOFF := 250
  const MAX_TCP_RETRY_BACKOFF := 2000

  /** A payload sent whole: the filter's clock reading before the first byte, the
      time the last byte was taken, and the connection. */
  datatype Frame = Frame(start: int, end: int, payload: seq<byte>, connection: nat)

  datatype Tcp = Tcp(connected: bool, connection: nat, nextRetry: int, backoff: int,
                     lastPayload: seq<byte>, lastSendTime: int, wire: seq<Frame>)

  /** One return of ::send: some bytes taken, EINTR, or any other failure. */
  datatype SendResult = Accepted(n: nat) | Interrupted | Failed

  /** Bytes taken in all, or nothing once the connection is lost. */
  datatype SendOutcome = Sent(total: nat) | Lost

  function Min(a: int, b: int): int {
    if a <= b then a else b
  }

  function EnsureConnected(t: Tcp, now: int, connects: bool): (Tcp, bool) {
    if t.connected then (t, true)
    else if now < t.nextRetry then (t, false)
    else if connects then
      var up := t.(connected := true, connection := t.connection + 1);
      (up.(backoff := INITIAL_TCP_RETRY_BACKOFF, nextRetry := now), true)
    else (t.(nextRetry := now + t.backoff, backoff := Min(t.backoff * 2, MAX_TCP_RETRY_BACKOFF)), false)
  }

  predicate Suppressed(t: Tcp, data: seq<byte>, now: int) {
    data == t.lastPayload && now - t.lastSendTime < TCP_HEARTBEAT
  }

  /** The send loop from `total` on; a script that ends early counts as a failure. */
  function SendRest(size: nat, total: nat, script: seq<SendResult>): (o: SendOutcome)
    requires total <= size
    ensures o.Sent? ==> total <= o.total <= size
    decreases script
  {
    if total == size then Sent(total)
    else if script == [] then Lost
    else match script[0]
      case Failed => Lost
      case Interrupted => SendRest(size, total, script[1..])
      case Accepted(n) => if n == 0 then Sent(total) else SendRest(size, Min(total + n, size), script[1..])
  }

  /** Where the send loop ends at the latest: at the first failure or send that takes
      nothing, or where the script ends. */
  function Stop(script: seq<SendResult>): (k: nat)
    ensures k <= |script| && (k < |script| ==> script[k] in {Failed, Accepted(0)})
    ensures forall i :: 0 <= i < k ==> script[i] !in {Failed, Accepted(0)}
  {
    if script == [] || script[0] == Failed || script[0] == Accepted(0) then 0 else 1 + Stop(script[1..])
  }

  /** All bytes that some sends offer to take. */
  function Taken(script: seq<SendResult>): nat {
    if script == [] then 0 else (if script[0].Accepted? then script[0].n else 0) + Taken(script[1..])
  }

  /** What a send loop returns: everything, if the counts before its end add up to it;
      what was taken so far, if a send takes nothing; and a failure otherwise. */
  function Count(size: nat, script: seq<SendResult>): int {
    var stop := Stop(script);
    var taken := Taken(script[..stop]);
    if taken >= size then size
    else if stop < |script| && script[stop] == Accepted(0) then taken
    else -1
  }

  lemma OneMoreSend(script: seq<SendResult>)
    requires script != [] && script[0] != Failed && script[0] != Accepted(0)
    ensures Stop(script) == 1 + Stop(script[1..])
    ensures Taken(script[..Stop(script)])
      == (if script[0].Accepted? then script[0].n else 0) + Taken(script[1..][..Stop(script[1..])])
  {
    assert script[..Stop(script)][1..] == script[1..][..Stop(script[1..])];
  }

  /** The loop in closed form, from any point on. */
  lemma {:induction false} SendRestExact(size: nat, total: nat, script: seq<SendResult>)
    requires total <= size
    ensures var stop := Stop(script);
      var taken := total + Taken(script[..stop]);
      SendRest(size, total, script) ==
        if taken >= size then Sent(size)
        else if stop < |script| && script[stop] == Accepted(0) then Sent(taken)
        else Lost
    decreases script
  {
    if total == size || script == [] || script[0] == Failed || script[0] == Accepted(0) {
    } else {
      OneMoreSend(script);
      SendRestExact(size, if script[0].Accepted? then Min(total + script[0].n, size) else total, script[1..]);
    }
  }

  /** The sends that no signal interrupted. */
  function Uninterrupted(script: seq<SendResult>): seq<SendResult> {
    if script == [] then []
    else (if script[0].Interrupted? then [] else [script[0]]) + Uninterrupted(script[1..])
  }

  lemma {:induction false} SkipInterrupts(size: nat, total: nat, script: seq<SendResult>)
    requires total <= size
    ensures SendRest(size, total, script) == SendRest(size, total, Uninterrupted(script))
    decreases script
  {
    if script == [] {
    } else {
      var rest := Uninterrupted(script[1..]);
      assert script[0].Interrupted? ==> Uninterrupted(script) == rest;
      assert !script[0].Interrupted? ==> Uninterrupted(script)[1..] == rest;
      SkipInterrupts(size, total, script[1..]);
      if script[0].Accepted? {
        SkipInterrupts(size, Min(total + script[0].n, size), script[1..]);
      }
    }
  }

  function Transmit(t: Tcp, data: seq<byte>, now: int, done: int, script: seq<SendResult>): (Tcp, int) {
    if Suppressed(t, data, now) then (t, |data|)
    else match SendRest(|data|, 0, script)
      case Lost => (t.(connected := false), -1)
      case Sent(total) =>
        if total == |data| then
          (t.(lastPayload := data, lastSendTime := now, wire := t.wire + [Frame(now, done, data, t.connection)]), total)
        else (t, total)
  }

  /** The clock readings and the operating system's answers of one write. */
  datatype Circumstances = Circumstances(connectAt: int, now: int, done: int, connects: bool, script: seq<SendResult>) {
    predicate InOrder() {
      connectAt <= now <= done
    }
  }

  function WriteData(t: Tcp, data: seq<byte>, c: Circumstances): (Tcp, int) {
    var (u, ok) := EnsureConnected(t, c.connectAt, c.connects);
    if ok then Transmit(u, data, c.now, c.done, c.script) else (u, -1)
  }

  /** A write on the link t that returned n and left it as u. */
  predicate Wrote(t: Tcp, data: seq<byte>, c: Circumstances, u: Tcp, n: int) {
    var ready := t.connected || (c.connectAt >= t.nextRetry && c.connects);
    var skipped := data == t.lastPayload && c.now - t.lastSendTime < TCP_HEARTBEAT;
    && n == (if !ready then -1 else if skipped then |data| else Count(|data|, c.script))
    && (u.connected <==> n != -1)
    && u.wire == t.wire
                 + if ready && !skipped && n == |data| then [Frame(c.now, c.done, data, u.connection)] else []
  }

  lemma WritesExactly(t: Tcp, data: seq<byte>, c: Circumstances)
    ensures var (u, n) := WriteData(t, data, c); Wrote(t, data, c, u, n)
  {
    SendRestExact(|data|, 0, c.script);
  }

  class TcpInterface {
    var connected: bool
    var nextRetry: int
    var backoff: int
    var lastPayload: seq<byte>
    var lastSendTime: int
    ghost var connection: nat
    ghost var wire: seq<Frame>

    ghost function State(): Tcp
      reads this
    {
      Tcp(connected, connection, nextRetry, backoff, lastPayload, lastSendTime, wire)
    }

    constructor (now: int)
      ensures State() == Tcp(false, 0, now, INITIAL_TCP_RETRY_BACKOFF, [], 0, [])
    {
      connected, nextRetry, backoff, lastPayload, lastSendTime := false, now, INITIAL_TCP_RETRY_BACKOFF, [], 0;
      connection, wire := 0, [];
    }

    method EnsureConnectedOrRetry(now: int, connects: bool) returns (ok: bool)
      modifies this
      ensures (State(), ok) == EnsureConnected(old(State()), now, connects)
      ensures ok <==> old(connected) || (now >= old(nextRetry) && connects)
      ensures ok && !old(connected) ==> backoff == INITIAL_TCP_RETRY_BACKOFF && nextRetry == now
      ensures !ok ==> !connected && nextRetry == if now < old(nextRetry) then old(nextRetry) else now + old(backoff)
    {
      if connected {
        return true;
      }
      if now < nextRetry {
        return false;
      }
      if connects {
        connected := true;
        connection := connection + 1;
        backoff := INITIAL_TCP_RETRY_BACKOFF;
        nextRetry := now;
        return true;
      }
      nextRetry := now + backoff;
      backoff := Min(backoff * 2, MAX_TCP_RETRY_BACKOFF);
      return false;
    }

    /** write_data: the filter, and else the send loop, whose interrupted sends are
        repeated; only a failure loses the link, and only a whole payload is noted. */
    method Write(data: seq<byte>, c: Circumstances) returns (n: int)
      modifies this
      ensures (State(), n) == WriteData(old(State()), data, c)
      ensures Wrote(old(State()), data, c, State(), n)
    {
      WritesExactly(State(), data, c);
      var ok := EnsureConnectedOrRetry(c.connectAt, c.connects);
      if !ok {
        return -1;
      }
      var now, script := c.now, c.script;
      if data == lastPayload && now - lastSendTime < TCP_HEARTBEAT {
        return |data|;
      }
      var total, calls := 0, 0;
      while total < |data|
        invariant 0 <= total <= |data| && 0 <= calls <= |script|
        invariant SendRest(|data|, total, script[calls..]) == SendRest(|data|, 0, script)
        decreases |script| - calls
      {
        if calls == |script| {
          connected := false;
          return -1;
        }
        var result := script[calls];
        assert script[calls..][1..] == script[calls + 1..];
        calls := calls + 1;
        match result {
          case Interrupted =>
          case Failed =>
            connected := false;
            return -1;
          case Accepted(taken) =>
            if taken == 0 {
              break;
            }
            total := Min(total + taken, |data|);
        }
      }
      if total == |data| {
        lastPayload := data;
        lastSendTime := now;
        wire := wire + [Frame(now, c.done, data, connection)];
      }
      return total;
    }
  }

  // ------------------------------------------------------------------ the filter

  function LastFrame(t: Tcp): Frame
    requires t.wire != []
  {
    t.wire[|t.wire| - 1]
  }

  ghost predicate StartsSpaced(wire: seq<Frame>) {
    forall i :: 0 <= i < |wire| - 1 && wire[i].payload == wire[i + 1].payload ==>
      wire[i + 1].start - wire[i].start >= TCP_HEARTBEAT
  }

  /** The filter remembers the last frame on the wire and when it started; equal
      neighbours on the wire start a heartbeat apart; connections are counted up. */
  ghost predicate Inv(t: Tcp) {
    && (t.wire == [] ==> t.lastPayload == [])
    && (t.wire != [] ==>
          var last := LastFrame(t);
          && t.lastPayload == last.payload && t.lastSendTime == last.start
          && last.start <= last.end && last.connection <= t.connection)
    && StartsSpaced(t.wire)
  }

  lemma EnsureConnectedInv(t: Tcp, now: int, connects: bool)
    requires Inv(t)
    ensures Inv(EnsureConnected(t, now, connects).0)
    ensures EnsureConnected(t, now, connects).0.wire == t.wire
  {
  }

  /** Every write keeps the spacing of starts: an identical frame follows another
      on the wire only 500 ms after it started, across reconnections too. */
  lemma WriteInv(t: Tcp, data: seq<byte>, c: Circumstances)
    requires Inv(t) && c.InOrder()
    ensures Inv(WriteData(t, data, c).0)
    ensures t.wire <= WriteData(t, data, c).0.wire
  {
    EnsureConnectedInv(t, c.connectAt, c.connects);
  }

  /** Measured from the end of a frame to the start of its repetition, the filter
      guarantees the heartbeat exactly when sending the frame took no time: the
      clock is read before the send loop, which may block for as long as the
      socket's send timeout. */
  lemma EndToStartExact(t: Tcp)
    requires Inv(t) && t.wire != []
    ensures var last := LastFrame(t);
      last.end == last.start <==>
      forall now: int :: now >= last.end && !Suppressed(t, last.payload, now) ==> now - last.end >= TCP_HEARTBEAT
  {
    var last := LastFrame(t);
    var soonest := if last.end >= last.start + TCP_HEARTBEAT then last.end else last.start + TCP_HEARTBEAT;
    assert soonest >= last.end && !Suppressed(t, last.payload, soonest);
  }

  /** The link as initialize leaves it before the first connection. */
  function Fresh(now: int): Tcp {
    Tcp(false, 0, now, INITIAL_TCP_RETRY_BACKOFF, [], 0, [])
  }

  /** A first frame whose sending blocks for 900 ms is repeated 5 ms after its end. */
  lemma RepeatedAfterBlockedSend()
    ensures var t := WriteData(Fresh(0), [2], Circumstances(0, 0, 900, true, [Accepted(1)])).0;
      var u := WriteData(t, [2], Circumstances(905, 905, 905, true, [Accepted(1)])).0;
      && u.wire == [Frame(0, 900, [2], 1), Frame(905, 905, [2], 1)]
      && u.wire[1].start - u.wire[0].end == 5
  {
    assert SendRest(1, 0, [Accepted(1)]) == Sent(1);
  }

  /** A send that a signal interrupts is repeated: writing comes to the same without
      the interruptions. */
  lemma InterruptsDoNotMatter(t: Tcp, data: seq<byte>, c: Circumstances)
    ensures WriteData(t, data, c) == WriteData(t, data, c.(script := Uninterrupted(c.script)))
  {
    SkipInterrupts(|data|, 0, c.script);
  }

  /** On the connection in use the last whole frame is the accepted payload exactly
      when the filter did not skip it on account of an earlier connection's frame. */
  lemma AcceptedOnThisConnection(t: Tcp, data: seq<byte>, c: Circumstances)
    requires Inv(t) && data != [] && c.InOrder()
    requires WriteData(t, data, c).1 == |data|
    ensures var connected, u := EnsureConnected(t, c.connectAt, c.connects).0, WriteData(t, data, c).0;
      var stale := Suppressed(connected, data, c.now) && LastFrame(t).connection < connected.connection;
      && u.wire != [] && LastFrame(u).payload == data
      && (LastFrame(u).connection == u.connection <==> !stale)
  {
    EnsureConnectedInv(t, c.connectAt, c.connects);
  }

  /** It can fail: sent at 1000 on the first connection, which is then lost, and
      accepted at 1200 on the second without being sent there. */
  lemma SkippedAfterReconnect()
    ensures var sent := WriteData(Fresh(1000), [2], Circumstances(1000, 1000, 1000, true, [Accepted(1)])).0;
      var (u, n) := WriteData(sent.(connected := false), [2], Circumstances(1200, 1200, 1200, true, []));
      && n == 1 && u.connected && u.connection == 2
      && u.wire == sent.wire == [Frame(1000, 1000, [2], 1)]
  {
    assert SendRest(1, 0, [Accepted(1)]) == Sent(1);
  }

  // --------------------------------------------------------------- the retry pace

  /** The state after failed attempts at the given times. */
  function FailAt(t: Tcp, times: seq<int>): Tcp {
    if times == [] then t else EnsureConnected(FailAt(t, times[..|times| - 1]), times[|times| - 1], false).0
  }

  /** Every attempt comes when it is due. */
  ghost predicate Due(t: Tcp, times: seq<int>) {
    times != [] ==>
      var front := times[..|times| - 1];
      Due(t, front) && FailAt(t, front).nextRetry <= times[|times| - 1]
  }

  function Pause(k: nat): int {
    Min(INITIAL_TCP_RETRY_BACKOFF * Pow2(k), MAX_TCP_RETRY_BACKOFF)
  }

  lemma PauseDoubles(k: nat)
    ensures Pause(k + 1) == Min(2 * Pause(k), MAX_TCP_RETRY_BACKOFF)
  {
    assert Pow2(k + 1) == 2 * Pow2(k);
  }

  /** After k failures in a row the pause is 250 ms doubled k times, at most 2 s,
      and consecutive attempts were that far apart. */
  lemma {:induction false} BackoffDoubles(t: Tcp, times: seq<int>)
    requires !t.connected && t.backoff == INITIAL_TCP_RETRY_BACKOFF && Due(t, times)
    ensures var u := FailAt(t, times);
      && !u.connected && u.backoff == Pause(|times|)
      && (times != [] ==> u.nextRetry == times[|times| - 1] + Pause(|times| - 1))
    ensures |times| >= 2 ==> times[|times| - 1] - times[|times| - 2] >= Pause(|times| - 2)
  {
    if times == [] {
    } else {
      BackoffDoubles(t, times[..|times| - 1]);
      PauseDoubles(|times| - 1);
    }
  }

  /** A success starts the pauses over: when the link is lost at once, the next attempt
      is due immediately, and after k failures from there the pause has doubled k times. */
  lemma SuccessResets(t: Tcp, now: int, times: seq<int>)
    requires !t.connected && now >= t.nextRetry
    ensures var (up, ok) := EnsureConnected(t, now, true);
      var down := up.(connected := false);
      && ok && up.connected && down.nextRetry == now
      && (Due(down, times) ==> FailAt(down, times).backoff == Pause(|times|))
  {
    var down := EnsureConnected(t, now, true).0.(connected := false);
    if Due(down, times) {
      BackoffDoubles(down, times);
    }
  }
}
