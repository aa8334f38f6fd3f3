/** Mission replay of replay_engine.py: a frame limiter for each AV packet type,
    and chunked sleeping until a packet is due. Times are exact seconds. */
module Replay {
  import opened Wrappers

  datatype PacketType = AvToGcsData1 | AvToGcsData2 | Other

  datatype Packet = Packet(timestampMs: real, packetType: PacketType, id: int)

  predicate Limited(t: PacketType) {
    t != Other
  }

  function Due(p: Packet): real {
    p.timestampMs / 1000.0
  }

  /** The packets of one type, in order. */
  function Of(t: PacketType, ps: seq<Packet>): seq<Packet> {
    if ps == [] then []
    else
      var rest, p := Of(t, ps[..|ps| - 1]), ps[|ps| - 1];
      if p.packetType == t then rest + [p] else rest
  }

  /** When the k-th frame of a type has its turn, counting from zero. */
  function Turn(k: nat, interval: real): real {
    if k == 0 then 0.0 else Turn(k - 1, interval) + interval
  }

  /** Whether one more packet keeps the bound: the k-th frame of an AV type is due
      no earlier than k frame intervals in, counting from zero. */
  predicate Passes(sent: seq<Packet>, p: Packet, interval: real)
    requires interval > 0.0
  {
    Limited(p.packetType) ==> Due(p) >= Turn(|Of(p.packetType, sent)|, interval)
  }

  /** The packets the limiter lets through. */
  function Sent(ps: seq<Packet>, interval: real): seq<Packet>
    requires interval > 0.0
  {
    if ps == [] then []
    else
      var sent, p := Sent(ps[..|ps| - 1], interval), ps[|ps| - 1];
      if Passes(sent, p, interval) then sent + [p] else sent
  }

  /** Every frame of a type is due at or after its turn. */
  predicate InTurn(frames: seq<Packet>, interval: real)
    requires interval > 0.0
  {
    forall k :: 0 <= k < |frames| ==> Due(frames[k]) >= Turn(k, interval)
  }

  lemma {:induction false} LimiterKeepsTurns(ps: seq<Packet>, interval: real, t: PacketType)
    requires interval > 0.0 && Limited(t)
    ensures InTurn(Of(t, Sent(ps, interval)), interval)
  {
    if ps == [] {
    } else {
      var sent, p := Sent(ps[..|ps| - 1], interval), ps[|ps| - 1];
      LimiterKeepsTurns(ps[..|ps| - 1], interval, t);
      assert (sent + [p])[..|sent|] == sent;
    }
  }

  /** The packets a choice keeps. */
  function Chosen(ps: seq<Packet>, choice: seq<bool>): seq<Packet>
    requires |choice| == |ps|
  {
    if ps == [] then []
    else
      var n := |ps| - 1;
      Chosen(ps[..n], choice[..n]) + if choice[n] then [ps[n]] else []
  }

  lemma InTurnPrefix(a: seq<Packet>, b: seq<Packet>, interval: real)
    requires interval > 0.0 && a <= b && InTurn(b, interval)
    ensures InTurn(a, interval)
  {
    forall k | 0 <= k < |a|
      ensures Due(a[k]) >= Turn(k, interval)
    {
      assert a[k] == b[k];
    }
  }

  /** Greedy is optimal: no choice of packets that keeps the turns passes more
      frames of a type. */
  lemma {:induction false} GreedyIsOptimal(ps: seq<Packet>, choice: seq<bool>, interval: real, t: PacketType)
    requires interval > 0.0 && Limited(t) && |choice| == |ps| && InTurn(Of(t, Chosen(ps, choice)), interval)
    ensures |Of(t, Chosen(ps, choice))| <= |Of(t, Sent(ps, interval))|
  {
    if ps == [] {
    } else {
      var n := |ps| - 1;
      var mine, sent, p := Chosen(ps[..n], choice[..n]), Sent(ps[..n], interval), ps[n];
      assert (mine + [p])[..|mine|] == mine && mine + [] == mine;
      assert (sent + [p])[..|sent|] == sent;
      assert Of(t, mine) <= Of(t, Chosen(ps, choice));
      InTurnPrefix(Of(t, mine), Of(t, Chosen(ps, choice)), interval);
      GreedyIsOptimal(ps[..n], choice[..n], interval, t);
      if choice[n] && p.packetType == t && |Of(t, mine)| == |Of(t, sent)| {
        assert Of(t, Chosen(ps, choice))[|Of(t, mine)|] == p;
        assert Passes(sent, p, interval);
      }
    }
  }

  /** What is sent of a prefix is a prefix of what is sent. */
  lemma {:induction false} SentPrefix(ps: seq<Packet>, n: nat, interval: real)
    requires interval > 0.0 && n <= |ps|
    ensures Sent(ps[..n], interval) <= Sent(ps, interval)
  {
    if n < |ps| {
      SentPrefix(ps[..|ps| - 1], n, interval);
      assert ps[..|ps| - 1][..n] == ps[..n];
    } else {
      assert ps[..n] == ps;
    }
  }

  lemma {:induction false} ChosenPrefix(ps: seq<Packet>, choice: seq<bool>, n: nat, t: PacketType)
    requires |choice| == |ps| && n <= |ps|
    ensures Of(t, Chosen(ps[..n], choice[..n])) <= Of(t, Chosen(ps, choice))
  {
    if n < |ps| {
      var m := |ps| - 1;
      ChosenPrefix(ps[..m], choice[..m], n, t);
      assert ps[..m][..n] == ps[..n] && choice[..m][..n] == choice[..n];
      var mine := Chosen(ps[..m], choice[..m]);
      assert (mine + [ps[m]])[..|mine|] == mine && mine + [] == mine;
    } else {
      assert ps[..n] == ps && choice[..n] == choice;
    }
  }

  /** At every point of the mission, too. */
  lemma OptimalOnEveryPrefix(ps: seq<Packet>, choice: seq<bool>, interval: real, t: PacketType, n: nat)
    requires interval > 0.0 && Limited(t) && |choice| == |ps| && n <= |ps|
    requires InTurn(Of(t, Chosen(ps, choice)), interval)
    ensures Sent(ps[..n], interval) <= Sent(ps, interval)
    ensures |Of(t, Chosen(ps[..n], choice[..n]))| <= |Of(t, Sent(ps[..n], interval))|
  {
    SentPrefix(ps, n, interval);
    ChosenPrefix(ps, choice, n, t);
    InTurnPrefix(Of(t, Chosen(ps[..n], choice[..n])), Of(t, Chosen(ps, choice)), interval);
    GreedyIsOptimal(ps[..n], choice[..n], interval, t);
  }

  /** Packets of other types all pass. */
  lemma {:induction false} OthersPass(ps: seq<Packet>, interval: real)
    requires interval > 0.0
    ensures Of(Other, Sent(ps, interval)) == Of(Other, ps)
  {
    if ps == [] {
    } else {
      var sent, p := Sent(ps[..|ps| - 1], interval), ps[|ps| - 1];
      OthersPass(ps[..|ps| - 1], interval);
      assert (sent + [p])[..|sent|] == sent;
    }
  }

  lemma {:induction false} TurnMonotone(a: nat, b: nat, interval: real)
    requires a <= b && interval > 0.0
    ensures Turn(a, interval) <= Turn(b, interval)
  {
    if a == b {
    } else {
      TurnMonotone(a, b - 1, interval);
    }
  }

  // ------------------------------------------------- where the frame limit is kept

  /** With the interval 1 / rate, turn k is at k / rate seconds. */
  lemma {:induction false} TurnIsMultiple(k: nat, rate: real)
    requires rate > 0.0
    ensures Turn(k, 1.0 / rate) * rate == k as real
  {
    if k == 0 {
    } else {
      TurnIsMultiple(k - 1, rate);
      assert (Turn(k - 1, 1.0 / rate) + 1.0 / rate) * rate == Turn(k - 1, 1.0 / rate) * rate + 1.0;
    }
  }

  /** The frame limit: consecutive frames are at least one interval apart. */
  predicate LimitKept(frames: seq<Packet>, interval: real) {
    forall k :: 0 < k < |frames| ==> Due(frames[k]) - Due(frames[k - 1]) >= interval
  }

  /** Whatever frame of its type passes next is due at least `gap` after `last`. */
  ghost predicate NextIsApart(sent: seq<Packet>, last: Packet, gap: real, interval: real)
    requires interval > 0.0
  {
    forall p: Packet :: p.packetType == last.packetType && Due(p) >= Due(last) && Passes(sent, p, interval) ==>
      Due(p) - Due(last) >= gap
  }

  /** The earliest frame that a turn lets pass after `last`. */
  function EarliestAfter(last: Packet, turn: real): (p: Packet)
    ensures p.packetType == last.packetType && Due(p) == if Due(last) >= turn then Due(last) else turn
  {
    Packet(1000.0 * if Due(last) >= turn then Due(last) else turn, last.packetType, 0)
  }

  lemma {:induction false} OfType(t: PacketType, ps: seq<Packet>)
    ensures |Of(t, ps)| <= |ps|
    ensures forall p <- Of(t, ps) :: p in ps && p.packetType == t
  {
    if ps == [] {
    } else {
      OfType(t, ps[..|ps| - 1]);
    }
  }

  lemma ApartUntilTurn(sent: seq<Packet>, last: Packet, gap: real, interval: real)
    requires interval > 0.0 && gap > 0.0 && Limited(last.packetType)
    ensures NextIsApart(sent, last, gap, interval)
      <==> Due(last) + gap <= Turn(|Of(last.packetType, sent)|, interval)
  {
    var turn := Turn(|Of(last.packetType, sent)|, interval);
    var next := EarliestAfter(last, turn);
    assert Passes(sent, next, interval);
  }

  lemma LastIsDue(sent: seq<Packet>, t: PacketType, n: nat, interval: real)
    requires interval > 0.0 && n == |Of(t, sent)| > 0 && InTurn(Of(t, sent), interval)
    ensures Due(Of(t, sent)[n - 1]) >= Turn(n - 1, interval) == Turn(n, interval) - interval
    ensures Of(t, sent)[n - 1].packetType == t
  {
    OfType(t, sent);
    assert Of(t, sent)[n - 1] in Of(t, sent);
  }

  /** The next frame of a type is certain to be some time after the last one exactly
      when its turn is. The limiter keeps one interval exactly when the last frame was
      due at its own turn, so after any quiet time it does not. */
  lemma NextFrameIsApart(ps: seq<Packet>, sent: seq<Packet>, t: PacketType, n: nat, gap: real, interval: real)
    requires interval > 0.0 && gap > 0.0 && Limited(t)
    requires sent == Sent(ps, interval) && n == |Of(t, sent)| > 0
    ensures var last := Of(t, sent)[n - 1];
      && (NextIsApart(sent, last, gap, interval) <==> Due(last) + gap <= Turn(n, interval))
      && (NextIsApart(sent, last, interval, interval) <==> Due(last) == Turn(n - 1, interval))
  {
    LimiterKeepsTurns(ps, interval, t);
    LastIsDue(sent, t, n, interval);
    ApartUntilTurn(sent, Of(t, sent)[n - 1], gap, interval);
    ApartUntilTurn(sent, Of(t, sent)[n - 1], interval, interval);
  }

  /** Nothing is skipped exactly when the frames of both AV types are in turn. */
  lemma {:induction false} AllPass(ps: seq<Packet>, interval: real)
    requires interval > 0.0
    ensures Sent(ps, interval) == ps
      <==> InTurn(Of(AvToGcsData1, ps), interval) && InTurn(Of(AvToGcsData2, ps), interval)
  {
    LimiterKeepsTurns(ps, interval, AvToGcsData1);
    LimiterKeepsTurns(ps, interval, AvToGcsData2);
    if ps == [] {
    } else if InTurn(Of(AvToGcsData1, ps), interval) && InTurn(Of(AvToGcsData2, ps), interval) {
      var front, p := ps[..|ps| - 1], ps[|ps| - 1];
      InTurnPrefix(Of(AvToGcsData1, front), Of(AvToGcsData1, ps), interval);
      InTurnPrefix(Of(AvToGcsData2, front), Of(AvToGcsData2, ps), interval);
      AllPass(front, interval);
      if Limited(p.packetType) {
        assert Of(p.packetType, ps)[|Of(p.packetType, front)|] == p;
      }
      assert front + [p] == ps;
    }
  }

  predicate NotBefore(ps: seq<Packet>, from: real) {
    forall p <- ps :: Due(p) >= from
  }

  /** A burst of frames of one type at one time. */
  function Burst(t: PacketType, at: real, n: nat): seq<Packet> {
    seq(n, i requires 0 <= i < n => Packet(1000.0 * at, t, i))
  }

  lemma {:induction false} OfBurst(t: PacketType, at: real, n: nat)
    ensures Of(t, Burst(t, at, n)) == Burst(t, at, n) && NotBefore(Burst(t, at, n), at)
  {
    if n == 0 {
    } else {
      OfBurst(t, at, n - 1);
      assert Burst(t, at, n)[..n - 1] == Burst(t, at, n - 1);
    }
  }

  lemma LateInTurn(t: PacketType, ps: seq<Packet>, n: nat, from: real, interval: real)
    requires interval > 0.0 && |ps| <= n && NotBefore(ps, from) && (n > 0 ==> Turn(n - 1, interval) <= from)
    ensures InTurn(Of(t, ps), interval)
  {
    var frames := Of(t, ps);
    OfType(t, ps);
    forall k | 0 <= k < |frames|
      ensures Due(frames[k]) >= Turn(k, interval)
    {
      assert frames[k] in frames;
      TurnMonotone(k, n - 1, interval);
    }
  }

  /** Whether any n packets from some time on all pass. */
  ghost predicate NoneSkipped(n: nat, from: real, interval: real)
    requires interval > 0.0
  {
    forall ps: seq<Packet> :: |ps| <= n && NotBefore(ps, from) ==> Sent(ps, interval) == ps
  }

  /** The bound counts from time zero of the mission: n packets that come after some
      time all pass, however close together, exactly when n - 1 turns are over by then. */
  lemma {:induction false} BurstAfterQuiet(n: nat, from: real, interval: real)
    requires interval > 0.0
    ensures NoneSkipped(n, from, interval) <==> (n > 0 ==> Turn(n - 1, interval) <= from)
  {
    if n > 0 ==> Turn(n - 1, interval) <= from {
      forall ps: seq<Packet> | |ps| <= n && NotBefore(ps, from)
        ensures Sent(ps, interval) == ps
      {
        LateInTurn(AvToGcsData1, ps, n, from, interval);
        LateInTurn(AvToGcsData2, ps, n, from, interval);
        AllPass(ps, interval);
      }
    } else {
      var ps := Burst(AvToGcsData1, from, n);
      OfBurst(AvToGcsData1, from, n);
      LimiterKeepsTurns(ps, interval, AvToGcsData1);
      assert Due(ps[n - 1]) < Turn(n - 1, interval);
    }
  }

  lemma TurnIsOver(k: nat, from: real, rate: real)
    requires rate > 0.0
    ensures Turn(k, 1.0 / rate) <= from <==> k as real <= from * rate
  {
    TurnIsMultiple(k, rate);
    var turn := Turn(k, 1.0 / rate);
    assert (from - turn) * rate == from * rate - k as real;
  }

  /** In terms of the frame rate: all of them pass exactly when n - 1 <= from * rate. */
  lemma BurstAtRate(n: nat, from: real, rate: real)
    requires rate > 0.0 && from >= 0.0
    ensures NoneSkipped(n, from, 1.0 / rate) <==> n as real <= from * rate + 1.0
  {
    BurstAfterQuiet(n, from, 1.0 / rate);
    if n > 0 {
      TurnIsOver(n - 1, from, rate);
    }
  }

  lemma SentSnoc(ps: seq<Packet>, p: Packet, interval: real)
    requires interval > 0.0
    ensures Sent(ps + [p], interval) == Sent(ps, interval) + if Passes(Sent(ps, interval), p, interval) then [p] else []
  {
    assert (ps + [p])[..|ps|] == ps;
  }

  /** Two frames of a type due together break the limit exactly when they come at
      least one interval into the mission. */
  lemma {:induction false} PairTogether(t: PacketType, from: real, rate: real)
    requires rate > 0.0 && from >= 0.0 && Limited(t)
    ensures LimitKept(Of(t, Sent(Burst(t, from, 2), 1.0 / rate)), 1.0 / rate) <==> from * rate < 1.0
  {
    var interval, one, pair := 1.0 / rate, Burst(t, from, 1), Burst(t, from, 2);
    OfBurst(t, from, 1);
    OfBurst(t, from, 2);
    TurnIsOver(1, from, rate);
    assert Due(pair[1]) - Due(pair[0]) == 0.0;
    assert pair == one + [pair[1]];
    LateInTurn(t, one, 1, from, interval);
    AllPass(one, interval);
    SentSnoc(one, pair[1], interval);
  }

  /** The documented start of a mission, in seconds, and the configured frame rate. */
  const MISSION_START := 1400.0
  const MAX_FRAME_RATE := 30.0

  /** From the documented start on the first 42001 packets all pass, 42002 need not,
      and two frames of a type may be due together. */
  lemma FirstFramesAreNotLimited(t: PacketType)
    requires Limited(t)
    ensures NoneSkipped(42001, MISSION_START, 1.0 / MAX_FRAME_RATE)
    ensures !NoneSkipped(42002, MISSION_START, 1.0 / MAX_FRAME_RATE)
    ensures !LimitKept(Of(t, Sent(Burst(t, MISSION_START, 2), 1.0 / MAX_FRAME_RATE)), 1.0 / MAX_FRAME_RATE)
  {
    BurstAtRate(42001, MISSION_START, MAX_FRAME_RATE);
    BurstAtRate(42002, MISSION_START, MAX_FRAME_RATE);
    PairTogether(t, MISSION_START, MAX_FRAME_RATE);
  }

  // ------------------------------------------------------------------- the loops

  /** time_to_stop: a signal, once handled, is never taken back. */
  predicate Stopped(stopAt: Option<real>, clock: real) {
    stopAt.Some? && clock >= stopAt.value
  }

  lemma ChunksNeeded(wait: real, chunk: real) returns (n: nat)
    requires wait > 0.0 && chunk > 0.0
    ensures wait <= n as real * chunk
  {
    n := (wait / chunk).Floor + 1;
    assert wait / chunk <= n as real;
    assert (wait / chunk) * chunk == wait;
  }

  lemma OneChunkLess(left: nat, chunk: real, remaining: real)
    requires 0.0 < remaining <= left as real * chunk && chunk > 0.0
    ensures left > 0 && remaining - chunk <= (left - 1) as real * chunk
  {
    assert left == 0 ==> left as real * chunk == 0.0;
    assert (left - 1) as real * chunk == left as real * chunk - chunk;
  }

  /** The chunked sleep from a clock reading on. A chunk is the smaller of the buffer
      and the whole wait, so the last one may overshoot, by less than a chunk. A stop
      ends the sleep with the chunk during which it comes, and only a stop ends it
      before the wait is over. */
  method SleepChunks(clock: real, wait: real, buffer: real, stopAt: Option<real>) returns (slept: real)
    requires buffer > 0.0
    ensures wait <= 0.0 ==> slept == 0.0
    ensures wait > 0.0 ==>
      var chunk := if buffer < wait then buffer else wait;
      && chunk <= slept < wait + chunk
      && (slept < wait ==> Stopped(stopAt, clock + slept))
      && (slept > chunk ==> !Stopped(stopAt, clock + (slept - chunk)))
  {
    slept := 0.0;
    if wait > 0.0 {
      var remaining := wait;
      var chunk := if buffer < wait then buffer else wait;
      ghost var left: nat := ChunksNeeded(wait, chunk);
      while remaining > 0.0
        invariant slept + remaining == wait && remaining > -chunk
        invariant slept == 0.0 || (slept >= chunk && !Stopped(stopAt, clock + slept))
        invariant remaining <= left as real * chunk
        decreases left
      {
        OneChunkLess(left, chunk, remaining);
        slept := slept + chunk;
        remaining := remaining - chunk;
        left := left - 1;
        if Stopped(stopAt, clock + slept) {
          break;
        }
      }
    }
  }

  /** The state of the limiter after some packets: the next frame time of a type is
      one interval on from the start for each frame of it sent. */
  predicate NextFrame(next: real, start: real, t: PacketType, sent: seq<Packet>, interval: real) {
    next == start + Turn(|Of(t, sent)|, interval)
  }

  /** The next frame times of both types. */
  predicate Paced(nextAv1: real, nextAv2: real, start: real, sent: seq<Packet>, interval: real) {
    NextFrame(nextAv1, start, AvToGcsData1, sent, interval) && NextFrame(nextAv2, start, AvToGcsData2, sent, interval)
  }

  /** Skips a frame that is too soon; a frame that passes moves its type's next time. */
  method LimitFrame(packet: Packet, target: real, start: real, nextAv1: real, nextAv2: real, interval: real,
                    ghost sent: seq<Packet>)
    returns (skip: bool, nextAv1': real, nextAv2': real)
    requires interval > 0.0 && target == start + Due(packet)
    requires Paced(nextAv1, nextAv2, start, sent, interval)
    ensures skip <==> !Passes(sent, packet, interval)
    ensures Paced(nextAv1', nextAv2', start, if skip then sent else sent + [packet], interval)
  {
    nextAv1', nextAv2' := nextAv1, nextAv2;
    assert (sent + [packet])[..|sent|] == sent;
    if packet.packetType == AvToGcsData1 {
      if target < nextAv1 {
        return true, nextAv1', nextAv2';
      }
      nextAv1' := nextAv1 + interval;
    }
    if packet.packetType == AvToGcsData2 {
      if target < nextAv2 {
        return true, nextAv1', nextAv2';
      }
      nextAv2' := nextAv2 + interval;
    }
    skip := false;
  }

  predicate OnTime(at: real, ready: real, due: real, buffer: real) {
    at >= ready && at >= due && (at == ready || at < due + buffer)
  }

  method WaitUntil(clock: real, target: real, buffer: real, stopAt: Option<real>) returns (at: real)
    requires buffer > 0.0
    ensures at >= clock
    ensures !Stopped(stopAt, at) ==> OnTime(at, clock, target, buffer)
  {
    var slept := SleepChunks(clock, target - clock, buffer, stopAt);
    at := clock + slept;
  }

  /** When the k-th sending may begin: the one before is over. */
  function Ready(times: seq<real>, now: real, delays: seq<real>, k: nat): real
    requires k <= |times| <= |delays|
  {
    if k == 0 then now else times[k - 1] + delays[k - 1]
  }

  predicate SentAt(times: seq<real>, k: nat, start: real, sent: seq<Packet>, buffer: real, now: real, delays: seq<real>)
    requires k < |times| == |sent| <= |delays|
  {
    OnTime(times[k], Ready(times, now, delays, k), start + Due(sent[k]), buffer)
  }

  predicate AllOnTime(times: seq<real>, start: real, sent: seq<Packet>, buffer: real, now: real, delays: seq<real>) {
    && |times| == |sent| <= |delays|
    && forall k :: 0 <= k < |times| ==> SentAt(times, k, start, sent, buffer, now, delays)
  }

  /** What the loop knows after some packets: what was sent of them, when, and the
      clock at which the next sending may begin. */
  predicate Replayed(ps: seq<Packet>, sent: seq<Packet>, times: seq<real>, start: real, interval: real,
                     buffer: real, now: real, delays: seq<real>)
    requires interval > 0.0
  {
    sent == Sent(ps, interval) && |times| <= |ps| && AllOnTime(times, start, sent, buffer, now, delays)
  }

  lemma ReplayedSkip(ps: seq<Packet>, p: Packet, sent: seq<Packet>, times: seq<real>, start: real, interval: real,
                     buffer: real, now: real, delays: seq<real>)
    requires interval > 0.0 && Replayed(ps, sent, times, start, interval, buffer, now, delays)
    requires !Passes(sent, p, interval)
    ensures Replayed(ps + [p], sent, times, start, interval, buffer, now, delays)
  {
    assert (ps + [p])[..|ps|] == ps;
  }

  lemma SentOnTime(times: seq<real>, start: real, sent: seq<Packet>, buffer: real, now: real, delays: seq<real>,
                   p: Packet, at: real)
    requires |times| < |delays| && AllOnTime(times, start, sent, buffer, now, delays)
    requires OnTime(at, Ready(times, now, delays, |times|), start + Due(p), buffer)
    ensures AllOnTime(times + [at], start, sent + [p], buffer, now, delays)
    ensures Ready(times + [at], now, delays, |times| + 1) == at + delays[|times|]
  {
    var times', sent' := times + [at], sent + [p];
    forall k | 0 <= k < |times'|
      ensures SentAt(times', k, start, sent', buffer, now, delays)
    {
      assert k < |times| ==> SentAt(times, k, start, sent, buffer, now, delays);
    }
  }

  lemma ReplayedSend(ps: seq<Packet>, p: Packet, sent: seq<Packet>, times: seq<real>, start: real, interval: real,
                     buffer: real, now: real, delays: seq<real>, at: real)
    requires interval > 0.0 && Replayed(ps, sent, times, start, interval, buffer, now, delays)
    requires Passes(sent, p, interval) && |times| < |delays|
    requires OnTime(at, Ready(times, now, delays, |times|), start + Due(p), buffer)
    ensures Replayed(ps + [p], sent + [p], times + [at], start, interval, buffer, now, delays)
    ensures Ready(times + [at], now, delays, |times| + 1) == at + delays[|times|]
  {
    assert (ps + [p])[..|ps|] == ps;
    SentOnTime(times, start, sent, buffer, now, delays, p, at);
  }

  predicate BeforeStop(times: seq<real>, stopAt: Option<real>) {
    forall at <- times :: !Stopped(stopAt, at)
  }

  /** replay_packets. `delays` are the times that sending takes. A packet goes out no
      earlier than it is due, and less than one buffer late unless it was already
      late when its turn came. Without a stop all packets are dealt with; a stop
      leaves a rest, and nothing is sent from the stop on. */
  method ReplayPackets(packets: seq<Packet>, start: real, now: real, rate: real, buffer: real, delays: seq<real>,
                       stopAt: Option<real>)
    returns (sent: seq<Packet>, times: seq<real>, done: nat, finish: real)
    requires rate > 0.0 && buffer > 0.0 && |delays| == |packets|
    ensures done <= |packets| && sent == Sent(packets[..done], 1.0 / rate)
    ensures AllOnTime(times, start, sent, buffer, now, delays)
    ensures BeforeStop(times, stopAt)
    ensures done < |packets| ==> Stopped(stopAt, finish)
  {
    sent, times, done, finish := [], [], 0, now;
    if packets == [] || Stopped(stopAt, now) {
      return;
    }
    var interval := 1.0 / rate;
    var nextAv1, nextAv2 := start, start;
    while done < |packets|
      invariant done <= |packets|
      invariant Replayed(packets[..done], sent, times, start, interval, buffer, now, delays)
      invariant Paced(nextAv1, nextAv2, start, sent, interval)
      invariant finish == Ready(times, now, delays, |times|)
      invariant BeforeStop(times, stopAt)
    {
      if Stopped(stopAt, finish) {
        return;
      }
      var packet := packets[done];
      assert packets[..done + 1] == packets[..done] + [packet];
      var target := start + packet.timestampMs / 1000.0;
      var skip, next1, next2 := LimitFrame(packet, target, start, nextAv1, nextAv2, interval, sent);
      if skip {
        ReplayedSkip(packets[..done], packet, sent, times, start, interval, buffer, now, delays);
        nextAv1, nextAv2, done := next1, next2, done + 1;
        continue;
      }
      var at := WaitUntil(finish, target, buffer, stopAt);
      if Stopped(stopAt, at) {
        finish := at;
        return;
      }
      ReplayedSend(packets[..done], packet, sent, times, start, interval, buffer, now, delays, at);
      finish := at + delays[|times|];
      sent := sent + [packet];
      times := times + [at];
      nextAv1, nextAv2, done := next1, next2, done + 1;
    }
  }
}
