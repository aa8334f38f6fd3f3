/** The lock and the launch sequence shared by the command loop and the radio
    reader: av_sequence_lock.cpp, av_sequence.cpp, packet_handling.cpp.
    The mutex is one bit; either thread may clear it, clear or not. */
module AvSequencing {
  import opened Wrappers
  import opened Bits
  import opened PayloadParsing
  import opened Seqs

  const SEQUENCE_LOCK_TIMEOUT := 1000
  const SEQUENCE_BUSY_WAIT := 10

  // ------------------------------------------------------------ atomic lock steps

  datatype LockState = LockState(held: bool, flag: bool, stamp: int) {
    function TakeMutex(): LockState { this.(held := true) }
    function RaiseFlag(): LockState { this.(flag := true) }
    function StampTime(now: int): LockState { this.(stamp := now) }
    function ClearFlag(): LockState { this.(flag := false) }
    function ReleaseMutex(): LockState { this.(held := false) }
    predicate TimedOut(now: int) { now - stamp > SEQUENCE_LOCK_TIMEOUT }
    /** unlock_if_timed_out_ when nothing interferes. */
    predicate OpensAt(now: int) { !flag || TimedOut(now) }
  }

  class AvSequenceLock {
    var held: bool
    var flag: bool
    var stamp: int

    function State(): LockState
      reads this
    {
      LockState(held, flag, stamp)
    }

    constructor (earliest: int)
      ensures State() == LockState(false, false, earliest)
    {
      held, flag, stamp := false, false, earliest;
    }

    /** Blocks while the mutex is held. `released(k)` says whether the other thread
        has released it by moment k; a call that could block for ever is excluded. */
    method Lock(now: int, released: nat -> bool)
      requires held ==> exists k: nat :: released(k)
      modifies this
      ensures State() == old(State()).TakeMutex().RaiseFlag().StampTime(now)
    {
      ghost var last: nat :| held ==> released(last);
      var k: nat := 0;
      while held
        invariant held ==> k <= last
        invariant flag == old(flag) && stamp == old(stamp)
        decreases if held then last - k + 1 else 0
      {
        held := !released(k);
        k := k + 1;
      }
      held := true;
      flag := true;
      stamp := now;
    }

    method Unlock()
      modifies this
      ensures State() == old(State()).ClearFlag().ReleaseMutex()
    {
      flag := false;
      held := false;
    }

    /** Despite the name of its caller is_locked(), true means open. */
    method UnlockIfTimedOut(now: int) returns (open: bool)
      modifies this
      ensures open == old(State()).OpensAt(now)
      ensures State() == if old(flag) && open then old(State()).ClearFlag().ReleaseMutex() else old(State())
    {
      if !flag {
        return true;
      }
      if now - stamp > SEQUENCE_LOCK_TIMEOUT {
        Unlock();
        return true;
      }
      return false;
    }
  }

  // ------------------------------------------------------------- launch sequence

  datatype SequenceState =
    | LoopPreLaunch | LoopIgnition | OnceAvDeterminingLaunch
    | LoopBurn | LoopApogee | LoopLanded

  datatype Progress = Progress(state: SequenceState, startBroadcast: bool, broadcastReceived: bool)

  predicate InFlight(f: FlightState) {
    f.Launch? || f.Coast? || f.Apogee? || f.Descent? || f.Landed?
  }

  /** The two stores of post_process_av after it has dropped the lock. */
  function NoteLaunch(p: Progress, f: FlightState): Progress {
    if f.Launch? then p.(state := OnceAvDeterminingLaunch) else p
  }

  function NoteFlight(p: Progress, f: FlightState): Progress {
    if InFlight(f) then p.(startBroadcast := true) else p
  }

  /** A parsed avionics packet, or one whose parsing failed. Only AV data 1
      carries an acknowledgement of the broadcast command. */
  datatype Packet = Garbage | Parsed(flight: FlightState, acknowledged: bool)

  function Handle(p: Progress, packet: Packet): Progress {
    match packet
    case Garbage => p
    case Parsed(flight, acknowledged) =>
      var noted := NoteFlight(NoteLaunch(p, flight), flight);
      if acknowledged then noted.(broadcastReceived := true, state := LoopBurn) else noted
  }

  function HandleAll(p: Progress, packets: seq<Packet>): Progress {
    if packets == [] then p else Handle(HandleAll(p, packets[..|packets| - 1]), packets[|packets| - 1])
  }

  /** The progress after batches of packets. */
  function ProgressAfter(p: Progress, batches: seq<seq<Packet>>): Progress {
    if batches == [] then p else HandleAll(ProgressAfter(p, batches[..|batches| - 1]), batches[|batches| - 1])
  }

  /** Whether the AV switch of the main loop waits for an answer in a state. */
  predicate WaitsIn(q: SequenceState) {
    q.LoopPreLaunch? || q.OnceAvDeterminingLaunch?
  }

  /** create_GCS_TO_AV_data: fixed bits 101, 010 and 1111 around the camera bit and
      its complement, and 0xAA while broadcasting. */
  function CommandFrame(broadcast: bool, cameraPower: bool): (s: seq<byte>)
    ensures |s| == 4 && s[0] == 1
    ensures s[1] as int + s[2] as int == 255
    ensures s[1] / 32 == 5 && s[1] % 16 == 0 && (s[1] / 16 % 2 == 1 <==> cameraPower)
    ensures s[2] / 32 == 2 && s[2] % 16 == 15 && (s[2] / 16 % 2 == 1 <==> !cameraPower)
    ensures s[3] == if broadcast then 0xAA else 0
  {
    [1, 0xA0 + (if cameraPower then 16 else 0), 0x4F + (if cameraPower then 0 else 16), if broadcast then 0xAA else 0]
  }

  /** The frame a turn writes: always in the states that wait, and in the others
      only while broadcasting. */
  function TurnFrame(p: Progress, cameraPower: bool): Option<seq<byte>> {
    var broadcast := p.startBroadcast && !p.broadcastReceived;
    if WaitsIn(p.state) || broadcast then Some(CommandFrame(broadcast, cameraPower)) else None
  }

  // ------------------------------------------------ frames in terms of packets heard

  predicate Acknowledged(heard: seq<Packet>) {
    exists q <- heard :: q.Parsed? && q.acknowledged
  }

  /** A packet that says the rocket has left the ground. */
  predicate Flown(heard: seq<Packet>) {
    exists q <- heard :: q.Parsed? && q.flight in {Launch, Coast, Apogee, Descent, Landed}
  }

  predicate LastLaunchAt(heard: seq<Packet>, n: nat)
    requires n < |heard|
  {
    heard[n] == Parsed(Launch, false) && !Acknowledged(heard[n..])
  }

  /** The last packet that moves the sequence says launch: none after it
      acknowledges, nor does it itself. */
  predicate LaunchIsLast(heard: seq<Packet>) {
    exists n :: 0 <= n < |heard| && LastLaunchAt(heard, n)
  }

  /** The frame due after some packets: it broadcasts from the first flight packet
      until the first acknowledgement, and there is one while broadcasting and in the
      two states that wait, the launch pad's until an acknowledgement and the one that
      an unacknowledged launch packet leads to. */
  predicate CalledFor(p: Progress, heard: seq<Packet>, frame: Option<seq<byte>>) {
    var broadcasts := (p.startBroadcast || Flown(heard)) && !(p.broadcastReceived || Acknowledged(heard));
    var waits := LaunchIsLast(heard)
      || (!Acknowledged(heard) && p.state in {LoopPreLaunch, OnceAvDeterminingLaunch});
    && (frame.Some? <==> broadcasts || waits)
    && (frame.Some? ==> |frame.value| == 4 && frame.value[3] == if broadcasts then 0xAA else 0)
  }

  lemma HeardOneMore(front: seq<Packet>, q: Packet)
    ensures Acknowledged(front + [q]) <==> Acknowledged(front) || (q.Parsed? && q.acknowledged)
    ensures Flown(front + [q]) <==>
      Flown(front) || (q.Parsed? && q.flight in {Launch, Coast, Apogee, Descent, Landed})
  {
    assert forall x :: x in front + [q] <==> x in front || x == q;
  }

  lemma LaunchOneMore(front: seq<Packet>, q: Packet)
    ensures LaunchIsLast(front + [q]) <==>
      q == Parsed(Launch, false) || (LaunchIsLast(front) && !(q.Parsed? && q.acknowledged))
  {
    var all := front + [q];
    forall n | 0 <= n < |front|
      ensures all[n] == front[n]
      ensures Acknowledged(all[n..]) <==> Acknowledged(front[n..]) || (q.Parsed? && q.acknowledged)
    {
      assert all[n..] == front[n..] + [q];
      HeardOneMore(front[n..], q);
    }
    assert all[|front|] == q && all[|front|..] == [] + [q];
    HeardOneMore([], q);
    assert LastLaunchAt(all, |front|) <==> q == Parsed(Launch, false);
    assert forall n :: 0 <= n < |front| ==>
      (LastLaunchAt(all, n) <==> LastLaunchAt(front, n) && !(q.Parsed? && q.acknowledged));
  }

  /** What one packet makes of the progress: flight states start the broadcast, an
      acknowledgement ends it, and launch leads to a state that waits. */
  lemma PacketHeard(p: Progress, q: Packet)
    ensures var r := Handle(p, q);
      && (r.startBroadcast <==>
            p.startBroadcast || (q.Parsed? && q.flight in {Launch, Coast, Apogee, Descent, Landed}))
      && (r.broadcastReceived <==> p.broadcastReceived || (q.Parsed? && q.acknowledged))
      && (WaitsIn(r.state) <==> q == Parsed(Launch, false) || (WaitsIn(p.state) && !(q.Parsed? && q.acknowledged)))
  {
  }

  /** What the packets heard make of the progress. */
  lemma {:induction false} ProgressHeard(p: Progress, heard: seq<Packet>)
    ensures var q := HandleAll(p, heard);
      && (q.startBroadcast <==> p.startBroadcast || Flown(heard))
      && (q.broadcastReceived <==> p.broadcastReceived || Acknowledged(heard))
      && (WaitsIn(q.state) <==> LaunchIsLast(heard) || (!Acknowledged(heard) && WaitsIn(p.state)))
  {
    if heard == [] {
    } else {
      var front, last := heard[..|heard| - 1], heard[|heard| - 1];
      ProgressHeard(p, front);
      HeardOneMore(front, last);
      LaunchOneMore(front, last);
      PacketHeard(HandleAll(p, front), last);
      assert heard == front + [last];
    }
  }

  lemma {:induction false} HandleAllConcat(p: Progress, a: seq<Packet>, b: seq<Packet>)
    ensures HandleAll(p, a + b) == HandleAll(HandleAll(p, a), b)
  {
    if b == [] {
      assert a + b == a;
    } else {
      HandleAllConcat(p, a, b[..|b| - 1]);
      assert (a + b)[..|a + b| - 1] == a + b[..|b| - 1];
    }
  }

  lemma {:induction false} ProgressAfterAll(p: Progress, batches: seq<seq<Packet>>)
    ensures ProgressAfter(p, batches) == HandleAll(p, Flatten(batches))
  {
    if batches == [] {
    } else {
      var front, last := batches[..|batches| - 1], batches[|batches| - 1];
      ProgressAfterAll(p, front);
      HandleAllConcat(p, Flatten(front), last);
      FlattenSnoc(front, last);
      assert front + [last] == batches;
    }
  }

  /** The frame computed from the progress is the one the packets call for. */
  lemma FrameCalledFor(p: Progress, batches: seq<seq<Packet>>, cameraPower: bool)
    ensures CalledFor(p, Flatten(batches), TurnFrame(ProgressAfter(p, batches), cameraPower))
  {
    ProgressAfterAll(p, batches);
    ProgressHeard(p, Flatten(batches));
  }

  /** What the reader thread, or nobody, did before a poll at `now`. */
  datatype Observation = Observation(now: int, answered: bool)

  /** When a turn raises the lock, and what the reader does meanwhile. */
  datatype Turn = Turn(raised: int, released: nat -> bool, env: nat -> Observation) {
    ghost predicate Timely() {
      env(0).now >= raised && forall k: nat :: env(k + 1).now >= env(k).now + SEQUENCE_BUSY_WAIT
    }
  }

  class AvSequence {
    const lock: AvSequenceLock
    var progress: Progress
    var cameraPower: bool

    constructor (earliest: int)
      ensures fresh(lock) && lock.State() == LockState(false, false, earliest)
      ensures progress == Progress(LoopPreLaunch, false, false) && !cameraPower
    {
      lock := new AvSequenceLock(earliest);
      progress := Progress(LoopPreLaunch, false, false);
      cameraPower := false;
      new;
      lock.Unlock();
    }

    method StartAwaitAv(now: int, released: nat -> bool)
      requires lock.held ==> exists k: nat :: released(k)
      modifies lock
      ensures lock.State() == old(lock.State()).TakeMutex().RaiseFlag().StampTime(now)
    {
      lock.Lock(now, released);
    }

    method ReceivedAv()
      modifies lock
      ensures lock.State() == old(lock.State()).ClearFlag().ReleaseMutex()
    {
      lock.Unlock();
    }

    method WaitingForAv(now: int) returns (waiting: bool)
      modifies lock
      ensures waiting == !old(lock.State()).OpensAt(now)
      ensures lock.State() == if old(lock.flag) && !waiting then old(lock.State()).ClearFlag().ReleaseMutex()
                              else old(lock.State())
    {
      var open := lock.UnlockIfTimedOut(now);
      waiting := !open;
    }

    /** The busy wait. Polls are at least 10 ms apart, so however the reader
        behaves it ends within 102 polls, and it ends only because the reader
        answered, before the wait or during it, or because more than 1000 ms passed. */
    method SitAndWaitForAv(env: nat -> Observation) returns (polls: nat)
      requires env(0).now >= lock.stamp
      requires forall k: nat :: env(k + 1).now >= env(k).now + SEQUENCE_BUSY_WAIT
      modifies lock
      ensures 1 <= polls <= 102 && !lock.flag && lock.stamp == old(lock.stamp)
      ensures lock.held <==> old(lock.held && !lock.flag) && !env(0).answered
      ensures old(!lock.flag) ==> polls == 1
      ensures old(!lock.flag) || env(polls - 1).answered || env(polls - 1).now - lock.stamp > SEQUENCE_LOCK_TIMEOUT
      ensures forall k: nat :: k < polls - 1 ==>
        !env(k).answered && env(k).now - lock.stamp <= SEQUENCE_LOCK_TIMEOUT
    {
      polls := 0;
      while true
        invariant lock.State() == old(lock.State()) && (polls > 0 ==> lock.flag)
        invariant env(polls).now - lock.stamp >= SEQUENCE_BUSY_WAIT * polls
        invariant polls <= 101
        invariant forall k: nat :: k < polls ==>
          !env(k).answered && env(k).now - lock.stamp <= SEQUENCE_LOCK_TIMEOUT
        decreases 102 - polls
      {
        if env(polls).answered {
          ReceivedAv();
        }
        var waiting := WaitingForAv(env(polls).now);
        polls := polls + 1;
        if !waiting {
          return;
        }
      }
    }

    /** post_process_av. */
    method PostProcessAv(flight: FlightState)
      modifies this`progress, lock
      ensures lock.State() == old(lock.State()).ClearFlag().ReleaseMutex()
      ensures progress == NoteFlight(NoteLaunch(old(progress), flight), flight)
    {
      ReceivedAv();
      if flight == Launch {
        progress := progress.(state := OnceAvDeterminingLaunch);
      }
      match flight
      case OhNo =>
      case PreFlightNoFlightReady =>
      case PreFlightFlightReady =>
      case _ => progress := progress.(startBroadcast := true);
    }

    /** The reader loop's effects of one avionics packet. */
    method ReceivePacket(p: Packet)
      modifies this`progress, lock
      ensures lock.State() == old(lock.State()).ClearFlag().ReleaseMutex()
      ensures progress == Handle(old(progress), p)
    {
      match p
      case Garbage =>
        ReceivedAv();
      case Parsed(flight, acknowledged) =>
        PostProcessAv(flight);
        if acknowledged {
          progress := progress.(broadcastReceived := true);
          progress := progress.(state := LoopBurn);
        }
    }

    /** One pass of the command loop's AV switch: the frame written, if any, and the
        wait for its answer in the states that wait. */
    method CommandTurn(t: Turn) returns (frame: Option<seq<byte>>, polls: nat)
      requires lock.held ==> exists k: nat :: t.released(k)
      requires t.Timely()
      modifies lock
      ensures frame == TurnFrame(progress, cameraPower) && CalledFor(progress, [], frame)
      ensures !WaitsIn(progress.state) ==> lock.State() == old(lock.State()) && polls == 0
      ensures WaitsIn(progress.state) ==>
        && !lock.held && !lock.flag && 1 <= polls <= 102
        && (t.env(polls - 1).answered || t.env(polls - 1).now - t.raised > SEQUENCE_LOCK_TIMEOUT)
    {
      FrameCalledFor(progress, [], cameraPower);
      var broadcast := progress.startBroadcast && !progress.broadcastReceived;
      frame, polls := None, 0;
      match progress.state
      case LoopPreLaunch | OnceAvDeterminingLaunch =>
        frame := Some(CommandFrame(broadcast, cameraPower));
        StartAwaitAv(t.raised, t.released);
        polls := SitAndWaitForAv(t.env);
      case LoopIgnition | LoopBurn | LoopApogee | LoopLanded =>
        if broadcast {
          frame := Some(CommandFrame(broadcast, cameraPower));
        }
    }

    /** Any number of turns, each after the packets received before it: the lock is
        free again after every turn, so the next one never blocks, and every frame
        is the one that the packets heard by then call for. */
    method CommandTurns(turns: seq<Turn>, packets: seq<seq<Packet>>) returns (frames: seq<Option<seq<byte>>>)
      requires !lock.held && |packets| == |turns| && forall t <- turns :: t.Timely()
      modifies this`progress, lock
      ensures !lock.held && |frames| == |turns|
      ensures progress == ProgressAfter(old(progress), packets)
      ensures forall k :: 0 <= k < |turns| ==>
        && frames[k] == TurnFrame(ProgressAfter(old(progress), packets[..k + 1]), cameraPower)
        && CalledFor(old(progress), Flatten(packets[..k + 1]), frames[k])
    {
      frames := [];
      for k := 0 to |turns|
        invariant !lock.held && |frames| == k && progress == ProgressAfter(old(progress), packets[..k])
        invariant forall j :: 0 <= j < k ==>
          && frames[j] == TurnFrame(ProgressAfter(old(progress), packets[..j + 1]), cameraPower)
          && CalledFor(old(progress), Flatten(packets[..j + 1]), frames[j])
      {
        assert packets[..k + 1][..k] == packets[..k];
        FrameCalledFor(old(progress), packets[..k + 1], cameraPower);
        ReceivePackets(packets[k]);
        var frame, polls := CommandTurn(turns[k]);
        frames := frames + [frame];
      }
      assert packets[..|turns|] == packets;
    }

    method ReceivePackets(ps: seq<Packet>)
      requires !lock.held
      modifies this`progress, lock
      ensures !lock.held && progress == HandleAll(old(progress), ps)
    {
      for k := 0 to |ps|
        invariant !lock.held && progress == HandleAll(old(progress), ps[..k])
      {
        assert ps[..k + 1][..k] == ps[..k];
        ReceivePacket(ps[k]);
      }
      assert ps[..|ps|] == ps;
    }
  }
}
