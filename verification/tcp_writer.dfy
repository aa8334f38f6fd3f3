/** The writer thread of main.cpp (tcp_write) against the shared state, the
    condition variable and the TCP link, as interleaved atomic steps. */
module TcpWriter {
  import opened Bits
  import opened GcsState
  import opened TcpLink
  import opened Seqs

  datatype Wake = Changed | TimedOut(deadline: int)

  /** Where the writer is. A deadline is 500 ms after its wait began; the
      snapshot and write that follow a timed-out wait keep it. */
  datatype Pc =
    | FirstSnapshot
    | FirstWrite
    | BeginWait
    | TestVersion(deadline: int)
    | Sleeping(deadline: int)
    | LastTest(deadline: int)
    | Snapshot(timedOut: Wake)
    | Write(timedOut: Wake)

  datatype State = State(clock: int, gcs: Gcs, tcp: Tcp, pc: Pc, payload: seq<byte>, observed: nat)

  function Booted(): State {
    State(0, GcsState.Booted(0), Fresh(0), FirstSnapshot, [], 0)
  }

  ghost predicate Init(s: State) {
    && s.gcs == GcsState.Booted(s.gcs.pendant.lastReceival)
    && s.tcp.wire == [] && s.tcp.lastPayload == []
    && s.pc == FirstSnapshot && s.payload == [] && s.observed == 0
  }

  predicate HasChanged(s: State) {
    s.gcs.version != s.observed
  }

  function TakeSnapshot(s: State): State {
    s.(payload := s.gcs.Current(), observed := s.gcs.version)
  }

  ghost predicate WritesIn(s: State, t: State, c: Circumstances) {
    && c.InOrder() && s.clock <= c.connectAt && c.done <= t.clock
    && t == s.(clock := t.clock, pc := BeginWait, tcp := WriteData(s.tcp, s.payload, c).0)
  }

  /** A write begins at or after the step's clock and ends by the next one. */
  ghost predicate Writes(s: State, t: State) {
    exists c: Circumstances :: WritesIn(s, t, c)
  }

  ghost predicate WriterStep(s: State, t: State) {
    match s.pc
    case FirstSnapshot =>
      var u := TakeSnapshot(s);
      t == u.(pc := if u.payload == [] then BeginWait else FirstWrite)
    case FirstWrite => Writes(s, t)
    case BeginWait => t == s.(pc := TestVersion(s.clock + TCP_HEARTBEAT))
    case TestVersion(d) => t == s.(pc := if HasChanged(s) then Snapshot(Changed) else Sleeping(d))
    case Sleeping(d) =>
      || t == s.(pc := TestVersion(d))                       // a spurious wake-up
      || (s.clock >= d && t == s.(pc := LastTest(d)))
    case LastTest(d) => t == s.(pc := Snapshot(if HasChanged(s) then Changed else TimedOut(d)))
    case Snapshot(why) =>
      var u := TakeSnapshot(s);
      t == u.(pc := if u.payload == [] then BeginWait else Write(why))
    case Write(_) => Writes(s, t)
  }

  /** notify_all under the mutex wakes a sleeper if the version moved. */
  function Notify(before: Gcs, after: Gcs, pc: Pc): Pc {
    if after.version != before.version && pc.Sleeping? then TestVersion(pc.deadline) else pc
  }

  ghost predicate OtherThread(s: State, t: State) {
    || (exists op :: t == s.(gcs := Apply(s.gcs, op), pc := Notify(s.gcs, Apply(s.gcs, op), s.pc)))
    || t == s.(tcp := s.tcp.(connected := false))
    || (exists now: int, connects: bool :: t == s.(tcp := EnsureConnected(s.tcp, now, connects).0))
  }

  ghost predicate Next(s: State, t: State) {
    || WriterStep(s, t)
    || OtherThread(s, t)
    || (t.clock >= s.clock && t == s.(clock := t.clock))
  }

  ghost predicate IsRun(r: seq<State>) {
    && |r| > 0 && Init(r[0])
    && forall i :: 0 <= i < |r| - 1 ==> Next(r[i], r[i + 1])
  }

  // ----------------------------------------------------------------- the invariant

  /** The last frame had gone out whole by a time. */
  ghost predicate SentBefore(t: Tcp, time: int) {
    t.wire != [] ==> LastFrame(t).end <= time
  }

  ghost predicate WaitInv(s: State) {
    match s.pc
    case FirstSnapshot => s.tcp.wire == []
    case FirstWrite => s.tcp.wire == []
    case TestVersion(d) => SentBefore(s.tcp, d - TCP_HEARTBEAT)
    case Sleeping(d) => SentBefore(s.tcp, d - TCP_HEARTBEAT) && !HasChanged(s)
    case LastTest(d) => SentBefore(s.tcp, d - TCP_HEARTBEAT) && d <= s.clock
    case Snapshot(TimedOut(d)) => SentBefore(s.tcp, d - TCP_HEARTBEAT) && d <= s.clock
    case Write(TimedOut(d)) => SentBefore(s.tcp, d - TCP_HEARTBEAT) && d <= s.clock
    case _ => true
  }

  ghost predicate SnapshotInv(s: State) {
    && s.observed < |s.gcs.history|
    && s.payload == s.gcs.history[s.observed]
    && (s.pc.FirstWrite? || s.pc.Write? ==> s.payload != [])
  }

  ghost predicate Inv(s: State) {
    && s.gcs.Valid() && TcpLink.Inv(s.tcp)
    && SnapshotInv(s) && WaitInv(s)
    && SentBefore(s.tcp, s.clock)
  }

  lemma WriteKeepsInv(s: State, t: State)
    requires Inv(s) && Writes(s, t)
    ensures Inv(t)
  {
    var c: Circumstances :| WritesIn(s, t, c);
    WriteInv(s.tcp, s.payload, c);
    EnsureConnectedInv(s.tcp, c.connectAt, c.connects);
  }

  lemma OtherThreadKeepsInv(s: State, t: State)
    requires Inv(s) && OtherThread(s, t)
    ensures Inv(t)
  {
    if op :| t == s.(gcs := Apply(s.gcs, op), pc := Notify(s.gcs, Apply(s.gcs, op), s.pc)) {
      ApplyValid(s.gcs, op);
    } else if t != s.(tcp := s.tcp.(connected := false)) {
      var now: int, connects: bool :| t == s.(tcp := EnsureConnected(s.tcp, now, connects).0);
      EnsureConnectedInv(s.tcp, now, connects);
    }
  }

  lemma InvStep(s: State, t: State)
    requires Inv(s) && Next(s, t)
    ensures Inv(t)
  {
    if OtherThread(s, t) {
      OtherThreadKeepsInv(s, t);
    } else if WriterStep(s, t) && (s.pc.FirstWrite? || s.pc.Write?) {
      WriteKeepsInv(s, t);
    }
  }

  lemma {:induction false} InvHolds(r: seq<State>, n: nat)
    requires IsRun(r) && n < |r|
    ensures Inv(r[n])
  {
    if n == 0 {
    } else {
      InvHolds(r, n - 1);
      InvStep(r[n - 1], r[n]);
    }
  }

  // ------------------------------------------------------------------ main results

  /** A sleeping writer has seen the newest payload: no change is slept past. */
  lemma NeverSleepsPastAChange(r: seq<State>, n: nat)
    requires IsRun(r) && n < |r| && r[n].pc.Sleeping?
    ensures r[n].payload == r[n].gcs.Current() && r[n].observed == r[n].gcs.version
  {
    InvHolds(r, n);
  }

  lemma HistoryGrows(s: State, t: State)
    requires Inv(s) && Next(s, t)
    ensures s.gcs.history <= t.gcs.history && s.observed <= t.observed
  {
    if OtherThread(s, t) {
      if op :| t == s.(gcs := Apply(s.gcs, op), pc := Notify(s.gcs, Apply(s.gcs, op), s.pc)) {
        ApplyValid(s.gcs, op);
      }
    }
  }

  /** What the writer holds is always an entry of history, the one its version
      names, and versions observed never go back. */
  lemma ObservesHistoryInOrder(r: seq<State>, i: nat, j: nat)
    requires IsRun(r) && i <= j < |r|
    ensures r[i].observed <= r[j].observed
    ensures r[i].gcs.history <= r[j].gcs.history
    ensures r[j].observed < |r[j].gcs.history| && r[j].payload == r[j].gcs.history[r[j].observed]
  {
    InvHolds(r, j);
    var seen := seq(|r|, k requires 0 <= k < |r| => r[k].observed);
    var histories := seq(|r|, k requires 0 <= k < |r| => r[k].gcs.history);
    forall k | 0 <= k < |r| - 1
      ensures seen[k] <= seen[k + 1] && histories[k] <= histories[k + 1]
    {
      InvHolds(r, k);
      HistoryGrows(r[k], r[k + 1]);
    }
    Ascending(seen, i, j);
    PrefixChain(histories, i, j);
  }

  /** A heartbeat is never swallowed: the resend after a timed-out wait always
      passes the duplicate filter, so if the link is up and the kernel takes the
      bytes, the frame is on the wire; and it starts at least 500 ms after the last
      frame, of whatever payload, had ended. */
  lemma HeartbeatIsSent(r: seq<State>, n: nat, c: Circumstances)
    requires IsRun(r) && n < |r| && r[n].pc.Write? && r[n].pc.timedOut.TimedOut?
    requires c.InOrder() && r[n].clock <= c.connectAt && EnsureConnected(r[n].tcp, c.connectAt, c.connects).1
    requires Taken(c.script[..Stop(c.script)]) >= |r[n].payload|
    ensures var (u, sent) := WriteData(r[n].tcp, r[n].payload, c);
      sent == |r[n].payload| && u.wire == r[n].tcp.wire + [Frame(c.now, c.done, r[n].payload, u.connection)]
    ensures r[n].tcp.wire != [] ==> c.now - LastFrame(r[n].tcp).end >= TCP_HEARTBEAT
  {
    InvHolds(r, n);
    EnsureConnectedInv(r[n].tcp, c.connectAt, c.connects);
    SendRestExact(|r[n].payload|, 0, c.script);
    assert !Suppressed(EnsureConnected(r[n].tcp, c.connectAt, c.connects).0, r[n].payload, c.now);
  }

  /** A frame that repeats the one before it started at least 500 ms after that one
      started. Sooner than 500 ms after that one ended it starts only if the writer
      woke on a change of version, away from the payload and back, and the sending
      of the frame before took time. */
  lemma RepetitionGap(r: seq<State>, n: nat, c: Circumstances)
    requires IsRun(r) && n + 1 < |r| && (r[n].pc.FirstWrite? || r[n].pc.Write?) && WritesIn(r[n], r[n + 1], c)
    requires r[n].tcp.wire != [] && r[n + 1].tcp.wire != r[n].tcp.wire
    requires LastFrame(r[n].tcp).payload == r[n].payload
    ensures var last := LastFrame(r[n].tcp);
      && LastFrame(r[n + 1].tcp) == Frame(c.now, c.done, r[n].payload, r[n + 1].tcp.connection)
      && c.now >= last.end && c.now - last.start >= TCP_HEARTBEAT
      && (c.now - last.end < TCP_HEARTBEAT ==>
            last.end > last.start && r[n].pc == Write(Changed))
  {
    InvHolds(r, n);
    EnsureConnectedInv(r[n].tcp, c.connectAt, c.connects);
  }

  /** After a write step that reports the whole payload accepted, the last whole
      frame on the wire is the payload held. */
  lemma AcceptedIsLast(r: seq<State>, n: nat, c: Circumstances)
    requires IsRun(r) && n + 1 < |r| && (r[n].pc.FirstWrite? || r[n].pc.Write?) && WritesIn(r[n], r[n + 1], c)
    requires WriteData(r[n].tcp, r[n].payload, c).1 == |r[n].payload|
    ensures r[n + 1].tcp.wire != [] && LastFrame(r[n + 1].tcp).payload == r[n + 1].payload == r[n].payload != []
  {
    InvHolds(r, n);
    AcceptedOnThisConnection(r[n].tcp, r[n].payload, c);
  }

  lemma WireGrows(s: State, t: State)
    requires Inv(s) && Next(s, t)
    ensures s.tcp.wire <= t.tcp.wire
  {
    if WriterStep(s, t) && (s.pc.FirstWrite? || s.pc.Write?) {
      var c: Circumstances :| WritesIn(s, t, c);
      WriteInv(s.tcp, s.payload, c);
    } else if OtherThread(s, t) && t.tcp != s.tcp && t.tcp != s.tcp.(connected := false) {
      var now: int, connects: bool :| t == s.(tcp := EnsureConnected(s.tcp, now, connects).0);
      EnsureConnectedInv(s.tcp, now, connects);
    }
  }

  /** Over any run, identical consecutive frames start at least 500 ms apart, and
      frames once sent stay as they were. */
  lemma StartsAreSpaced(r: seq<State>, i: nat, j: nat)
    requires IsRun(r) && i <= j < |r|
    ensures r[i].tcp.wire <= r[j].tcp.wire && StartsSpaced(r[j].tcp.wire)
  {
    InvHolds(r, j);
    var wires := seq(|r|, k requires 0 <= k < |r| => r[k].tcp.wire);
    forall k | 0 <= k < |r| - 1
      ensures wires[k] <= wires[k + 1]
    {
      InvHolds(r, k);
      WireGrows(r[k], r[k + 1]);
    }
    PrefixChain(wires, i, j);
  }

  // ------------------------------------------------ a repetition after a blocked send

  function Hears(s: State, payload: seq<byte>): State {
    var g := Apply(s.gcs, PendantReceived(payload, s.clock));
    s.(gcs := g, pc := Notify(s.gcs, g, s.pc))
  }

  function Sends(s: State, c: Circumstances): State {
    s.(clock := c.done, pc := BeginWait, tcp := WriteData(s.tcp, s.payload, c).0)
  }

  lemma HearsIsNext(s: State, payload: seq<byte>)
    ensures Next(s, Hears(s, payload))
  {
    var op := PendantReceived(payload, s.clock);
    assert Hears(s, payload) == s.(gcs := Apply(s.gcs, op), pc := Notify(s.gcs, Apply(s.gcs, op), s.pc));
  }

  lemma SendsIsNext(s: State, c: Circumstances)
    requires (s.pc.FirstWrite? || s.pc.Write?) && c.InOrder() && s.clock <= c.connectAt
    ensures Next(s, Sends(s, c))
  {
    assert WritesIn(s, Sends(s, c), c);
  }

  /** The first frame is sent, blocking until 900 ms. */
  lemma BlockedSend() returns (r: seq<State>)
    ensures IsRun(r)
    ensures var s := r[|r| - 1];
      && s.clock == 900 && s.pc == BeginWait && s.payload == [2] && s.observed == 1
      && s.gcs.version == 1 && s.gcs.pendant.payload == [2] && !s.gcs.manual
      && s.tcp.connected && s.tcp.lastPayload == [2] && s.tcp.lastSendTime == 0
      && s.tcp.wire == [Frame(0, 900, [2], 1)]
  {
    var c := Circumstances(0, 0, 900, true, [Accepted(1)]);
    var s0 := Booted();
    var s1 := Hears(s0, [2]);
    var s2 := TakeSnapshot(s1).(pc := FirstWrite);
    HearsIsNext(s0, [2]);
    SendsIsNext(s2, c);
    RepeatedAfterBlockedSend();
    r := [s0, s1, s2, Sends(s2, c)];
  }

  /** A writer that has missed a change takes it up without sleeping. */
  lemma WakesAtOnce(s: State) returns (more: seq<State>)
    requires s.pc == BeginWait && HasChanged(s) && s.gcs.Current() != []
    ensures |more| == 3 && Next(s, more[0]) && Next(more[0], more[1]) && Next(more[1], more[2])
    ensures more[2] == TakeSnapshot(s).(pc := Write(Changed))
  {
    var s1 := s.(pc := TestVersion(s.clock + TCP_HEARTBEAT));
    var s2 := s1.(pc := Snapshot(Changed));
    more := [s1, s2, TakeSnapshot(s2).(pc := Write(Changed))];
  }

  lemma ExtendRun(r: seq<State>, more: seq<State>) returns (all: seq<State>)
    requires IsRun(r) && more != [] && Next(r[|r| - 1], more[0])
    requires forall i :: 0 <= i < |more| - 1 ==> Next(more[i], more[i + 1])
    ensures all == r + more && IsRun(all)
  {
    all := r + more;
    forall i | 0 <= i < |all| - 1
      ensures Next(all[i], all[i + 1])
    {
      if i < |r| - 1 {
        assert all[i] == r[i] && all[i + 1] == r[i + 1];
      } else if i >= |r| {
        assert all[i] == more[i - |r|] && all[i + 1] == more[i - |r| + 1];
      }
    }
  }

  /** Such a run exists: while the first send blocks the pendant goes from the
      payload to another and back, the writer wakes on the change, and the same
      payload goes out again 5 ms after its first copy ended. */
  lemma RepeatedSoonAfterItsEnd() returns (r: seq<State>)
    ensures IsRun(r)
    ensures var wire := r[|r| - 1].tcp.wire;
      |wire| == 2 && wire[0].payload == wire[1].payload && wire[1].start - wire[0].end == 5
  {
    var c := Circumstances(905, 905, 905, true, [Accepted(1)]);
    var sent := BlockedSend();
    var s0 := sent[|sent| - 1];
    var s1 := Hears(s0, [3]);
    var s2 := Hears(s1, [2]);
    HearsIsNext(s0, [3]);
    HearsIsNext(s1, [2]);
    var woken := WakesAtOnce(s2);
    r := ExtendRun(sent, [s1, s2]);
    r := ExtendRun(r, woken);
    var s5 := r[|r| - 1];
    SendsIsNext(s5, c);
    assert SendRest(1, 0, [Accepted(1)]) == Sent(1);
    r := ExtendRun(r, [Sends(s5, c)]);
  }
}
