/** The command loop of main.cpp and the reader loop as two threads whose
    atomic steps interleave with each other and with the clock. */
module AvProtocol {
  import opened Wrappers
  import opened Bits
  import opened PayloadParsing
  import opened AvSequencing

  /** Where the command loop is. `started` and `bit` are its locals. */
  datatype MainPc =
    | ReadStart
    | ReadReceived(started: bool)
    | Dispatch(bit: bool)
    | Write(bit: bool, waits: bool)
    | TakeMutex | RaiseFlag | StampTime
    | TestFlag | TestTime | Sleep(until: int)
    | ClearFlag | ReleaseMutex
    | Pause

  datatype ReaderPc =
    | Listen
    | DropFlag(p: Packet) | DropMutex(p: Packet)
    | SetLaunch(p: Packet) | SetStart(p: Packet)
    | SetReceived | SetBurn

  datatype State = State(clock: int, lock: LockState, progress: Progress, main: MainPc, reader: ReaderPc)

  ghost predicate Init(s: State) {
    && s.lock.held == s.lock.flag == false
    && s.progress == Progress(LoopPreLaunch, false, false)
    && s.main == ReadStart && s.reader == Listen
  }

  /** The command loop's next step, if it is neither blocked on the mutex nor asleep. */
  ghost predicate MainStep(s: State, t: State) {
    && t.clock == s.clock && t.reader == s.reader && t.progress == s.progress
    && match s.main
       case ReadStart => t == s.(main := ReadReceived(s.progress.startBroadcast))
       case ReadReceived(started) => t == s.(main := Dispatch(started && !s.progress.broadcastReceived))
       case Dispatch(bit) =>
         if WaitsIn(s.progress.state) then t == s.(main := Write(bit, true))
         else if bit then t == s.(main := Write(bit, false))
         else t == s.(main := Pause)
       case Write(bit, waits) => t == s.(main := if waits then TakeMutex else Pause)
       case TakeMutex => !s.lock.held && t == s.(lock := s.lock.TakeMutex(), main := RaiseFlag)
       case RaiseFlag => t == s.(lock := s.lock.RaiseFlag(), main := StampTime)
       case StampTime => t == s.(lock := s.lock.StampTime(s.clock), main := TestFlag)
       case TestFlag => t == s.(main := if s.lock.flag then TestTime else Pause)
       case TestTime =>
         t == s.(main := if s.lock.TimedOut(s.clock) then ClearFlag else Sleep(s.clock + SEQUENCE_BUSY_WAIT))
       case Sleep(until) => s.clock >= until && t == s.(main := TestFlag)
       case ClearFlag => t == s.(lock := s.lock.ClearFlag(), main := ReleaseMutex)
       case ReleaseMutex => t == s.(lock := s.lock.ReleaseMutex(), main := Pause)
       case Pause => t == s.(main := ReadStart)
  }

  ghost predicate ReaderStep(s: State, t: State) {
    match s.reader
    case Listen => t.reader.DropFlag? && t == s.(reader := t.reader)
    case DropFlag(p) => t == s.(lock := s.lock.ClearFlag(), reader := DropMutex(p))
    case DropMutex(p) => t == s.(lock := s.lock.ReleaseMutex(), reader := if p.Garbage? then Listen else SetLaunch(p))
    case SetLaunch(p) =>
      p.Parsed? && t == s.(progress := NoteLaunch(s.progress, p.flight), reader := SetStart(p))
    case SetStart(p) =>
      p.Parsed? && t == s.(progress := NoteFlight(s.progress, p.flight),
                           reader := if p.acknowledged then SetReceived else Listen)
    case SetReceived => t == s.(progress := s.progress.(broadcastReceived := true), reader := SetBurn)
    case SetBurn => t == s.(progress := s.progress.(state := LoopBurn), reader := Listen)
  }

  ghost predicate Tick(s: State, t: State) {
    t.clock >= s.clock && t == s.(clock := t.clock)
  }

  ghost predicate Next(s: State, t: State) {
    MainStep(s, t) || ReaderStep(s, t) || Tick(s, t)
  }

  ghost predicate IsRun(r: seq<State>) {
    && |r| > 0 && Init(r[0])
    && forall i :: 0 <= i < |r| - 1 ==> Next(r[i], r[i + 1])
  }

  /** The reader's steps for a packet, uninterrupted, are what ReceivePacket of the
      sequence class does. */
  lemma ReaderHandles(s: State, p: Packet) returns (r: seq<State>)
    requires s.reader == DropFlag(p)
    ensures |r| > 1 && r[0] == s && forall i :: 0 <= i < |r| - 1 ==> ReaderStep(r[i], r[i + 1])
    ensures r[|r| - 1]
      == s.(lock := s.lock.ClearFlag().ReleaseMutex(), progress := Handle(s.progress, p), reader := Listen)
  {
    var dropped := s.(lock := s.lock.ClearFlag(), reader := DropMutex(p));
    if p.Garbage? {
      r := [s, dropped, dropped.(lock := dropped.lock.ReleaseMutex(), reader := Listen)];
    } else {
      var freed := dropped.(lock := dropped.lock.ReleaseMutex(), reader := SetLaunch(p));
      var launch := freed.(progress := NoteLaunch(freed.progress, p.flight), reader := SetStart(p));
      var start := launch.(progress := NoteFlight(launch.progress, p.flight),
                           reader := if p.acknowledged then SetReceived else Listen);
      r := [s, dropped, freed, launch, start];
      if p.acknowledged {
        var received := start.(progress := start.progress.(broadcastReceived := true), reader := SetBurn);
        r := r + [received, received.(progress := received.progress.(state := LoopBurn), reader := Listen)];
      }
    }
  }

  // ------------------------------------------------------------- one turn of main

  /** The frames that main writes along some states. */
  function FramesWritten(r: seq<State>, cameraPower: bool): seq<seq<byte>> {
    if |r| <= 1 then []
    else
      var n := |r| - 1;
      FramesWritten(r[..n], cameraPower)
      + if r[n - 1].main.Write? && !r[n].main.Write? then [CommandFrame(r[n - 1].main.bit, cameraPower)] else []
  }

  /** One turn of main, with the reader still and the clock running. */
  ghost predicate IsTurn(r: seq<State>) {
    && |r| > 1 && r[0].main.ReadStart? && r[|r| - 1].main.Pause?
    && (forall k :: 0 <= k < |r| - 1 ==> !r[k].main.Pause?)
    && forall k :: 0 <= k < |r| - 1 ==> MainStep(r[k], r[k + 1]) || Tick(r[k], r[k + 1])
  }

  /** What main has decided and written, from where it is. */
  predicate TurnSoFar(first: State, s: State, written: seq<seq<byte>>, cameraPower: bool) {
    var p := first.progress;
    var bit := p.startBroadcast && !p.broadcastReceived;
    && s.progress == p
    && match s.main
       case ReadStart => written == []
       case ReadReceived(started) => written == [] && started == p.startBroadcast
       case Dispatch(b) => written == [] && b == bit
       case Write(b, waits) => written == [] && b == bit && waits == WaitsIn(p.state) && (waits || bit)
       case Pause => written == if WaitsIn(p.state) || bit then [CommandFrame(bit, cameraPower)] else []
       case _ => WaitsIn(p.state) && written == [CommandFrame(bit, cameraPower)]
  }

  lemma TurnStep(first: State, s: State, t: State, written: seq<seq<byte>>, cameraPower: bool)
    requires TurnSoFar(first, s, written, cameraPower) && !s.main.Pause?
    requires MainStep(s, t) || Tick(s, t)
    ensures TurnSoFar(first, t, written + if s.main.Write? && !t.main.Write? then
      [CommandFrame(s.main.bit, cameraPower)] else [], cameraPower)
  {
  }

  lemma {:induction false} TurnSoFarHolds(r: seq<State>, n: nat, cameraPower: bool)
    requires n < |r| && r[0].main.ReadStart?
    requires forall k :: 0 <= k < n ==> !r[k].main.Pause?
    requires forall k :: 0 <= k < n ==> MainStep(r[k], r[k + 1]) || Tick(r[k], r[k + 1])
    ensures TurnSoFar(r[0], r[n], FramesWritten(r[..n + 1], cameraPower), cameraPower)
  {
    if n == 0 {
    } else {
      TurnSoFarHolds(r, n - 1, cameraPower);
      assert MainStep(r[n - 1], r[n - 1 + 1]) || Tick(r[n - 1], r[n - 1 + 1]);
      TurnStep(r[0], r[n - 1], r[n], FramesWritten(r[..n], cameraPower), cameraPower);
      assert r[..n + 1][..n] == r[..n];
    }
  }

  /** Main's atomic steps, uninterrupted by the reader, write exactly the frame that a
      turn of the sequence class does. */
  lemma MainWrites(r: seq<State>, cameraPower: bool)
    requires IsTurn(r)
    ensures var frame := TurnFrame(r[0].progress, cameraPower);
      && FramesWritten(r, cameraPower) == (if frame.Some? then [frame.value] else [])
      && CalledFor(r[0].progress, [], frame)
    ensures r[|r| - 1].progress == r[0].progress
  {
    TurnSoFarHolds(r, |r| - 1, cameraPower);
    FrameCalledFor(r[0].progress, [], cameraPower);
    assert r[..|r|] == r;
  }

  /** Main's steps from the mutex to the end of a wait that nobody answers. */
  lemma UnansweredWait(s: State) returns (r: seq<State>)
    requires s.main.TakeMutex? && !s.lock.held
    ensures |r| > 1 && r[0] == s && forall k :: 0 <= k < |r| - 1 ==> MainStep(r[k], r[k + 1]) || Tick(r[k], r[k + 1])
    ensures (forall k :: 0 <= k < |r| - 1 ==> !r[k].main.Pause?) && r[|r| - 1].main.Pause?
    ensures !r[|r| - 1].lock.held && !r[|r| - 1].lock.flag
  {
    var taken := s.(lock := s.lock.TakeMutex(), main := RaiseFlag);
    var raised := taken.(lock := taken.lock.RaiseFlag(), main := StampTime);
    var stamped := raised.(lock := raised.lock.StampTime(raised.clock), main := TestFlag);
    var up := stamped.(main := TestTime);
    var late := up.(clock := up.clock + SEQUENCE_LOCK_TIMEOUT + 1);
    var timedOut := late.(main := ClearFlag);
    var dropped := timedOut.(lock := timedOut.lock.ClearFlag(), main := ReleaseMutex);
    r := [s, taken, raised, stamped, up, late, timedOut, dropped,
          dropped.(lock := dropped.lock.ReleaseMutex(), main := Pause)];
  }

  /** Such a turn exists from every state in which main does not block. */
  lemma MainTurns(s: State) returns (r: seq<State>)
    requires s.main.ReadStart? && !s.lock.held
    ensures IsTurn(r) && r[0] == s && !r[|r| - 1].lock.held
  {
    var started := s.(main := ReadReceived(s.progress.startBroadcast));
    var bit := s.progress.startBroadcast && !s.progress.broadcastReceived;
    var decided := started.(main := Dispatch(bit));
    if WaitsIn(s.progress.state) {
      var writes := decided.(main := Write(bit, true));
      var wait := UnansweredWait(writes.(main := TakeMutex));
      r := [s, started, decided, writes] + wait;
      assert r[4..] == wait;
      assert forall k :: 4 <= k < |r| ==> r[k] == wait[k - 4];
    } else if bit {
      r := [s, started, decided, decided.(main := Write(bit, false)), decided.(main := Pause)];
    } else {
      r := [s, started, decided, decided.(main := Pause)];
    }
  }

  // ------------------------------------------------------------ deadlock freedom

  /** Main is before the mutex or past the wait. */
  predicate Outside(m: MainPc) {
    m.ReadStart? || m.ReadReceived? || m.Dispatch? || m.Write? || m.TakeMutex? || m.Pause?
  }

  /** Main is in the wait, where it does not time out yet. */
  predicate Waiting(m: MainPc) {
    m.TestFlag? || m.TestTime? || m.Sleep?
  }

  ghost predicate Inv(s: State) {
    && (Outside(s.main) && s.lock.held ==> s.reader.DropMutex?)
    && ((s.main.StampTime? || Waiting(s.main)) && s.lock.held && !s.lock.flag ==> s.reader.DropMutex?)
    && (s.reader.SetLaunch? || s.reader.SetStart? ==> s.reader.p.Parsed?)
    && (s.progress.state.LoopPreLaunch? || s.progress.state.OnceAvDeterminingLaunch? || s.progress.state.LoopBurn?)
  }

  lemma InvStep(s: State, t: State)
    requires Inv(s) && Next(s, t)
    ensures Inv(t)
  {
  }

  lemma {:induction false} InvHolds(r: seq<State>, n: nat)
    requires IsRun(r) && n < |r|
    ensures Inv(r[n])
  {
    if n == 0 {
    } else {
      InvHolds(r, n - 1);
      InvStep(r[n - 1], r[n]);
    }
  }

  lemma MainMoves(s: State)
    requires s.main.TakeMutex? ==> !s.lock.held
    requires s.main.Sleep? ==> s.clock >= s.main.until
    ensures exists t :: MainStep(s, t)
  {
    var t := match s.main
      case ReadStart => s.(main := ReadReceived(s.progress.startBroadcast))
      case ReadReceived(started) => s.(main := Dispatch(started && !s.progress.broadcastReceived))
      case Dispatch(bit) =>
        s.(main := if WaitsIn(s.progress.state) then Write(bit, true) else if bit then Write(bit, false) else Pause)
      case Write(bit, waits) => s.(main := if waits then TakeMutex else Pause)
      case TakeMutex => s.(lock := s.lock.TakeMutex(), main := RaiseFlag)
      case RaiseFlag => s.(lock := s.lock.RaiseFlag(), main := StampTime)
      case StampTime => s.(lock := s.lock.StampTime(s.clock), main := TestFlag)
      case TestFlag => s.(main := if s.lock.flag then TestTime else Pause)
      case TestTime => s.(main := if s.lock.TimedOut(s.clock) then ClearFlag else Sleep(s.clock + SEQUENCE_BUSY_WAIT))
      case Sleep(_) => s.(main := TestFlag)
      case ClearFlag => s.(lock := s.lock.ClearFlag(), main := ReleaseMutex)
      case ReleaseMutex => s.(lock := s.lock.ReleaseMutex(), main := Pause)
      case Pause => s.(main := ReadStart);
    assert MainStep(s, t);
  }

  /** The mutex is held and the reader's only next step frees it, after which main
      can take it. */
  ghost predicate AboutToBeFreed(s: State) {
    && s.main.TakeMutex? && s.reader.DropMutex?
    && (exists t :: ReaderStep(s, t))
    && forall t :: ReaderStep(s, t) ==> exists u :: MainStep(t, u)
  }

  /** Main sleeps, and can move as soon as the clock reaches the end of the sleep. */
  ghost predicate WakesInTime(s: State) {
    && s.main.Sleep? && s.main.until <= s.clock + SEQUENCE_BUSY_WAIT
    && forall t :: Tick(s, t) && t.clock >= s.main.until ==> exists u :: MainStep(t, u)
  }

  lemma SleepIsShort(s: State, t: State)
    requires Next(s, t) && (s.main.Sleep? ==> s.main.until <= s.clock + SEQUENCE_BUSY_WAIT)
    ensures t.main.Sleep? ==> t.main.until <= t.clock + SEQUENCE_BUSY_WAIT
  {
  }

  lemma {:induction false} SleepsAreShort(r: seq<State>, n: nat)
    requires IsRun(r) && n < |r|
    ensures r[n].main.Sleep? ==> r[n].main.until <= r[n].clock + SEQUENCE_BUSY_WAIT
  {
    if n == 0 {
    } else {
      SleepsAreShort(r, n - 1);
      SleepIsShort(r[n - 1], r[n]);
    }
  }

  lemma FreedThenMoves(s: State)
    requires Inv(s) && s.main.TakeMutex? && s.lock.held
    ensures AboutToBeFreed(s)
  {
    var p := s.reader.p;
    var freed := s.(lock := s.lock.ReleaseMutex(), reader := if p.Garbage? then Listen else SetLaunch(p));
    assert ReaderStep(s, freed);
    forall t | ReaderStep(s, t)
      ensures exists u :: MainStep(t, u)
    {
      MainMoves(t);
    }
  }

  /** In every interleaving, when main is about to take the mutex it is free, or
      the reader is between clearing the flag and releasing it and its only next
      step frees it; a sleep is over within 10 ms on the clock. Main can always move,
      now, after that step or at that time. */
  lemma NoDeadlock(r: seq<State>, n: nat)
    requires IsRun(r) && n < |r|
    ensures (exists t :: MainStep(r[n], t)) || AboutToBeFreed(r[n]) || WakesInTime(r[n])
  {
    InvHolds(r, n);
    SleepsAreShort(r, n);
    var s := r[n];
    if s.main.TakeMutex? && s.lock.held {
      FreedThenMoves(s);
    } else if s.main.Sleep? && s.clock < s.main.until {
      forall t | Tick(s, t) && t.clock >= s.main.until
        ensures exists u :: MainStep(t, u)
      {
        MainMoves(t);
      }
    } else {
      MainMoves(s);
    }
  }

  // ------------------------------------------------------------------ turn-taking

  /** Step n of the run is main's write to the radio, in a state that waits. */
  ghost predicate WaitingWrite(r: seq<State>, n: nat) {
    n + 1 < |r| && r[n].main.Write? && r[n].main.waits && r[n + 1].main.TakeMutex?
  }

  ghost predicate Raises(r: seq<State>, n: nat) {
    n + 1 < |r| && r[n].main.RaiseFlag? && r[n + 1].main.StampTime?
  }

  /** Step n is the reader clearing the flag. */
  ghost predicate Answers(r: seq<State>, n: nat) {
    n + 1 < |r| && r[n].reader.DropFlag? && r[n + 1].reader.DropMutex? && !r[n + 1].lock.flag
  }

  ghost predicate RaisedSince(r: seq<State>, i: nat, n: nat) {
    exists m: nat :: i < m < n && Raises(r, m)
  }

  ghost predicate AnsweredSince(r: seq<State>, i: nat, n: nat) {
    exists m: nat, k: nat :: i < m < k < n && Raises(r, m) && Answers(r, k)
  }

  ghost predicate LateSince(r: seq<State>, i: nat, n: nat)
    requires i < |r| && n < |r|
  {
    r[n].clock - r[i].clock > SEQUENCE_LOCK_TIMEOUT
  }

  /** What is known at index n of the wait that began with the write at i. */
  ghost predicate Phase(r: seq<State>, i: nat, n: nat)
    requires i < n < |r|
  {
    r[n].clock >= r[i].clock
    && match r[n].main
       case TakeMutex | RaiseFlag => true
       case StampTime => RaisedSince(r, i, n) && (r[n].lock.flag || AnsweredSince(r, i, n))
       case TestFlag | TestTime | Sleep(_) => RaisedSince(r, i, n) && r[n].lock.stamp >= r[i].clock
                                              && (r[n].lock.flag || AnsweredSince(r, i, n))
       case ClearFlag | ReleaseMutex => LateSince(r, i, n)
       case _ => AnsweredSince(r, i, n) || LateSince(r, i, n)
  }

  lemma SinceGrows(r: seq<State>, i: nat, n: nat)
    requires i < n < |r| - 1
    ensures RaisedSince(r, i, n) || Raises(r, n) ==> RaisedSince(r, i, n + 1)
    ensures AnsweredSince(r, i, n) || (RaisedSince(r, i, n) && Answers(r, n)) ==> AnsweredSince(r, i, n + 1)
  {
  }

  lemma PhaseStep(r: seq<State>, i: nat, n: nat)
    requires IsRun(r) && i < n < |r| - 1 && Phase(r, i, n) && !WaitingWrite(r, n)
    ensures Phase(r, i, n + 1)
  {
    var s, t := r[n], r[n + 1];
    assert Next(s, t);
    SinceGrows(r, i, n);
    if MainStep(s, t) {
      if s.main.RaiseFlag? {
        assert Raises(r, n);
      }
    } else if ReaderStep(s, t) {
      if s.reader.DropFlag? {
        assert Answers(r, n);
      }
    }
  }

  lemma {:induction false} PhaseHolds(r: seq<State>, i: nat, n: nat)
    requires IsRun(r) && i < n < |r| && WaitingWrite(r, i)
    requires forall k: nat :: i < k < n ==> !WaitingWrite(r, k)
    ensures Phase(r, i, n)
  {
    if n == i + 1 {
      assert Next(r[i], r[i + 1]);
    } else {
      PhaseHolds(r, i, n - 1);
      PhaseStep(r, i, n - 1);
    }
  }

  lemma {:induction false} NextWaitingWrite(r: seq<State>, i: nat, j: nat) returns (k: nat)
    requires i < j < |r| && WaitingWrite(r, j)
    ensures i < k <= j && WaitingWrite(r, k)
    ensures forall m: nat :: i < m < k ==> !WaitingWrite(r, m)
  {
    k := i + 1;
    while !WaitingWrite(r, k)
      invariant i < k <= j
      invariant forall m: nat :: i < m < k ==> !WaitingWrite(r, m)
      decreases j - k
    {
      k := k + 1;
    }
  }

  lemma {:induction false} ClockMonotone(r: seq<State>, i: nat, j: nat)
    requires IsRun(r) && i <= j < |r|
    ensures r[i].clock <= r[j].clock
  {
    if i == j {
    } else {
      ClockMonotone(r, i, j - 1);
      assert Next(r[j - 1], r[j]);
    }
  }

  /** Between two writes that wait, the reader cleared the flag after main
      raised it, or more than 1000 ms passed. */
  lemma TurnTaking(r: seq<State>, i: nat, j: nat)
    requires IsRun(r) && i < j && WaitingWrite(r, i) && WaitingWrite(r, j)
    ensures AnsweredSince(r, i, j) || LateSince(r, i, j)
  {
    var k := NextWaitingWrite(r, i, j);
    PhaseHolds(r, i, k);
    ClockMonotone(r, k, j);
    if AnsweredSince(r, i, k) {
      var m: nat, a: nat :| i < m < a < k && Raises(r, m) && Answers(r, a);
    }
  }

  // ------------------------------------------------------------- the bounded wait

  /** The step from s to t is a test of the flag. */
  predicate IsTest(s: State, t: State) {
    s.main.TestFlag? && !t.main.TestFlag?
  }

  ghost function TestsIn(r: seq<State>, i: nat, j: nat): nat
    requires i <= j < |r|
  {
    if i == j then 0 else TestsIn(r, i, j - 1) + if IsTest(r[j - 1], r[j]) then 1 else 0
  }

  /** Since the stamp 10 ms have passed, or will have when the sleep is over, for each
      test but one that is not yet followed by a sleep. */
  predicate Slept(s: State, stamp: int, tests: nat) {
    && s.lock.stamp == stamp
    && match s.main
       case TestFlag => s.clock - stamp >= SEQUENCE_BUSY_WAIT * tests && tests <= 101
       case TestTime => 1 <= tests <= 102 && s.clock - stamp >= SEQUENCE_BUSY_WAIT * (tests - 1)
       case Sleep(until) => tests <= 101 && until - stamp >= SEQUENCE_BUSY_WAIT * tests
       case _ => false
  }

  lemma SleptFirst(s: State, t: State)
    ensures Next(s, t) && s.main.StampTime? && Waiting(t.main) ==> Slept(t, s.clock, 0)
  {
  }

  lemma SleptStep(s: State, t: State, stamp: int, tests: nat)
    ensures Next(s, t) && Waiting(t.main) && Slept(s, stamp, tests)
      ==> Slept(t, stamp, if IsTest(s, t) then tests + 1 else tests)
  {
  }

  lemma {:induction false} SleptHolds(r: seq<State>, i: nat, n: nat)
    requires IsRun(r) && i < n < |r| && r[i].main.StampTime?
    requires forall k :: i < k <= n ==> Waiting(r[k].main)
    ensures Slept(r[n], r[i].clock, TestsIn(r, i, n))
  {
    if n == i + 1 {
      SleptFirst(r[i], r[n]);
      assert TestsIn(r, i, i) == 0;
    } else {
      SleptHolds(r, i, n - 1);
      SleptStep(r[n - 1], r[n], r[i].clock, TestsIn(r, i, n - 1));
    }
  }

  /** In every interleaving main tests the flag at most 102 times between the stamp
      and its leaving the wait. */
  lemma {:induction false} WaitIsBounded(r: seq<State>, i: nat, j: nat)
    requires IsRun(r) && i < j < |r| && r[i].main.StampTime?
    requires forall k :: i < k < j ==> Waiting(r[k].main)
    ensures TestsIn(r, i, j) <= 102
  {
    if j == i + 1 {
      assert TestsIn(r, i, i) == 0;
    } else {
      SleptHolds(r, i, j - 1);
    }
  }

  // --------------------------------------------------------------- broadcast shape

  /** Step n computes the broadcast bit. */
  ghost predicate Computes(r: seq<State>, n: nat, bit: bool) {
    n + 1 < |r| && r[n].main.ReadReceived? && r[n + 1].main == Dispatch(bit)
  }

  /** Flags only rise, the pre-launch state is only left, and only three of the
      six states are ever entered. */
  lemma {:induction false} ProgressMonotone(r: seq<State>, i: nat, j: nat)
    requires IsRun(r) && i <= j < |r|
    ensures r[i].progress.startBroadcast ==> r[j].progress.startBroadcast
    ensures r[i].progress.broadcastReceived ==> r[j].progress.broadcastReceived
    ensures !r[i].progress.state.LoopPreLaunch? ==> !r[j].progress.state.LoopPreLaunch?
    ensures r[j].progress.state in {LoopPreLaunch, OnceAvDeterminingLaunch, LoopBurn}
  {
    InvHolds(r, j);
    if i == j {
    } else {
      ProgressMonotone(r, i, j - 1);
      assert Next(r[j - 1], r[j]);
    }
  }

  /** Once a true bit was computed, main's local copy of the start flag stays true. */
  lemma {:induction false} StartedStays(r: seq<State>, i: nat, n: nat)
    requires IsRun(r) && i < n < |r| && Computes(r, i, true)
    requires r[i].main.started ==> r[i].progress.startBroadcast
    ensures r[n].progress.startBroadcast
    ensures r[n].main.ReadReceived? ==> r[n].main.started
  {
    assert Next(r[n - 1], r[n]);
    if n > i + 1 {
      StartedStays(r, i, n - 1);
    }
  }

  lemma {:induction false} LocalStart(r: seq<State>, n: nat)
    requires IsRun(r) && n < |r|
    ensures r[n].main.ReadReceived? && r[n].main.started ==> r[n].progress.startBroadcast
  {
    if n == 0 {
    } else {
      LocalStart(r, n - 1);
      assert Next(r[n - 1], r[n]);
    }
  }

  /** The bits computed over a run are false, then true, then false for good. */
  lemma NoSecondRise(r: seq<State>, i: nat, j: nat, k: nat, bit: bool)
    requires IsRun(r) && i < j < k
    requires Computes(r, i, true) && Computes(r, j, false) && Computes(r, k, bit)
    ensures !bit
  {
    LocalStart(r, i);
    StartedStays(r, i, j);
    assert Next(r[j], r[j + 1]) && Next(r[k], r[k + 1]);
    ProgressMonotone(r, j, k);
  }

  /** Step n sends a frame whose broadcast byte is set. */
  ghost predicate SendsBroadcast(r: seq<State>, n: nat) {
    n + 1 < |r| && r[n].main.Write? && r[n].main.bit && !r[n + 1].main.Write?
  }

  ghost function BroadcastsIn(r: seq<State>, i: nat, j: nat): nat
    requires i <= j
    decreases j - i
  {
    if i == j then 0 else (if SendsBroadcast(r, i) then 1 else 0) + BroadcastsIn(r, i + 1, j)
  }

  predicate HoldsBit(m: MainPc) {
    (m.Dispatch? || m.Write?) && m.bit
  }

  lemma {:induction false} BroadcastsLeft(r: seq<State>, i: nat, j: nat)
    requires IsRun(r) && i <= j < |r| && r[i].progress.broadcastReceived
    ensures BroadcastsIn(r, i, j) <= if HoldsBit(r[i].main) then 1 else 0
    decreases j - i
  {
    if i == j {
    } else {
      assert Next(r[i], r[i + 1]);
      ProgressMonotone(r, i, i + 1);
      BroadcastsLeft(r, i + 1, j);
    }
  }

  /** After the acknowledgement is recorded at most one more frame, the one
      already decided, carries the broadcast byte. */
  lemma AtMostOneMoreBroadcast(r: seq<State>, i: nat, j: nat)
    requires IsRun(r) && i <= j < |r| && r[i].progress.broadcastReceived
    ensures BroadcastsIn(r, i, j) <= 1
  {
    BroadcastsLeft(r, i, j);
  }
}
