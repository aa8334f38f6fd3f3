/** The shared command state of gcs_process_data.cpp: pendant and web payloads,
    the manual switch between them, a version that counts effective changes,
    and the dead-man fallback. Every operation runs under one mutex. */
module GcsState {
  import opened Bits

  const PENDANT_FALLBACK_TIMEOUT := 5000
  const TIMEOUT_WARNING_INTERVAL := 10000
  const FALLBACK_PAYLOAD: seq<byte> := [0x02, 0x00, 0xFF, 0x00]

  datatype LastCommand = CameraPowerOn | CameraPowerOff | ManualControlOn | ManualControlOff | Unknown

  datatype Pendant = Pendant(payload: seq<byte>, lastReceival: int)

  /** `history` holds every effective payload so far; only `version` is stored. */
  datatype Gcs = Gcs(pendant: Pendant, web: seq<byte>, command: LastCommand, manual: bool,
                     version: nat, history: seq<seq<byte>>) {
    function Current(): seq<byte> {
      if manual then web else pendant.payload
    }

    ghost predicate Valid() {
      && |history| == version + 1
      && history[version] == Current()
      && forall i :: 0 <= i < version ==> history[i] != history[i + 1]
    }
  }

  /** The operations that take the mutex to change something. */
  datatype Op =
    | PendantReceived(payload: seq<byte>, now: int)
    | PendantNoData(now: int)
    | WebsocketReceived(payload: seq<byte>)
    | SetManualControl(mode: bool)

  function CommandOf(prefix: byte): LastCommand {
    if prefix == 123 then CameraPowerOn
    else if prefix == 100 then CameraPowerOff
    else if prefix == 0xFF then ManualControlOn
    else if prefix == 0x00 then ManualControlOff
    else Unknown
  }

  function NoData(p: Pendant, now: int): Pendant {
    if now - p.lastReceival >= PENDANT_FALLBACK_TIMEOUT then p.(payload := FALLBACK_PAYLOAD) else p
  }

  /** The fields an operation writes, before the change is noticed. */
  function Edit(g: Gcs, op: Op): Gcs {
    match op
    case PendantReceived(payload, now) => g.(pendant := Pendant(payload, now))
    case PendantNoData(now) => g.(pendant := NoData(g.pendant, now))
    case WebsocketReceived(payload) =>
      if payload == [] then g.(web := []) else g.(web := payload[1..], command := CommandOf(payload[0]))
    case SetManualControl(mode) => g.(manual := mode)
  }

  /** One entry of history for each change of the effective payload. */
  function Apply(g: Gcs, op: Op): Gcs {
    var e := Edit(g, op);
    if e.Current() == g.Current() then e
    else e.(version := g.version + 1, history := g.history + [e.Current()])
  }

  lemma ApplyValid(g: Gcs, op: Op)
    requires g.Valid()
    ensures Apply(g, op).Valid()
    ensures g.history <= Apply(g, op).history
    ensures Apply(g, op).Current() == Edit(g, op).Current()
  {
  }

  /** The shared state as constructed. */
  function Booted(boot: int): Gcs {
    Gcs(Pendant([], boot), [], Unknown, false, 0, [[]])
  }

  class SharedGcsState {
    var pendantPayload: seq<byte>
    var lastReceival: int
    var lastTimeoutWarning: int
    var web: seq<byte>
    var command: LastCommand
    var manual: bool
    var version: nat
    ghost var history: seq<seq<byte>>

    ghost function State(): Gcs
      reads this
    {
      Gcs(Pendant(pendantPayload, lastReceival), web, command, manual, version, history)
    }

    constructor (now: int)
      ensures State() == Booted(now)
      ensures State().Valid()
    {
      pendantPayload, lastReceival, lastTimeoutWarning := [], now, now;
      web, command, manual, version, history := [], Unknown, false, 0, [[]];
    }

    function CurrentGsePayload(): (p: seq<byte>)
      reads this
      ensures p == State().Current()
    {
      if manual then web else pendantPayload
    }

    method NotifyIfGsePayloadChanged(previous: seq<byte>) returns (notified: bool)
      modifies this`version, this`history
      ensures notified <==> CurrentGsePayload() != previous
      ensures version == if notified then old(version) + 1 else old(version)
      ensures history == if notified then old(history) + [CurrentGsePayload()] else old(history)
    {
      if CurrentGsePayload() == previous {
        return false;
      }
      version := version + 1;
      history := history + [CurrentGsePayload()];
      return true;
    }

    method SetPendantReceived(payload: seq<byte>, now: int) returns (notified: bool)
      requires State().Valid()
      modifies this
      ensures State() == Apply(old(State()), PendantReceived(payload, now)) && State().Valid()
      ensures notified <==> version != old(version)
    {
      var previous := CurrentGsePayload();
      lastReceival := now;
      pendantPayload := payload;
      notified := NotifyIfGsePayloadChanged(previous);
    }

    method PendantNoDataPolled(now: int) returns (notified: bool, warned: bool)
      requires State().Valid()
      modifies this
      ensures State() == Apply(old(State()), PendantNoData(now)) && State().Valid()
      ensures notified <==> version != old(version)
      ensures warned <==> now - old(lastTimeoutWarning) >= TIMEOUT_WARNING_INTERVAL
      ensures lastTimeoutWarning == if warned then now else old(lastTimeoutWarning)
    {
      var previous := CurrentGsePayload();
      if now - lastReceival >= PENDANT_FALLBACK_TIMEOUT {
        pendantPayload := FALLBACK_PAYLOAD;
      }
      warned := now - lastTimeoutWarning >= TIMEOUT_WARNING_INTERVAL;
      if warned {
        lastTimeoutWarning := now;
      }
      notified := NotifyIfGsePayloadChanged(previous);
    }

    /** process_data_: the first byte names the command and is dropped. */
    method ProcessData()
      modifies this`web, this`command
      ensures old(web) == [] ==> web == [] && command == old(command)
      ensures old(web) != [] ==> web == old(web)[1..] && command == CommandOf(old(web)[0])
    {
      if web == [] {
        return;
      }
      var prefix := web[0];
      web := web[1..];
      if prefix == 123 {
        command := CameraPowerOn;
      } else if prefix == 100 {
        command := CameraPowerOff;
      } else if prefix == 0xFF {
        command := ManualControlOn;
      } else if prefix == 0x00 {
        command := ManualControlOff;
      } else {
        command := Unknown;
      }
    }

    method SetWebsocketReceived(payload: seq<byte>) returns (notified: bool)
      requires State().Valid()
      modifies this
      ensures State() == Apply(old(State()), WebsocketReceived(payload)) && State().Valid()
      ensures payload == [] ==> web == [] && command == old(command)
      ensures payload != [] ==>
        && web == payload[1..]
        && (command.CameraPowerOn? <==> payload[0] == 123) && (command.CameraPowerOff? <==> payload[0] == 100)
        && (command.ManualControlOn? <==> payload[0] == 0xFF) && (command.ManualControlOff? <==> payload[0] == 0)
      ensures notified <==> version != old(version)
    {
      var previous := CurrentGsePayload();
      web := payload;
      ProcessData();
      notified := NotifyIfGsePayloadChanged(previous);
    }

    method SetManualControlMode(mode: bool) returns (notified: bool)
      requires State().Valid()
      modifies this
      ensures State() == Apply(old(State()), SetManualControl(mode)) && State().Valid()
      ensures notified <==> version != old(version)
    {
      if manual == mode {
        return false;
      }
      var previous := CurrentGsePayload();
      manual := mode;
      notified := NotifyIfGsePayloadChanged(previous);
    }

    /** A snapshot is the entry of history its version names. */
    method GetGsePayloadSnapshot() returns (payload: seq<byte>, v: nat)
      requires State().Valid()
      ensures v == version && v < |history| && payload == history[v]
    {
      payload, v := CurrentGsePayload(), version;
    }
  }

  // ---------------------------------------------------------------- whole runs

  function Run(g: Gcs, ops: seq<Op>): Gcs {
    if ops == [] then g else Apply(Run(g, ops[..|ops| - 1]), ops[|ops| - 1])
  }

  /** Over any run history only grows, by one entry a version; two snapshots
      carry the same version exactly when nothing changed between them. */
  lemma {:induction false} RunKeepsHistory(g: Gcs, ops: seq<Op>)
    requires g.Valid()
    ensures Run(g, ops).Valid() && g.history <= Run(g, ops).history
    ensures Run(g, ops).version == g.version <==> Run(g, ops).history == g.history
  {
    if ops == [] {
    } else {
      RunKeepsHistory(g, ops[..|ops| - 1]);
      ApplyValid(Run(g, ops[..|ops| - 1]), ops[|ops| - 1]);
    }
  }

  // -------------------------------------------------------------- the dead man

  /** What one iteration of server_listen_loop does for the pendant. */
  datatype Listen = Message(payload: seq<byte>, at: int) | Silence(at: int)

  function Hear(p: Pendant, l: Listen): Pendant {
    match l
    case Message(payload, at) => Pendant(payload, at)
    case Silence(at) => NoData(p, at)
  }

  function HearAll(p: Pendant, ls: seq<Listen>): Pendant {
    if ls == [] then p else Hear(HearAll(p, ls[..|ls| - 1]), ls[|ls| - 1])
  }

  /** Iterations in order, at most `period` apart, from boot until now. */
  ghost predicate Punctual(boot: int, ls: seq<Listen>, now: int, period: int) {
    if ls == [] then boot <= now <= boot + period
    else
      var last := ls[|ls| - 1].at;
      last <= now <= last + period && Punctual(boot, ls[..|ls| - 1], last, period)
  }

  /** The newest message, or the empty payload of boot. */
  function Newest(boot: int, ls: seq<Listen>): Pendant {
    if ls == [] then Pendant([], boot)
    else match ls[|ls| - 1]
      case Message(payload, at) => Pendant(payload, at)
      case Silence(_) => Newest(boot, ls[..|ls| - 1])
  }

  lemma {:induction false} NewestOrFallback(boot: int, ls: seq<Listen>, now: int, period: int)
    requires Punctual(boot, ls, now, period)
    ensures var p := HearAll(Pendant([], boot), ls);
      && p.lastReceival == Newest(boot, ls).lastReceival <= now
      && (p.payload == Newest(boot, ls).payload || p.payload == FALLBACK_PAYLOAD)
      && (p.payload != FALLBACK_PAYLOAD ==> now - p.lastReceival < PENDANT_FALLBACK_TIMEOUT + period)
      && (now - p.lastReceival < PENDANT_FALLBACK_TIMEOUT ==> p.payload == Newest(boot, ls).payload)
  {
    if ls == [] {
    } else {
      NewestOrFallback(boot, ls[..|ls| - 1], ls[|ls| - 1].at, period);
    }
  }

  /** What the listen loop heard from the pendant, among all operations of a run. */
  function Heard(ops: seq<Op>): seq<Listen> {
    if ops == [] then []
    else
      var rest := Heard(ops[..|ops| - 1]);
      match ops[|ops| - 1]
      case PendantReceived(payload, now) => rest + [Message(payload, now)]
      case PendantNoData(now) => rest + [Silence(now)]
      case _ => rest
  }

  lemma HearSnoc(p: Pendant, ls: seq<Listen>, l: Listen)
    ensures HearAll(p, ls + [l]) == Hear(HearAll(p, ls), l)
  {
    assert (ls + [l])[..|ls|] == ls;
  }

  lemma ApplyHears(g: Gcs, op: Op)
    ensures Apply(g, op).pendant == match op
      case PendantReceived(payload, now) => Hear(g.pendant, Message(payload, now))
      case PendantNoData(now) => Hear(g.pendant, Silence(now))
      case _ => g.pendant
  {
  }

  /** Web commands and mode switches in between do not touch the pendant. */
  lemma {:induction false} RunHears(g: Gcs, ops: seq<Op>)
    ensures Run(g, ops).pendant == HearAll(g.pendant, Heard(ops))
  {
    if ops == [] {
    } else {
      var front, op := Heard(ops[..|ops| - 1]), ops[|ops| - 1];
      RunHears(g, ops[..|ops| - 1]);
      ApplyHears(Run(g, ops[..|ops| - 1]), op);
      if op.PendantReceived? {
        HearSnoc(g.pendant, front, Message(op.payload, op.now));
      } else if op.PendantNoData? {
        HearSnoc(g.pendant, front, Silence(op.now));
      }
    }
  }

  /** The dead-man bound over any run of the shared state, in either mode: with
      listen iterations at most `period` ms apart, the pendant payload is the
      fallback, or else the newest pendant message (the empty payload if there was
      none) and that is less than 5000 + period ms old. A message younger than
      5000 ms is never replaced. The pendant payload is the command in force except
      under manual control, where the web payload is, at any age. */
  lemma DeadManBound(boot: int, ops: seq<Op>, now: int, period: int)
    requires Punctual(boot, Heard(ops), now, period)
    ensures var g, newest := Run(Booted(boot), ops), Newest(boot, Heard(ops));
      && (g.pendant.payload == FALLBACK_PAYLOAD
          || (g.pendant.payload == newest.payload && now - newest.lastReceival < PENDANT_FALLBACK_TIMEOUT + period))
      && (now - newest.lastReceival < PENDANT_FALLBACK_TIMEOUT ==> g.pendant.payload == newest.payload)
      && (g.Current() != g.pendant.payload ==> g.manual && g.Current() == g.web)
  {
    RunHears(Booted(boot), ops);
    NewestOrFallback(boot, Heard(ops), now, period);
  }

  /** When the newest pendant message is 5000 + period ms old, the pendant payload is
      the fallback on any run; it is the command in force exactly when control is not
      manual, or the web happens to say the same. */
  lemma DeadManInForce(boot: int, ops: seq<Op>, now: int, period: int)
    requires Punctual(boot, Heard(ops), now, period)
    requires now - Newest(boot, Heard(ops)).lastReceival >= PENDANT_FALLBACK_TIMEOUT + period
    ensures var g := Run(Booted(boot), ops);
      && g.pendant.payload == FALLBACK_PAYLOAD
      && (g.Current() == FALLBACK_PAYLOAD <==> !g.manual || g.web == FALLBACK_PAYLOAD)
  {
    DeadManBound(boot, ops, now, period);
  }

  /** The same of one poll: after 5000 ms of silence it puts the fallback in force
      exactly then, and before that it changes nothing. */
  lemma PollInForce(g: Gcs, now: int)
    ensures var polled := Apply(g, PendantNoData(now));
      if now - g.pendant.lastReceival >= PENDANT_FALLBACK_TIMEOUT then
        polled.Current() == FALLBACK_PAYLOAD <==> !g.manual || g.web == FALLBACK_PAYLOAD
      else polled == g
  {
  }

  lemma RunSnoc(g: Gcs, ops: seq<Op>, op: Op)
    ensures Run(g, ops + [op]) == Apply(Run(g, ops), op)
  {
    assert (ops + [op])[..|ops|] == ops;
  }

  /** A run from boot that ends with a web payload in force although the pendant was
      never heard and its payload fell back. */
  lemma StaleWebInForce(boot: int, payload: seq<byte>, now: int)
    requires now - boot >= PENDANT_FALLBACK_TIMEOUT
    ensures var g := Run(Booted(boot),
                         [WebsocketReceived([0xFF] + payload), SetManualControl(true), PendantNoData(now)]);
      g.manual && g.pendant.payload == FALLBACK_PAYLOAD && g.Current() == payload
  {
    var web, mode, poll := WebsocketReceived([0xFF] + payload), SetManualControl(true), PendantNoData(now);
    RunSnoc(Booted(boot), [], web);
    RunSnoc(Booted(boot), [web], mode);
    RunSnoc(Booted(boot), [web, mode], poll);
    assert [] + [web] == [web] && [web] + [mode] == [web, mode] && [web, mode] + [poll] == [web, mode, poll];
    assert ([0xFF] + payload)[1..] == payload;
  }

  /** Under manual control a web payload stays in force however long the pendant and
      the web are silent. */
  lemma {:induction false} ManualHasNoDeadMan(g: Gcs, silences: seq<int>)
    requires g.manual
    ensures var later := Run(g, seq(|silences|, i requires 0 <= i < |silences| => PendantNoData(silences[i])));
      later.manual && later.Current() == g.Current()
  {
    if silences == [] {
    } else {
      var front := silences[..|silences| - 1];
      var ops := seq(|silences|, i requires 0 <= i < |silences| => PendantNoData(silences[i]));
      assert ops[..|ops| - 1] == seq(|front|, i requires 0 <= i < |front| => PendantNoData(front[i]));
      ManualHasNoDeadMan(g, front);
    }
  }
}
