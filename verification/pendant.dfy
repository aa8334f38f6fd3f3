/** The control pendant of pendant_state.py: which actuator states a set of held
    inputs commands, and the frame that carries them. */
module Pendant {
  import opened Bits
  import opened ByteParsing
  import opened Payloads
  import opened PayloadEncoding
  import opened Seqs
  import GcsState

  datatype PendantInput =
    | SystemActive | EStop | FillMode | Armed | N2o | Purge | O2 | Ignition
    | F9 | F10 | F11 | F12

  datatype GseState =
    | SysOn | FillSelected | IgnitionSelected | N2oActive | NeutralActive | PurgeActive
    | O2Active | IgnitionActive | Spare9 | Spare10 | Spare11 | Spare12

  const INPUTS: seq<PendantInput> :=
    [SystemActive, EStop, FillMode, Armed, N2o, Purge, O2, Ignition, F9, F10, F11, F12]

  const GSE_STATES: seq<GseState> :=
    [SysOn, FillSelected, IgnitionSelected, N2oActive, NeutralActive, PurgeActive,
     O2Active, IgnitionActive, Spare9, Spare10, Spare11, Spare12]

  /** What a GSE state demands of the inputs, and what makes no sense beside it. */
  datatype Condition =
    Condition(state: GseState, on: seq<PendantInput>, off: seq<PendantInput>, nonsense: seq<PendantInput>)

  const CONDITIONS: seq<Condition> := [
    Condition(SysOn, [SystemActive], [EStop], []),
    Condition(FillSelected, [SystemActive, FillMode], [EStop], [Armed, O2, Ignition]),
    Condition(IgnitionSelected, [SystemActive, Armed], [EStop], [FillMode, N2o, Purge]),
    Condition(N2oActive, [SystemActive, FillMode, N2o], [EStop], [Purge, Armed, O2, Ignition]),
    Condition(NeutralActive, [SystemActive, FillMode], [EStop, N2o, Purge], [Armed, O2, Ignition]),
    Condition(PurgeActive, [SystemActive, FillMode, Purge], [EStop], [N2o, Armed, O2, Ignition]),
    Condition(O2Active, [SystemActive, Armed, O2], [EStop], [FillMode, N2o, Purge]),
    Condition(IgnitionActive, [SystemActive, Armed, Ignition], [EStop], [FillMode, N2o, Purge]),
    Condition(Spare9, [SystemActive, F9], [], []),
    Condition(Spare10, [SystemActive, F10], [], []),
    Condition(Spare11, [SystemActive, F11], [], []),
    Condition(Spare12, [SystemActive, F12], [], [])
  ]

  // ------------------------------------------------------ the meaning of a table

  type Inputs = map<PendantInput, bool>

  predicate Complete(inputs: Inputs) {
    forall k <- INPUTS :: k in inputs
  }

  lemma EveryInput(k: PendantInput)
    ensures k in INPUTS
  {
    match k
    case SystemActive => assert INPUTS[0] == k;
    case EStop => assert INPUTS[1] == k;
    case FillMode => assert INPUTS[2] == k;
    case Armed => assert INPUTS[3] == k;
    case N2o => assert INPUTS[4] == k;
    case Purge => assert INPUTS[5] == k;
    case O2 => assert INPUTS[6] == k;
    case Ignition => assert INPUTS[7] == k;
    case F9 => assert INPUTS[8] == k;
    case F10 => assert INPUTS[9] == k;
    case F11 => assert INPUTS[10] == k;
    case F12 => assert INPUTS[11] == k;
  }

  predicate Held(inputs: Inputs, k: PendantInput) {
    k in inputs && inputs[k]
  }

  predicate Demanded(c: Condition, inputs: Inputs) {
    && (forall k <- c.on :: Held(inputs, k))
    && (forall k <- c.off :: !Held(inputs, k))
  }

  /** A demanded state together with an input that makes no sense beside it. */
  predicate Clashes(c: Condition, inputs: Inputs) {
    Demanded(c, inputs) && exists k <- c.nonsense :: Held(inputs, k)
  }

  predicate Distinct(table: seq<Condition>) {
    forall i, j :: 0 <= i < j < |table| ==> table[i].state != table[j].state
  }

  function SysOnOnly(): map<GseState, bool> {
    map s | s in GSE_STATES :: s == SysOn
  }

  /** The states a table gives: only the system state if anything clashes, and
      otherwise every state by its own demands. */
  predicate Gives(table: seq<Condition>, inputs: Inputs, gse: map<GseState, bool>) {
    if exists c <- table :: Clashes(c, inputs) then gse == SysOnOnly()
    else
      && (forall c <- table :: c.state in gse && (gse[c.state] <==> Demanded(c, inputs)))
      && (forall s <- gse.Keys :: exists c <- table :: c.state == s)
  }

  class PendantState {
    var states: Inputs

    ghost predicate Valid()
      reads this
    {
      Complete(states)
    }

    /** Missing inputs count as released. */
    constructor (given: Inputs)
      ensures Valid() && states.Keys == set k | k in INPUTS
      ensures forall k :: Held(states, k) <==> Held(given, k)
    {
      var all: Inputs := map[];
      for i := 0 to |INPUTS|
        invariant all.Keys == set k | k in INPUTS[..i]
        invariant forall k <- INPUTS[..i] :: all[k] <==> Held(given, k)
      {
        assert INPUTS[..i + 1] == INPUTS[..i] + [INPUTS[i]];
        all := all[INPUTS[i] := INPUTS[i] in given && given[INPUTS[i]]];
      }
      states := all;
      assert INPUTS[..|INPUTS|] == INPUTS;
      forall k
        ensures k in INPUTS
      {
        EveryInput(k);
      }
    }

    /** The nested loops, with the early return on the first clash. */
    method GetGseStates(table: seq<Condition>) returns (gse: map<GseState, bool>)
      requires Valid() && Distinct(table)
      ensures Gives(table, states, gse)
    {
      gse := map[];
      for i := 0 to |table|
        invariant forall j :: 0 <= j < i ==> !Clashes(table[j], states)
        invariant forall j :: 0 <= j < i ==>
          table[j].state in gse && (gse[table[j].state] <==> Demanded(table[j], states))
        invariant forall s <- gse.Keys :: exists j :: 0 <= j < i && table[j].state == s
      {
        var c := table[i];
        var demanded := Demands(c);
        if demanded {
          for k := 0 to |c.nonsense|
            invariant forall m :: 0 <= m < k ==> !Held(states, c.nonsense[m])
          {
            EveryInput(c.nonsense[k]);
            if states[c.nonsense[k]] {
              assert c.nonsense[k] in c.nonsense && Clashes(c, states);
              return SysOnOnly();
            }
          }
        }
        gse := gse[c.state := demanded];
      }
    }

    method Demands(c: Condition) returns (demanded: bool)
      requires Valid()
      ensures demanded <==> Demanded(c, states)
    {
      demanded := true;
      for k := 0 to |c.on|
        invariant demanded && (forall m :: 0 <= m < k ==> Held(states, c.on[m]))
      {
        EveryInput(c.on[k]);
        if !states[c.on[k]] {
          assert c.on[k] in c.on && !Demanded(c, states);
          demanded := false;
          break;
        }
      }
      for k := 0 to |c.off|
        invariant demanded ==> forall m <- c.on :: Held(states, m)
        invariant demanded ==> forall m :: 0 <= m < k ==> !Held(states, c.off[m])
        invariant !demanded ==> !Demanded(c, states)
      {
        EveryInput(c.off[k]);
        if states[c.off[k]] {
          assert c.off[k] in c.off && !Demanded(c, states);
          demanded := false;
          break;
        }
      }
    }
  }

  // ------------------------------------------------------------- the real table

  /** The interlock in plain terms, as the byte of flags: nothing without the
      system or under the emergency stop, only the system on a clash of fill and
      ignition sides or of N2O and purge, and otherwise one side's command. */
  function Command(p: Inputs): byte {
    if !Held(p, SystemActive) || Held(p, EStop) then 0x00
    else if Held(p, FillMode) && (Held(p, Armed) || Held(p, O2) || Held(p, Ignition)) then 0x01
    else if Held(p, Armed) && (Held(p, N2o) || Held(p, Purge)) then 0x01
    else if Held(p, FillMode) then
      if Held(p, N2o) && Held(p, Purge) then 0x01
      else if Held(p, N2o) then 0x13
      else if Held(p, Purge) then 0x83
      else 0x23
    else if Held(p, Armed) then 0x05 + (if Held(p, O2) then 0x40 else 0) + (if Held(p, Ignition) then 0x08 else 0)
    else 0x01
  }

  lemma FillDemands(p: Inputs)
    ensures var on := Held(p, SystemActive) && !Held(p, EStop);
      && (Demanded(CONDITIONS[1], p) <==> on && Held(p, FillMode))
      && (Demanded(CONDITIONS[3], p) <==> on && Held(p, FillMode) && Held(p, N2o))
      && (Demanded(CONDITIONS[4], p) <==> on && Held(p, FillMode) && !Held(p, N2o) && !Held(p, Purge))
      && (Demanded(CONDITIONS[5], p) <==> on && Held(p, FillMode) && Held(p, Purge))
  {
  }

  lemma IgnitionDemands(p: Inputs)
    ensures var on := Held(p, SystemActive) && !Held(p, EStop);
      && (Demanded(CONDITIONS[0], p) <==> on)
      && (Demanded(CONDITIONS[2], p) <==> on && Held(p, Armed))
      && (Demanded(CONDITIONS[6], p) <==> on && Held(p, Armed) && Held(p, O2))
      && (Demanded(CONDITIONS[7], p) <==> on && Held(p, Armed) && Held(p, Ignition))
  {
  }

  predicate Conflict(p: Inputs) {
    && Held(p, SystemActive) && !Held(p, EStop)
    && (|| (Held(p, FillMode) && (Held(p, Armed) || Held(p, O2) || Held(p, Ignition)))
        || (Held(p, Armed) && (Held(p, N2o) || Held(p, Purge)))
        || (Held(p, FillMode) && Held(p, N2o) && Held(p, Purge)))
  }

  /** What makes no sense beside each side's states. */
  lemma FillNonsense(p: Inputs)
    ensures var ignition := Held(p, Armed) || Held(p, O2) || Held(p, Ignition);
      && ((exists k <- CONDITIONS[1].nonsense :: Held(p, k)) <==> ignition)
      && ((exists k <- CONDITIONS[3].nonsense :: Held(p, k)) <==> Held(p, Purge) || ignition)
      && ((exists k <- CONDITIONS[4].nonsense :: Held(p, k)) <==> ignition)
      && ((exists k <- CONDITIONS[5].nonsense :: Held(p, k)) <==> Held(p, N2o) || ignition)
  {
  }

  lemma IgnitionNonsense(p: Inputs)
    ensures var fill := Held(p, FillMode) || Held(p, N2o) || Held(p, Purge);
      && ((exists k <- CONDITIONS[2].nonsense :: Held(p, k)) <==> fill)
      && ((exists k <- CONDITIONS[6].nonsense :: Held(p, k)) <==> fill)
      && ((exists k <- CONDITIONS[7].nonsense :: Held(p, k)) <==> fill)
  {
  }

  /** The system state and the spare states have no nonsense beside them. */
  lemma MayClash(p: Inputs, i: nat)
    requires i < |CONDITIONS|
    ensures Clashes(CONDITIONS[i], p) ==> i in {1, 2, 3, 4, 5, 6, 7}
  {
  }

  lemma ClashIsConflict(p: Inputs, i: nat)
    requires i < |CONDITIONS| && Clashes(CONDITIONS[i], p)
    ensures Conflict(p)
  {
    MayClash(p, i);
    if i in {1, 3, 4, 5} {
      FillDemands(p);
      FillNonsense(p);
    } else {
      IgnitionDemands(p);
      IgnitionNonsense(p);
    }
  }

  lemma ConflictClashes(p: Inputs) returns (i: nat)
    requires Conflict(p)
    ensures i < |CONDITIONS| && Clashes(CONDITIONS[i], p)
  {
    if Held(p, FillMode) {
      FillDemands(p);
      FillNonsense(p);
      i := if Held(p, Armed) || Held(p, O2) || Held(p, Ignition) then 1 else 3;
    } else {
      IgnitionDemands(p);
      IgnitionNonsense(p);
      i := 2;
    }
  }

  lemma RealClashes(p: Inputs)
    ensures (exists c <- CONDITIONS :: Clashes(c, p)) <==> Conflict(p)
  {
    if Conflict(p) {
      var i := ConflictClashes(p);
      assert CONDITIONS[i] in CONDITIONS;
    }
    forall i | 0 <= i < |CONDITIONS| && Clashes(CONDITIONS[i], p)
      ensures Conflict(p)
    {
      ClashIsConflict(p, i);
    }
  }

  // ------------------------------------------------------------------- the frame

  function FlagFields(bs: seq<bool>): seq<Field> {
    seq(|bs|, i requires 0 <= i < |bs| => Flag(bs[i]))
  }

  /** Every state the frame carries has a value. */
  predicate Full(gse: map<GseState, bool>) {
    && PurgeActive in gse && O2Active in gse && NeutralActive in gse && N2oActive in gse
    && IgnitionActive in gse && IgnitionSelected in gse && FillSelected in gse && SysOn in gse
  }

  /** state_set_flag_s2p1's order of flags; the spare states are not sent. */
  function Flags(gse: map<GseState, bool>): seq<bool>
    requires Full(gse)
  {
    [gse[PurgeActive], gse[O2Active], gse[NeutralActive], gse[N2oActive],
     gse[IgnitionActive], gse[IgnitionSelected], gse[FillSelected], gse[SysOn]]
  }

  /** The weight of a state in the flag byte. */
  function Weight(s: GseState): nat {
    match s
    case PurgeActive => 0x80
    case O2Active => 0x40
    case NeutralActive => 0x20
    case N2oActive => 0x10
    case IgnitionActive => 0x08
    case IgnitionSelected => 0x04
    case FillSelected => 0x02
    case SysOn => 0x01
    case _ => 0x100
  }

  function Value(gse: map<GseState, bool>, s: GseState): nat
    requires s in gse
  {
    if gse[s] then Weight(s) else 0
  }

  lemma OneFlagBit(on: bool)
    ensures ToBits(Flag(on).value, 1) == [if on then 1 else 0]
  {
    var v := Flag(on).value;
    assert ToBits(v, 1) == ToBits(v / 2, 0) + [v % 2];
  }

  lemma {:induction false} FlagBits(bs: seq<bool>)
    ensures InRange(FlagFields(bs))
    ensures FieldBits(FlagFields(bs)) == seq(|bs|, i requires 0 <= i < |bs| => if bs[i] then 1 else 0)
  {
    assert Pow2(1) == 2;
    if bs == [] {
    } else {
      FlagBits(bs[1..]);
      assert FlagFields(bs)[0] == Flag(bs[0]) && FlagFields(bs)[1..] == FlagFields(bs[1..]);
      OneFlagBit(bs[0]);
    }
  }

  lemma TwoMoreBits(b: seq<bit>, x: bit, y: bit)
    ensures FromBits(b + [x, y]) == 4 * FromBits(b) + 2 * (x as int) + y
  {
    assert (b + [x, y])[..|b| + 1] == b + [x] && (b + [x])[..|b|] == b;
  }

  lemma EightBits(b: seq<bit>)
    requires |b| == 8
    ensures FromBits(b) == 0x80 * (b[0] as int) + 0x40 * (b[1] as int) + 0x20 * (b[2] as int) + 0x10 * (b[3] as int)
                           + 0x08 * (b[4] as int) + 0x04 * (b[5] as int) + 0x02 * (b[6] as int) + b[7]
  {
    TwoMoreBits([], b[0], b[1]);
    TwoMoreBits([] + [b[0], b[1]], b[2], b[3]);
    TwoMoreBits([] + [b[0], b[1]] + [b[2], b[3]], b[4], b[5]);
    TwoMoreBits([] + [b[0], b[1]] + [b[2], b[3]] + [b[4], b[5]], b[6], b[7]);
    assert b == [] + [b[0], b[1]] + [b[2], b[3]] + [b[4], b[5]] + [b[6], b[7]];
  }

  function FlagSum(gse: map<GseState, bool>): nat
    requires Full(gse)
  {
    Value(gse, PurgeActive) + Value(gse, O2Active) + Value(gse, NeutralActive) + Value(gse, N2oActive)
    + Value(gse, IgnitionActive) + Value(gse, IgnitionSelected) + Value(gse, FillSelected) + Value(gse, SysOn)
  }

  lemma FlagNumber(b: seq<bit>, bs: seq<bool>)
    requires |b| == |bs| == 8 && forall i :: 0 <= i < 8 ==> b[i] == if bs[i] then 1 else 0
    ensures FromBits(b) ==
      (if bs[0] then 0x80 else 0) + (if bs[1] then 0x40 else 0) + (if bs[2] then 0x20 else 0)
      + (if bs[3] then 0x10 else 0) + (if bs[4] then 0x08 else 0) + (if bs[5] then 0x04 else 0)
      + (if bs[6] then 0x02 else 0) + if bs[7] then 0x01 else 0
  {
    EightBits(b);
  }

  lemma OneByteNumber(b: byte)
    ensures FromBits(BitsOf([b])) == b
  {
    PowValues();
    FromToBits(b, 8);
    assert [b][1..] == [];
    assert BitsOf([b]) == ToBits(b, 8);
  }

  lemma FlagByteNumber(bs: seq<bool>)
    requires |bs| == 8
    ensures InRange(FlagFields(bs)) && |FieldBits(FlagFields(bs))| == 8
    ensures FlagByte(FlagFields(bs)) == [
      (if bs[0] then 0x80 else 0) + (if bs[1] then 0x40 else 0) + (if bs[2] then 0x20 else 0)
      + (if bs[3] then 0x10 else 0) + (if bs[4] then 0x08 else 0) + (if bs[5] then 0x04 else 0)
      + (if bs[6] then 0x02 else 0) + if bs[7] then 0x01 else 0]
  {
    var fs := FlagFields(bs);
    FlagBits(bs);
    FlagNumber(FieldBits(fs), bs);
    OneByteNumber(FlagByte(fs)[0]);
    assert FlagByte(fs) == [FlagByte(fs)[0]];
  }

  lemma FlagsNumber(gse: map<GseState, bool>)
    requires Full(gse)
    ensures InRange(FlagFields(Flags(gse))) && |FieldBits(FlagFields(Flags(gse)))| == 8
    ensures FlagByte(FlagFields(Flags(gse))) == [FlagSum(gse)]
  {
    FlagByteNumber(Flags(gse));
  }

  function StateSetFlag(gse: map<GseState, bool>): (s: seq<byte>)
    requires Full(gse)
    ensures s == [FlagSum(gse)]
  {
    FlagsNumber(gse);
    FlagByte(FlagFields(Flags(gse)))
  }

  /** `~data[0] & 0xFF`. */
  function InvertByte(b: byte): byte {
    0xFF - b
  }

  lemma SystemOnly()
    ensures Full(SysOnOnly()) && FlagSum(SysOnOnly()) == 0x01
  {
  }

  predicate GivenByDemand(c: Condition, p: Inputs, gse: map<GseState, bool>) {
    c.state in gse && (gse[c.state] <==> Demanded(c, p))
  }

  lemma GivesAt(table: seq<Condition>, p: Inputs, gse: map<GseState, bool>, i: nat)
    requires Gives(table, p, gse) && i < |table| && !(exists c <- table :: Clashes(c, p))
    ensures GivenByDemand(table[i], p, gse)
  {
    assert table[i] in table;
  }

  /** Without a conflict every state is what its own inputs ask for. */
  predicate AsAsked(p: Inputs, gse: map<GseState, bool>)
    requires Full(gse)
  {
    var on := Held(p, SystemActive) && !Held(p, EStop);
    && (gse[SysOn] <==> on)
    && (gse[FillSelected] <==> on && Held(p, FillMode))
    && (gse[IgnitionSelected] <==> on && Held(p, Armed))
    && (gse[N2oActive] <==> on && Held(p, FillMode) && Held(p, N2o))
    && (gse[NeutralActive] <==> on && Held(p, FillMode) && !Held(p, N2o) && !Held(p, Purge))
    && (gse[PurgeActive] <==> on && Held(p, FillMode) && Held(p, Purge))
    && (gse[O2Active] <==> on && Held(p, Armed) && Held(p, O2))
    && (gse[IgnitionActive] <==> on && Held(p, Armed) && Held(p, Ignition))
  }

  lemma DemandsAreAsked(p: Inputs, gse: map<GseState, bool>)
    requires forall i :: 0 <= i < |CONDITIONS| ==> GivenByDemand(CONDITIONS[i], p, gse)
    ensures Full(gse) && AsAsked(p, gse)
  {
    FillDemands(p);
    IgnitionDemands(p);
    assert GivenByDemand(CONDITIONS[0], p, gse) && GivenByDemand(CONDITIONS[1], p, gse);
    assert GivenByDemand(CONDITIONS[2], p, gse) && GivenByDemand(CONDITIONS[3], p, gse);
    assert GivenByDemand(CONDITIONS[4], p, gse) && GivenByDemand(CONDITIONS[5], p, gse);
    assert GivenByDemand(CONDITIONS[6], p, gse) && GivenByDemand(CONDITIONS[7], p, gse);
  }

  lemma AskedIsCommanded(p: Inputs, gse: map<GseState, bool>)
    requires Full(gse) && AsAsked(p, gse) && !Conflict(p)
    ensures FlagSum(gse) == Command(p)
  {
  }

  /** What the real table gives is the interlock's command. */
  lemma RealTable(p: Inputs, gse: map<GseState, bool>)
    requires Gives(CONDITIONS, p, gse)
    ensures Full(gse)
    ensures FlagSum(gse) == Command(p)
  {
    RealClashes(p);
    if exists c <- CONDITIONS :: Clashes(c, p) {
      SystemOnly();
    } else {
      forall i | 0 <= i < |CONDITIONS|
        ensures GivenByDemand(CONDITIONS[i], p, gse)
      {
        GivesAt(CONDITIONS, p, gse, i);
      }
      DemandsAreAsked(p, gse);
      AskedIsCommanded(p, gse);
    }
  }

  lemma JoinThreeBytes(a: byte, b: byte, c: byte)
    ensures Flatten([[a], [b], [c]]) == [a, b, c]
  {
    assert Flatten([[c]][1..]) == [] && Flatten([[c]]) == [c];
    assert [[b], [c]][1..] == [[c]] && Flatten([[b], [c]]) == [b] + [c];
    assert [[a], [b], [c]][1..] == [[b], [c]];
  }

  /** GCStoGSEStateCMD and its external bytes. */
  method BuildFrame(gse: map<GseState, bool>) returns (frame: seq<byte>)
    requires Full(gse)
    ensures FlagSum(gse) <= 0xFF && frame == [0x02, FlagSum(gse), InvertByte(FlagSum(gse)), 0x00]
  {
    var flags := StateSetFlag(gse);
    var r := GetPayloadBytes(0x02, 0, 0, [flags, [InvertByte(flags[0])], [0]], true);
    frame := r.value;
    JoinThreeBytes(flags[0], InvertByte(flags[0]), 0);
  }

  function CommandFrame(p: Inputs): seq<byte> {
    [0x02, Command(p), InvertByte(Command(p)), 0x00]
  }

  /** One turn of the pendant daemon: the frame sent for a state table. */
  method EmitCommand(pendant: PendantState) returns (frame: seq<byte>)
    requires pendant.Valid()
    ensures frame == CommandFrame(pendant.states)
  {
    var gse := pendant.GetGseStates(CONDITIONS);
    RealTable(pendant.states, gse);
    frame := BuildFrame(gse);
  }

  // ------------------------------------------------------------------- interlocks

  predicate BitOn(b: nat, s: GseState) {
    b / Weight(s) % 2 == 1
  }

  /** The actuator bit the ground equipment reads from a frame. */
  predicate Actuates(frame: seq<byte>, s: GseState)
    requires |frame| == 4
  {
    BitOn(frame[1], s)
  }

  const COMMANDS: set<nat> := {0x00, 0x01, 0x13, 0x83, 0x23, 0x05, 0x45, 0x0D, 0x4D}

  /** The nine commands, by their bits. */
  lemma FillBits(b: nat)
    requires b in COMMANDS
    ensures BitOn(b, SysOn) <==> b != 0x00
    ensures BitOn(b, FillSelected) <==> b in {0x13, 0x83, 0x23}
    ensures BitOn(b, N2oActive) <==> b == 0x13
    ensures BitOn(b, NeutralActive) <==> b == 0x23
    ensures BitOn(b, PurgeActive) <==> b == 0x83
  {
  }

  lemma IgnitionBits(b: nat)
    requires b in COMMANDS
    ensures BitOn(b, IgnitionSelected) <==> b in {0x05, 0x45, 0x0D, 0x4D}
    ensures BitOn(b, IgnitionActive) <==> b in {0x0D, 0x4D}
    ensures BitOn(b, O2Active) <==> b in {0x45, 0x4D}
  {
  }

  /** For every pendant position, the frame that goes out: complementary flag
      bytes; fill side and ignition side never together; N2O and purge never
      together; fill mode with exactly one valve position; valves only in fill
      mode, oxygen and ignition only when armed, and nothing without the system. */
  lemma Interlock(p: Inputs)
    ensures var f := CommandFrame(p);
      && f[1] as int + f[2] as int == 0xFF
      && !((Actuates(f, FillSelected)
            || Actuates(f, N2oActive) || Actuates(f, NeutralActive) || Actuates(f, PurgeActive))
           && (Actuates(f, IgnitionSelected) || Actuates(f, O2Active) || Actuates(f, IgnitionActive)))
      && !(Actuates(f, N2oActive) && Actuates(f, PurgeActive))
      && (Actuates(f, FillSelected)
          <==> Actuates(f, N2oActive) || Actuates(f, NeutralActive) || Actuates(f, PurgeActive))
      && !(Actuates(f, NeutralActive) && (Actuates(f, N2oActive) || Actuates(f, PurgeActive)))
      && (Actuates(f, O2Active) || Actuates(f, IgnitionActive) ==> Actuates(f, IgnitionSelected))
      && (f[1] != 0 ==> Actuates(f, SysOn))
  {
    FillBits(Command(p));
    IgnitionBits(Command(p));
  }

  /** Nothing is actuated that its own inputs do not hold. */
  lemma OnlyWhatIsHeld(p: Inputs)
    ensures var f := CommandFrame(p);
      && (Actuates(f, SysOn) <==> Held(p, SystemActive) && !Held(p, EStop))
      && (Actuates(f, FillSelected) ==> Held(p, FillMode) && !Held(p, Armed))
      && (Actuates(f, N2oActive) ==> Held(p, FillMode) && Held(p, N2o) && !Held(p, Purge))
      && (Actuates(f, PurgeActive) ==> Held(p, FillMode) && Held(p, Purge) && !Held(p, N2o))
      && (Actuates(f, IgnitionActive) ==> Held(p, Armed) && Held(p, Ignition) && !Held(p, FillMode))
      && (Actuates(f, O2Active) ==> Held(p, Armed) && Held(p, O2) && !Held(p, FillMode))
  {
    FillBits(Command(p));
    IgnitionBits(Command(p));
  }

  /** The frame is the server's dead-man frame exactly when the emergency stop is
      held or the system is not active. */
  lemma StopIsFallback(p: Inputs)
    ensures CommandFrame(p) == GcsState.FALLBACK_PAYLOAD <==> Held(p, EStop) || !Held(p, SystemActive)
  {
    assert CommandFrame(p)[1] == Command(p);
  }

  lemma SpareDemands(p: Inputs)
    ensures var on := Held(p, SystemActive);
      && (Demanded(CONDITIONS[8], p) <==> on && Held(p, F9))
      && (Demanded(CONDITIONS[9], p) <==> on && Held(p, F10))
      && (Demanded(CONDITIONS[10], p) <==> on && Held(p, F11))
      && (Demanded(CONDITIONS[11], p) <==> on && Held(p, F12))
  {
  }

  /** The spare states follow their keys. */
  predicate SparesAsKeys(p: Inputs, gse: map<GseState, bool>) {
    var on := Held(p, SystemActive);
    && Spare9 in gse && (gse[Spare9] <==> on && Held(p, F9))
    && Spare10 in gse && (gse[Spare10] <==> on && Held(p, F10))
    && Spare11 in gse && (gse[Spare11] <==> on && Held(p, F11))
    && Spare12 in gse && (gse[Spare12] <==> on && Held(p, F12))
  }

  lemma DemandedSpares(p: Inputs, gse: map<GseState, bool>)
    requires forall i :: 0 <= i < |CONDITIONS| ==> GivenByDemand(CONDITIONS[i], p, gse)
    ensures SparesAsKeys(p, gse)
  {
    SpareDemands(p);
    assert GivenByDemand(CONDITIONS[8], p, gse) && GivenByDemand(CONDITIONS[9], p, gse);
    assert GivenByDemand(CONDITIONS[10], p, gse) && GivenByDemand(CONDITIONS[11], p, gse);
  }

  predicate Spare(s: GseState) {
    s.Spare9? || s.Spare10? || s.Spare11? || s.Spare12?
  }

  predicate AllOff(gse: map<GseState, bool>) {
    forall s <- gse.Keys :: !gse[s]
  }

  predicate OnlySparesOn(gse: map<GseState, bool>) {
    forall s <- gse.Keys :: gse[s] ==> Spare(s)
  }

  lemma StopLeavesOnlySpares(p: Inputs, i: nat)
    requires i < |CONDITIONS| && Held(p, EStop) && Demanded(CONDITIONS[i], p)
    ensures Spare(CONDITIONS[i].state)
  {
    FillDemands(p);
    IgnitionDemands(p);
    assert i !in {0, 1, 2, 3, 4, 5, 6, 7};
  }

  lemma StoppedStates(p: Inputs, gse: map<GseState, bool>)
    requires Gives(CONDITIONS, p, gse) && Held(p, EStop)
    ensures SparesAsKeys(p, gse) && OnlySparesOn(gse)
  {
    RealClashes(p);
    forall i | 0 <= i < |CONDITIONS|
      ensures GivenByDemand(CONDITIONS[i], p, gse) && (Demanded(CONDITIONS[i], p) ==> Spare(CONDITIONS[i].state))
    {
      GivesAt(CONDITIONS, p, gse, i);
      if Demanded(CONDITIONS[i], p) {
        StopLeavesOnlySpares(p, i);
      }
    }
    DemandedSpares(p, gse);
  }

  lemma AllOffByKeys(p: Inputs, gse: map<GseState, bool>)
    requires SparesAsKeys(p, gse) && OnlySparesOn(gse)
    ensures AllOff(gse)
      <==> !(Held(p, SystemActive) && (Held(p, F9) || Held(p, F10) || Held(p, F11) || Held(p, F12)))
  {
  }

  /** The emergency stop turns every state off but the four spare ones, which still
      follow their keys; so all states are off exactly when the system is inactive or
      none of the four keys is held. No frame shows a spare state. */
  lemma SparesIgnoreTheStop(p: Inputs, gse: map<GseState, bool>)
    requires Gives(CONDITIONS, p, gse) && Held(p, EStop)
    ensures SparesAsKeys(p, gse) && OnlySparesOn(gse)
    ensures AllOff(gse)
      <==> !(Held(p, SystemActive) && (Held(p, F9) || Held(p, F10) || Held(p, F11) || Held(p, F12)))
  {
    StoppedStates(p, gse);
    AllOffByKeys(p, gse);
  }
}
