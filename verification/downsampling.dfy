/** Telemetry downsampling of run_simulation.py: rows sorted by time are cut into
    windows of one timeout length, and one row is kept from each. */
module Downsampling {
  import opened Wrappers
  import opened Seqs

  /** A flight state; None is also the table's not-a-number, which the scoring
      treats the same way. */
  type State = Option<int>

  datatype Row = Row(time: real, state: State, columns: seq<real>)

  datatype Scored = Scored(row: Row, importance: int)

  const MS_PER_SECOND := 1000.0

  function Ms(s: Scored): real {
    s.row.time * MS_PER_SECOND
  }

  function Importance(row: Row, trailer: Option<Row>): int {
    if trailer.None? then 1
    else if trailer.value.state.None? || trailer.value.state != row.state then 1
    else 0
  }

  function Rows(w: seq<Scored>): seq<Row> {
    seq(|w|, k requires 0 <= k < |w| => w[k].row)
  }

  /** The last row of the window before. */
  function Trailer(windows: seq<seq<Scored>>, i: nat): Option<Row>
    requires i <= |windows| && AllNonEmpty(windows)
  {
    if i == 0 then None else Some(windows[i - 1][|windows[i - 1]| - 1].row)
  }

  // -------------------------------------------------------------------- windows

  /** Rows at most one timeout after the first. */
  predicate IsWindow(w: seq<Scored>, timeout: real) {
    w != [] && forall k :: 1 <= k < |w| ==> Ms(w[k]) <= Ms(w[0]) + timeout
  }

  predicate ScoredAgainst(w: seq<Scored>, trailer: Option<Row>) {
    forall k :: 0 <= k < |w| ==> w[k].importance == Importance(w[k].row, trailer)
  }

  predicate StartsAfter(w: seq<Scored>, before: seq<Scored>, timeout: real)
    requires w != [] && before != []
  {
    Ms(w[0]) > Ms(before[0]) + timeout
  }

  predicate WindowAt(windows: seq<seq<Scored>>, i: nat, timeout: real)
    requires i < |windows| && AllNonEmpty(windows)
  {
    && IsWindow(windows[i], timeout)
    && (i > 0 ==> StartsAfter(windows[i], windows[i - 1], timeout))
    && ScoredAgainst(windows[i], Trailer(windows, i))
  }

  /** Windows that are non-empty, start only where the one before cannot reach,
      and are scored against the row just before them. */
  predicate AreWindows(windows: seq<seq<Scored>>, timeout: real) {
    AllNonEmpty(windows) && forall i :: 0 <= i < |windows| ==> WindowAt(windows, i, timeout)
  }

  /** The windows of a table: they concatenate to it. */
  predicate Partition(rows: seq<Row>, windows: seq<seq<Scored>>, timeout: real) {
    AreWindows(windows, timeout) && Rows(Flatten(windows)) == rows
  }

  /** The window being filled. */
  predicate OpenWindow(windows: seq<seq<Scored>>, current: seq<Scored>, groupStart: real, timeout: real)
    requires AreWindows(windows, timeout)
  {
    && IsWindow(current, timeout) && groupStart == Ms(current[0])
    && ScoredAgainst(current, Trailer(windows, |windows|))
    && (windows != [] ==> groupStart > Ms(windows[|windows| - 1][0]) + timeout)
  }

  lemma ExtendWindow(windows: seq<seq<Scored>>, current: seq<Scored>, s: Scored, groupStart: real, timeout: real)
    requires AreWindows(windows, timeout) && OpenWindow(windows, current, groupStart, timeout)
    requires s.importance == Importance(s.row, Trailer(windows, |windows|)) && Ms(s) <= groupStart + timeout
    ensures OpenWindow(windows, current + [s], groupStart, timeout)
    ensures Rows(current + [s]) == Rows(current) + [s.row]
  {
  }

  lemma StartWindow(windows: seq<seq<Scored>>, current: seq<Scored>, s: Scored, groupStart: real, timeout: real)
    requires AreWindows(windows, timeout) && OpenWindow(windows, current, groupStart, timeout)
    requires AreWindows(windows + [current], timeout) && Ms(s) > groupStart + timeout
    requires s.importance == Importance(s.row, Some(current[|current| - 1].row))
    ensures OpenWindow(windows + [current], [s], Ms(s), timeout)
    ensures Trailer(windows + [current], |windows| + 1) == Some(current[|current| - 1].row)
    ensures Rows([s]) == [s.row]
  {
  }

  lemma RowsConcat(a: seq<Scored>, b: seq<Scored>)
    ensures Rows(a + b) == Rows(a) + Rows(b)
  {
  }

  lemma CloseWindow(windows: seq<seq<Scored>>, current: seq<Scored>, groupStart: real, timeout: real)
    requires AreWindows(windows, timeout) && current != []
    requires OpenWindow(windows, current, groupStart, timeout)
    ensures AreWindows(windows + [current], timeout)
    ensures Rows(Flatten(windows + [current])) == Rows(Flatten(windows)) + Rows(current)
  {
    var all := windows + [current];
    FlattenSnoc(windows, current);
    RowsConcat(Flatten(windows), current);
    forall i | 0 <= i < |all|
      ensures WindowAt(all, i, timeout)
    {
      assert Trailer(all, i) == Trailer(windows, i);
      assert i < |windows| ==> WindowAt(windows, i, timeout);
    }
  }

  method PartitionIntoWindows(rows: seq<Row>, timeout: real) returns (windows: seq<seq<Scored>>)
    ensures Partition(rows, windows, timeout)
  {
    windows := [];
    var current: seq<Scored> := [];
    var groupStart := 0.0;
    var trailer: Option<Row> := None;
    for n := 0 to |rows|
      invariant AreWindows(windows, timeout) && trailer == Trailer(windows, |windows|)
      invariant Rows(Flatten(windows)) + Rows(current) == rows[..n]
      invariant if current == [] then n == 0 && windows == [] else OpenWindow(windows, current, groupStart, timeout)
    {
      var row := rows[n];
      var scored := Scored(row, Importance(row, trailer));
      var rowTime := row.time * MS_PER_SECOND;
      assert rows[..n + 1] == rows[..n] + [row];
      if current == [] {
        current := [scored];
        groupStart := rowTime;
      } else if rowTime <= groupStart + timeout {
        ExtendWindow(windows, current, scored, groupStart, timeout);
        Associative(Rows(Flatten(windows)), Rows(current), [row]);
        current := current + [scored];
      } else {
        CloseWindow(windows, current, groupStart, timeout);
        scored := Scored(row, Importance(row, Some(current[|current| - 1].row)));
        StartWindow(windows, current, scored, groupStart, timeout);
        windows := windows + [current];
        trailer := Some(current[|current| - 1].row);
        current := [scored];
        groupStart := rowTime;
      }
    }
    if current != [] {
      CloseWindow(windows, current, groupStart, timeout);
      windows := windows + [current];
    }
    assert rows[..|rows|] == rows;
  }

  // ------------------------------------------------------------------ selection

  /** `max(window, key=importance)`: the first row of maximal importance. */
  function Pick(w: seq<Scored>): (k: nat)
    requires w != []
    ensures k < |w|
    ensures forall j :: 0 <= j < |w| ==> w[j].importance <= w[k].importance
    ensures forall j :: 0 <= j < k ==> w[j].importance < w[k].importance
  {
    if |w| == 1 then 0
    else
      var k := Pick(w[..|w| - 1]);
      if w[|w| - 1].importance > w[k].importance then |w| - 1 else k
  }

  function Selected(windows: seq<seq<Scored>>): (rows: seq<Row>)
    requires AllNonEmpty(windows)
    ensures |rows| == |windows|
  {
    seq(|windows|, i requires 0 <= i < |windows| => windows[i][Pick(windows[i])].row)
  }

  /** Entries are replaced in place from left to right. */
  method RemoveExtraPackets(windows: seq<seq<Scored>>) returns (rows: seq<Row>)
    requires AllNonEmpty(windows)
    ensures rows == Selected(windows)
  {
    rows := [];
    for i := 0 to |windows|
      invariant |rows| == i && forall j :: 0 <= j < i ==> rows[j] == windows[j][Pick(windows[j])].row
    {
      rows := rows + [windows[i][Pick(windows[i])].row];
    }
  }

  // -------------------------------------------------------------------- spacing

  predicate Sorted(rows: seq<Row>) {
    forall i, j :: 0 <= i <= j < |rows| ==> rows[i].time <= rows[j].time
  }

  lemma {:induction false} Position(windows: seq<seq<Scored>>, j: nat, l: nat) returns (n: nat)
    requires j < |windows| && l < |windows[j]|
    ensures n < |Flatten(windows)| && Flatten(windows)[n] == windows[j][l]
  {
    if j == 0 {
      n := l;
    } else {
      var m := Position(windows[1..], j - 1, l);
      n := m + |windows[0]|;
    }
  }

  /** Rows of a list of windows keep their order in the concatenation. */
  lemma {:induction false} InOrder(windows: seq<seq<Scored>>, i: nat, k: nat, j: nat, l: nat)
    requires i <= j < |windows| && k < |windows[i]| && l < |windows[j]| && (i == j ==> k <= l)
    requires Sorted(Rows(Flatten(windows)))
    ensures windows[i][k].row.time <= windows[j][l].row.time
  {
    var first, rest := windows[0], Flatten(windows[1..]);
    var all := first + rest;
    assert Flatten(windows) == all;
    if i > 0 {
      assert forall n :: 0 <= n < |rest| ==> Rows(rest)[n] == Rows(all)[n + |first|];
      InOrder(windows[1..], i - 1, k, j - 1, l);
    } else if j == 0 {
      assert Rows(all)[k] == first[k].row && Rows(all)[l] == first[l].row;
    } else {
      var n := Position(windows[1..], j - 1, l);
      assert Rows(all)[k] == first[k].row && Rows(all)[n + |first|] == windows[j][l].row;
    }
  }

  /** Two selections apart is more than one timeout apart. */
  lemma SelectionsSpread(rows: seq<Row>, windows: seq<seq<Scored>>, timeout: real, i: nat, k: nat)
    requires Sorted(rows) && Partition(rows, windows, timeout) && i + 2 <= k < |windows|
    ensures Selected(windows)[k].time * MS_PER_SECOND > Selected(windows)[i].time * MS_PER_SECOND + timeout
  {
    InOrder(windows, i, Pick(windows[i]), i + 1, 0);
    InOrder(windows, i + 2, 0, k, Pick(windows[k]));
    assert WindowAt(windows, i + 2, timeout);
  }

  /** Any closed interval of one timeout length holds at most two selected rows. */
  lemma AtMostTwoPerTimeout(rows: seq<Row>, windows: seq<seq<Scored>>, timeout: real, from: real,
                            i: nat, j: nat, k: nat)
    requires Sorted(rows) && Partition(rows, windows, timeout) && i < j < k < |windows|
    ensures !(Selected(windows)[i].time * MS_PER_SECOND >= from
              && Selected(windows)[k].time * MS_PER_SECOND <= from + timeout)
  {
    SelectionsSpread(rows, windows, timeout, i, k);
  }

  // ----------------------------------------------------------------- uniqueness

  lemma {:induction false} FlattenFrom<T>(ss: seq<seq<T>>, i: nat)
    requires i <= |ss|
    ensures Flatten(ss) == Flatten(ss[..i]) + Flatten(ss[i..])
  {
    assert ss == ss[..i] + ss[i..];
    FlattenConcat(ss[..i], ss[i..]);
  }

  /** The row after a window's last is the next window's first. */
  lemma NextRow(windows: seq<seq<Scored>>, i: nat)
    requires i < |windows| && AllNonEmpty(windows)
    ensures windows[i] <= Flatten(windows[i..])
    ensures |Flatten(windows[i..])| > |windows[i]| ==>
      i + 1 < |windows| && Flatten(windows[i..])[|windows[i]|] == windows[i + 1][0]
  {
    assert windows[i..][1..] == windows[i + 1..];
    if i + 1 < |windows| {
      assert windows[i + 1..][0] == windows[i + 1];
    }
  }

  /** A window takes rows up to the first out of reach. */
  lemma Reach(windows: seq<seq<Scored>>, i: nat, timeout: real)
    requires AreWindows(windows, timeout) && i < |windows|
    ensures var rest := Flatten(windows[i..]);
      && 0 < |windows[i]| <= |rest|
      && (forall k :: 1 <= k < |windows[i]| ==> Ms(rest[k]) <= Ms(rest[0]) + timeout)
      && (|rest| > |windows[i]| ==> Ms(rest[|windows[i]|]) > Ms(rest[0]) + timeout)
  {
    NextRow(windows, i);
    assert WindowAt(windows, i, timeout);
    assert i + 1 < |windows| ==> WindowAt(windows, i + 1, timeout);
  }

  /** The next window is decided by the rows left and the trailer. */
  lemma NextWindowNoLonger(a: seq<seq<Scored>>, b: seq<seq<Scored>>, i: nat, timeout: real)
    requires AreWindows(a, timeout) && AreWindows(b, timeout) && i < |a| && i < |b|
    requires Rows(Flatten(a[i..])) == Rows(Flatten(b[i..]))
    ensures |a[i]| <= |b[i]|
  {
    var rest, rest', n := Flatten(a[i..]), Flatten(b[i..]), |b[i]|;
    Reach(a, i, timeout);
    Reach(b, i, timeout);
    assert Rows(rest)[0] == rest[0].row && Rows(rest')[0] == rest'[0].row;
    assert n < |rest| ==> Rows(rest)[n] == rest[n].row && Rows(rest')[n] == rest'[n].row;
  }

  lemma SameNextWindow(a: seq<seq<Scored>>, b: seq<seq<Scored>>, i: nat, timeout: real)
    requires AreWindows(a, timeout) && AreWindows(b, timeout) && i < |a| && i < |b| && a[..i] == b[..i]
    requires Rows(Flatten(a[i..])) == Rows(Flatten(b[i..]))
    ensures a[i] == b[i]
  {
    NextWindowNoLonger(a, b, i, timeout);
    NextWindowNoLonger(b, a, i, timeout);
    NextRow(a, i);
    NextRow(b, i);
    assert i > 0 ==> a[..i][i - 1] == b[..i][i - 1];
    assert Trailer(a, i) == Trailer(b, i);
    assert WindowAt(a, i, timeout) && WindowAt(b, i, timeout);
    forall k | 0 <= k < |a[i]|
      ensures a[i][k] == b[i][k]
    {
      assert Rows(Flatten(a[i..]))[k] == a[i][k].row && Rows(Flatten(b[i..]))[k] == b[i][k].row;
    }
  }

  lemma RowsLeft(windows: seq<seq<Scored>>, i: nat)
    requires i <= |windows| && AllNonEmpty(windows)
    ensures i < |windows| ==> |Rows(Flatten(windows[i..]))| > 0
  {
    if i < |windows| {
      NextRow(windows, i);
    }
  }

  lemma NoRowsLeft(a: seq<seq<Scored>>, b: seq<seq<Scored>>, i: nat, timeout: real)
    requires AreWindows(a, timeout) && AreWindows(b, timeout) && i <= |a| && i == |b|
    requires Rows(Flatten(a[i..])) == Rows(Flatten(b[i..]))
    ensures i == |a|
  {
    RowsLeft(a, i);
    assert b[i..] == [];
  }

  /** A table has one partition, so the loop computes it. */
  lemma {:induction false} PartitionUnique(rows: seq<Row>, a: seq<seq<Scored>>, b: seq<seq<Scored>>,
                                           timeout: real, i: nat)
    requires Partition(rows, a, timeout) && Partition(rows, b, timeout)
    requires i <= |a| && i <= |b| && a[..i] == b[..i]
    ensures a == b
    decreases |a| - i
  {
    FlattenFrom(a, i);
    FlattenFrom(b, i);
    RowsConcat(Flatten(a[..i]), Flatten(a[i..]));
    RowsConcat(Flatten(b[..i]), Flatten(b[i..]));
    Suffix(Rows(Flatten(a[..i])), Rows(Flatten(a[i..])));
    Suffix(Rows(Flatten(b[..i])), Rows(Flatten(b[i..])));
    if i < |a| && i < |b| {
      SameNextWindow(a, b, i, timeout);
      assert a[..i + 1] == a[..i] + [a[i]] && b[..i + 1] == b[..i] + [b[i]];
      PartitionUnique(rows, a, b, timeout, i + 1);
    } else {
      if i == |b| {
        NoRowsLeft(a, b, i, timeout);
      } else {
        NoRowsLeft(b, a, i, timeout);
      }
      assert a[..|a|] == a && b[..|b|] == b;
    }
  }

  // ---------------------------------------------------------------- flight story

  /** A list without consecutive repeats. */
  function Story(s: seq<State>): (t: seq<State>)
    ensures |t| <= |s| && (s != [] ==> t != [] && t[0] == s[0] && t[|t| - 1] == s[|s| - 1])
  {
    if |s| <= 1 then s
    else if s[0] == s[1] then Story(s[1..])
    else [s[0]] + Story(s[1..])
  }

  function Changes(s: seq<State>): nat
    requires s != []
  {
    |Story(s)| - 1
  }

  lemma StoryFirst(x: State, s: seq<State>)
    requires s != []
    ensures Story([x] + s) == if x == s[0] then Story(s) else [x] + Story(s)
  {
    assert ([x] + s)[1..] == s;
  }

  lemma StoryConcatFirst(x: State, b: seq<State>, w: seq<State>, more: seq<State>)
    requires b != [] && Story(b + w) == Story(b) + more
    ensures Story(([x] + b) + w) == Story([x] + b) + more
  {
    Associative([x], b, w);
    StoryFirst(x, b);
    StoryFirst(x, b + w);
    Associative([x], Story(b), more);
  }

  lemma {:induction false} StoryConcat(a: seq<State>, w: seq<State>)
    requires a != []
    ensures Story(a + w) == Story(a) + Story([a[|a| - 1]] + w)[1..]
  {
    if |a| == 1 {
      assert [a[|a| - 1]] + w == a + w;
    } else {
      StoryConcat(a[1..], w);
      assert [a[0]] + a[1..] == a;
      StoryConcatFirst(a[0], a[1..], w, Story([a[|a| - 1]] + w)[1..]);
    }
  }

  function States(rows: seq<Row>): seq<State> {
    seq(|rows|, k requires 0 <= k < |rows| => rows[k].state)
  }

  /** Whether a window's selection differs in state from the row before it. */
  predicate Told(t: State, w: seq<State>)
    requires w != []
  {
    Changes([t] + w) >= 1 && !(t.None? && w[0].None?)
  }

  /** State changes of a window that its selection does not show. */
  function Missed(t: State, w: seq<State>): nat
    requires w != []
  {
    Changes([t] + w) - (if Told(t, w) then 1 else 0)
  }

  /** A window with a change has a first row in another state, which the story names. */
  lemma {:induction false} FirstDifferent(t: State, w: seq<State>) returns (k: nat)
    requires Changes([t] + w) >= 1
    ensures k < |w| && w[k] != t && Story([t] + w)[1] == w[k]
    ensures forall j :: 0 <= j < k ==> w[j] == t
  {
    var first, rest := w[0], w[1..];
    StoryFirst(t, w);
    if first != t {
      k := 0;
    } else {
      assert w == [t] + rest;
      var m := FirstDifferent(t, rest);
      k := m + 1;
      assert forall j :: 1 <= j < k ==> w[j] == rest[j - 1];
    }
  }

  lemma {:induction false} AllTheSame(t: State, w: seq<State>)
    requires Changes([t] + w) == 0
    ensures forall k :: 0 <= k < |w| ==> w[k] == t
  {
    if w == [] {
    } else {
      StoryFirst(t, w);
      assert w == [w[0]] + w[1..];
      AllTheSame(t, w[1..]);
      assert forall k :: 1 <= k < |w| ==> w[k] == w[1..][k - 1];
    }
  }

  /** A selected state: the first state a window changes to, or the one before it. */
  predicate Shown(t: State, w: seq<State>, s: State)
    requires w != []
  {
    if Told(t, w) then s == Story([t] + w)[1] != t else s == t
  }

  /** The pick is the first row after an unknown state, and otherwise the first
      row in another state, if there is one. */
  lemma PickIsFirstChange(w: seq<Scored>, trailer: Row)
    requires w != [] && ScoredAgainst(w, Some(trailer))
    ensures trailer.state.None? ==> Pick(w) == 0
    ensures forall j :: 0 <= j < |w| && w[j].row.state != trailer.state && trailer.state.Some? ==>
      w[Pick(w)].row.state != trailer.state
    ensures forall j :: 0 <= j < Pick(w) ==> w[j].row.state == trailer.state
  {
    if trailer.state.None? {
      assert w[0].importance == 1;
    }
  }

  lemma PickedState(w: seq<Scored>, trailer: Row)
    requires w != [] && ScoredAgainst(w, Some(trailer))
    ensures Shown(trailer.state, States(Rows(w)), w[Pick(w)].row.state)
  {
    var t, ss, k := trailer.state, States(Rows(w)), Pick(w);
    PickIsFirstChange(w, trailer);
    assert forall j :: 0 <= j < |w| ==> ss[j] == w[j].row.state;
    StoryFirst(t, ss);
    if Changes([t] + ss) == 0 {
      AllTheSame(t, ss);
    } else {
      var j := FirstDifferent(t, ss);
      assert w[j].row.state != t;
    }
  }

  // --------------------------------------------------- when the story is kept

  /** The states of each window. */
  function WindowStates(windows: seq<seq<Scored>>): (ws: seq<seq<State>>)
    ensures |ws| == |windows| && forall i :: 0 <= i < |ws| ==> |ws[i]| == |windows[i]|
  {
    seq(|windows|, i requires 0 <= i < |windows| => States(Rows(windows[i])))
  }

  function Last(w: seq<State>): State
    requires w != []
  {
    w[|w| - 1]
  }

  /** State changes that window i leaves behind. */
  function Lag(ws: seq<seq<State>>, i: nat): nat
    requires i < |ws| && AllNonEmpty(ws)
  {
    if i == 0 then Changes(ws[0]) else Missed(Last(ws[i - 1]), ws[i])
  }

  predicate CatchesUpAt(ws: seq<seq<State>>, i: nat)
    requires i < |ws| && AllNonEmpty(ws)
  {
    Lag(ws, i) <= 1 && (i > 0 && Lag(ws, i - 1) == 1 ==> !Told(Last(ws[i - 1]), ws[i]))
  }

  /** No window leaves more than one change behind, and the window after one that
      leaves a change only repeats its last state. */
  predicate CatchesUp(ws: seq<seq<State>>, n: nat)
    requires n <= |ws| && AllNonEmpty(ws)
  {
    forall i :: 0 <= i < n ==> CatchesUpAt(ws, i)
  }

  lemma CatchesUpOneMore(ws: seq<seq<State>>, n: nat)
    requires 1 <= n <= |ws| && AllNonEmpty(ws)
    ensures CatchesUp(ws, n) <==> CatchesUp(ws, n - 1) && CatchesUpAt(ws, n - 1)
  {
  }

  predicate Keeps(ws: seq<seq<State>>)
    requires ws != [] && AllNonEmpty(ws)
  {
    CatchesUp(ws, |ws|) && Lag(ws, |ws| - 1) == 0
  }

  /** How the selection's story stands against the input's, whose last state is t:
      equal, one state short, or short for good. */
  predicate CaughtUp(sel: seq<State>, input: seq<State>) {
    sel == input
  }

  predicate Behind(sel: seq<State>, input: seq<State>) {
    sel != [] && input != [] && sel + [Last(input)] == input && Last(sel) != Last(input)
  }

  predicate Lost(sel: seq<State>, input: seq<State>) {
    sel != [] && input != []
    && (|sel| + 2 <= |input| || (|sel| + 1 <= |input| && Last(sel) == Last(input)))
  }

  /** The input's story after a window of states w, the last state being t. */
  function Tell(input: seq<State>, w: seq<State>): seq<State>
    requires input != []
  {
    input + Story([Last(input)] + w)[1..]
  }

  /** The selection's story after one more selected state. */
  function Say(sel: seq<State>, s: State): seq<State>
    requires sel != []
  {
    if Last(sel) == s then sel else sel + [s]
  }

  lemma TellSplit(input: seq<State>, told: seq<State>)
    ensures told == [] ==> input + told == input
    ensures |told| == 1 ==> input + told == input + [told[0]] && told[..1] == told
    ensures |told| == 2 ==> input + told == (input + told[..1]) + [told[1]]
  {
  }

  /** Neighbours of a story differ. */
  lemma {:induction false} StoryStep(s: seq<State>)
    ensures forall k :: 0 <= k < |Story(s)| - 1 ==> Story(s)[k] != Story(s)[k + 1]
  {
    if |s| > 1 {
      StoryStep(s[1..]);
    }
  }

  /** From an equal story, or one short with the missing state now repeated. */
  lemma TellFromStep(sel: seq<State>, input: seq<State>, w: seq<State>, s: State)
    requires sel != [] && input != [] && w != [] && Shown(Last(input), w, s)
    requires CaughtUp(sel, input) || (Behind(sel, input) && !Told(Last(input), w))
    ensures var m, sel', input' := Missed(Last(input), w), Say(sel, s), Tell(input, w);
      && (m == 0 ==> CaughtUp(sel', input'))
      && (m == 1 ==> Behind(sel', input'))
      && (m >= 2 ==> Lost(sel', input'))
  {
    var t := Last(input);
    var told := Story([t] + w)[1..];
    assert Last([t] + w) == Last(w);
    StoryStep([t] + w);
    if Told(t, w) {
      assert Say(sel, s) == input + told[..1];
    } else {
      assert Say(sel, s) == input;
    }
    TellSplit(input, told);
  }

  lemma TellWhenLost(sel: seq<State>, input: seq<State>, w: seq<State>, s: State)
    requires sel != [] && input != [] && w != [] && Shown(Last(input), w, s)
    requires Lost(sel, input) || (Behind(sel, input) && Told(Last(input), w))
    ensures Lost(Say(sel, s), Tell(input, w))
  {
    var t := Last(input);
    var told := Story([t] + w)[1..];
    assert Last([t] + w) == Last(w);
    assert |Tell(input, w)| == |input| + |told|;
    assert told != [] ==> Last(Tell(input, w)) == Last(told);
  }

  predicate ShownAt(ws: seq<seq<State>>, picked: seq<State>, i: nat)
    requires 1 <= i < |ws| == |picked| && ws[i - 1] != [] && ws[i] != []
  {
    Shown(Last(ws[i - 1]), ws[i], picked[i])
  }

  /** A selected state for every window, as the scores pick it. */
  predicate PicksOf(ws: seq<seq<State>>, picked: seq<State>) {
    && |picked| == |ws| && AllNonEmpty(ws)
    && (ws != [] ==> picked[0] == ws[0][0])
    && (forall i :: 1 <= i < |ws| ==> ShownAt(ws, picked, i))
  }

  lemma StoryGrows(a: seq<State>, w: seq<State>)
    requires a != []
    ensures Story(a + w) == Tell(Story(a), w)
  {
    StoryConcat(a, w);
  }

  lemma StorySays(a: seq<State>, s: State)
    requires a != []
    ensures Story(a + [s]) == Say(Story(a), s)
  {
    var t := a[|a| - 1];
    StoryConcat(a, [s]);
    assert [t] + [s] == [t, s] && [t, s][1..] == [s];
    assert Story([t, s])[1..] == if t == s then [] else [s];
  }

  /** How the stories of the first n windows stand. */
  predicate Stands(ws: seq<seq<State>>, n: nat, sel: seq<State>, input: seq<State>)
    requires 1 <= n <= |ws| && AllNonEmpty(ws)
  {
    if !CatchesUp(ws, n) then Lost(sel, input)
    else if Lag(ws, n - 1) == 0 then CaughtUp(sel, input)
    else Behind(sel, input)
  }

  /** What the first n windows add up to. */
  function Input(ws: seq<seq<State>>, n: nat): seq<State>
    requires n <= |ws|
  {
    Flatten(ws[..n])
  }

  lemma OneMoreWindow(ws: seq<seq<State>>, picked: seq<State>, n: nat)
    requires 2 <= n <= |ws| == |picked| && Input(ws, n - 1) != [] && ws[n - 1] != []
    ensures Input(ws, n) != [] && Last(Input(ws, n)) == Last(ws[n - 1])
    ensures Story(Input(ws, n)) == Tell(Story(Input(ws, n - 1)), ws[n - 1])
    ensures Story(picked[..n]) == Say(Story(picked[..n - 1]), picked[n - 1])
  {
    assert ws[..n] == ws[..n - 1] + [ws[n - 1]] && picked[..n] == picked[..n - 1] + [picked[n - 1]];
    FlattenSnoc(ws[..n - 1], ws[n - 1]);
    StoryGrows(Input(ws, n - 1), ws[n - 1]);
    StorySays(picked[..n - 1], picked[n - 1]);
  }

  predicate Standing(ws: seq<seq<State>>, picked: seq<State>, n: nat)
    requires 1 <= n <= |ws| == |picked| && AllNonEmpty(ws)
  {
    && Input(ws, n) != [] && Last(Input(ws, n)) == Last(ws[n - 1])
    && Stands(ws, n, Story(picked[..n]), Story(Input(ws, n)))
  }

  lemma LastOfStory(s: seq<State>)
    requires s != []
    ensures Story(s) != [] && Last(Story(s)) == Last(s)
  {
  }

  lemma FollowOne(ws: seq<seq<State>>, picked: seq<State>, n: nat,
                  sel: seq<State>, input: seq<State>, sel': seq<State>, input': seq<State>)
    requires PicksOf(ws, picked) && 2 <= n <= |ws| && sel != [] && input != [] && Last(input) == Last(ws[n - 2])
    requires Stands(ws, n - 1, sel, input)
    requires sel' == Say(sel, picked[n - 1]) && input' == Tell(input, ws[n - 1])
    ensures Stands(ws, n, sel', input')
  {
    var w, s := ws[n - 1], picked[n - 1];
    assert ShownAt(ws, picked, n - 1);
    CatchesUpOneMore(ws, n - 1);
    CatchesUpOneMore(ws, n);
    if CatchesUp(ws, n - 1) && (Lag(ws, n - 2) == 0 || !Told(Last(input), w)) {
      TellFromStep(sel, input, w, s);
    } else {
      TellWhenLost(sel, input, w, s);
    }
  }

  lemma StandingNext(ws: seq<seq<State>>, picked: seq<State>, n: nat)
    requires PicksOf(ws, picked) && 2 <= n <= |ws| && Standing(ws, picked, n - 1)
    ensures Standing(ws, picked, n)
  {
    OneMoreWindow(ws, picked, n);
    LastOfStory(Input(ws, n - 1));
    FollowOne(ws, picked, n, Story(picked[..n - 1]), Story(Input(ws, n - 1)), Story(picked[..n]), Story(Input(ws, n)));
  }

  lemma FollowFirst(ws: seq<seq<State>>, picked: seq<State>)
    requires PicksOf(ws, picked) && ws != []
    ensures Input(ws, 1) == ws[0] && Stands(ws, 1, Story(picked[..1]), Story(ws[0]))
  {
    assert ws[..1] == [ws[0]] && [ws[0]][1..] == [];
    assert Flatten(ws[..1]) == ws[0] + Flatten([ws[0]][1..]) == ws[0] + [] == ws[0];
    StoryStep(ws[0]);
    CatchesUpOneMore(ws, 1);
    var sel, input := [ws[0][0]], Story(ws[0]);
    assert picked[..1] == sel;
    assert |input| == 2 ==> sel + [input[1]] == input;
    assert |input| == 1 ==> sel == input;
  }

  lemma {:induction false} Follow(ws: seq<seq<State>>, picked: seq<State>, n: nat)
    requires PicksOf(ws, picked) && 1 <= n <= |ws|
    ensures Standing(ws, picked, n)
  {
    if n == 1 {
      FollowFirst(ws, picked);
    } else {
      Follow(ws, picked, n - 1);
      StandingNext(ws, picked, n);
    }
  }

  lemma {:induction false} StatesOfWindows(windows: seq<seq<Scored>>)
    ensures States(Rows(Flatten(windows))) == Flatten(WindowStates(windows))
  {
    if windows == [] {
    } else {
      StatesOfWindows(windows[1..]);
      var a, b := windows[0], Flatten(windows[1..]);
      assert States(Rows(a + b)) == States(Rows(a)) + States(Rows(b));
      assert WindowStates(windows)[1..] == WindowStates(windows[1..]);
    }
  }

  lemma FirstPick(w: seq<Scored>)
    requires w != [] && ScoredAgainst(w, None)
    ensures Pick(w) == 0
  {
    assert w[0].importance == 1;
  }

  lemma StatesAt(windows: seq<seq<Scored>>, i: nat)
    requires 1 <= i < |windows| && AllNonEmpty(windows)
    ensures var ws := WindowStates(windows);
      && Last(ws[i - 1]) == Trailer(windows, i).value.state && ws[i] == States(Rows(windows[i]))
      && States(Selected(windows))[i] == windows[i][Pick(windows[i])].row.state
  {
  }

  lemma PickAt(windows: seq<seq<Scored>>, timeout: real, i: nat)
    requires AreWindows(windows, timeout) && 1 <= i < |windows|
    ensures ShownAt(WindowStates(windows), States(Selected(windows)), i)
  {
    StatesAt(windows, i);
    assert WindowAt(windows, i, timeout);
    PickedState(windows[i], Trailer(windows, i).value);
  }

  lemma {:induction false} SelectionPicks(windows: seq<seq<Scored>>, timeout: real)
    requires AreWindows(windows, timeout)
    ensures PicksOf(WindowStates(windows), States(Selected(windows)))
  {
    if windows == [] {
    } else {
      assert WindowAt(windows, 0, timeout);
      FirstPick(windows[0]);
    }
    forall i | 1 <= i < |windows|
      ensures ShownAt(WindowStates(windows), States(Selected(windows)), i)
    {
      PickAt(windows, timeout, i);
    }
  }

  /** The selected rows tell the flight story of all rows, repeats removed, exactly
      when the windows keep up with the changes. */
  lemma {:induction false} StoryKept(rows: seq<Row>, windows: seq<seq<Scored>>, timeout: real)
    requires Partition(rows, windows, timeout) && windows != []
    ensures Story(States(Selected(windows))) == Story(States(rows)) <==> Keeps(WindowStates(windows))
  {
    var ws, picked := WindowStates(windows), States(Selected(windows));
    SelectionPicks(windows, timeout);
    StatesOfWindows(windows);
    Follow(ws, picked, |ws|);
    assert ws[..|ws|] == ws && picked[..|ws|] == picked;
  }

  predicate OneChangeAt(ws: seq<seq<State>>, i: nat)
    requires 1 <= i < |ws| && AllNonEmpty(ws)
  {
    var t := Last(ws[i - 1]);
    Changes([t] + ws[i]) <= 1 && (t.None? && ws[i][0].None? ==> Changes([t] + ws[i]) == 0)
  }

  /** What the sampling promises: one state in the first window, and at most one
      change in each later window and at its start. After a row of unknown state
      every row scores the same, so there the change must come with the first row. */
  predicate OneChangeAWindow(ws: seq<seq<State>>)
    requires AllNonEmpty(ws)
  {
    && (ws != [] ==> Changes(ws[0]) == 0)
    && (forall i :: 1 <= i < |ws| ==> OneChangeAt(ws, i))
  }

  lemma NothingMissed(ws: seq<seq<State>>, i: nat)
    requires i < |ws| && AllNonEmpty(ws) && OneChangeAWindow(ws)
    ensures Lag(ws, i) == 0
  {
    assert i > 0 ==> OneChangeAt(ws, i);
  }

  lemma OneChangeIsKept(rows: seq<Row>, windows: seq<seq<Scored>>, timeout: real)
    requires Partition(rows, windows, timeout) && OneChangeAWindow(WindowStates(windows))
    ensures Story(States(Selected(windows))) == Story(States(rows))
  {
    if windows == [] {
      assert rows == [] && States(rows) == States(Selected(windows));
    } else {
      var ws := WindowStates(windows);
      forall i | 0 <= i < |ws|
        ensures CatchesUpAt(ws, i) && Lag(ws, i) == 0
      {
        NothingMissed(ws, i);
        if i > 0 {
          NothingMissed(ws, i - 1);
        }
      }
      StoryKept(rows, windows, timeout);
    }
  }

  /** Two changes within one window: the state between them is lost. */
  lemma ShortStateIsLost()
    ensures
      var a, b, c := Row(0.0, Some(1), []), Row(0.3, Some(2), []), Row(0.35, Some(3), []);
      var windows := [[Scored(a, 1)], [Scored(b, 1), Scored(c, 1)]];
      Partition([a, b, c], windows, 100.0) && States(Selected(windows)) == [Some(1), Some(2)]
      && Story(States([a, b, c])) == [Some(1), Some(2), Some(3)]
  {
    var a, b, c := Row(0.0, Some(1), []), Row(0.3, Some(2), []), Row(0.35, Some(3), []);
    var windows := [[Scored(a, 1)], [Scored(b, 1), Scored(c, 1)]];
    assert windows[1..] == [windows[1]] && windows[1..][1..] == [];
    assert Flatten(windows[1..]) == windows[1] + [] == windows[1];
    assert Flatten(windows) == windows[0] + windows[1] == [Scored(a, 1), Scored(b, 1), Scored(c, 1)];
    assert Rows(Flatten(windows)) == [a, b, c];
    assert Pick(windows[0]) == 0 && Pick(windows[1]) == 0;
    var s: seq<State> := [Some(1), Some(2), Some(3)];
    assert States([a, b, c]) == s && s[1..] == [Some(2), Some(3)] && s[1..][1..] == [Some(3)];
  }

  /** One change, but inside the window after a row of unknown state: it is lost. */
  lemma ChangeAfterUnknownIsLost()
    ensures
      var a, b, c := Row(0.0, None, []), Row(0.3, None, []), Row(0.35, Some(1), []);
      var windows := [[Scored(a, 1)], [Scored(b, 1), Scored(c, 1)]];
      Partition([a, b, c], windows, 100.0) && Changes(States([a, b, c])) == 1
      && Story(States(Selected(windows))) == [None]
  {
    var a, b, c := Row(0.0, None, []), Row(0.3, None, []), Row(0.35, Some(1), []);
    var windows := [[Scored(a, 1)], [Scored(b, 1), Scored(c, 1)]];
    assert windows[1..] == [windows[1]] && windows[1..][1..] == [];
    assert Flatten(windows[1..]) == windows[1] + [] == windows[1];
    assert Flatten(windows) == windows[0] + windows[1] == [Scored(a, 1), Scored(b, 1), Scored(c, 1)];
    assert Rows(Flatten(windows)) == [a, b, c];
    assert Pick(windows[0]) == 0 && Pick(windows[1]) == 0;
    var s: seq<State> := [None, None, Some(1)];
    assert States([a, b, c]) == s && s[1..] == [None, Some(1)] && s[1..][1..] == [Some(1)];
    var t: seq<State> := [None, None];
    assert States(Selected(windows)) == t && t[1..] == [None];
  }
}
