/** The event viewer's receive loop in event_viewer.py: packet identifiers and
    bodies arrive as separate messages, and either may go missing. */
module EventStream {
  import opened Bits
  import opened PayloadEncoding
  import opened Seqs

  /** What one poll of the subscription gives. */
  datatype Poll = Timeout | Message(bytes: seq<byte>)

  /** A body decoded under an identifier, and where the identifier was received. */
  datatype Decoded = Decoded(at: nat, id: nat, body: seq<byte>)

  predicate Known(id: nat) {
    3 <= id <= 7
  }

  /** Python's int.from_bytes, most significant byte first. */
  function Number(bytes: seq<byte>): nat {
    if bytes == [] then 0 else 256 * Number(bytes[..|bytes| - 1]) + bytes[|bytes| - 1]
  }

  lemma NumberOfByte(b: byte)
    ensures Number([b]) == b
  {
    assert [b][..0] == [];
    assert Number([b]) == 256 * Number([]) + b;
  }

  /** The bodies that reach a handler, in order; those of unknown identifiers are
      only logged. */
  function Viewed(polls: seq<Poll>, from: nat): seq<Decoded>
    requires from <= |polls|
    decreases |polls| - from
  {
    if from == |polls| then []
    else if polls[from].Timeout? || |polls[from].bytes| > 1 then Viewed(polls, from + 1)
    else if from + 1 == |polls| then []
    else if polls[from + 1].Timeout? || |polls[from + 1].bytes| == 1 then Viewed(polls, from + 2)
    else
      var id := Number(polls[from].bytes);
      (if Known(id) then [Decoded(from, id, polls[from + 1].bytes)] else []) + Viewed(polls, from + 2)
  }

  // --------------------------------------------------------------------- safety

  /** A body decoded under the message directly before it, which is no longer than
      one byte and spells the identifier. */
  predicate UnderItsIdentifier(polls: seq<Poll>, d: Decoded) {
    && d.at + 1 < |polls| && d.id in {3, 4, 5, 6, 7}
    && polls[d.at].Message? && |polls[d.at].bytes| <= 1 && Number(polls[d.at].bytes) == d.id
    && polls[d.at + 1].Message? && polls[d.at + 1].bytes == d.body && |d.body| != 1
  }

  /** No message serves two decodings, and they keep the order of the stream. */
  predicate Apart(ds: seq<Decoded>, from: nat) {
    ds == [] || (ds[0].at >= from && Apart(ds[1..], ds[0].at + 2))
  }

  lemma ApartEarlier(ds: seq<Decoded>, from: nat, to: nat)
    requires Apart(ds, to) && from <= to
    ensures Apart(ds, from) && Apart([] + ds, from)
  {
    assert [] + ds == ds;
  }

  lemma ApartFirst(d: Decoded, ds: seq<Decoded>)
    requires Apart(ds, d.at + 2)
    ensures Apart([d] + ds, d.at)
  {
    assert ([d] + ds)[1..] == ds;
  }

  lemma {:induction false} DecodesUnderItsIdentifier(polls: seq<Poll>, from: nat)
    requires from <= |polls|
    ensures forall d <- Viewed(polls, from) :: UnderItsIdentifier(polls, d)
    ensures Apart(Viewed(polls, from), from)
    decreases |polls| - from
  {
    if from == |polls| {
    } else if polls[from].Timeout? || |polls[from].bytes| > 1 {
      DecodesUnderItsIdentifier(polls, from + 1);
      ApartEarlier(Viewed(polls, from + 1), from, from + 1);
    } else if from + 1 < |polls| {
      DecodesUnderItsIdentifier(polls, from + 2);
      ApartEarlier(Viewed(polls, from + 2), from, from + 2);
      if polls[from + 1].Message? && |polls[from + 1].bytes| != 1 {
        var d := Decoded(from, Number(polls[from].bytes), polls[from + 1].bytes);
        assert Known(d.id) ==> UnderItsIdentifier(polls, d);
        ApartFirst(d, Viewed(polls, from + 2));
      }
    }
  }

  // ------------------------------------------------------------ what is received

  /** The server publishes an identifier for every packet and a body only when the
      packet was processed. A silence is longer than one poll waits. */
  datatype Item = Pair(id: byte, body: seq<byte>) | Lone(id: byte) | Silence

  predicate Published(items: seq<Item>) {
    forall x <- items :: x.Pair? ==> |x.body| > 1
  }

  function Polls(x: Item): seq<Poll> {
    match x
    case Pair(id, body) => [Message([id]), Message(body)]
    case Lone(id) => [Message([id])]
    case Silence => [Timeout]
  }

  function Stream(items: seq<Item>): seq<Poll> {
    if items == [] then [] else Polls(items[0]) + Stream(items[1..])
  }

  /** The lone identifiers directly before item k. */
  function LonesBefore(items: seq<Item>, k: nat): nat
    requires k <= |items|
  {
    if k > 0 && items[k - 1].Lone? then 1 + LonesBefore(items, k - 1) else 0
  }

  type Content = (nat, seq<byte>)

  /** Identifier and body of each decoding. */
  function Contents(ds: seq<Decoded>): seq<Content> {
    if ds == [] then [] else [(ds[0].id, ds[0].body)] + Contents(ds[1..])
  }

  /** The pairs under one of the viewer's five identifiers that an even number of lone
      identifiers comes before; a pair under any other yields nothing. */
  function InStep(items: seq<Item>): seq<Content> {
    if items == [] then []
    else
      var n := |items| - 1;
      var x := items[n];
      InStep(items[..n])
      + if x.Pair? && x.id in {3, 4, 5, 6, 7} && LonesBefore(items, n) % 2 == 0 then [(x.id, x.body)] else []
  }

  /** The same, item by item from the front; `pending` when an identifier awaits
      its body. */
  function Heard(items: seq<Item>, pending: bool): seq<Content> {
    if items == [] then []
    else match items[0]
      case Pair(id, body) => (if pending || !Known(id) then [] else [(id, body)]) + Heard(items[1..], false)
      case Lone(_) => Heard(items[1..], !pending)
      case Silence => Heard(items[1..], false)
  }

  /** One identifier heard and not yet answered. */
  function Waiting(pending: seq<byte>): seq<Poll>
    requires |pending| <= 1
  {
    if pending == [] then [] else [Message(pending)]
  }

  /** Where the parts of the remaining polls lie. */
  lemma NextPolls(polls: seq<Poll>, from: nat, w: seq<Poll>, p: seq<Poll>, rest: seq<Poll>)
    requires from <= |polls| && polls[from..] == w + (p + rest)
    ensures from + |w| + |p| <= |polls| && polls[from + |w| + |p|..] == rest
    ensures forall i :: 0 <= i < |w| ==> polls[from + i] == w[i]
    ensures forall i :: 0 <= i < |p| ==> polls[from + |w| + i] == p[i]
  {
    var s := polls[from..];
    assert forall i :: 0 <= i < |s| ==> s[i] == polls[from + i];
    assert s[|w| + |p|..] == rest;
  }

  lemma AfterSilence(polls: seq<Poll>, from: nat, pending: seq<byte>, rest: seq<Poll>)
    requires from <= |polls| && |pending| <= 1 && polls[from..] == Waiting(pending) + ([Timeout] + rest)
    ensures var to := from + |pending| + 1;
      to <= |polls| && polls[to..] == rest && Viewed(polls, from) == Viewed(polls, to)
  {
    NextPolls(polls, from, Waiting(pending), [Timeout], rest);
    assert polls[from] == (Waiting(pending) + [Timeout])[0];
  }

  lemma AfterSecondIdentifier(polls: seq<Poll>, from: nat, pending: byte, id: byte, rest: seq<Poll>)
    requires from <= |polls| && polls[from..] == Waiting([pending]) + ([Message([id])] + rest)
    ensures from + 2 <= |polls| && polls[from + 2..] == rest && Viewed(polls, from) == Viewed(polls, from + 2)
  {
    NextPolls(polls, from, Waiting([pending]), [Message([id])], rest);
    assert polls[from + 0] == Message([pending]) && polls[from + 1 + 0] == Message([id]);
  }

  lemma AfterPair(polls: seq<Poll>, from: nat, pending: seq<byte>, id: byte, body: seq<byte>, rest: seq<Poll>)
    requires |body| > 1 && from <= |polls| && |pending| <= 1
    requires polls[from..] == Waiting(pending) + ([Message([id]), Message(body)] + rest)
    ensures var to := from + |pending| + 2;
      && to <= |polls| && polls[to..] == rest
      && Viewed(polls, from)
         == (if pending == [] && Known(id) then [Decoded(from, id, body)] else []) + Viewed(polls, to)
  {
    var n := |pending|;
    NextPolls(polls, from, Waiting(pending), [Message([id]), Message(body)], rest);
    assert polls[from + n + 0] == Message([id]) && polls[from + n + 1] == Message(body);
    NumberOfByte(id);
    if n == 1 {
      assert polls[from + 0] == Message(pending);
      assert Viewed(polls, from) == Viewed(polls, from + 2) == Viewed(polls, from + 3);
    }
  }

  lemma ContentsFirst(d: Decoded, ds: seq<Decoded>)
    ensures Contents([d] + ds) == [(d.id, d.body)] + Contents(ds) && Contents([] + ds) == Contents(ds)
  {
    assert ([d] + ds)[1..] == ds && [] + ds == ds;
  }

  /** The loop, standing before a waiting identifier and a stream of items. */
  lemma {:induction false} ViewedIsHeard(polls: seq<Poll>, from: nat, pending: seq<byte>, items: seq<Item>)
    requires from <= |polls| && |pending| <= 1 && Published(items)
    requires polls[from..] == Waiting(pending) + Stream(items)
    ensures Contents(Viewed(polls, from)) == Heard(items, pending != [])
    decreases |items|
  {
    if items == [] {
      assert polls[from..] == Waiting(pending);
      assert pending != [] ==> polls[from] == polls[from..][0];
    } else {
      var rest := Stream(items[1..]);
      assert items[0] in items;
      match items[0]
      case Silence =>
        AfterSilence(polls, from, pending, rest);
        ViewedIsHeard(polls, from + |pending| + 1, [], items[1..]);
      case Lone(id) =>
        if pending == [] {
          assert polls[from..] == Waiting([id]) + rest;
          ViewedIsHeard(polls, from, [id], items[1..]);
        } else {
          assert pending == [pending[0]];
          AfterSecondIdentifier(polls, from, pending[0], id, rest);
          ViewedIsHeard(polls, from + 2, [], items[1..]);
        }
      case Pair(id, body) =>
        AfterPair(polls, from, pending, id, body, rest);
        ViewedIsHeard(polls, from + |pending| + 2, [], items[1..]);
        ContentsFirst(Decoded(from, id, body), Viewed(polls, from + |pending| + 2));
    }
  }

  // ------------------------------------------------------------ resynchronisation

  /** Whether an identifier awaits its body after the items. */
  function PendingAfter(items: seq<Item>, pending: bool): bool {
    if items == [] then pending
    else if items[|items| - 1].Lone? then !PendingAfter(items[..|items| - 1], pending)
    else false
  }

  lemma {:induction false} PendingFromFront(items: seq<Item>, pending: bool)
    requires items != []
    ensures PendingAfter(items, pending) == PendingAfter(items[1..], if items[0].Lone? then !pending else false)
  {
    var n := |items| - 1;
    if n == 0 {
      assert items[..0] == [] && items[1..] == [];
    } else {
      PendingFromFront(items[..n], pending);
      assert items[1..][..n - 1] == items[..n][1..];
    }
  }

  lemma {:induction false} HeardSnoc(items: seq<Item>, x: Item, pending: bool)
    ensures Heard(items + [x], pending) == Heard(items, pending)
      + if x.Pair? && Known(x.id) && !PendingAfter(items, pending) then [(x.id, x.body)] else []
  {
    if items == [] {
      assert [x][1..] == [];
    } else {
      var y := items[0];
      assert (items + [x])[1..] == items[1..] + [x];
      PendingFromFront(items, pending);
      HeardSnoc(items[1..], x, if y.Lone? then !pending else false);
    }
  }

  lemma {:induction false} PendingIsOdd(items: seq<Item>, k: nat)
    requires k <= |items|
    ensures PendingAfter(items[..k], false) <==> LonesBefore(items, k) % 2 == 1
  {
    if k == 0 {
    } else {
      PendingIsOdd(items, k - 1);
      assert items[..k][..k - 1] == items[..k - 1];
    }
  }

  lemma {:induction false} HeardIsInStep(items: seq<Item>)
    ensures Heard(items, false) == InStep(items)
  {
    if items == [] {
    } else {
      var n := |items| - 1;
      HeardIsInStep(items[..n]);
      HeardSnoc(items[..n], items[n], false);
      assert items[..n] + [items[n]] == items;
      PendingIsOdd(items, n);
    }
  }

  /** Without a silence inside a pair, the viewer decodes exactly the pairs under its
      identifiers that an even number of lone identifiers comes directly before. */
  lemma DecodesPairsInStep(items: seq<Item>)
    requires Published(items)
    ensures Contents(Viewed(Stream(items), 0)) == InStep(items)
  {
    assert Stream(items)[0..] == Waiting([]) + Stream(items);
    ViewedIsHeard(Stream(items), 0, [], items);
    HeardIsInStep(items);
  }

  /** How many pairs come under the viewer's identifiers. */
  function Pairs(items: seq<Item>): nat {
    if items == [] then 0
    else (if items[0].Pair? && items[0].id in {3, 4, 5, 6, 7} then 1 else 0) + Pairs(items[1..])
  }

  function Lones(items: seq<Item>): nat {
    if items == [] then 0 else (if items[0].Lone? then 1 else 0) + Lones(items[1..])
  }

  lemma {:induction false} EachLossHasItsLone(items: seq<Item>, pending: bool)
    ensures |Heard(items, pending)| + Lones(items) + (if pending then 1 else 0) >= Pairs(items)
  {
    if items == [] {
    } else {
      var x := items[0];
      EachLossHasItsLone(items[1..], if x.Lone? then !pending else false);
    }
  }

  lemma {:induction false} ContentsLength(ds: seq<Decoded>)
    ensures |Contents(ds)| == |ds|
  {
    if ds == [] {
    } else {
      ContentsLength(ds[1..]);
    }
  }

  /** Every lone identifier costs at most one pair. */
  lemma LossesAreBounded(items: seq<Item>)
    requires Published(items)
    ensures |Viewed(Stream(items), 0)| >= Pairs(items) - Lones(items)
  {
    assert Stream(items)[0..] == Waiting([]) + Stream(items);
    ViewedIsHeard(Stream(items), 0, [], items);
    EachLossHasItsLone(items, false);
    ContentsLength(Viewed(Stream(items), 0));
  }

  /** The server publishes an emulated frame's first byte and then a body: both kinds of
      AV frames reach their handlers. */
  lemma EmulatedFramesAreViewed(i: Input1, j: Input2, body1: seq<byte>, body2: seq<byte>)
    requires Encodable1(i) && Encodable2(j) && |body1| > 1 && |body2| > 1
    ensures var id1 := RawFrame(3, i.rssi, i.snr, Fragments1(i))[0];
      var id2 := RawFrame(4, j.rssi, j.snr, Fragments2(j))[0];
      Contents(Viewed(Stream([Pair(id1, body1), Pair(id2, body2)]), 0)) == [(3, body1), (4, body2)]
  {
    var first, second := Pair(3, body1), Pair(4, body2);
    DecodesPairsInStep([first, second]);
    assert [first, second][..1] == [first] && [first][..0] == [];
    assert InStep([first]) == InStep([]) + [(3, body1)];
    assert InStep([first, second]) == InStep([first]) + [(4, body2)];
  }

  // ------------------------------------------------------------------------ the loop

  /** The receive loop, until the stream given ends: every body is decoded under the
      message before it, and of a stream of items exactly the pairs in step are. */
  method ViewEvents(polls: seq<Poll>) returns (decoded: seq<Decoded>)
    ensures decoded == Viewed(polls, 0)
    ensures (forall d <- decoded :: UnderItsIdentifier(polls, d)) && Apart(decoded, 0)
    ensures forall items: seq<Item> :: Published(items) && polls == Stream(items) ==> Contents(decoded) == InStep(items)
  {
    decoded := [];
    var next := 0;
    while next < |polls|
      invariant next <= |polls| && decoded + Viewed(polls, next) == Viewed(polls, 0)
    {
      ghost var before := decoded;
      if polls[next].Timeout? {
        next := next + 1;
        continue;
      }
      var message := polls[next].bytes;
      if |message| > 1 {
        next := next + 1;
        continue;
      }
      var packetId := Number(message);
      if next + 1 == |polls| {
        break;
      }
      if polls[next + 1].Timeout? {
        next := next + 2;
        continue;
      }
      message := polls[next + 1].bytes;
      if |message| == 1 {
        next := next + 2;
        continue;
      }
      if Known(packetId) {
        decoded := decoded + [Decoded(next, packetId, message)];
      }
      next := next + 2;
      Associative(before, if Known(packetId) then [Decoded(next - 2, packetId, message)] else [], Viewed(polls, next));
      assert before + [] == before;
    }
    assert decoded == Viewed(polls, 0) by {
      NothingMore(decoded);
    }
    DecodesUnderItsIdentifier(polls, 0);
    forall items: seq<Item> | Published(items) && polls == Stream(items)
      ensures Contents(decoded) == InStep(items)
    {
      DecodesPairsInStep(items);
    }
  }
}
