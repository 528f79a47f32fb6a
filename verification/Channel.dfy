/** Two connected parties that seal, open and update their keys by the same rules, over reliable byte streams. */
module Channel {
  import opened Bits
  import opened Types
  import opened Primitives
  import opened Record
  import opened KeySchedule
  import opened Handshake
  import opened Transport
  import opened Incoming
  import opened Outgoing
  import ClientHello

  function ReaderOf(h: Half): Reader { Reader(h.secret, h.number, []) }

  /** The opening side's step for an item sealed under its own secret and number. */
  function Taken(c: Crypto, h: Half, i: Item): Step
  {
    match i
    case Piece(content, _) => Data(ReaderOf(Advance(c, h, i)), content)
    case Update(request) => Skip(ReaderOf(Advance(c, h, i)), if request then [Update(false)] else [])
  }

  // ---- one record ----

  lemma UpdatePayload(request: bool)
    ensures Messages(KeyUpdateMessage(request)) == [Message(KEY_UPDATE, [if request then 1 else 0])]
    ensures Rest(KeyUpdateMessage(request)) == []
  {
    var m := Message(KEY_UPDATE, [if request then 1 else 0]);
    ClientHello.ThreeOctets(1);
    assert Encode(m) == KeyUpdateMessage(request);
    assert [m][1..] == [];
    assert EncodeAll([m]) + [] == KeyUpdateMessage(request) by { assert Encode(m) + [] == Encode(m); }
    MessagesOfEncodings([m], []);
  }

  lemma UpdateTaken(c: Crypto, r: Reader, request: bool)
    requires r.buffered == []
    ensures AfterPayload(c, r, KeyUpdateMessage(request)) == Some(Reader(NextSecret(c, r.secret), 0, []))
    ensures Answers(Messages(r.buffered + KeyUpdateMessage(request))) == if request then [Update(false)] else []
  {
    var s := KeyUpdateMessage(request);
    UpdatePayload(request);
    assert [] + s == s;
    var m := Message(KEY_UPDATE, [if request then 1 else 0]);
    assert [m][1..] == [];
    assert AfterAll(c, r, [m]) == After(c, r, m);
    assert Answers([m]) == Answer(m) + [];
  }

  /** A sealed record is found whole at the front of the stream and opens to what was sealed. */
  lemma SealedTaken(c: Crypto, h: Half, o: Opened, padding: nat, rest: Bytes)
    requires 20 <= o.kind <= 23 && |o.content| + padding + 17 <= MAX_FRAGMENT
    ensures var r := SealRecord(c.aes, c.keyOf(h.secret), c.ivOf(h.secret), h.number, o.kind, o.content, padding);
      && FirstRecord(r + rest) == Some(r) && (r + rest)[|r|..] == rest
      && StepOf(c, ReaderOf(h), r) == OpenedStep(c, ReaderOf(h), Ok(o))
  {
    hide SealRecord;
    hide FirstRecord;
    hide OpenRecord;
    hide ParseHeader;
    hide OpenedStep;
    var r := SealRecord(c.aes, c.keyOf(h.secret), c.ivOf(h.secret), h.number, o.kind, o.content, padding);
    SealShape(c, h.secret, h.number, o.kind, o.content, padding);
    SealedFirst(r, |o.content| + padding + 17, rest);
    SealedOpens(c.aes, c.keyOf(h.secret), c.ivOf(h.secret), h.number, r, o, padding);
  }

  /** An item is opened under exactly the secret and number that sealed it, and taken for what it is. */
  lemma ItemTaken(c: Crypto, h: Half, i: Item, rest: Bytes)
    requires Allowed(i)
    ensures var r := RecordOf(c, h, i);
      FirstRecord(r + rest) == Some(r) && (r + rest)[|r|..] == rest && StepOf(c, ReaderOf(h), r) == Taken(c, h, i)
  {
    hide SealRecord;
    hide FirstRecord;
    hide StepOf;
    hide AfterPayload;
    match i
    case Piece(content, padding) =>
      SealedTaken(c, h, Opened(APPLICATION_DATA, content), padding, rest);
    case Update(request) =>
      SealedTaken(c, h, Opened(HANDSHAKE, KeyUpdateMessage(request)), 0, rest);
      UpdateTaken(c, Counted(ReaderOf(h)), request);
  }

  // ---- one direction ----

  /** Whatever interleaving of data and key updates was sent, the other end gets exactly the data, in order. */
  lemma {:induction false} DataArrives(c: Crypto, h: Half, items: seq<Item>, rest: Bytes)
    requires forall i :: i in items ==> Allowed(i)
    ensures AppData(c, ReaderOf(h), Wire(c, h, items) + rest)
      == Content(items) + AppData(c, ReaderOf(AdvanceAll(c, h, items)), rest)
    decreases |items|
  {
    if items == [] {
      assert Wire(c, h, items) + rest == rest;
    } else {
      var i := items[0];
      var g := Advance(c, h, i);
      var r, t := RecordOf(c, h, i), Wire(c, g, items[1..]);
      Associate(r, t, rest);
      ItemTaken(c, h, i, t + rest);
      FirstTaken(c, h, i, r, t + rest);
      DataArrives(c, g, items[1..], rest);
      Associate(Part(i), Content(items[1..]), AppData(c, ReaderOf(AdvanceAll(c, h, items)), rest));
    }
  }

  lemma {:induction false} FirstTaken(c: Crypto, h: Half, i: Item, r: Bytes, tail: Bytes)
    requires FirstRecord(r + tail) == Some(r) && (r + tail)[|r|..] == tail && StepOf(c, ReaderOf(h), r) == Taken(c, h, i)
    ensures AppData(c, ReaderOf(h), r + tail) == Part(i) + AppData(c, ReaderOf(Advance(c, h, i)), tail)
  {
  }

  /** Data accepted by a send arrives, whole and in order. */
  lemma {:induction false} SentDataArrives(c: Crypto, h: Half, data: Bytes, padding: nat, rest: Bytes)
    requires padding <= 255 && !Oversize(|data|, padding)
    ensures AppData(c, ReaderOf(h), Wire(c, h, Chunks(data, padding)) + rest)
      == data + AppData(c, ReaderOf(AdvanceAll(c, h, Chunks(data, padding))), rest)
  {
    ChunksCarry(data, padding);
    DataArrives(c, h, Chunks(data, padding), rest);
  }

  /** A peer that sends allowed items keeps to the record limit, so its data never overruns the pending buffer. */
  lemma {:induction false} WireWithinLimit(c: Crypto, h: Half, items: seq<Item>, rest: Bytes)
    requires forall i :: i in items ==> Allowed(i)
    requires WithinLimit(c, ReaderOf(AdvanceAll(c, h, items)), rest)
    ensures WithinLimit(c, ReaderOf(h), Wire(c, h, items) + rest)
    decreases |items|
  {
    if items == [] {
      assert Wire(c, h, items) + rest == rest;
    } else {
      var i := items[0];
      var g := Advance(c, h, i);
      var r, t := RecordOf(c, h, i), Wire(c, g, items[1..]);
      Associate(r, t, rest);
      ItemTaken(c, h, i, t + rest);
      WireWithinLimit(c, g, items[1..], rest);
      FirstWithinLimit(c, h, i, r, t + rest);
    }
  }

  lemma {:induction false} FirstWithinLimit(c: Crypto, h: Half, i: Item, r: Bytes, tail: Bytes)
    requires Allowed(i)
    requires FirstRecord(r + tail) == Some(r) && (r + tail)[|r|..] == tail && StepOf(c, ReaderOf(h), r) == Taken(c, h, i)
    requires WithinLimit(c, ReaderOf(Advance(c, h, i)), tail)
    ensures WithinLimit(c, ReaderOf(h), r + tail)
  {
  }

  // ---- both directions ----

  /** One direction: the sender, the receiver, the octets between them, and what was sent and received so far. */
  datatype Direction = Direction(write: Half, read: Reader, wire: Bytes, sent: Bytes, received: Bytes)

  datatype World = World(there: Direction, back: Direction)

  function Submit(c: Crypto, d: Direction, items: seq<Item>): Direction
  {
    d.(write := AdvanceAll(c, d.write, items), wire := d.wire + Wire(c, d.write, items), sent := d.sent + Content(items))
  }

  /** What taking the first record leads to, if it is all there and the receiver goes on: its answers, and the direction
      afterwards. */
  function Take(c: Crypto, d: Direction): Option<(Direction, seq<Item>)>
  {
    match FirstRecord(d.wire)
    case None => None
    case Some(record) =>
      match StepOf(c, d.read, record)
      case Stop => None
      case Skip(r, answers) => Some((d.(read := r, wire := d.wire[|record|..]), answers))
      case Data(r, content) =>
        Some((d.(read := r, wire := d.wire[|record|..], received := d.received + content), []))
  }

  /** What one receiving end does with the next record: take it, and answer its requests. */
  ghost predicate Receives(c: Crypto, from: Direction, to: Direction, from2: Direction, to2: Direction)
  {
    Take(c, from).Some? && from2 == Take(c, from).value.0 && to2 == Submit(c, to, Take(c, from).value.1)
  }

  /** One step of either end, in any order. */
  ghost predicate Moves(c: Crypto, s: World, t: World)
  {
    || (exists i :: Allowed(i) && t == s.(there := Submit(c, s.there, [i])))
    || (exists i :: Allowed(i) && t == s.(back := Submit(c, s.back, [i])))
    || Receives(c, s.there, s.back, t.there, t.back)
    || Receives(c, s.back, s.there, t.back, t.there)
  }

  /** The octets in flight are records sealed one after another from the receiver's position to the sender's. */
  ghost predicate InStepWith(c: Crypto, d: Direction, items: seq<Item>)
  {
    && (forall i :: i in items ==> Allowed(i))
    && d.read.buffered == []
    && var h := Half(d.read.secret, d.read.number);
    && d.wire == Wire(c, h, items) && d.write == AdvanceAll(c, h, items)
    && d.sent == d.received + Content(items)
  }

  ghost predicate InStep(c: Crypto, d: Direction)
  {
    exists items :: InStepWith(c, d, items)
  }

  lemma StartInStep(c: Crypto, secret: Secret)
    ensures InStep(c, Direction(Half(secret, 0), Reader(secret, 0, []), [], [], []))
  {
    assert InStepWith(c, Direction(Half(secret, 0), Reader(secret, 0, []), [], [], []), []);
  }

  lemma SubmitInStep(c: Crypto, d: Direction, more: seq<Item>)
    requires InStep(c, d) && forall i :: i in more ==> Allowed(i)
    ensures InStep(c, Submit(c, d, more))
  {
    var items :| InStepWith(c, d, items);
    WireConcat(c, Half(d.read.secret, d.read.number), items, more);
    Associate(d.received, Content(items), Content(more));
    assert InStepWith(c, Submit(c, d, more), items + more);
  }

  /** The next record always opens: under the very secret and number that sealed it. Its answers are allowed. */
  lemma TakeInStep(c: Crypto, d: Direction)
    requires InStep(c, d) && d.wire != []
    ensures Take(c, d).Some? && InStep(c, Take(c, d).value.0)
    ensures forall i :: i in Take(c, d).value.1 ==> Allowed(i)
  {
    var items :| InStepWith(c, d, items);
    TakeFirst(c, d, items);
  }

  lemma TakeFirst(c: Crypto, d: Direction, items: seq<Item>)
    requires InStepWith(c, d, items) && items != []
    ensures Take(c, d).Some? && InStepWith(c, Take(c, d).value.0, items[1..])
    ensures Take(c, d).value.1 == if items[0] == Update(true) then [Update(false)] else []
  {
    var i := items[0];
    var h := Half(d.read.secret, d.read.number);
    var r, t := RecordOf(c, h, i), Wire(c, Advance(c, h, i), items[1..]);
    ItemTaken(c, h, i, t);
    assert d.read == ReaderOf(h) && d.wire == r + t;
    TakeIs(c, d, h, i, r, t);
    Associate(d.received, Part(i), Content(items[1..]));
  }

  lemma TakeIs(c: Crypto, d: Direction, h: Half, i: Item, r: Bytes, t: Bytes)
    requires FirstRecord(r + t) == Some(r) && (r + t)[|r|..] == t && StepOf(c, ReaderOf(h), r) == Taken(c, h, i)
    requires d.read == ReaderOf(h) && d.wire == r + t
    ensures Take(c, d) == Some((d.(read := ReaderOf(Advance(c, h, i)), wire := t, received := d.received + Part(i)),
                                if i == Update(true) then [Update(false)] else []))
  {
    assert d.received + [] == d.received;
  }

  lemma TakeNeedsWire(c: Crypto, d: Direction)
    requires Take(c, d).Some?
    ensures d.wire != []
  {
  }

  /** Every step of either end, in any interleaving, keeps both directions in step. */
  lemma MovesInStep(c: Crypto, s: World, t: World)
    requires InStep(c, s.there) && InStep(c, s.back) && Moves(c, s, t)
    ensures InStep(c, t.there) && InStep(c, t.back)
  {
    if i :| Allowed(i) && t == s.(there := Submit(c, s.there, [i])) {
      SubmitInStep(c, s.there, [i]);
    } else if i :| Allowed(i) && t == s.(back := Submit(c, s.back, [i])) {
      SubmitInStep(c, s.back, [i]);
    } else if Receives(c, s.there, s.back, t.there, t.back) {
      ReceivesInStep(c, s.there, s.back, t.there, t.back);
    } else {
      ReceivesInStep(c, s.back, s.there, t.back, t.there);
    }
  }

  lemma ReceivesInStep(c: Crypto, from: Direction, to: Direction, from2: Direction, to2: Direction)
    requires InStep(c, from) && InStep(c, to) && Receives(c, from, to, from2, to2)
    ensures InStep(c, from2) && InStep(c, to2)
  {
    TakeNeedsWire(c, from);
    TakeInStep(c, from);
    SubmitInStep(c, to, Take(c, from).value.1);
  }

  // ---- the moves are what a client does ----

  /** Some number of receptions, one after another. */
  ghost predicate ReceivesMany(c: Crypto, from: Direction, to: Direction, from2: Direction, to2: Direction, turns: nat)
    decreases turns
  {
    if turns == 0 then from2 == from && to2 == to
    else exists f, t :: Receives(c, from, to, f, t) && ReceivesMany(c, f, t, from2, to2, turns - 1)
  }

  /** Where a fetch leaves a direction. */
  function Behind(d: Direction, f: Fetch): Direction
    requires f.Fetched?
  {
    d.(read := f.reader, wire := f.rest, received := d.received + f.content)
  }

  /** What a successful receive does, taking the next data and answering the requests before it, is a sequence of
      receptions. */
  lemma {:induction false} FetchIsReceptions(c: Crypto, from: Direction, to: Direction) returns (turns: nat)
    requires FetchFrom(c, from.read, from.wire).Fetched?
    ensures var f := FetchFrom(c, from.read, from.wire);
      ReceivesMany(c, from, to, Behind(from, f), Submit(c, to, f.answers), turns)
    decreases |from.wire|
  {
    hide FetchFrom;
    hide Submit;
    hide Take;
    var f := FetchFrom(c, from.read, from.wire);
    var next, answers, done := FirstTurn(c, from);
    var answered := Submit(c, to, answers);
    assert Receives(c, from, to, next, answered);
    if done {
      assert ReceivesMany(c, next, answered, next, answered, 0);
      turns := 1;
    } else {
      var n := FetchIsReceptions(c, next, answered);
      SubmitTwice(c, to, answers, FetchFrom(c, next.read, next.wire).answers);
      turns := n + 1;
    }
  }

  /** The first record of a fetch: the data itself, or something on the way to it. */
  lemma FirstTurn(c: Crypto, d: Direction) returns (next: Direction, answers: seq<Item>, done: bool)
    requires FetchFrom(c, d.read, d.wire).Fetched?
    ensures Take(c, d) == Some((next, answers)) && |next.wire| < |d.wire|
    ensures var f, g := FetchFrom(c, d.read, d.wire), FetchFrom(c, next.read, next.wire);
      if done then next == Behind(d, f) && answers == f.answers
      else g.Fetched? && f.answers == answers + g.answers && Behind(next, g) == Behind(d, f)
  {
    var taken := Take(c, d).value;
    next, answers := taken.0, taken.1;
    done := StepOf(c, d.read, FirstRecord(d.wire).value).Data?;
  }

  lemma SubmitTwice(c: Crypto, d: Direction, a: seq<Item>, b: seq<Item>)
    ensures Submit(c, Submit(c, d, a), b) == Submit(c, d, a + b)
  {
    WireConcat(c, d.write, a, b);
    Associate(d.wire, Wire(c, d.write, a), Wire(c, AdvanceAll(c, d.write, a), b));
    Associate(d.sent, Content(a), Content(b));
  }

  ghost predicate Run(c: Crypto, states: seq<World>)
  {
    && states != []
    && (exists a, b :: states[0] == World(Direction(Half(a, 0), Reader(a, 0, []), [], [], []),
                                          Direction(Half(b, 0), Reader(b, 0, []), [], [], [])))
    && forall k :: 0 < k < |states| ==> Moves(c, states[k - 1], states[k])
  }

  /** In every run, at every moment: a record on a wire can be opened, and what has been received is a prefix of what
      has been sent, complete once the wire is empty. */
  lemma {:induction false} RunsDeliver(c: Crypto, states: seq<World>)
    requires Run(c, states)
    ensures var s := states[|states| - 1]; Delivers(c, s.there) && Delivers(c, s.back)
    ensures var s := states[|states| - 1]; InStep(c, s.there) && InStep(c, s.back)
    decreases |states|
  {
    var n := |states| - 1;
    if n == 0 {
      var a, b :| states[0] == World(Direction(Half(a, 0), Reader(a, 0, []), [], [], []),
                                     Direction(Half(b, 0), Reader(b, 0, []), [], [], []));
      StartInStep(c, a);
      StartInStep(c, b);
    } else {
      RunsDeliver(c, states[..n]);
      MovesInStep(c, states[n - 1], states[n]);
    }
    InStepDelivers(c, states[n].there);
    InStepDelivers(c, states[n].back);
  }

  ghost predicate Delivers(c: Crypto, d: Direction)
  {
    && (d.wire != [] ==> Take(c, d).Some?)
    && d.received <= d.sent
    && (d.wire == [] ==> d.received == d.sent && d.write == Half(d.read.secret, d.read.number))
  }

  lemma InStepDelivers(c: Crypto, d: Direction)
    requires InStep(c, d)
    ensures Delivers(c, d)
  {
    if d.wire != [] { TakeInStep(c, d); }
    var items :| InStepWith(c, d, items);
    if items != [] {
      var r := RecordOf(c, Half(d.read.secret, d.read.number), items[0]);
      assert |r| > 0;
    }
  }
}
