/** What the octets still to arrive on a connected stream will deliver, read all at once. */
module Incoming {
  import opened Bits
  import opened Types
  import opened Primitives
  import opened Record
  import opened Handshake
  import opened KeySchedule
  import opened Transport
  import opened Outgoing

  /** The receiving side: the traffic secret, its next sequence number, and an incomplete handshake message. */
  datatype Reader = Reader(secret: Secret, number: u64, buffered: Bytes)

  const STORAGE: nat := 32768

  function Open(c: Crypto, r: Reader, record: Bytes): Result<Opened>
  {
    OpenRecord(c.aes, c.keyOf(r.secret), c.ivOf(r.secret), r.number, record)
  }

  /** After a record has been accepted. */
  function Counted(r: Reader): Reader { r.(number := Next(r.number)) }

  predicate IsKeyUpdate(m: Message) { m.kind == KEY_UPDATE && |m.body| == 1 && m.body[0] <= 1 }

  /** One post-handshake message: tickets are ignored, a KeyUpdate starts the next generation. */
  function After(c: Crypto, r: Reader, m: Message): Option<Reader>
  {
    if m.kind == NEW_SESSION_TICKET then Some(r)
    else if IsKeyUpdate(m) then Some(r.(secret := NextSecret(c, r.secret), number := 0))
    else None
  }

  function AfterAll(c: Crypto, r: Reader, ms: seq<Message>): Option<Reader>
    decreases |ms|
  {
    if ms == [] then Some(r)
    else match After(c, r, ms[0])
      case None => None
      case Some(s) => AfterAll(c, s, ms[1..])
  }

  /** A handshake payload appended to what was buffered, and every complete message handled. */
  function AfterPayload(c: Crypto, r: Reader, payload: Bytes): Option<Reader>
  {
    var s := r.buffered + payload;
    if |s| > STORAGE then None
    else match AfterAll(c, r, Messages(s))
      case None => None
      case Some(t) => Some(t.(buffered := Rest(s)))
  }

  /** A KeyUpdate that asks for one is answered by one. */
  function Answer(m: Message): seq<Item>
  {
    if IsKeyUpdate(m) && m.body[0] == 1 then [Update(false)] else []
  }

  function Answers(ms: seq<Message>): seq<Item>
  {
    if ms == [] then [] else Answer(ms[0]) + Answers(ms[1..])
  }

  datatype Step =
    | Skip(reader: Reader, answers: seq<Item>)   // nothing for the application, and what goes back
    | Data(reader: Reader, content: Bytes)       // application data
    | Stop                                       // an alert or a failure

  function StepOf(c: Crypto, r: Reader, record: Bytes): Step
  {
    match ParseHeader(record)
    case Err(_) => Stop
    case Ok(h) =>
      if h.kind == CHANGE_CIPHER_SPEC then Skip(r, [])
      else if h.kind != APPLICATION_DATA then Stop
      else OpenedStep(c, r, Open(c, r, record))
  }

  function OpenedStep(c: Crypto, r: Reader, result: Result<Opened>): Step
  {
    match result
    case Err(_) => Stop
    case Ok(o) =>
      if o.kind == APPLICATION_DATA then Data(Counted(r), o.content)
      else if o.kind == HANDSHAKE then
        match AfterPayload(c, Counted(r), o.content)
        case None => Stop
        case Some(s) => Skip(s, Answers(Messages(r.buffered + o.content)))
      else Stop
  }

  // ---- up to the next application data ----

  /** Where the reader stands behind the next record of application data, and what was sent back on the way. */
  datatype Fetch =
    | Fetched(reader: Reader, rest: Bytes, content: Bytes, answers: seq<Item>)
    | Ended

  function FetchFrom(c: Crypto, r: Reader, s: Bytes): Fetch
    decreases |s|
  {
    match FirstRecord(s)
    case None => Ended
    case Some(record) =>
      match StepOf(c, r, record)
      case Stop => Ended
      case Data(t, content) => Fetched(t, s[|record|..], content, [])
      case Skip(t, answers) => Answered(answers, FetchFrom(c, t, s[|record|..]))
  }

  function Answered(answers: seq<Item>, f: Fetch): Fetch
  {
    if f.Fetched? then f.(answers := answers + f.answers) else Ended
  }

  /** The application data in the stream `s`, up to the first record that ends the connection. */
  function AppData(c: Crypto, r: Reader, s: Bytes): Bytes
    decreases |s|
  {
    match FirstRecord(s)
    case None => []
    case Some(record) =>
      match StepOf(c, r, record)
      case Stop => []
      case Skip(t, _) => AppData(c, t, s[|record|..])
      case Data(t, content) => content + AppData(c, t, s[|record|..])
  }

  /** A record that carries an alert with the description close_notify. */
  predicate CloseNotify(c: Crypto, r: Reader, record: Bytes)
  {
    && ParseHeader(record).Ok? && ParseHeader(record).value.kind == APPLICATION_DATA
    && Open(c, r, record).Ok?
    && var o := Open(c, r, record).value; o.kind == ALERT && |o.content| == 2 && o.content[1] == 0
  }

  /** What stands behind a close_notify that comes before any more application data; None if none comes. */
  function Closing(c: Crypto, r: Reader, s: Bytes): Option<Bytes>
    decreases |s|
  {
    match FirstRecord(s)
    case None => None
    case Some(record) =>
      match StepOf(c, r, record)
      case Stop => if CloseNotify(c, r, record) then Some(s[|record|..]) else None
      case Data(_, _) => None
      case Skip(t, _) => Closing(c, t, s[|record|..])
  }

  /** The alert a closing peer sends is such a record. */
  lemma {:induction false} CloseArrives(c: Crypto, r: Reader, rest: Bytes)
    ensures var record := SealRecord(c.aes, c.keyOf(r.secret), c.ivOf(r.secret), r.number, ALERT, [1, 0], 0);
      Closing(c, r, record + rest) == Some(rest)
  {
    hide SealRecord;
    hide OpenRecord;
    var record := SealRecord(c.aes, c.keyOf(r.secret), c.ivOf(r.secret), r.number, ALERT, [1, 0], 0);
    SealShape(c, r.secret, r.number, ALERT, [1, 0], 0);
    SealedFirst(record, 19, rest);
    SealedOpens(c.aes, c.keyOf(r.secret), c.ivOf(r.secret), r.number, record, Opened(ALERT, [1, 0]), 0);
  }

  /** Fetching takes the first part of the data that is ahead, and leaves the rest ahead. */
  lemma {:induction false} FetchTakesData(c: Crypto, r: Reader, s: Bytes)
    ensures var f := FetchFrom(c, r, s);
      AppData(c, r, s) == if f.Fetched? then f.content + AppData(c, f.reader, f.rest) else []
    decreases |s|
  {
    var record := FirstRecord(s);
    if record.Some? && StepOf(c, r, record.value).Skip? {
      FetchTakesData(c, StepOf(c, r, record.value).reader, s[|record.value|..]);
    }
  }

  // ---- the pending buffer ----

  const PENDING: nat := 16384

  /** Does the next data leave more than the pending buffer holds, for a caller who takes `size` octets? */
  predicate Overruns(c: Crypto, r: Reader, s: Bytes, size: nat)
  {
    var f := FetchFrom(c, r, s);
    f.Fetched? && |f.content| > size + PENDING
  }

  lemma {:induction false} FetchedLength(c: Crypto, r: Reader, s: Bytes)
    requires FetchFrom(c, r, s).Fetched?
    ensures |FetchFrom(c, r, s).content| <= 16623
    decreases |s|
  {
    var record := FirstRecord(s).value;
    match StepOf(c, r, record)
    case Skip(t, _) => FetchedLength(c, t, s[|record|..]);
    case Data(_, content) =>
      var padding := OpenedWasSealed(c.aes, c.keyOf(r.secret), c.ivOf(r.secret), r.number, record, Opened(APPLICATION_DATA, content));
  }

  /** Whatever a peer sends fits exactly when the caller takes at least 239 octets; below, one sealed record of 16623
      octets does not. */
  lemma OverrunsIff(c: Crypto, r: Reader, size: nat)
    ensures (exists s :: Overruns(c, r, s, size)) <==> size < 239
  {
    forall s | Overruns(c, r, s, size)
      ensures size < 239
    {
      FetchedLength(c, r, s);
    }
    if size < 239 {
      var s := LongRecord(c, r, seq(16623, _ => 0));
      assert Overruns(c, r, s, size);
    }
  }

  lemma LongRecord(c: Crypto, r: Reader, content: Bytes) returns (s: Bytes)
    requires |content| == 16623
    ensures FetchFrom(c, r, s) == Fetched(Counted(r), [], content, [])
  {
    hide SealRecord;
    hide OpenRecord;
    s := SealRecord(c.aes, c.keyOf(r.secret), c.ivOf(r.secret), r.number, APPLICATION_DATA, content, 0);
    SealShape(c, r.secret, r.number, APPLICATION_DATA, content, 0);
    SealedFirst(s, 16640, []);
    assert s + [] == s;
    SealedOpens(c.aes, c.keyOf(r.secret), c.ivOf(r.secret), r.number, s, Opened(APPLICATION_DATA, content), 0);
  }

  lemma SealShape(c: Crypto, secret: Secret, number: u64, kind: Byte, content: Bytes, padding: nat)
    ensures var r := SealRecord(c.aes, c.keyOf(secret), c.ivOf(secret), number, kind, content, padding);
      r[..5] == EncodeHeader(APPLICATION_DATA, |content| + padding + 17)
  {
  }

  /** A sealed record is found whole at the front of a stream. */
  lemma SealedFirst(record: Bytes, length: nat, rest: Bytes)
    requires |record| == 5 + length && length <= MAX_FRAGMENT && record[..5] == EncodeHeader(APPLICATION_DATA, length)
    ensures FirstRecord(record + rest) == Some(record) && (record + rest)[|record|..] == rest
    ensures ParseHeader(record) == Ok(Header(APPLICATION_DATA, 0x0303, length))
  {
    HeaderRoundTrip(APPLICATION_DATA, length, []);
    HeaderRoundTrip(APPLICATION_DATA, length, record[5..]);
    assert record[..5] + record[5..] == record && record[..5] + [] == record[..5];
    assert (record + rest)[..5] == record[..5] && (record + rest)[..5 + length] == record;
  }

  /** The sender keeps to the 2^14 octets of section 5.4 of RFC 8446 in every record of application data. */
  ghost predicate WithinLimit(c: Crypto, r: Reader, s: Bytes)
    decreases |s|
  {
    match FirstRecord(s)
    case None => true
    case Some(record) =>
      match StepOf(c, r, record)
      case Stop => true
      case Skip(t, _) => WithinLimit(c, t, s[|record|..])
      case Data(t, content) => |content| <= PENDING && WithinLimit(c, t, s[|record|..])
  }

  /** Such a sender never overruns the buffer, whatever the caller takes. */
  lemma {:induction false} LimitFits(c: Crypto, r: Reader, s: Bytes, size: nat)
    requires WithinLimit(c, r, s)
    ensures !Overruns(c, r, s, size)
    ensures var f := FetchFrom(c, r, s); f.Fetched? ==> WithinLimit(c, f.reader, f.rest)
    decreases |s|
  {
    var record := FirstRecord(s);
    if record.Some? && StepOf(c, r, record.value).Skip? {
      LimitFits(c, StepOf(c, r, record.value).reader, s[|record.value|..], size);
    }
  }
}
