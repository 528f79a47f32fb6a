/** The octets of a handshake on the two streams of a connection. */
module Exchange {
  import opened Bits
  import opened Types
  import opened Primitives
  import opened Record
  import opened Handshake
  import opened Transport
  import opened Flight
  import opened Incoming

  // ---- the hellos: the client's and the server's in turn ----

  function PlainRecord(kind: Byte, payload: Bytes): Bytes { EncodeHeader(kind, |payload|) + payload }

  /** The records of the client's hellos. */
  function SentHellos(hellos: seq<Bytes>): Bytes
  {
    if hellos == [] then []
    else
      var n := |hellos| - 1;
      SentHellos(hellos[..n]) + if n % 2 == 0 then PlainRecord(HANDSHAKE, hellos[n]) else []
  }

  /** The handshake octets of the server's hellos. */
  function ServerHellos(hellos: seq<Bytes>): Bytes
  {
    if hellos == [] then []
    else
      var n := |hellos| - 1;
      ServerHellos(hellos[..n]) + if n % 2 == 0 then [] else hellos[n]
  }

  lemma {:induction false} OneHelloMore(hellos: seq<Bytes>, h: Bytes)
    ensures |hellos| % 2 == 0 ==> SentHellos(hellos + [h]) == SentHellos(hellos) + PlainRecord(HANDSHAKE, h)
    ensures |hellos| % 2 == 0 ==> ServerHellos(hellos + [h]) == ServerHellos(hellos)
    ensures |hellos| % 2 == 1 ==> SentHellos(hellos + [h]) == SentHellos(hellos)
    ensures |hellos| % 2 == 1 ==> ServerHellos(hellos + [h]) == ServerHellos(hellos) + h
  {
    assert (hellos + [h])[..|hellos|] == hellos;
  }

  // ---- records before the keys are there ----

  /** The handshake octets of an unprotected record; None where the client stops. */
  function PlainPayload(record: Bytes): Option<Bytes>
  {
    match ParseHeader(record)
    case Err(_) => None
    case Ok(h) =>
      if h.kind == CHANGE_CIPHER_SPEC then
        if h.length == 1 && |record| > 5 && record[5] == 1 then Some([]) else None
      else if h.kind == HANDSHAKE then Some(record[5..]) else None
  }

  function PlainPayloads(records: seq<Bytes>): Option<Bytes>
  {
    if records == [] then Some([])
    else
      var n := |records| - 1;
      var before, last := PlainPayloads(records[..n]), PlainPayload(records[n]);
      if before.None? || last.None? then None else Some(before.value + last.value)
  }

  predicate Whole(records: seq<Bytes>)
  {
    forall r :: r in records ==> FirstRecord(r) == Some(r)
  }

  /** Reading whole records from `s` yields `octets` of handshake and leaves `t`. */
  ghost predicate ReadsPlain(s: Bytes, octets: Bytes, t: Bytes)
  {
    exists records :: Whole(records) && s == Concat(records) + t && PlainPayloads(records) == Some(octets)
  }

  lemma PlainNothing(s: Bytes)
    ensures ReadsPlain(s, [], s)
  {
    assert Whole([]) && s == Concat([]) + s && PlainPayloads([]) == Some([]);
  }

  lemma PlainMore(s: Bytes, octets: Bytes, t: Bytes, record: Bytes, payload: Bytes, rest: Bytes)
    requires ReadsPlain(s, octets, t) && FirstRecord(t) == Some(record) && t == record + rest
    requires PlainPayload(record) == Some(payload)
    ensures ReadsPlain(s, octets + payload, rest)
  {
    var records :| Whole(records) && s == Concat(records) + t && PlainPayloads(records) == Some(octets);
    var more := OneRecordMore(s, records, t, record, rest);
    assert PlainPayloads(more) == Some(octets + payload);
  }

  lemma OneRecordMore(s: Bytes, records: seq<Bytes>, t: Bytes, record: Bytes, rest: Bytes)
    returns (more: seq<Bytes>)
    requires Whole(records) && s == Concat(records) + t && FirstRecord(t) == Some(record) && t == record + rest
    ensures Whole(more) && s == Concat(more) + rest
    ensures more == records + [record] && more[..|records|] == records && more[|records|] == record
  {
    more := records + [record];
    FirstIsWhole(t, record);
    ConcatOneMore(records, record);
    Associate(Concat(records), record, rest);
  }

  lemma FirstIsWhole(t: Bytes, record: Bytes)
    requires FirstRecord(t) == Some(record)
    ensures FirstRecord(record) == Some(record)
  {
    assert t[..5] == record[..5];
    assert record[..|record|] == record;
  }

  // ---- the server's flight under the handshake keys ----

  /** One record more; `buffered` collects the handshake octets. */
  function FlightStep(c: Crypto, r: Reader, record: Bytes): Option<Reader>
  {
    match ParseHeader(record)
    case Err(_) => None
    case Ok(h) =>
      if h.kind == CHANGE_CIPHER_SPEC then Some(r)
      else match Incoming.Open(c, r, record)
        case Err(_) => None
        case Ok(o) => if o.kind == HANDSHAKE then Some(Counted(r).(buffered := r.buffered + o.content)) else None
  }

  function FlightSteps(c: Crypto, r: Reader, records: seq<Bytes>): Option<Reader>
  {
    if records == [] then Some(r)
    else
      var n := |records| - 1;
      match FlightSteps(c, r, records[..n])
      case None => None
      case Some(t) => FlightStep(c, t, records[n])
  }

  /** Reading whole records from `s` takes the reader to `q` and leaves `t`. */
  ghost predicate ReadsFlight(c: Crypto, r: Reader, s: Bytes, q: Reader, t: Bytes)
  {
    exists records :: Whole(records) && s == Concat(records) + t && FlightSteps(c, r, records) == Some(q)
  }

  lemma FlightNothing(c: Crypto, r: Reader, s: Bytes)
    ensures ReadsFlight(c, r, s, r, s)
  {
    assert Whole([]) && s == Concat([]) + s && FlightSteps(c, r, []) == Some(r);
  }

  lemma FlightMore(c: Crypto, r: Reader, s: Bytes, q: Reader, t: Bytes, record: Bytes, rest: Bytes)
    requires ReadsFlight(c, r, s, q, t) && FirstRecord(t) == Some(record) && t == record + rest
    requires FlightStep(c, q, record).Some?
    ensures ReadsFlight(c, r, s, FlightStep(c, q, record).value, rest)
  {
    var records :| Whole(records) && s == Concat(records) + t && FlightSteps(c, r, records) == Some(q);
    var more := OneRecordMore(s, records, t, record, rest);
    assert FlightSteps(c, r, more) == FlightStep(c, q, record);
  }

  // ---- the whole handshake ----

  /** The record of the client's Finished, the first under its handshake keys. */
  function FinishedRecord(x: Session): Bytes
  {
    match x
    case NoSession => []
    case Session(u, _, ecdhe, hellos, _, finished, _, _) =>
      var k := ClientHandshakeSecret(u, ecdhe, hellos);
      SealRecord(u.crypto.aes, u.crypto.keyOf(k), u.crypto.ivOf(k), 0, HANDSHAKE, finished, 0)
  }

  /** The reader of the server's flight when `number` records were opened and `octets` of handshake read. */
  function FlightReader(x: Session, number: u64, octets: Bytes): Reader
    requires x.Session?
  {
    Reader(OpeningOf(x.u, x.ecdhe, x.hostname, x.hellos).secret, number, octets)
  }

  /** The client sent exactly the records of its hellos and of its Finished. What it read is whole records: unprotected
      ones that carry exactly the server's hellos, then ones that open under the server's handshake keys and carry exactly
      the server's flight and `left`. */
  ghost predicate OnWire(x: Session, sent: Bytes, sentAfter: Bytes, incoming: Bytes, incomingAfter: Bytes, left: Bytes)
  {
    && x.Session?
    && sentAfter == sent + SentHellos(x.hellos) + FinishedRecord(x)
    && exists mid, n ::
         && ReadsPlain(incoming, ServerHellos(x.hellos), mid)
         && ReadsFlight(x.u.crypto, FlightReader(x, 0, []), mid, FlightReader(x, n, EncodeAll(x.flight) + left), incomingAfter)
  }
}
