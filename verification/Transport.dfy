/** The byte stream below the record layer, and reading whole records off it. */
module Transport {
  import opened Bits
  import opened Types
  import opened Record

  /** A connection: the octets still to arrive and the octets handed over for sending.
      How many octets one read returns, and whether an operation fails, is not determined. */
  class Stream {
    var incoming: Bytes
    var sent: Bytes
    var open: bool
    ghost var broken: bool   // a send has failed
    ghost var ended: bool    // a read has failed or returned nothing

    constructor (incoming: Bytes)
      ensures this.incoming == incoming && sent == [] && open && !broken && !ended
    {
      this.incoming, sent, open, broken, ended := incoming, [], true, false, false;
    }

    method RecvSome(max: nat) returns (e: Error, got: Bytes)
      modifies this`incoming, this`ended
      ensures |got| <= max && old(incoming) == got + incoming
      ensures e == OK || e == IO
      ensures ended <==> old(ended) || e != OK || got == []
    {
      if * {
        ended := true;
        return IO, [];
      }
      var n: nat :| n <= max && n <= |incoming|;
      got := incoming[..n];
      incoming := incoming[n..];
      ended := ended || got == [];
      e := OK;
    }

    method SendAll(bytes: Bytes) returns (e: Error)
      modifies this`sent, this`broken
      ensures e == OK ==> sent == old(sent) + bytes && broken == old(broken)
      ensures e != OK ==> e == IO && old(sent) <= sent <= old(sent) + bytes && broken
    {
      if * {
        var n: nat :| n <= |bytes|;
        sent, broken := sent + bytes[..n], true;
        return IO;
      }
      sent := sent + bytes;
      e := OK;
    }

    method Close()
      modifies this`open
      ensures !open
    {
      open := false;
    }

    /** Fills `have` up to `total` octets, whatever the pieces. */
    method Fill(have: Bytes, total: nat) returns (e: Error, got: Bytes)
      requires |have| <= total
      modifies this`incoming, this`ended
      ensures ended <==> old(ended) || e != OK
      ensures have <= got && |got| <= total && have + old(incoming) == got + incoming
      ensures e == OK ==> |got| == total
      ensures e == OK || e == IO || e == CLOSED
    {
      got := have;
      while |got| < total
        invariant have <= got && |got| <= total && have + old(incoming) == got + incoming && ended == old(ended)
        decreases total - |got|
      {
        var n;
        e, n := RecvSome(total - |got|);
        got := got + n;
        if e != OK { return; }
        if n == [] { e := CLOSED; return; }
      }
      e := OK;
    }

    method ReadRecord(capacity: nat) returns (e: Error, record: Bytes)
      requires capacity >= MAX_RECORD
      modifies this`incoming, this`ended
      ensures ended <==> old(ended) || e == IO || e == CLOSED
      ensures e == OK ==> FirstRecord(old(incoming)) == Some(record) && old(incoming) == record + incoming
      ensures e == BAD_RECORD ==> |old(incoming)| >= 5 && ParseHeader(old(incoming)[..5]).Err?
      ensures e == BAD_RECORD ==> FirstRecord(old(incoming)) == None
      ensures e != OK ==> e == IO || e == CLOSED || e == BAD_RECORD
    {
      ghost var s := incoming;
      e, record := Fill([], 5);
      if e != OK { return; }
      assert [] + s == s;
      assert s == record + incoming;
      assert s[..5] == record;
      var parsed := ParseHeader(record);
      if parsed.Err? { return parsed.error, record; }
      var h := parsed.value;
      if h.length > MAX_FRAGMENT || 5 + h.length > capacity { return BAD_RECORD, record; }
      e, record := Fill(record, 5 + h.length);
      if e == OK {
        assert s == record + incoming;
        assert s[..|record|] == record;
      }
    }
  }

  /** The whole record at the front of a stream. */
  function FirstRecord(s: Bytes): (r: Option<Bytes>)
    ensures r.Some? ==> 5 <= |r.value| <= |s| && r.value == s[..|r.value|]
  {
    if |s| < 5 then None
    else match ParseHeader(s[..5])
      case Err(_) => None
      case Ok(h) => if |s| < 5 + h.length then None else Some(s[..5 + h.length])
  }
}
