/** The TLS 1.3 client: handshake, application data, key updates and shutdown over one stream. */
module Client {
  import opened Bits
  import opened Types
  import opened Primitives
  import opened Record
  import opened KeySchedule
  import opened Handshake
  import opened Transport
  import opened Flight
  import opened Incoming
  import opened Outgoing
  import opened Exchange
  import Sha256
  import Ledger
  import Aead
  import ClientHello

  datatype State = IDLE | HANDSHAKING | CONNECTED | SHUT | FAILED

  datatype Config = Config(hostname: ClientHello.CString, alpn: ClientHello.CString, group: ClientHello.u16, padding: nat)

  const NO_NAME: ClientHello.CString := []
  const NO_CONFIG := Config(NO_NAME, NO_NAME, ClientHello.X25519, 0)

  const HELLO: nat := 2048

  class TlsClient {
    const u: Suite
    var state: State
    var config: Config
    var stream: Stream?
    const transcript: Sha256.Transcript
    const schedule: Schedule
    const clientHs: TrafficKeys
    const serverHs: TrafficKeys
    const clientApp: TrafficKeys
    const serverApp: TrafficKeys
    var privateKey: Bytes
    var publicKey: Bytes
    const clientHello: array<Byte>
    const deframer: Deframer
    var certificateStorage: Bytes
    var negotiatedAlpn: Bytes
    const pending: array<Byte>
    var pendingOffset: nat
    var pendingLength: nat
    var lastAlertLevel: Byte
    var lastAlertDescription: Byte

    ghost var hellos: seq<Bytes>        // ClientHello, ServerHello, and a retry between them
    ghost var flight: seq<Message>      // the server's messages handled after its hello
    ghost var finished: Bytes           // the client's Finished, once sent
    ghost var writeGeneration: nat      // key updates sent
    ghost var readGeneration: nat       // key updates received
    ghost var session: Session          // how the present connection came about
    ghost var book: Ledger.Kept         // every sealing since construction

    // ---- the invariant, part by part ----

    ghost predicate Fixed()
    {
      && clientHs != serverHs && clientHs != clientApp && clientHs != serverApp
      && serverHs != clientApp && serverHs != serverApp && clientApp != serverApp
      && transcript.sha.buffer != clientHello && transcript.sha.buffer != deframer.storage && transcript.sha.buffer != pending
      && clientHello != deframer.storage && clientHello != pending && deframer.storage != pending
      && clientHello.Length == HELLO && deframer.storage.Length == STORAGE && pending.Length == PENDING
      && transcript.sha.f == u.crypto.compression && transcript.sha.buffer.Length == 64
    }

    lemma Apart()
      requires Fixed()
      ensures clientHs != serverHs && clientHs != clientApp && clientHs != serverApp
      ensures serverHs != clientApp && serverHs != serverApp && clientApp != serverApp
      ensures transcript.sha.buffer != clientHello && transcript.sha.buffer != deframer.storage
      ensures transcript.sha.buffer != pending && transcript.sha.buffer.Length == 64
      ensures clientHello != deframer.storage && clientHello != pending && deframer.storage != pending
      ensures clientHello.Length == HELLO && deframer.storage.Length == STORAGE && pending.Length == PENDING
    {
    }

    ghost predicate HistoryOk()
      reads this`hellos, this`flight, this`finished, transcript, transcript.sha, transcript.sha.buffer
    {
      && transcript.Valid()
      && transcript.sha.data == HelloTranscript(u, hellos) + EncodeAll(flight) + finished
    }

    ghost predicate OpeningOk()
      reads this`hellos, this`flight, this`finished, transcript, transcript.sha, transcript.sha.buffer
    {
      HistoryOk() && flight == [] && finished == []
    }

    ghost predicate BookOk()
      reads this`book, clientHs, clientApp
    {
      && book.handshake.key == clientHs.key && book.handshake.iv == clientHs.iv
      && clientHs.sequenceNumber == Ledger.NumberOf(book.handshake.count)
      && book.application.key == clientApp.key && book.application.iv == clientApp.iv
      && clientApp.sequenceNumber == Ledger.NumberOf(book.application.count)
    }

    /** Application data opened but not yet handed to the caller. */
    ghost function Pending(): Bytes
      requires pendingOffset + pendingLength <= pending.Length
      reads this`pendingOffset, this`pendingLength, pending
    {
      pending[pendingOffset..pendingOffset + pendingLength]
    }

    ghost predicate PendingOk()
      reads this`pendingOffset, this`pendingLength
    {
      pendingOffset + pendingLength <= pending.Length
    }

    /** A connected client has a complete handshake behind it: in every run, for every public operation keeps it. */
    ghost predicate Vouched()
      reads this`state, this`session
    {
      state == CONNECTED ==> SessionOk(session)
    }

    ghost predicate ConnectedOk()
      reads this`state, this`stream, this`config, this`session, this`writeGeneration, this`readGeneration
      reads schedule`clientApplication, schedule`serverApplication, clientApp`key, clientApp`iv, serverApp`key, serverApp`iv
    {
      state == CONNECTED ==>
        && stream != null
        && session.Session? && session.u == u && session.hostname == config.hostname
        && schedule.clientApplication == Generation(u.crypto, session.clientSecret, writeGeneration)
        && schedule.serverApplication == Generation(u.crypto, session.serverSecret, readGeneration)
        && Keyed()
        && serverApp.key == u.crypto.keyOf(schedule.serverApplication)
        && serverApp.iv == u.crypto.ivOf(schedule.serverApplication)
    }

    /** The write keys are those of the client's present secret. */
    ghost predicate Keyed()
      reads schedule`clientApplication, clientApp`key, clientApp`iv
    {
      && clientApp.key == u.crypto.keyOf(schedule.clientApplication)
      && clientApp.iv == u.crypto.ivOf(schedule.clientApplication)
    }

    ghost function Repr(): set<object>
    {
      {transcript.sha, transcript.sha.buffer, schedule, clientHs, serverHs, clientApp, serverApp, clientHello,
       deframer, deframer.storage, pending}
    }

    /** The stream has failed: a send, or a read that brought an error or nothing. */
    ghost predicate Failing()
      reads this`stream, if stream == null then {} else {stream}
    {
      stream != null && (stream.ended || stream.broken)
    }

    lemma FailingIs()
      ensures Failing() <==> stream != null && (stream.ended || stream.broken)
    {
    }

    /** What sending relies on. */
    ghost predicate Writable()
      reads this`state, this`stream, this`config, this`session, this`writeGeneration, this`readGeneration, this`book
      reads schedule`clientApplication, schedule`serverApplication, clientHs, clientApp, serverApp`key, serverApp`iv
    {
      Fixed() && BookOk() && ConnectedOk() && state != HANDSHAKING
    }

    lemma WritableIs()
      ensures Writable() <==> Fixed() && BookOk() && ConnectedOk() && state != HANDSHAKING
      ensures state != CONNECTED ==> ConnectedOk() && Vouched()
      ensures ConnectedOk() && state == CONNECTED ==> stream != null && Keyed()
    {
    }

    /** What handing out received data relies on. */
    ghost predicate Readable()
      reads this`pendingOffset, this`pendingLength, pending, deframer, deframer.storage
    {
      PendingOk() && deframer.Valid()
    }

    ghost predicate Valid()
      reads this, Repr()
    {
      Writable() && Readable()
    }

    lemma ValidIs()
      ensures Valid() <==> Writable() && Readable()
      ensures Readable() <==> PendingOk() && deframer.Valid()
      ensures PendingOk() <==> pendingOffset + pendingLength <= pending.Length
      ensures PendingOk() ==> |Pending()| == pendingLength
    {
    }

    /** What makes a fresh client valid. */
    lemma NewClient()
      requires clientHs != serverHs && clientHs != clientApp && clientHs != serverApp
      requires serverHs != clientApp && serverHs != serverApp && clientApp != serverApp
      requires transcript.sha.buffer != clientHello && transcript.sha.buffer != deframer.storage
      requires transcript.sha.buffer != pending && transcript.sha.Valid() && transcript.sha.f == u.crypto.compression
      requires clientHello != deframer.storage && clientHello != pending && deframer.storage != pending
      requires clientHello.Length == HELLO && deframer.storage.Length == STORAGE && pending.Length == PENDING
      requires state == IDLE && pendingOffset == pendingLength == 0 && deframer.Valid()
      requires book == Ledger.Blank(Aead.ZERO, NO_IV)
      requires clientHs.key == clientApp.key == Aead.ZERO && clientHs.iv == clientApp.iv == NO_IV
      requires clientHs.sequenceNumber == clientApp.sequenceNumber == 0
      ensures Valid() && Vouched()
    {
    }

    constructor (u: Suite)
      ensures Valid() && Vouched() && state == IDLE
      ensures fresh(transcript.sha) && fresh(transcript.sha.buffer) && fresh(schedule)
      ensures fresh(clientHs) && fresh(serverHs) && fresh(clientApp) && fresh(serverApp)
      ensures fresh(clientHello) && fresh(deframer) && fresh(deframer.storage) && fresh(pending)
    {
      hide *;
      this.u := u;
      state, config, stream := IDLE, NO_CONFIG, null;
      transcript := new Sha256.Transcript(u.crypto.compression);
      schedule := new Schedule();
      clientHs := new TrafficKeys();
      serverHs := new TrafficKeys();
      clientApp := new TrafficKeys();
      serverApp := new TrafficKeys();
      privateKey, publicKey := ZEROS, ZEROS;
      clientHello := new Byte[HELLO];
      deframer := new Deframer(STORAGE);
      certificateStorage, negotiatedAlpn := [], [];
      pending := new Byte[PENDING];
      pendingOffset, pendingLength, lastAlertLevel, lastAlertDescription := 0, 0, 0, 0;
      book := Ledger.Blank(Aead.ZERO, NO_IV);
      new;
      NewClient();
    }

    // ---- wiping and failing ----

    method WipeSecrets()
      requires Fixed() && BookOk()
      modifies this`privateKey, this`publicKey, this`book, schedule, clientHs, serverHs, clientApp, serverApp
      ensures BookOk() && book.sealings == old(book.sealings)
      ensures schedule.clientApplication == schedule.serverApplication == ZEROS
      ensures old(Readable()) ==> Readable()
    {
      privateKey, publicKey := [], [];
      schedule.Wipe();
      clientHs.Wipe();
      serverHs.Wipe();
      clientApp.Wipe();
      serverApp.Wipe();
      book := Ledger.InstallHandshake(book, clientHs.key, clientHs.iv);
      book := Ledger.InstallApplication(book, clientApp.key, clientApp.iv);
    }

    method Fail()
      requires Fixed() && BookOk()
      modifies this`state, this`privateKey, this`publicKey, this`book, schedule, clientHs, serverHs, clientApp, serverApp
      modifies if stream == null then {} else {stream}
      ensures state == FAILED && Writable() && Vouched() && book.sealings == old(book.sealings)
      ensures stream != null ==> !stream.open && stream.sent == old(stream.sent) && stream.incoming == old(stream.incoming)
      ensures old(Failing()) ==> Failing()
      ensures old(Readable()) ==> Readable()
    {
      hide *;
      state := FAILED;
      WipeSecrets();
      CloseStream();
      WritableIs();
    }

    method CloseStream()
      modifies if stream == null then {} else {stream}
      ensures stream != null ==> !stream.open && stream.sent == old(stream.sent) && stream.incoming == old(stream.incoming)
      ensures stream != null ==> stream.broken == old(stream.broken) && (old(Failing()) ==> Failing())
      ensures old(Readable()) ==> Readable()
    {
      if stream != null { stream.Close(); }
    }

    // ---- sealing ----

    /** Protects under the application keys, and enters the sealing in the book. */
    method SealApplication(kind: Byte, content: Bytes, padding: nat) returns (e: Error, record: Bytes)
      requires BookOk() && clientHs != clientApp
      modifies this`book, clientApp`sequenceNumber
      ensures BookOk()
      ensures e == ProtectError(kind, |content|, padding, MAX_RECORD)
      ensures e == OK ==>
        record == SealRecord(u.crypto.aes, clientApp.key, clientApp.iv, old(clientApp.sequenceNumber), kind, content, padding)
      ensures e == OK ==> clientApp.sequenceNumber == Next(old(clientApp.sequenceNumber))
      ensures book.sealings == if e == OK then old(Ledger.SealApplication(book).sealings) else old(book.sealings)
      ensures old(book.sealings) <= book.sealings
      ensures e != OK ==> clientApp.sequenceNumber == old(clientApp.sequenceNumber)
    {
      var out := new Byte[MAX_RECORD];
      var n;
      e, n := clientApp.Protect(u.crypto.aes, kind, content, padding, out);
      record := [];
      if e == OK {
        record := out[..n];
        book := Ledger.SealApplication(book);
      }
    }

    method SealHandshake(kind: Byte, content: Bytes) returns (e: Error, record: Bytes)
      requires BookOk() && clientHs != clientApp
      modifies this`book, clientHs`sequenceNumber
      ensures BookOk()
      ensures e == ProtectError(kind, |content|, 0, MAX_RECORD)
      ensures e == OK ==>
        record == SealRecord(u.crypto.aes, clientHs.key, clientHs.iv, old(clientHs.sequenceNumber), kind, content, 0)
      ensures book.sealings == if e == OK then old(Ledger.SealHandshake(book).sealings) else old(book.sealings)
      ensures old(book.sealings) <= book.sealings
    {
      var out := new Byte[MAX_RECORD];
      var n;
      e, n := clientHs.Protect(u.crypto.aes, kind, content, 0, out);
      record := [];
      if e == OK {
        record := out[..n];
        book := Ledger.SealHandshake(book);
      }
    }

    /** A record under the keys of the state: application keys once connected, handshake keys before. */
    ghost function Protected(kind: Byte, payload: Bytes): Bytes
      reads this`state, clientHs, clientApp
    {
      var k := if state == CONNECTED then clientApp else clientHs;
      SealRecord(u.crypto.aes, k.key, k.iv, k.sequenceNumber, kind, payload, 0)
    }

    lemma Protectable(kind: Byte, payload: Bytes)
      requires 20 <= kind <= 23 && |payload| <= MAX_CONTENT
      ensures ProtectError(kind, |payload|, 0, MAX_RECORD) == OK
      ensures Protected(kind, payload) == if state == CONNECTED
        then SealRecord(u.crypto.aes, clientApp.key, clientApp.iv, clientApp.sequenceNumber, kind, payload, 0)
        else SealRecord(u.crypto.aes, clientHs.key, clientHs.iv, clientHs.sequenceNumber, kind, payload, 0)
    {
    }

    method SendProtected(kind: Byte, payload: Bytes) returns (e: Error)
      requires Fixed() && BookOk() && stream != null && 20 <= kind <= 23 && |payload| <= MAX_CONTENT
      modifies this`book, clientHs`sequenceNumber, clientApp`sequenceNumber, stream`sent, stream`broken
      ensures BookOk()
      ensures state == CONNECTED ==> clientApp.sequenceNumber == Next(old(clientApp.sequenceNumber))
      ensures state != CONNECTED ==> clientApp.sequenceNumber == old(clientApp.sequenceNumber)
      ensures e == OK ==> stream.sent == old(stream.sent) + old(Protected(kind, payload)) && stream.broken == old(stream.broken)
      ensures e != OK ==> e == IO && stream.broken
      ensures old(book.sealings) <= book.sealings
    {
      hide *;
      Apart();
      Protectable(kind, payload);
      var record;
      if state == CONNECTED {
        e, record := SealApplication(kind, payload, 0);
      } else {
        e, record := SealHandshake(kind, payload);
      }
      e := stream.SendAll(record);
    }

    // ---- key updates and post-handshake messages ----

    /** The sending side as the next record will find it. */
    ghost function WriteHalf(): Half
      reads schedule`clientApplication, clientApp`sequenceNumber
    {
      Half(schedule.clientApplication, clientApp.sequenceNumber)
    }

    /** Exactly these items have been sent since the stream stood at `sent` and the sending side at `h`. */
    ghost predicate Emitted(sent: Bytes, h: Half, items: seq<Item>)
      requires stream != null
      reads this`stream, stream`sent, schedule`clientApplication, clientApp`sequenceNumber
    {
      stream.sent == sent + Wire(u.crypto, h, items) && WriteHalf() == AdvanceAll(u.crypto, h, items)
    }

    /** The receiving side, with `buffered` in front of the next handshake octets. */
    ghost function Reading(buffered: Bytes): Reader
      reads schedule`serverApplication, serverApp`sequenceNumber
    {
      Reader(schedule.serverApplication, serverApp.sequenceNumber, buffered)
    }

    ghost function View(): Reader
      requires deframer.Valid()
      reads schedule`serverApplication, serverApp`sequenceNumber, deframer, deframer.storage
    {
      Reading(deframer.Buffered())
    }

    lemma ViewIs(b: Bytes)
      requires deframer.Valid()
      ensures deframer.used <= deframer.storage.Length && |deframer.Buffered()| == deframer.used && Reading(b).buffered == b
      ensures View() == Reading(b).(buffered := deframer.Buffered()) == Reading(deframer.Buffered())
    {
    }

    /** The next generation of write keys; the book opens a new page. */
    method UpdateWriteKeys()
      requires Fixed() && BookOk() && ConnectedOk()
      modifies this`book, this`writeGeneration, schedule`clientApplication, clientApp
      ensures BookOk() && ConnectedOk() && book.sealings == old(book.sealings)
      ensures WriteHalf() == Half(NextSecret(u.crypto, old(schedule.clientApplication)), 0)
      ensures writeGeneration == old(writeGeneration) + 1
    {
      var next := UpdateTrafficSecret(u.crypto, schedule.clientApplication, clientApp);
      schedule.clientApplication := next;
      writeGeneration := writeGeneration + 1;
      book := Ledger.InstallApplication(book, clientApp.key, clientApp.iv);
    }

    method UpdateReadKeys()
      requires Fixed() && BookOk() && ConnectedOk()
      modifies this`readGeneration, schedule`serverApplication, serverApp
      ensures BookOk() && ConnectedOk()
      ensures forall b :: Reading(b) == Reader(NextSecret(u.crypto, old(schedule.serverApplication)), 0, b)
      ensures readGeneration == old(readGeneration) + 1
    {
      var next := UpdateTrafficSecret(u.crypto, schedule.serverApplication, serverApp);
      schedule.serverApplication := next;
      readGeneration := readGeneration + 1;
    }

    /** The record of a KeyUpdate, and the sending side behind it. */
    lemma UpdateRecord(request: bool)
      requires ConnectedOk() && state == CONNECTED
      ensures stream != null && 20 <= HANDSHAKE <= 23 && |KeyUpdateMessage(request)| <= MAX_CONTENT
      ensures Wire(u.crypto, WriteHalf(), [Update(request)]) == Protected(HANDSHAKE, KeyUpdateMessage(request))
      ensures AdvanceAll(u.crypto, WriteHalf(), [Update(request)]) == Half(NextSecret(u.crypto, schedule.clientApplication), 0)
    {
      WireOne(u.crypto, WriteHalf(), Update(request));
    }

    /** Nothing sent. */
    lemma EmittedNothing()
      requires stream != null
      ensures Emitted(stream.sent, WriteHalf(), [])
    {
      assert stream.sent + [] == stream.sent;
    }

    lemma {:induction false} EmittedMeans(sent: Bytes, h: Half, items: seq<Item>)
      requires stream != null && Emitted(sent, h, items)
      ensures stream.sent == sent + Wire(u.crypto, h, items) && WriteHalf() == AdvanceAll(u.crypto, h, items)
    {
    }

    lemma {:induction false} EmittedIs(sent: Bytes, h: Half, items: seq<Item>)
      requires stream != null && stream.sent == sent + Wire(u.crypto, h, items) && WriteHalf() == AdvanceAll(u.crypto, h, items)
      ensures Emitted(sent, h, items)
    {
    }

    /** Announces the update under the old keys, then switches. */
    method AnnounceAndUpdate(request: bool) returns (e: Error)
      requires Fixed() && BookOk() && ConnectedOk() && state == CONNECTED
      modifies this`book, this`writeGeneration, schedule`clientApplication, clientHs`sequenceNumber, clientApp
      modifies stream`sent, stream`broken
      ensures BookOk() && ConnectedOk()
      ensures e == OK ==> Emitted(old(stream.sent), old(WriteHalf()), [Update(request)])
      ensures e == OK ==> writeGeneration == old(writeGeneration) + 1
      ensures e != OK ==> e == IO && Failing()
      ensures old(book.sealings) <= book.sealings
    {
      hide *;
      UpdateRecord(request);
      ghost var sent, h := stream.sent, WriteHalf();
      e := SendProtected(HANDSHAKE, KeyUpdateMessage(request));
      FailingIs();
      if e != OK { return; }
      UpdateWriteKeys();
      EmittedIs(sent, h, [Update(request)]);
    }

    method KeyUpdate(request: bool) returns (e: Error)
      requires Writable()
      modifies this`state, this`privateKey, this`publicKey, this`book, this`writeGeneration
      modifies schedule, clientHs, serverHs, clientApp, serverApp, if stream == null then {} else {stream}
      ensures Writable()
      ensures e == CLOSED <==> old(state) != CONNECTED
      ensures e == OK ==> state == CONNECTED && writeGeneration == old(writeGeneration) + 1
      ensures e == OK ==> Emitted(old(stream.sent), old(WriteHalf()), [Update(request)])
      ensures e == IO ==> state == FAILED
      ensures e == OK || e == CLOSED || e == IO
      ensures old(book.sealings) <= book.sealings
      ensures old(Vouched()) ==> Vouched()
    {
      hide *;
      WritableIs();
      if state != CONNECTED { return CLOSED; }
      e := AnnounceAndUpdate(request);
      if e == OK {
        WritableIs();
      } else {
        Fail();
      }
    }

    /** One message: the reading side moves on, and a request is answered on the writing side. */
    method HandlePostHandshake(m: Message, ghost b: Bytes) returns (e: Error)
      requires Fixed() && BookOk() && ConnectedOk() && state == CONNECTED
      modifies this`book, this`writeGeneration, this`readGeneration, schedule`clientApplication, schedule`serverApplication
      modifies clientHs`sequenceNumber, clientApp, serverApp, stream`sent, stream`broken
      ensures BookOk() && ConnectedOk()
      ensures e == OK ==> After(u.crypto, old(Reading(b)), m) == Some(Reading(b))
      ensures e == OK ==> Emitted(old(stream.sent), old(WriteHalf()), Answer(m))
      ensures e != OK && e != IO ==> After(u.crypto, old(Reading(b)), m) == None
      ensures e == IO ==> Failing()
      ensures old(book.sealings) <= book.sealings
    {
      hide BookOk;
      hide ConnectedOk;
      hide Emitted;
      hide Wire;
      WritableIs();
      if m.kind == NEW_SESSION_TICKET {
        EmittedNothing();
        return OK;
      }
      if m.kind != KEY_UPDATE { return UNSUPPORTED; }
      if |m.body| != 1 || m.body[0] > 1 { return BAD_HANDSHAKE; }
      e := FollowUpdate(m.body[0] == 1);
    }

    method FollowUpdate(request: bool) returns (e: Error)
      requires Fixed() && BookOk() && ConnectedOk() && state == CONNECTED
      modifies this`book, this`writeGeneration, this`readGeneration, schedule`clientApplication, schedule`serverApplication
      modifies clientHs`sequenceNumber, clientApp, serverApp, stream`sent, stream`broken
      ensures BookOk() && ConnectedOk()
      ensures forall b :: Reading(b) == Reader(NextSecret(u.crypto, old(schedule.serverApplication)), 0, b)
      ensures e == OK ==> Emitted(old(stream.sent), old(WriteHalf()), if request then [Update(false)] else [])
      ensures e != OK ==> e == IO && Failing()
      ensures old(book.sealings) <= book.sealings
    {
      hide *;
      WritableIs();
      Apart();
      UpdateReadKeys();
      if request {
        e := AnnounceAndUpdate(false);
      } else {
        EmittedNothing();
        e := OK;
      }
    }

    /** One message taken from the deframer: where everything leads does not change. */
    method ProcessOne(m: Message, ghost b: Bytes, ghost whole: Final) returns (e: Error)
      requires Fixed() && BookOk() && ConnectedOk() && state == CONNECTED && deframer.Valid()
      requires stream != null && Parse(deframer.Buffered()) == Ok(m)
      requires whole == Finally(u.crypto, Reading(b), WriteHalf(), stream.sent, Messages(deframer.Buffered()))
      modifies this`book, this`writeGeneration, this`readGeneration, schedule`clientApplication, schedule`serverApplication
      modifies clientHs`sequenceNumber, clientApp, serverApp, stream`sent, stream`broken
      modifies deframer`used, deframer`consumed, deframer.storage
      ensures BookOk() && ConnectedOk() && deframer.Valid()
      ensures e == OK ==> deframer.used < old(deframer.used) && Rest(deframer.Buffered()) == Rest(old(deframer.Buffered()))
      ensures e == OK ==>
        whole == Finally(u.crypto, Reading(b), WriteHalf(), stream.sent, Messages(deframer.Buffered()))
      ensures e != OK && e != IO ==> whole.reader == None
      ensures e == IO ==> Failing()
      ensures old(book.sealings) <= book.sealings
    {
      hide *;
      deframer.Room();
      ghost var before, h, sent := deframer.Buffered(), WriteHalf(), stream.sent;
      FinallyStep(u.crypto, Reading(b), h, sent, before, m);
      e := HandlePostHandshake(m, b);
      if e != OK { return; }
      EmittedMeans(sent, h, Answer(m));
      e := deframer.Consume();
      assert before[|Encode(m)|..] == deframer.Buffered();
    }

    /** A handshake payload: every complete message is handled, in order, and every request answered. */
    method ProcessPostHandshake(bytes: Bytes) returns (e: Error)
      requires Fixed() && BookOk() && ConnectedOk() && state == CONNECTED && deframer.Valid()
      modifies this`book, this`writeGeneration, this`readGeneration, schedule`clientApplication, schedule`serverApplication
      modifies clientHs`sequenceNumber, clientApp, serverApp, stream`sent, stream`broken, deframer, deframer.storage
      ensures BookOk() && ConnectedOk() && deframer.Valid()
      ensures e == OK ==> AfterPayload(u.crypto, old(View()), bytes) == Some(View())
      ensures var answers := Answers(Messages(old(deframer.Buffered()) + bytes));
        e == OK ==> Emitted(old(stream.sent), old(WriteHalf()), answers)
      ensures e != OK && e != IO ==> AfterPayload(u.crypto, old(View()), bytes) == None
      ensures e == IO ==> Failing()
      ensures old(book.sealings) <= book.sealings
    {
      hide *;
      Apart();
      WritableIs();
      ViewIs([]);
      ghost var b, h, sent := deframer.Buffered(), WriteHalf(), stream.sent;
      ghost var r, s := Reading(b), b + bytes;
      PayloadIs(u.crypto, r, h, sent, bytes);
      ViewIs(b);
      e := deframer.Append(bytes);
      if e != OK { return; }
      ghost var whole := Finally(u.crypto, r, h, sent, Messages(s));
      while true
        invariant BookOk() && ConnectedOk() && deframer.Valid() && old(book.sealings) <= book.sealings
        invariant stream != null && deframer.used <= deframer.storage.Length
        invariant Rest(s) == Rest(deframer.Buffered())
        invariant whole == Finally(u.crypto, Reading(b), WriteHalf(), stream.sent, Messages(deframer.Buffered()))
        decreases deframer.used
      {
        var m := deframer.Peek();
        if m.Err? {
          NothingLeft(u.crypto, Reading(b), WriteHalf(), stream.sent, deframer.Buffered());
          ViewIs(b);
          EmittedIs(sent, h, Answers(Messages(s)));
          return OK;
        }
        e := ProcessOne(m.value, b, whole);
        if e != OK { return; }
        deframer.Room();
      }
    }

    // ---- sending ----

    /** Cuts the data into records of at most 16623 - padding octets. */
    method Send(data: Bytes) returns (e: Error)
      requires Writable()
      modifies this`state, this`privateKey, this`publicKey, this`book
      modifies schedule, clientHs, serverHs, clientApp, serverApp, if stream == null then {} else {stream}
      ensures Writable() && (state == CONNECTED ==> old(state) == CONNECTED)
      ensures e == CLOSED <==> old(state) != CONNECTED
      ensures e == BAD_RECORD <==> old(state) == CONNECTED && Oversize(|data|, config.padding)
      ensures e == OK || e == CLOSED || e == BAD_RECORD || e == IO
      ensures e == OK ==> state == CONNECTED
      ensures e == OK ==> Emitted(old(stream.sent), old(WriteHalf()), Chunks(data, Padding(config)))
      ensures e == BAD_RECORD || e == IO ==> state == FAILED
      ensures e == BAD_RECORD ==> stream.sent == old(stream.sent)
      ensures e == IO ==>
        old(stream.sent) <= stream.sent <= old(stream.sent) + Wire(u.crypto, old(WriteHalf()), Chunks(data, Padding(config)))
      ensures old(book.sealings) <= book.sealings
      ensures old(Vouched()) ==> Vouched()
    {
      hide *;
      WritableIs();
      Apart();
      if state != CONNECTED { return CLOSED; }
      e := SendAll(data);
      if e == OK {
        WritableIs();
      } else {
        Fail();
      }
    }

    method SendAll(data: Bytes) returns (e: Error)
      requires BookOk() && clientHs != clientApp && stream != null && Keyed()
      modifies this`book, clientApp`sequenceNumber, stream`sent, stream`broken
      ensures BookOk()
      ensures e == BAD_RECORD <==> Oversize(|data|, config.padding)
      ensures e == OK || e == BAD_RECORD || e == IO
      ensures e == OK ==> Emitted(old(stream.sent), old(WriteHalf()), Chunks(data, Padding(config)))
      ensures e == BAD_RECORD ==> stream.sent == old(stream.sent)
      ensures e == IO ==>
        old(stream.sent) <= stream.sent <= old(stream.sent) + Wire(u.crypto, old(WriteHalf()), Chunks(data, Padding(config)))
      ensures old(book.sealings) <= book.sealings
    {
      hide *;
      PaddingIs(config, |data|);
      var padding := if config.padding > 255 then 255 else config.padding;
      var max := 16623 - padding;
      var off := 0;
      ghost var sent, h := stream.sent, WriteHalf();
      ghost var target := sent + Wire(u.crypto, h, Chunks(data, padding));
      ghost var final := AdvanceAll(u.crypto, h, Chunks(data, padding));
      assert data[0..] == data;
      while off < |data|
        invariant off <= |data| && BookOk() && old(book.sealings) <= book.sealings
        invariant off > 0 ==> !Oversize(|data|, padding)
        invariant off == 0 ==> stream.sent == sent
        invariant sent <= stream.sent
        invariant stream.sent + Wire(u.crypto, WriteHalf(), Chunks(data[off..], padding)) == target
        invariant AdvanceAll(u.crypto, WriteHalf(), Chunks(data[off..], padding)) == final
      {
        e, off := SendChunk(data, off, max, padding, target);
        if e != OK { return; }
      }
      NoChunks(u.crypto, WriteHalf(), data[off..], padding, stream.sent);
      EmittedIs(sent, h, Chunks(data, padding));
      e := OK;
    }

    lemma PieceRecord(content: Bytes, padding: nat)
      requires Keyed()
      ensures RecordOf(u.crypto, WriteHalf(), Piece(content, padding)) == SealRecord(u.crypto.aes, clientApp.key, clientApp.iv,
                clientApp.sequenceNumber, APPLICATION_DATA, content, padding)
      ensures Advance(u.crypto, WriteHalf(), Piece(content, padding))
        == Half(schedule.clientApplication, Next(clientApp.sequenceNumber))
    {
    }

    lemma WriteHalfIs()
      ensures WriteHalf() == Half(schedule.clientApplication, clientApp.sequenceNumber)
    {
    }

    method SendChunk(data: Bytes, off: nat, max: nat, padding: nat, ghost target: Bytes) returns (e: Error, next: nat)
      requires BookOk() && clientHs != clientApp && stream != null && Keyed()
      requires off < |data| && padding <= 255 && max == 16623 - padding && (off > 0 ==> !Oversize(|data|, padding))
      requires stream.sent + Wire(u.crypto, WriteHalf(), Chunks(data[off..], padding)) == target
      modifies this`book, clientApp`sequenceNumber, stream`sent, stream`broken
      ensures BookOk() && off < next <= |data|
      ensures e == BAD_RECORD <==> Oversize(|data|, padding)
      ensures e == OK || e == BAD_RECORD || e == IO
      ensures e == OK ==> stream.sent + Wire(u.crypto, WriteHalf(), Chunks(data[next..], padding)) == target
      ensures e == OK ==>
        var final := AdvanceAll(u.crypto, old(WriteHalf()), Chunks(data[off..], padding));
        AdvanceAll(u.crypto, WriteHalf(), Chunks(data[next..], padding)) == final
      ensures e == BAD_RECORD ==> stream.sent == old(stream.sent)
      ensures old(stream.sent) <= stream.sent <= target
      ensures old(book.sealings) <= book.sealings
    {
      hide *;
      var n := if |data| - off > max then max else |data| - off;
      next := off + n;
      ChunkTooLong(|data|, off, n, padding);
      PieceRecord(data[off..next], padding);
      FirstChunk(u.crypto, WriteHalf(), data, off, padding, next, stream.sent);
      var record;
      e, record := SealApplication(APPLICATION_DATA, data[off..next], padding);
      if e != OK { return; }
      e := stream.SendAll(record);
      WriteHalfIs();
    }

    // ---- receiving ----

    method HandleAlert(payload: Bytes) returns (e: Error)
      modifies this`lastAlertLevel, this`lastAlertDescription
      ensures |payload| != 2 ==> e == BAD_RECORD
      ensures |payload| == 2 ==> e == if payload[1] == 0 then CLOSED else VERIFY
      ensures |payload| == 2 ==> lastAlertLevel == payload[0] && lastAlertDescription == payload[1]
    {
      if |payload| != 2 { return BAD_RECORD; }
      lastAlertLevel := payload[0];
      lastAlertDescription := payload[1];
      if lastAlertDescription == 0 { return CLOSED; }
      return VERIFY;
    }

    /** One protected record: application data (`done`), something to go on from, or the end (`alert` if by an alert). */
    method HandleRecord(record: Bytes) returns (e: Error, done: bool, plain: Bytes, alert: bool, ghost answers: seq<Item>)
      requires Writable() && state == CONNECTED && deframer.Valid()
      modifies this`book, this`writeGeneration, this`readGeneration, this`lastAlertLevel, this`lastAlertDescription
      modifies schedule`clientApplication, schedule`serverApplication
      modifies clientHs`sequenceNumber, clientApp, serverApp, stream`sent, stream`broken, deframer, deframer.storage
      ensures Writable() && deframer.Valid()
      ensures e == OK ==>
        StepOf(u.crypto, old(View()), record) == if done then Data(View(), plain) else Skip(View(), answers)
      ensures e == OK ==> Emitted(old(stream.sent), old(WriteHalf()), answers)
      ensures e == OK && done ==> answers == []
      ensures e != OK && e != IO ==> StepOf(u.crypto, old(View()), record) == Stop
      ensures alert ==> e != OK && e != IO
      ensures e == IO && StepOf(u.crypto, old(View()), record) != Stop ==> Failing()
      ensures alert && e == CLOSED <==> CloseNotify(u.crypto, old(View()), record)
      ensures old(book.sealings) <= book.sealings
    {
      hide *;
      WritableIs();
      Apart();
      ViewIs([]);
      EmittedNothing();
      StepCases(u.crypto, View(), record);
      AlertCases(u.crypto, View(), record);
      done, plain, alert, answers := false, [], false, [];
      var parsed := ParseHeader(record);
      if parsed.Err? { e := parsed.error; return; }
      if parsed.value.kind == CHANGE_CIPHER_SPEC { e := OK; return; }
      if parsed.value.kind != APPLICATION_DATA { e := BAD_RECORD; return; }
      var kind;
      ghost var r := View();
      e, kind, plain := OpenRecordInPlace(record);
      WritableIs();
      ViewIs([]);
      if e != OK { return; }
      OpenedCases(u.crypto, r, Opened(kind, plain));
      if kind == APPLICATION_DATA { done := true; return; }
      if kind == ALERT { e := HandleAlert(plain); alert := true; return; }
      if kind == HANDSHAKE {
        answers := Answers(Messages(deframer.Buffered() + plain));
        e := ProcessPostHandshake(plain);
        WritableIs();
        return;
      }
      e := BAD_RECORD;
    }

    method OpenRecordInPlace(record: Bytes) returns (e: Error, kind: Byte, plain: Bytes)
      requires Writable() && state == CONNECTED && deframer.Valid()
      modifies serverApp`sequenceNumber
      ensures Writable() && deframer.Valid()
      ensures e == ErrorOf(Incoming.Open(u.crypto, old(View()), record))
      ensures e == OK ==> Incoming.Open(u.crypto, old(View()), record) == Ok(Opened(kind, plain))
      ensures e == OK ==> View() == Counted(old(View()))
    {
      var buffer := new Byte[MAX_FRAGMENT];
      var n;
      e, kind, n := serverApp.Unprotect(u.crypto.aes, record, buffer);
      plain := buffer[..n];
    }

    /** The next application data on the stream. */
    ghost function Coming(): Fetch
      requires deframer.Valid() && stream != null
      reads this`stream, stream`incoming, schedule`serverApplication, serverApp`sequenceNumber, deframer, deframer.storage
    {
      FetchFrom(u.crypto, View(), stream.incoming)
    }

    /** What the rest of the stream will still deliver. */
    ghost function Ahead(): Bytes
      requires deframer.Valid() && stream != null
      reads this`stream, stream`incoming, schedule`serverApplication, serverApp`sequenceNumber, deframer, deframer.storage
    {
      AppData(u.crypto, View(), stream.incoming)
    }

    lemma ComingIs()
      requires deframer.Valid() && stream != null
      ensures Coming() == FetchFrom(u.crypto, View(), stream.incoming) && Ahead() == AppData(u.crypto, View(), stream.incoming)
    {
    }

    /** A close_notify that comes before any more data: what stands behind it. */
    ghost function Ending(): Option<Bytes>
      requires deframer.Valid()
      reads this`stream, if stream == null then {} else {stream}
      reads schedule`serverApplication, serverApp`sequenceNumber, deframer, deframer.storage
    {
      if stream == null then None else Closing(u.crypto, View(), stream.incoming)
    }

    /** Closed by a close_notify, and nothing behind it was read. */
    ghost predicate ClosedBy(ending: Option<Bytes>)
      reads this`stream, if stream == null then {} else {stream}
    {
      stream != null && ending == Some(stream.incoming)
    }

    lemma ClosedByIs(ending: Option<Bytes>)
      requires stream != null
      ensures ClosedBy(ending) <==> ending == Some(stream.incoming)
    {
    }

    lemma EndingIs()
      requires deframer.Valid() && stream != null
      ensures Ending() == Closing(u.crypto, View(), stream.incoming)
    {
    }

    /** Reads records until one carries application data or the connection is over; answers requests on the way. */
    method AwaitData() returns (e: Error, plain: Bytes, alert: bool, ghost answers: seq<Item>)
      requires Writable() && state == CONNECTED && deframer.Valid()
      modifies this`book, this`writeGeneration, this`readGeneration, this`lastAlertLevel, this`lastAlertDescription
      modifies schedule`clientApplication, schedule`serverApplication
      modifies clientHs`sequenceNumber, clientApp, serverApp
      modifies stream`sent, stream`broken, stream`incoming, stream`ended, deframer, deframer.storage
      ensures Writable() && deframer.Valid()
      ensures e == OK ==> old(Coming()) == Fetched(View(), stream.incoming, plain, answers)
      ensures e == OK ==> Emitted(old(stream.sent), old(WriteHalf()), answers)
      ensures e != OK && e != IO && e != CLOSED ==> old(Coming()) == Ended
      ensures alert ==> e != OK && old(Coming()) == Ended
      ensures e == OK ==> old(Ending()) == None
      ensures alert && e == CLOSED ==> ClosedBy(old(Ending()))
      ensures e != OK && !(alert && e == CLOSED) ==> old(Ending()) == None || Failing()
      ensures old(book.sealings) <= book.sealings
    {
      hide *;
      WritableIs();
      EmittedNothing();
      AnsweredNothing(Coming());
      plain, alert, answers := [], false, [];
      ghost var coming, ending, h, sent := Coming(), Ending(), WriteHalf(), stream.sent;
      while true
        invariant Writable() && deframer.Valid() && state == CONNECTED && old(book.sealings) <= book.sealings
        invariant stream != null && coming == Answered(answers, Coming()) && Emitted(sent, h, answers) && ending == Ending()
        decreases |stream.incoming|
      {
        var done;
        e, done, plain, alert, answers := AwaitRecord(coming, ending, h, sent, answers);
        if e != OK || done { return; }
      }
    }

    /** One turn: `before` was answered so far, since the stream stood at `coming`, `h` and `sent`. */
    method AwaitRecord(ghost coming: Fetch, ghost ending: Option<Bytes>, ghost h: Half, ghost sent: Bytes, ghost before: seq<Item>)
      returns (e: Error, done: bool, plain: Bytes, alert: bool, ghost answers: seq<Item>)
      requires Writable() && state == CONNECTED && deframer.Valid() && coming == Answered(before, Coming())
      requires stream != null && Emitted(sent, h, before) && ending == Ending()
      modifies this`book, this`writeGeneration, this`readGeneration, this`lastAlertLevel, this`lastAlertDescription
      modifies schedule`clientApplication, schedule`serverApplication
      modifies clientHs`sequenceNumber, clientApp, serverApp
      modifies stream`sent, stream`broken, stream`incoming, stream`ended, deframer, deframer.storage
      ensures Writable() && deframer.Valid()
      ensures e == OK && !done ==> coming == Answered(answers, Coming()) && |stream.incoming| < |old(stream.incoming)|
      ensures e == OK && done ==> coming == Fetched(View(), stream.incoming, plain, answers)
      ensures e == OK ==> Emitted(sent, h, answers)
      ensures e != OK && e != IO && e != CLOSED ==> coming == Ended
      ensures alert ==> e != OK && coming == Ended
      ensures e == OK ==> ending == if done then None else Ending()
      ensures alert && e == CLOSED ==> ClosedBy(ending)
      ensures e != OK && !(alert && e == CLOSED) ==> ending == None || Failing()
      ensures old(book.sealings) <= book.sealings
    {
      hide *;
      WritableIs();
      Apart();
      done, plain, alert, answers := false, [], false, before;
      ghost var r, s := View(), stream.incoming;
      ComingIs();
      EndingIs();
      NextFetch(u.crypto, r, s);
      NextClosing(u.crypto, r, s);
      EmittedMeans(sent, h, before);
      var record;
      e, record := stream.ReadRecord(MAX_RECORD);
      AnsweredData(before, r, s, []);
      FailingIs();
      if e != OK { return; }
      assert s[|record|..] == stream.incoming;
      ghost var h0, more := WriteHalf(), [];
      e, done, plain, alert, more := HandleRecord(record);
      ComingIs();
      EndingIs();
      ClosedByIs(ending);
      AnsweredData(before, View(), stream.incoming, plain);
      answers := before + more;
      if e == OK {
        EmittedMeans(sent + Wire(u.crypto, h, before), h0, more);
        TurnTaken(u.crypto, h, sent, before, more, Coming());
        EmittedIs(sent, h, answers);
      }
    }

    /** Copies what fits to the caller and keeps the rest. */
    method Deliver(plain: Bytes, size: nat) returns (got: Bytes)
      requires PendingOk() && pendingLength == 0 && |plain| <= size + PENDING && pending.Length == PENDING
      modifies this`pendingOffset, this`pendingLength, pending
      ensures PendingOk() && plain == got + Pending()
      ensures |got| == if size < |plain| then size else |plain|
    {
      var n := if |plain| > size then size else |plain|;
      got := plain[..n];
      var remain := |plain| - n;
      for i := 0 to remain
        modifies pending
        invariant pending[..i] == plain[n..n + i]
      {
        pending[i] := plain[n + i];
      }
      if remain > 0 {
        pendingOffset := 0;
        pendingLength := remain;
      }
      assert Pending() == plain[n..];
    }

    /** Hands out buffered data first. */
    method TakePending(size: nat) returns (got: Bytes)
      requires PendingOk() && pendingLength > 0
      modifies this`pendingOffset, this`pendingLength
      ensures PendingOk() && old(Pending()) == got + Pending()
      ensures |got| == if size < old(pendingLength) then size else old(pendingLength)
    {
      var n := if pendingLength > size then size else pendingLength;
      ghost var held := Pending();
      got := pending[pendingOffset..pendingOffset + n];
      pendingOffset := pendingOffset + n;
      pendingLength := pendingLength - n;
      assert held == got + Pending();
      if pendingLength == 0 { pendingOffset := 0; }
    }

    method Shut()
      requires Fixed() && BookOk()
      modifies this`state, this`privateKey, this`publicKey, this`book, schedule, clientHs, serverHs, clientApp, serverApp
      modifies if stream == null then {} else {stream}
      ensures state == SHUT && Writable() && Vouched() && book.sealings == old(book.sealings)
      ensures stream != null ==> !stream.open && stream.sent == old(stream.sent) && stream.broken == old(stream.broken)
      ensures stream != null ==> stream.incoming == old(stream.incoming)
      ensures old(Readable()) ==> Readable()
    {
      hide *;
      state := SHUT;
      CloseStream();
      WipeSecrets();
      WritableIs();
    }

    /** A close_notify closes the connection; anything else fails it. */
    method EndReceiving(closed: bool, ghost ending: Option<Bytes>)
      requires Fixed() && BookOk() && stream != null && Readable()
      modifies this`state, this`privateKey, this`publicKey, this`book, schedule, clientHs, serverHs, clientApp, serverApp
      modifies stream
      ensures Valid() && state == (if closed then SHUT else FAILED)
      ensures old(ClosedBy(ending)) ==> ClosedBy(ending)
      ensures old(Failing()) && !closed ==> Failing()
      ensures old(book.sealings) <= book.sealings
    {
      hide *;
      WritableIs();
      FailingIs();
      ClosedByIs(ending);
      if closed {
        Shut();
      } else {
        Fail();
      }
      ValidIs();
      ClosedByIs(ending);
    }

    /** Nothing is pending: the next data is read. When what does not fit the caller does not fit the pending buffer
        either, `overrun` is set and nothing else is promised: there the source copies beyond the buffer. */
    method RecvFresh(size: nat) returns (e: Error, got: Bytes, overrun: bool, ghost answers: seq<Item>)
      requires Valid() && state == CONNECTED && pendingLength == 0
      modifies this`state, this`privateKey, this`publicKey, this`book, this`writeGeneration, this`readGeneration
      modifies this`lastAlertLevel, this`lastAlertDescription
      modifies this`pendingOffset, this`pendingLength
      modifies schedule, clientHs, serverHs, clientApp, serverApp, deframer, deframer.storage, pending, stream
      ensures overrun ==> old(Overruns(u.crypto, View(), stream.incoming, size))
      ensures !overrun ==> Valid() && if e == OK then state == CONNECTED else state == SHUT || state == FAILED
      ensures !overrun && e == OK ==> old(Coming()) == Fetched(View(), stream.incoming, got + Pending(), answers)
      ensures !overrun && e == OK ==> |got| == if size < |got + Pending()| then size else |got + Pending()|
      ensures !overrun && e == OK ==> Emitted(old(stream.sent), old(WriteHalf()), answers)
      ensures !overrun && e != OK ==> got == [] && pendingLength == 0
      ensures !overrun && state == SHUT ==> old(Coming()) == Ended
      ensures !overrun && state == SHUT ==> e == CLOSED && ClosedBy(old(Ending()))
      ensures !overrun && old(Ending()).Some? ==> state == SHUT || Failing()
      ensures old(book.sealings) <= book.sealings
    {
      hide *;
      ValidIs();
      WritableIs();
      Apart();
      ComingIs();
      OverrunIs(u.crypto, View(), stream.incoming, size);
      overrun, got := false, [];
      var plain, alert;
      ghost var ending := Ending();
      e, plain, alert, answers := AwaitData();
      if e != OK {
        WritableIs();
        ValidIs();
        EndReceiving(alert && e == CLOSED, ending);
        ValidIs();
      } else if |plain| > size + PENDING {
        overrun := true;
      } else {
        got := Deliver(plain, size);
        ValidIs();
      }
    }

    /** What was pending goes out first; then the next data, what fits of it, and the rest stays pending. */
    method Recv(size: nat) returns (e: Error, got: Bytes, overrun: bool, ghost answers: seq<Item>)
      requires Valid()
      modifies this`state, this`privateKey, this`publicKey, this`book, this`writeGeneration, this`readGeneration
      modifies this`lastAlertLevel, this`lastAlertDescription
      modifies this`pendingOffset, this`pendingLength
      modifies schedule, clientHs, serverHs, clientApp, serverApp, deframer, deframer.storage, pending
      modifies if stream == null then {} else {stream}
      ensures overrun ==> size < 239 && old(state == CONNECTED && pendingLength == 0)
      ensures overrun ==> old(Overruns(u.crypto, View(), stream.incoming, size))
      ensures !overrun ==> Valid() && (state == CONNECTED ==> old(state) == CONNECTED) && (e == OK <==> state == CONNECTED)
      ensures !overrun && e == OK && old(pendingLength) == 0 ==>
        old(Coming()) == Fetched(View(), stream.incoming, got + Pending(), answers)
      ensures !overrun && e == OK && old(pendingLength) > 0 ==>
        old(Pending()) == got + Pending() && View() == old(View()) && stream.incoming == old(stream.incoming) && answers == []
      ensures !overrun && e == OK ==> |got| == if size < |got + Pending()| then size else |got + Pending()|
      ensures !overrun && e == OK ==> old(Pending() + Ahead()) == got + Pending() + Ahead()
      ensures !overrun && e == OK ==> Emitted(old(stream.sent), old(WriteHalf()), answers)
      ensures !overrun && e != OK ==> got == [] && Pending() == old(Pending())
      ensures old(state) != CONNECTED ==> !overrun && e == CLOSED && state == old(state)
      ensures !overrun && old(state) == CONNECTED && state == SHUT ==> old(pendingLength) == 0 && e == CLOSED
      ensures !overrun && old(state) == CONNECTED && state == SHUT ==> ClosedBy(old(Ending()))
      ensures !overrun && old(state == CONNECTED && pendingLength == 0) && old(Ending()).Some? ==> state == SHUT || Failing()
      ensures old(book.sealings) <= book.sealings
      ensures !overrun && old(Vouched()) ==> Vouched()
    {
      hide *;
      ValidIs();
      WritableIs();
      overrun, answers := false, [];
      if state != CONNECTED { return CLOSED, [], false, []; }
      if pendingLength == 0 {
        ghost var r, s := View(), stream.incoming;
        ComingIs();
        NothingBefore(Pending(), Ahead());
        e, got, overrun, answers := RecvFresh(size);
        if overrun {
          OverrunsIff(u.crypto, r, size);
          assert Overruns(u.crypto, r, s, size);
        } else if e == OK {
          FetchTakesData(u.crypto, r, s);
          WritableIs();
          ValidIs();
          ComingIs();
        } else {
          WritableIs();
          ValidIs();
          NothingBefore(Pending(), []);
        }
      } else {
        EmittedNothing();
        ghost var ahead := Ahead();
        got := TakePending(size);
        Associate(got, Pending(), ahead);
        ValidIs();
        e := OK;
      }
    }

    // ---- ending ----

    lemma Alerts()
      ensures 20 <= ALERT <= 23 && 20 <= HANDSHAKE <= 23 && 2 <= MAX_CONTENT
    {
    }

    /** Announces the end if connected, and closes from any state. */
    method Close() returns (e: Error)
      requires Writable()
      modifies this`state, this`privateKey, this`publicKey, this`book, schedule, clientHs, serverHs, clientApp, serverApp
      modifies if stream == null then {} else {stream}
      ensures Writable() && state == SHUT && e == OK
      ensures stream != null ==> !stream.open || old(state) == SHUT
      ensures stream != null && old(state) != CONNECTED ==> stream.sent == old(stream.sent)
      ensures old(state) == CONNECTED && !stream.broken ==> stream.sent == old(stream.sent) + old(Protected(ALERT, [1, 0]))
      ensures old(book.sealings) <= book.sealings
      ensures old(Vouched()) ==> Vouched()
    {
      hide *;
      WritableIs();
      Alerts();
      e := OK;
      if state != SHUT {
        if state == CONNECTED {
          var ignored := SendProtected(ALERT, [1, 0]);
        }
        Shut();
      }
    }

    /** The per-connection state every new connection starts from. */
    method Clear()
      requires Fixed()
      modifies this`certificateStorage, this`negotiatedAlpn, this`pendingOffset, this`pendingLength
      modifies this`lastAlertLevel, this`lastAlertDescription
      modifies this`hellos, this`flight, this`finished, transcript.sha, transcript.sha.buffer, deframer
      ensures Readable() && pendingLength == 0
      ensures OpeningOk() && hellos == []
    {
      hide *;
      Apart();
      certificateStorage, negotiatedAlpn := [], [];
      pendingOffset, pendingLength, lastAlertLevel, lastAlertDescription := 0, 0, 0, 0;
      deframer.Reset();
      ClearHistory();
      ValidIs();
    }

    method ClearHistory()
      requires Fixed()
      modifies this`hellos, this`flight, this`finished, transcript.sha, transcript.sha.buffer
      ensures OpeningOk() && hellos == []
    {
      hellos, flight, finished := [], [], [];
      EmptyHistory(u);
      transcript.Reset();
    }

    method Reset() returns (e: Error)
      requires Valid()
      modifies this`state, this`config, this`stream, this`privateKey, this`publicKey, this`book
      modifies this`certificateStorage, this`negotiatedAlpn, this`pendingOffset, this`pendingLength
      modifies this`lastAlertLevel, this`lastAlertDescription
      modifies this`hellos, this`flight, this`finished
      modifies schedule, clientHs, serverHs, clientApp, serverApp, transcript.sha, transcript.sha.buffer, deframer
      modifies if stream == null then {} else {stream}
      ensures Valid() && state == IDLE && e == OK && stream == null
      ensures Pending() == [] && book.sealings == old(book.sealings)
      ensures old(Vouched()) ==> Vouched()
    {
      hide *;
      ValidIs();
      WritableIs();
      Detach();
      Clear();
      WritableIs();
      ValidIs();
      return OK;
    }

    method Detach()
      requires Fixed() && BookOk()
      modifies this`state, this`config, this`stream, this`privateKey, this`publicKey, this`book
      modifies schedule, clientHs, serverHs, clientApp, serverApp, if stream == null then {} else {stream}
      ensures Writable() && state == IDLE && stream == null && book.sealings == old(book.sealings)
    {
      hide *;
      CloseStream();
      WipeSecrets();
      config, stream, state := NO_CONFIG, null, IDLE;
      WritableIs();
    }

    // ---- the handshake ----

    method SendPlain(kind: Byte, payload: Bytes) returns (e: Error)
      requires stream != null
      modifies stream`sent, stream`broken
      ensures |payload| > MAX_CONTENT ==> e == INVALID_ARGUMENT && stream.sent == old(stream.sent)
      ensures e == OK ==> stream.sent == old(stream.sent) + PlainRecord(kind, payload)
    {
      if |payload| > MAX_CONTENT { return INVALID_ARGUMENT; }
      var header := EncodeHeader(kind, |payload|);
      Associate(stream.sent, header, payload);
      e := stream.SendAll(header);
      if e != OK || payload == [] { return; }
      e := stream.SendAll(payload);
    }

    /** A fresh private key and its public share; P-256 keys are drawn until one is usable, at most 16 times. */
    method MakeKeyShare(group: ClientHello.u16) returns (e: Error)
      modifies this`privateKey, this`publicKey
      ensures e == OK ==> u.agreement.publicKey(group, privateKey) == Ok(publicKey)
    {
      if group == ClientHello.SECP256R1 {
        e := VERIFY;
        for attempt := 0 to 16
          invariant e == OK ==> u.agreement.publicKey(group, privateKey) == Ok(publicKey)
        {
          if e == OK { break; }
          e, privateKey := RandomBytes(32);
          if e != OK { return; }
          e := TakePublicKey(group);
        }
      } else if group == ClientHello.X25519 {
        e, privateKey := RandomBytes(32);
        if e != OK { return; }
        privateKey := u.agreement.clamp(privateKey);
        e := TakePublicKey(group);
      } else {
        e := UNSUPPORTED;
      }
    }

    method TakePublicKey(group: ClientHello.u16) returns (e: Error)
      modifies this`publicKey
      ensures e == OK ==> u.agreement.publicKey(group, privateKey) == Ok(publicKey)
    {
      var share := u.agreement.publicKey(group, privateKey);
      if share.Err? { return share.error; }
      publicKey := share.value;
      e := OK;
    }

    /** One hello more in the transcript; a retry goes another way. */
    method AbsorbHello(hello: Bytes)
      requires Fixed() && OpeningOk() && (|hellos| != 1 || !IsRetry(u, hello))
      modifies this`hellos, transcript.sha, transcript.sha.buffer
      ensures OpeningOk() && hellos == old(hellos) + [hello]
    {
      hide *;
      OpeningIs();
      HelloTranscriptSnoc(u, hellos, hello);
      hellos := hellos + [hello];
      transcript.Update(hello);
      OpeningIs();
    }

    /** `hello` carries the parameters, and the public share of the private key that is kept. */
    ghost predicate Asking(p: ClientHello.Params, hello: Bytes)
      reads this`privateKey
    {
      && hello == ClientHello.Encode(p) && ClientHello.BuildError(p, HELLO) == OK
      && u.agreement.publicKey(p.group, privateKey) == Ok(p.keyShare)
    }

    lemma AskingIs(p: ClientHello.Params, hello: Bytes)
      ensures Asking(p, hello) <==>
        && hello == ClientHello.Encode(p) && ClientHello.BuildError(p, HELLO) == OK
        && u.agreement.publicKey(p.group, privateKey) == Ok(p.keyShare)
    {
    }

    /** What a reader finds in the hello, and the private key behind its share. */
    lemma AskingReads(p: ClientHello.Params, hello: Bytes)
      requires Asking(p, hello)
      ensures SessionIn(hello) == Some(p.sessionId) && ShareIn(hello) == Some((p.group as nat, p.keyShare))
      ensures ShareOf(u.agreement, hello, privateKey)
    {
      hide *;
      AskingIs(p, hello);
      HelloRead(p, HELLO);
      ShareIs(u.agreement, hello, privateKey, p.group, p.keyShare);
    }

    /** Absorbs a ClientHello and sends it in one record. */
    method SendHello(p: ClientHello.Params) returns (e: Error)
      requires Fixed() && OpeningOk() && stream != null && |hellos| != 1
      modifies this`hellos, transcript.sha, transcript.sha.buffer, clientHello, stream`sent, stream`broken
      ensures e == OK ==> OpeningOk() && hellos == old(hellos) + [ClientHello.Encode(p)]
      ensures e == OK ==> ClientHello.BuildError(p, HELLO) == OK
      ensures e == OK ==> stream.sent == old(stream.sent) + PlainRecord(HANDSHAKE, ClientHello.Encode(p))
    {
      hide *;
      Apart();
      var n;
      e, n := ClientHello.Build(p, clientHello);
      if e != OK { return; }
      var hello := clientHello[..n];
      AbsorbHello(hello);
      e := SendPlain(HANDSHAKE, hello);
    }

    /** Reads one record before the keys are there and hands its handshake octets to the deframer. */
    method ReadFlightless() returns (e: Error, ghost record: Bytes)
      requires stream != null && deframer.Valid()
      modifies this`lastAlertLevel, this`lastAlertDescription, stream`incoming, stream`ended, deframer`used, deframer`appended, deframer.storage
      ensures deframer.Valid()
      ensures e == OK ==> FirstRecord(old(stream.incoming)) == Some(record) && old(stream.incoming) == record + stream.incoming
      ensures e == OK ==> PlainPayload(record).Some?
      ensures e == OK ==> deframer.appended == old(deframer.appended) + PlainPayload(record).value
    {
      var read;
      e, read := stream.ReadRecord(MAX_RECORD);
      record := read;
      if e != OK { return; }
      assert deframer.appended + [] == deframer.appended;
      var parsed := ParseHeader(read);
      if parsed.Err? { e := parsed.error; return; }
      var kind, length := parsed.value.kind, parsed.value.length;
      if kind == CHANGE_CIPHER_SPEC {
        if length != 1 || |read| <= 5 || read[5] != 1 { e := BAD_RECORD; }
        return;
      }
      if kind == ALERT {
        e := HandleAlert(read[5..]);
        return;
      }
      if kind != HANDSHAKE { e := BAD_HANDSHAKE; return; }
      e := deframer.Append(read[5..]);
    }

    /** The transcript of one ClientHello becomes its message_hash message. */
    method HashTranscript()
      requires Fixed() && transcript.Valid()
      modifies transcript.sha, transcript.sha.buffer
      ensures transcript.Valid() && transcript.sha.data == MessageHash(u, old(transcript.sha.data))
    {
      var hash := transcript.Snapshot();
      transcript.Reset();
      var message := [254, 0, 0, 32] + hash;
      transcript.Update(message);
      assert [] + message == message;
    }

    /** The first HelloRetryRequest: the transcript restarts with the hash of the ClientHello. */
    method RestartTranscript(retry: Bytes)
      requires Fixed() && OpeningOk() && |hellos| == 1 && IsRetry(u, retry)
      modifies this`hellos, transcript.sha, transcript.sha.buffer
      ensures OpeningOk() && hellos == old(hellos) + [retry]
    {
      ghost var hello := hellos[0];
      assert hellos == [hello];
      HelloTranscriptRetry(u, hello, retry);
      NoFlight();
      HashTranscript();
      transcript.Update(retry);
      hellos := [hello, retry];
    }

    /** Consumes a message behind which nothing may follow. */
    method ConsumeLast() returns (e: Error)
      requires deframer.Valid() && Parse(deframer.Buffered()).Ok?
      modifies deframer`used, deframer`consumed, deframer.storage
      ensures deframer.Valid() && (e == OK || e == BAD_HANDSHAKE)
      ensures e == OK ==> deframer.used == 0
      ensures e == OK ==> deframer.consumed == old(deframer.consumed) + Encode(Parse(old(deframer.Buffered())).value)
    {
      hide *;
      deframer.Room();
      e := deframer.Consume();
      if e != OK || deframer.used != 0 { e := BAD_HANDSHAKE; }
    }

    /** The server's hellos so far are exactly what was taken from the deframer. */
    ghost predicate Heard()
      reads this`hellos, deframer, deframer.storage
    {
      deframer.Valid() && deframer.consumed == ServerHellos(hellos)
    }

    /** The client has sent exactly the records of its hellos since `base`. */
    ghost predicate Told(base: Bytes)
      reads this`hellos, this`stream, if stream == null then {} else {stream}
    {
      stream != null && stream.sent == base + SentHellos(hellos)
    }

    lemma OpeningIs()
      ensures OpeningOk() <==>
        transcript.Valid() && transcript.sha.data == HelloTranscript(u, hellos) && flight == [] && finished == []
      ensures OpeningOk() ==> HistoryOk()
    {
      NoFlight();
    }

    /** What Heard and Told say of the present hellos, and of those after one more. */
    lemma ExchangeIs(base: Bytes, h: Bytes)
      requires stream != null
      ensures Heard() <==> deframer.Valid() && deframer.consumed == ServerHellos(hellos)
      ensures Told(base) <==> stream.sent == base + SentHellos(hellos)
      ensures |hellos| % 2 == 0 ==> SentHellos(hellos + [h]) == SentHellos(hellos) + PlainRecord(HANDSHAKE, h)
      ensures |hellos| % 2 == 0 ==> ServerHellos(hellos + [h]) == ServerHellos(hellos)
      ensures |hellos| % 2 == 1 ==> SentHellos(hellos + [h]) == SentHellos(hellos)
      ensures |hellos| % 2 == 1 ==> ServerHellos(hellos + [h]) == ServerHellos(hellos) + h
    {
      OneHelloMore(hellos, h);
    }

    /** Waiting for the answer to the first hello, or to the second one after a retry. */
    ghost predicate Waiting(p: ClientHello.Params, retried: bool)
      reads this`hellos, this`privateKey
    {
      && |hellos| == (if retried then 3 else 1) && Asking(p, hellos[|hellos| - 1])
      && (retried ==> Retried(u, hellos[0], hellos[1], hellos[2]))
    }

    /** The ServerHello is there. */
    ghost predicate Complete(p: ClientHello.Params, sh: ServerHello)
      reads this`hellos, this`privateKey
    {
      && HellosOk(u, hellos) && u.parsers.serverHello(hellos[|hellos| - 1]) == Ok(sh)
      && Asking(p, hellos[|hellos| - 2])
    }

    lemma WaitingIs(p: ClientHello.Params, retried: bool)
      ensures Waiting(p, retried) <==>
        && |hellos| == (if retried then 3 else 1) && Asking(p, hellos[|hellos| - 1])
        && (retried ==> Retried(u, hellos[0], hellos[1], hellos[2]))
    {
      hide Asking;
      hide Retried;
    }

    lemma CompleteIs(p: ClientHello.Params, sh: ServerHello)
      ensures Complete(p, sh) <==>
        && HellosOk(u, hellos) && |hellos| >= 2
        && u.parsers.serverHello(hellos[|hellos| - 1]) == Ok(sh) && Asking(p, hellos[|hellos| - 2])
    {
      hide Asking;
      hide Retried;
    }

    /** One message while waiting for the ServerHello; `got` when it is the ServerHello. */
    method HandleServerHello(m: Message, p: ClientHello.Params, retried: bool, ghost base: Bytes)
      returns (e: Error, got: bool, q: ClientHello.Params, sh: ServerHello)
      requires Fixed() && OpeningOk() && Heard() && stream != null && Told(base) && Parse(deframer.Buffered()) == Ok(m)
      requires Waiting(p, retried)
      modifies this`hellos, this`privateKey, this`publicKey, transcript.sha, transcript.sha.buffer, clientHello
      modifies stream`sent, stream`broken, deframer`used, deframer`consumed, deframer.storage
      ensures deframer.Valid()
      ensures e == OK ==> OpeningOk() && Heard() && Told(base) && deframer.appended == old(deframer.appended)
      ensures e == OK && got ==> Complete(p, sh) && hellos == old(hellos) + [Encode(m)] && deframer.used == 0 && q == p
      ensures e == OK && !got ==> !retried && Waiting(q, true) && hellos == old(hellos) + [Encode(m), ClientHello.Encode(q)]
    {
      hide *;
      Apart();
      ExchangeIs(base, Encode(m));
      deframer.Room();
      HelloKinds(u, Encode(m));
      WaitingIs(p, retried);
      got, q := false, p;
      sh := ServerHello(false, 0, [], [], []);
      if m.kind != SERVER_HELLO { e := BAD_HANDSHAKE; return; }
      var parsed := u.parsers.serverHello(Encode(m));
      if parsed.Err? { e := parsed.error; return; }
      sh := parsed.value;
      if sh.sessionId != p.sessionId { e := BAD_HANDSHAKE; return; }
      if sh.retry {
        if retried || sh.group == p.group { e := BAD_HANDSHAKE; return; }
        e, q := AnswerRetry(m, p, sh, base);
        return;
      }
      ghost var before := hellos;
      AskingReads(p, before[|before| - 1]);
      HellosComplete(u, before, Encode(m), sh);
      AbsorbHello(Encode(m));
      got := true;
      e := ConsumeLast();
      ExchangeIs(base, []);
      CompleteIs(p, sh);
    }

    /** A new key share in the group asked for, and the second ClientHello. */
    method AnswerRetry(m: Message, p: ClientHello.Params, sh: ServerHello, ghost base: Bytes)
      returns (e: Error, q: ClientHello.Params)
      requires Fixed() && OpeningOk() && Heard() && stream != null && Told(base) && Parse(deframer.Buffered()) == Ok(m)
      requires u.parsers.serverHello(Encode(m)) == Ok(sh) && sh.retry && Waiting(p, false)
      requires sh.sessionId == p.sessionId && sh.group != p.group
      modifies this`hellos, this`privateKey, this`publicKey, transcript.sha, transcript.sha.buffer, clientHello
      modifies stream`sent, stream`broken, deframer`used, deframer`consumed, deframer.storage
      ensures deframer.Valid()
      ensures e == OK ==> OpeningOk() && Heard() && Told(base) && deframer.appended == old(deframer.appended)
      ensures e == OK ==> hellos == old(hellos) + [Encode(m), ClientHello.Encode(q)]
      ensures e == OK ==> q == p.(group := sh.group, keyShare := publicKey, cookie := sh.cookie)
      ensures e == OK ==> Waiting(q, true)
    {
      hide *;
      Apart();
      ExchangeIs(base, Encode(m));
      deframer.Room();
      HelloKinds(u, Encode(m));
      q := p;
      WaitingIs(p, false);
      AskingIs(p, hellos[0]);
      RestartTranscript(Encode(m));
      e := ConsumeLast();
      if e != OK { return; }
      ExchangeIs(base, []);
      e, q := AskAgain(p, sh, Encode(m), base);
      ExchangeIs(base, []);
    }

    /** The second ClientHello, with a new key. */
    method AskAgain(p: ClientHello.Params, sh: ServerHello, ghost retry: Bytes, ghost base: Bytes)
      returns (e: Error, q: ClientHello.Params)
      requires Fixed() && OpeningOk() && stream != null && Told(base) && hellos == [ClientHello.Encode(p), retry]
      requires ClientHello.BuildError(p, HELLO) == OK && u.parsers.serverHello(retry) == Ok(sh) && sh.retry
      requires sh.sessionId == p.sessionId && sh.group != p.group
      modifies this`hellos, this`privateKey, this`publicKey, transcript.sha, transcript.sha.buffer, clientHello
      modifies stream`sent, stream`broken
      ensures e == OK ==> OpeningOk() && Told(base) && hellos == old(hellos) + [ClientHello.Encode(q)] && Waiting(q, true)
      ensures e == OK ==> q == p.(group := sh.group, keyShare := publicKey, cookie := sh.cookie)
      ensures e == OK ==> ServerHellos(hellos) == ServerHellos(old(hellos))
    {
      hide *;
      Apart();
      HelloKinds(u, retry);
      q := p;
      e := MakeKeyShare(sh.group);
      if e != OK { return; }
      q := p.(group := sh.group, keyShare := publicKey, cookie := sh.cookie);
      ExchangeIs(base, ClientHello.Encode(q));
      e := SendHello(q);
      ExchangeIs(base, []);
      if e == OK {
        AskingIs(q, ClientHello.Encode(q));
        SecondHello(u, p, q, retry, HELLO);
        WaitingIs(q, true);
      }
    }

    /** One record more, since the stream stood at `s`. */
    method HearMore(ghost s: Bytes) returns (e: Error)
      requires Heard() && stream != null && ReadsPlain(s, deframer.appended, stream.incoming)
      modifies this`lastAlertLevel, this`lastAlertDescription, stream`incoming, stream`ended, deframer`used, deframer`appended, deframer.storage
      ensures deframer.Valid()
      ensures e == OK ==> Heard() && ReadsPlain(s, deframer.appended, stream.incoming) && |stream.incoming| < |old(stream.incoming)|
    {
      hide *;
      ExchangeIs([], []);
      ghost var octets, before, record := deframer.appended, stream.incoming, [];
      e, record := ReadFlightless();
      if e != OK { return; }
      FirstLength(before, record);
      PlainMore(s, octets, before, record, PlainPayload(record).value, stream.incoming);
      ExchangeIs([], []);
    }

    /** From the first ClientHello to the ServerHello: whole records whose handshake octets are exactly the server's
        hellos, answered by exactly the client's. */
    method AwaitServerHello(first: ClientHello.Params, ghost base: Bytes)
      returns (e: Error, p: ClientHello.Params, sh: ServerHello)
      requires Fixed() && OpeningOk() && Heard() && stream != null && Told(base) && deframer.appended == []
      requires Waiting(first, false)
      modifies this`hellos, this`privateKey, this`publicKey, this`lastAlertLevel, this`lastAlertDescription
      modifies transcript.sha, transcript.sha.buffer, clientHello, stream`sent, stream`broken, stream`incoming, stream`ended
      modifies deframer`used, deframer`appended, deframer`consumed, deframer.storage
      ensures deframer.Valid()
      ensures e == OK ==> OpeningOk() && Told(base) && Complete(p, sh) && sh.group == p.group && old(hellos) <= hellos
      ensures e == OK ==> ReadsPlain(old(stream.incoming), ServerHellos(hellos), stream.incoming)
    {
      hide *;
      Apart();
      ExchangeIs(base, []);
      p := first;
      sh := ServerHello(false, 0, [], [], []);
      var retried, got := false, false;
      ghost var s, opening := stream.incoming, hellos;
      PlainNothing(s);
      while !got
        invariant OpeningOk() && Heard() && deframer.Valid() && Told(base)
        invariant opening <= hellos && if got then Complete(p, sh) && deframer.used == 0 else Waiting(p, retried)
        invariant ReadsPlain(s, deframer.appended, stream.incoming)
        decreases !got, |stream.incoming|, !retried
      {
        var r := deframer.Peek();
        if r.Err? {
          ExchangeIs(base, []);
          e := HearMore(s);
          if e != OK { return; }
          ExchangeIs(base, []);
        } else {
          e, got, p, sh := HandleServerHello(r.value, p, retried, base);
          if e != OK { return; }
          if !got { retried := true; }
        }
      }
      ExchangeIs(base, []);
      deframer.Room();
      NothingBehind(deframer.consumed, deframer.Buffered());
      e := if sh.group == p.group then OK else BAD_HANDSHAKE;
    }

    // ---- the server's flight ----

    /** The flight so far was accepted, message by message, and is in the transcript. */
    ghost predicate FlightSoFar(o: Opening)
      reads this`hellos, this`flight, this`finished, transcript, transcript.sha, transcript.sha.buffer
    {
      && transcript.Valid() && finished == [] && o.hellos == HelloTranscript(u, hellos)
      && transcript.sha.data == o.hellos + EncodeAll(flight)
      && FlightOk(u, o, flight)
    }

    /** The certificate list of the last Certificate message, which later checks use. */
    ghost predicate Holds(cert: Option<Bytes>)
      reads this`flight
    {
      match LastCertificate(flight)
      case None => cert == None
      case Some(m) => u.parsers.certificate(m).Ok? && cert == Some(u.parsers.certificate(m).value)
    }

    lemma NothingHeld()
      ensures flight == [] ==> Holds(None) && EncodeAll(flight) == [] && !Finished(flight)
    {
    }

    /** Absorbs an accepted message. */
    method Absorb(m: Message, ghost o: Opening)
      requires Fixed() && FlightSoFar(o) && MessageOk(u, o, flight, m) && !Finished(flight)
      modifies this`flight, transcript.sha, transcript.sha.buffer
      ensures FlightSoFar(o) && flight == old(flight) + [m] && (Finished(flight) <==> m.kind == FINISHED)
    {
      FlightSnoc(u, o, flight, m);
      EncodeAllSnoc(flight, m);
      Associate(o.hellos, EncodeAll(flight), Encode(m));
      transcript.Update(Encode(m));
      flight := flight + [m];
    }

    method HandleHandshakeMessage(m: Message, cert: Option<Bytes>, ghost o: Opening)
      returns (e: Error, fin: bool, held: Option<Bytes>)
      requires Fixed() && FlightSoFar(o) && !Finished(flight) && Holds(cert)
      requires o.secret == schedule.serverHandshake && o.hostname == config.hostname && |m.body| <= MAX_BODY
      modifies this`flight, this`negotiatedAlpn, this`certificateStorage, transcript.sha, transcript.sha.buffer
      ensures e == OK ==> FlightSoFar(o) && flight == old(flight) + [m] && Holds(held)
      ensures e == OK ==> (fin <==> Finished(flight))
    {
      fin, held := false, cert;
      LastCertificateSnoc(flight, m);
      if m.kind == ENCRYPTED_EXTENSIONS {
        var ee := u.parsers.encryptedExtensions(m);
        if ee.Err? { e := ee.error; return; }
        if ee.value.Some? {
          if |ee.value.value| >= 256 { e := BAD_HANDSHAKE; return; }
          negotiatedAlpn := ee.value.value;
        }
      } else if m.kind == CERTIFICATE {
        e, held := StoreCertificate(m);
        if e != OK { return; }
      } else if m.kind == CERTIFICATE_VERIFY {
        if cert.None? { e := BAD_HANDSHAKE; return; }
        var cv := u.parsers.certificateVerify(m);
        if cv.Err? { e := cv.error; return; }
        var th := transcript.Snapshot();
        e := u.parsers.authenticate(cert.value, cv.value, th, config.hostname);
        if e != OK { return; }
      } else if m.kind == FINISHED {
        e := VerifyFinished(m, schedule.serverHandshake);
        if e != OK { return; }
        fin := true;
      } else {
        e := UNSUPPORTED;
        return;
      }
      Absorb(m, o);
      e := OK;
    }

    method StoreCertificate(m: Message) returns (e: Error, cert: Option<Bytes>)
      requires m.kind == CERTIFICATE && |m.body| <= MAX_BODY
      modifies this`certificateStorage
      ensures e == OK ==> |Encode(m)| <= MAX_CERTIFICATE && u.parsers.certificate(m).Ok?
      ensures e == OK ==> cert == Some(u.parsers.certificate(m).value)
    {
      cert := None;
      if |Encode(m)| > MAX_CERTIFICATE { e := BUFFER_TOO_SMALL; return; }
      certificateStorage := Encode(m);
      ParseEncoded(m, []);
      assert Encode(m) + [] == certificateStorage;
      var saved := Parse(certificateStorage);
      if saved.Err? { e := BUFFER_TOO_SMALL; return; }
      var list := u.parsers.certificate(saved.value);
      if list.Err? { e := list.error; return; }
      return OK, Some(list.value);
    }

    method VerifyFinished(m: Message, secret: Secret) returns (e: Error)
      requires Fixed() && transcript.Valid()
      ensures e == OK <==> m.kind == FINISHED && m.body == FinishedData(u.crypto, secret, Hash(u, transcript.sha.data))
    {
      var th := transcript.Snapshot();
      if m.kind != FINISHED || |m.body| != 32 { return BAD_HANDSHAKE; }
      var expected := u.crypto.hmac(u.crypto.expand(secret, FINISHED_KEY, []), th);
      var same := Aead.ConstantTimeEqual(expected, m.body);
      return if same then OK else VERIFY;
    }

    /** The server's handshake keys are those of its secret. */
    ghost predicate ServerKeyed()
      reads schedule`serverHandshake, serverHs`key, serverHs`iv
    {
      && serverHs.key == u.crypto.keyOf(schedule.serverHandshake)
      && serverHs.iv == u.crypto.ivOf(schedule.serverHandshake)
    }

    /** The reader of the flight: the next number, and all handshake octets so far. */
    ghost function FlightView(): Reader
      reads schedule`serverHandshake, serverHs`sequenceNumber, deframer`appended
    {
      Reader(schedule.serverHandshake, serverHs.sequenceNumber, deframer.appended)
    }

    /** Reads one record of the flight and hands its handshake octets to the deframer. */
    method ReadFlight() returns (e: Error, ghost record: Bytes)
      requires Fixed() && ServerKeyed() && stream != null && deframer.Valid()
      modifies this`lastAlertLevel, this`lastAlertDescription, serverHs`sequenceNumber
      modifies stream`incoming, stream`ended, deframer`used, deframer`appended, deframer.storage
      ensures deframer.Valid()
      ensures e == OK ==> FirstRecord(old(stream.incoming)) == Some(record) && old(stream.incoming) == record + stream.incoming
      ensures e == OK ==> FlightStep(u.crypto, old(FlightView()), record) == Some(FlightView())
    {
      hide *;
      Apart();
      var read;
      e, read := stream.ReadRecord(MAX_RECORD);
      record := read;
      if e != OK { return; }
      var parsed := ParseHeader(read);
      FlightCases(u.crypto, FlightView(), read);
      FlightViewIs();
      if parsed.Err? { e := parsed.error; return; }
      if parsed.value.kind == CHANGE_CIPHER_SPEC { return; }
      if parsed.value.kind == ALERT { e := HandleAlert(read[5..]); return; }
      if parsed.value.kind != APPLICATION_DATA { e := BAD_RECORD; return; }
      var buffer := new Byte[MAX_FRAGMENT];
      var kind, n;
      e, kind, n := serverHs.Unprotect(u.crypto.aes, read, buffer);
      if e != OK { return; }
      if kind == ALERT { e := HandleAlert(buffer[..n]); return; }
      if kind != HANDSHAKE { e := BAD_HANDSHAKE; return; }
      e := deframer.Append(buffer[..n]);
      FlightViewIs();
    }

    lemma FlightViewIs()
      ensures FlightView() == Reader(schedule.serverHandshake, serverHs.sequenceNumber, deframer.appended)
      ensures ServerKeyed() ==> forall record ::
        Incoming.Open(u.crypto, FlightView(), record)
        == OpenRecord(u.crypto.aes, serverHs.key, serverHs.iv, serverHs.sequenceNumber, record)
    {
    }

    /** Handles the complete messages that are buffered, up to a Finished. */
    method DrainFlight(cert: Option<Bytes>, ghost o: Opening) returns (e: Error, fin: bool, held: Option<Bytes>)
      requires Fixed() && FlightSoFar(o) && !Finished(flight) && Holds(cert) && deframer.Valid()
      requires o.secret == schedule.serverHandshake && o.hostname == config.hostname
      requires deframer.consumed == EncodeAll(flight)
      modifies this`flight, this`negotiatedAlpn, this`certificateStorage
      modifies transcript.sha, transcript.sha.buffer, deframer`used, deframer`consumed, deframer.storage
      ensures deframer.Valid() && deframer.appended == old(deframer.appended)
      ensures e == OK ==> FlightSoFar(o) && Holds(held) && (fin <==> Finished(flight)) && deframer.consumed == EncodeAll(flight)
    {
      hide *;
      Apart();
      deframer.Room();
      fin, held := false, cert;
      while !fin
        invariant FlightSoFar(o) && Holds(held) && (fin <==> Finished(flight))
        invariant deframer.Valid() && deframer.appended == old(deframer.appended) && deframer.consumed == EncodeAll(flight)
        decreases !fin, deframer.used
      {
        var r := deframer.Peek();
        if r.Err? { e := OK; return; }
        e, fin, held := DrainOne(r.value, held, o);
        if e != OK { return; }
        deframer.Room();
      }
      e := OK;
    }

    method DrainOne(m: Message, cert: Option<Bytes>, ghost o: Opening) returns (e: Error, fin: bool, held: Option<Bytes>)
      requires Fixed() && FlightSoFar(o) && !Finished(flight) && Holds(cert) && deframer.Valid()
      requires o.secret == schedule.serverHandshake && o.hostname == config.hostname
      requires deframer.consumed == EncodeAll(flight) && Parse(deframer.Buffered()) == Ok(m)
      modifies this`flight, this`negotiatedAlpn, this`certificateStorage
      modifies transcript.sha, transcript.sha.buffer, deframer`used, deframer`consumed, deframer.storage
      ensures deframer.Valid() && deframer.appended == old(deframer.appended)
      ensures e == OK ==> FlightSoFar(o) && Holds(held) && (fin <==> Finished(flight)) && deframer.consumed == EncodeAll(flight)
      ensures e == OK ==> deframer.used < old(deframer.used)
    {
      hide *;
      Apart();
      deframer.Room();
      ParseIff(deframer.Buffered(), m);
      EncodeAllSnoc(flight, m);
      e, fin, held := HandleHandshakeMessage(m, cert, o);
      if e != OK { return; }
      e := deframer.Consume();
    }

    /** Reads the server's flight up to its Finished. */
    method ReceiveFlight(ghost o: Opening) returns (e: Error)
      requires Fixed() && ServerKeyed() && FlightSoFar(o) && flight == [] && deframer.Valid() && stream != null
      requires o.secret == schedule.serverHandshake && o.hostname == config.hostname
      requires deframer.consumed == [] && deframer.appended == []
      modifies this`flight, this`negotiatedAlpn, this`certificateStorage, this`lastAlertLevel, this`lastAlertDescription
      modifies serverHs`sequenceNumber, stream`incoming, stream`ended
      modifies transcript.sha, transcript.sha.buffer, deframer`used, deframer`appended, deframer`consumed, deframer.storage
      ensures deframer.Valid()
      ensures e == OK ==> FlightSoFar(o) && Finished(flight) && deframer.consumed == EncodeAll(flight)
      ensures e == OK ==> ReadsFlight(u.crypto, old(FlightView()), old(stream.incoming), FlightView(), stream.incoming)
    {
      hide *;
      Apart();
      NothingHeld();
      var fin, cert := false, None;
      ghost var r, s := FlightView(), stream.incoming;
      FlightNothing(u.crypto, r, s);
      while !fin
        invariant FlightSoFar(o) && Holds(cert) && (fin <==> Finished(flight)) && deframer.Valid() && ServerKeyed()
        invariant deframer.consumed == EncodeAll(flight)
        invariant ReadsFlight(u.crypto, r, s, FlightView(), stream.incoming)
        decreases !fin, |stream.incoming|
      {
        ghost var q, t, record := FlightView(), stream.incoming, [];
        e, record := ReadFlight();
        if e != OK { return; }
        FirstLength(t, record);
        FlightMore(u.crypto, r, s, q, t, record, stream.incoming);
        e, fin, cert := DrainFlight(cert, o);
        if e != OK { return; }
      }
      e := OK;
    }

    // ---- connecting ----

    /** The handshake keys are those of the shared secret and the hellos, unused. */
    ghost predicate HandshakeKeyed()
      reads this`hellos, schedule, clientHs, serverHs
    {
      && schedule.handshake == HandshakeSecret(u.crypto, schedule.ecdhe)
      && schedule.serverHandshake == OpeningOf(u, schedule.ecdhe, [], hellos).secret
      && ClientKeyed()
      && ServerKeyed()
      && serverHs.sequenceNumber == 0
    }

    ghost predicate ClientKeyed()
      reads this`hellos, schedule`ecdhe, schedule`clientHandshake, clientHs
    {
      && schedule.clientHandshake == ClientHandshakeSecret(u, schedule.ecdhe, hellos)
      && clientHs.key == u.crypto.keyOf(schedule.clientHandshake)
      && clientHs.iv == u.crypto.ivOf(schedule.clientHandshake)
      && clientHs.sequenceNumber == 0
    }

    lemma HandshakeKeyedIs()
      ensures HandshakeKeyed() <==>
        && schedule.handshake == HandshakeSecret(u.crypto, schedule.ecdhe)
        && schedule.serverHandshake == OpeningOf(u, schedule.ecdhe, config.hostname, hellos).secret
        && ClientKeyed() && ServerKeyed() && serverHs.sequenceNumber == 0
      ensures schedule.clientHandshake == ClientHandshakeSecret(u, schedule.ecdhe, hellos) && clientHs.sequenceNumber == 0
        && clientHs.key == u.crypto.keyOf(schedule.clientHandshake) && clientHs.iv == u.crypto.ivOf(schedule.clientHandshake)
        ==> ClientKeyed()
      ensures var t := HelloTranscript(u, hellos); var k := HandshakeSecret(u.crypto, schedule.ecdhe);
        && OpeningOf(u, schedule.ecdhe, config.hostname, hellos)
             == Opening(u.crypto.expand(k, S_HS_TRAFFIC, Hash(u, t)), config.hostname, t)
        && ClientHandshakeSecret(u, schedule.ecdhe, hellos) == u.crypto.expand(k, C_HS_TRAFFIC, Hash(u, t))
    {
    }

    /** The shared secret and the handshake traffic keys. */
    method AgreeKeys(sh: ServerHello) returns (e: Error)
      requires Fixed() && BookOk() && OpeningOk()
      modifies this`book, schedule, clientHs, serverHs
      ensures BookOk() && book.sealings == old(book.sealings)
      ensures e == OK ==> u.agreement.shared(sh.group, privateKey, sh.share) == Ok(schedule.ecdhe) && HandshakeKeyed()
    {
      hide *;
      OpeningIs();
      if !(sh.group == ClientHello.X25519 && |sh.share| == 32) && !(sh.group == ClientHello.SECP256R1 && |sh.share| == 65) {
        return UNSUPPORTED;
      }
      var shared := u.agreement.shared(sh.group, privateKey, sh.share);
      if shared.Err? { return shared.error; }
      schedule.DeriveEarly(u.crypto);
      var th := Digest();
      schedule.DeriveHandshake(u.crypto, shared.value, th);
      InstallHandshakeKeys();
      HandshakeKeyedIs();
      e := OK;
    }

    /** The hash of the transcript so far. */
    method Digest() returns (th: Secret)
      requires Fixed() && transcript.Valid()
      ensures th == Hash(u, transcript.sha.data)
    {
      th := transcript.Snapshot();
    }

    method InstallHandshakeKeys()
      requires Fixed() && BookOk()
      modifies this`book, clientHs, serverHs
      ensures BookOk() && book.sealings == old(book.sealings) && ServerKeyed()
      ensures clientHs.key == u.crypto.keyOf(schedule.clientHandshake) && clientHs.iv == u.crypto.ivOf(schedule.clientHandshake)
      ensures clientHs.sequenceNumber == serverHs.sequenceNumber == 0
    {
      clientHs.Derive(u.crypto, schedule.clientHandshake);
      serverHs.Derive(u.crypto, schedule.serverHandshake);
      book := Ledger.InstallHandshake(book, clientHs.key, clientHs.iv);
    }

    /** The application secrets and keys, from the transcript up to the server's Finished. */
    method DeriveApplicationKeys()
      requires Fixed() && BookOk() && transcript.Valid() && schedule.handshake == HandshakeSecret(u.crypto, schedule.ecdhe)
      modifies this`book, this`writeGeneration, this`readGeneration
      modifies schedule`master, schedule`clientApplication, schedule`serverApplication, clientApp, serverApp
      ensures BookOk() && book.sealings == old(book.sealings) && writeGeneration == readGeneration == 0
      ensures var th := Hash(u, transcript.sha.data); var m := MasterSecret(u.crypto, schedule.ecdhe);
        schedule.clientApplication == u.crypto.expand(m, C_AP_TRAFFIC, th)
        && schedule.serverApplication == u.crypto.expand(m, S_AP_TRAFFIC, th)
      ensures KeysDerived()
    {
      hide *;
      var th := Digest();
      schedule.DeriveMaster(u.crypto, th);
      InstallApplicationKeys();
      writeGeneration, readGeneration := 0, 0;
    }

    method InstallApplicationKeys()
      requires Fixed() && BookOk()
      modifies this`book, clientApp, serverApp
      ensures BookOk() && book.sealings == old(book.sealings) && KeysDerived()
    {
      clientApp.Derive(u.crypto, schedule.clientApplication);
      serverApp.Derive(u.crypto, schedule.serverApplication);
      book := Ledger.InstallApplication(book, clientApp.key, clientApp.iv);
    }

    method BuildFinished() returns (message: Bytes)
      requires Fixed() && transcript.Valid()
      ensures message == Encode(Message(FINISHED, FinishedData(u.crypto, schedule.clientHandshake, Hash(u, transcript.sha.data))))
      ensures |message| == 36
    {
      var th := Digest();
      var data := u.crypto.hmac(u.crypto.expand(schedule.clientHandshake, FINISHED_KEY, []), th);
      FinishedBytes(data);
      message := [FINISHED, 0, 0, 32] + data;
    }

    /** Sends the client's Finished under the handshake keys and absorbs it. */
    method SendFinished(message: Bytes) returns (e: Error)
      requires Fixed() && BookOk() && transcript.Valid() && stream != null && state == HANDSHAKING && |message| <= MAX_CONTENT
      modifies this`book, this`finished, clientHs`sequenceNumber, clientApp`sequenceNumber, stream`sent, stream`broken
      modifies transcript.sha, transcript.sha.buffer
      ensures BookOk() && clientApp.sequenceNumber == old(clientApp.sequenceNumber)
      ensures e == OK ==> transcript.Valid() && transcript.sha.data == old(transcript.sha.data) + message && finished == message
      ensures e == OK ==> stream.sent == old(stream.sent) + old(Protected(HANDSHAKE, message))
      ensures old(book.sealings) <= book.sealings
    {
      hide *;
      Apart();
      Alerts();
      e := SendProtected(HANDSHAKE, message);
      if e != OK { return; }
      finished := message;
      transcript.Update(message);
    }

    /** From the server's Finished to the client's. */
    method FinishHandshake(ghost o: Opening) returns (e: Error)
      requires Fixed() && BookOk() && stream != null && state == HANDSHAKING && FlightSoFar(o) && Finished(flight)
      requires HellosOk(u, hellos) && Agreed(u, schedule.ecdhe, hellos)
      requires o == OpeningOf(u, schedule.ecdhe, config.hostname, hellos)
      requires schedule.handshake == HandshakeSecret(u.crypto, schedule.ecdhe) && ClientKeyed()
      modifies this`book, this`writeGeneration, this`readGeneration, this`session, this`finished
      modifies schedule`master, schedule`clientApplication, schedule`serverApplication
      modifies clientHs`sequenceNumber, clientApp, serverApp, stream`sent, stream`broken
      modifies transcript.sha, transcript.sha.buffer
      ensures BookOk()
      ensures e == OK ==> HistoryOk() && Joined() && stream.sent == old(stream.sent) + FinishedRecord(session)
      ensures old(book.sealings) <= book.sealings
    {
      hide *;
      Apart();
      FlightMeans(o);
      DeriveApplicationKeys();
      var message := BuildFinished();
      ClientRecord();
      e := SendFinished(message);
      if e != OK { return; }
      RecordSession(o);
      SessionIs();
      HistoryIs(o.hellos);
    }

    /** What the transcript of an accepted flight is, and the secrets it leads to. */
    lemma {:induction false} FlightMeans(o: Opening)
      requires FlightSoFar(o)
      ensures transcript.Valid() && transcript.sha.data == o.hellos + EncodeAll(flight) && FlightOk(u, o, flight)
      ensures finished == [] && o.hellos == HelloTranscript(u, hellos)
      ensures var th := Hash(u, transcript.sha.data); var m := MasterSecret(u.crypto, schedule.ecdhe);
        && ClientSecret(u, schedule.ecdhe, hellos, flight) == u.crypto.expand(m, C_AP_TRAFFIC, th)
        && ServerSecret(u, schedule.ecdhe, hellos, flight) == u.crypto.expand(m, S_AP_TRAFFIC, th)
        && ClientFinished(u, schedule.ecdhe, hellos, flight)
             == FinishedData(u.crypto, ClientHandshakeSecret(u, schedule.ecdhe, hellos), th)
    {
    }

    /** A record under the client's handshake keys. */
    lemma ClientRecord()
      ensures ClientKeyed() ==> schedule.clientHandshake == ClientHandshakeSecret(u, schedule.ecdhe, hellos)
      ensures ClientKeyed() && state != CONNECTED ==> forall kind, payload ::
        var k := ClientHandshakeSecret(u, schedule.ecdhe, hellos);
        Protected(kind, payload) == SealRecord(u.crypto.aes, u.crypto.keyOf(k), u.crypto.ivOf(k), 0, kind, payload, 0)
      ensures 36 <= MAX_CONTENT
    {
    }

    /** What the session says of the handshake keys. */
    lemma SessionIs()
      requires Joined()
      ensures var k := ClientHandshakeSecret(u, schedule.ecdhe, hellos);
        FinishedRecord(session) == SealRecord(u.crypto.aes, u.crypto.keyOf(k), u.crypto.ivOf(k), 0, HANDSHAKE, finished, 0)
      ensures session.Session? && session.u == u && session.hellos == hellos && session.flight == flight
      ensures forall n, octets :: FlightReader(session, n, octets)
                == Reader(OpeningOf(u, schedule.ecdhe, config.hostname, hellos).secret, n, octets)
    {
    }

    lemma HistoryIs(t: Bytes)
      requires t == HelloTranscript(u, hellos) && transcript.Valid()
      requires transcript.sha.data == t + EncodeAll(flight) + finished
      ensures HistoryOk()
    {
    }

    /** From the opening to the client's Finished. */
    method CompleteHandshake() returns (e: Error)
      requires Fixed() && BookOk() && OpeningOk() && stream != null && state == HANDSHAKING && deframer.Valid()
      requires HellosOk(u, hellos) && Agreed(u, schedule.ecdhe, hellos) && HandshakeKeyed()
      requires deframer.consumed == [] && deframer.appended == []
      modifies this`book, this`writeGeneration, this`readGeneration, this`session
      modifies this`flight, this`finished, this`negotiatedAlpn, this`certificateStorage
      modifies this`lastAlertLevel, this`lastAlertDescription
      modifies schedule`master, schedule`clientApplication, schedule`serverApplication
      modifies clientHs`sequenceNumber, serverHs`sequenceNumber, clientApp, serverApp
      modifies stream`incoming, stream`ended, stream`sent, stream`broken
      modifies transcript.sha, transcript.sha.buffer, deframer`used, deframer`appended, deframer`consumed, deframer.storage
      ensures BookOk() && deframer.Valid()
      ensures e == OK ==> HistoryOk() && Joined() && deframer.consumed == EncodeAll(flight)
      ensures e == OK ==> Finishes(old(stream.sent), old(stream.incoming), old(FlightView()))
      ensures old(book.sealings) <= book.sealings
    {
      hide *;
      Apart();
      OpeningIs();
      HandshakeKeyedIs();
      ghost var sent, s, r := stream.sent, stream.incoming, FlightView();
      ghost var o := OpeningOf(u, schedule.ecdhe, config.hostname, hellos);
      FlightBegins(o);
      e := ReceiveFlight(o);
      if e != OK { return; }
      e := FinishHandshake(o);
      FinishesIs(sent, s, r);
    }

    /** Since the streams stood at `sent` and `s` and the reader at `r`: the flight was read, and the Finished sent. */
    ghost predicate Finishes(sent: Bytes, s: Bytes, r: Reader)
      reads this`session, this`stream, if stream == null then {} else {stream}
      reads schedule`serverHandshake, serverHs`sequenceNumber, deframer`appended
    {
      && stream != null && stream.sent == sent + FinishedRecord(session)
      && ReadsFlight(u.crypto, r, s, FlightView(), stream.incoming)
    }

    lemma FinishesIs(sent: Bytes, s: Bytes, r: Reader)
      requires stream != null
      ensures Finishes(sent, s, r) <==>
        stream.sent == sent + FinishedRecord(session) && ReadsFlight(u.crypto, r, s, FlightView(), stream.incoming)
    {
    }

    lemma FlightBegins(o: Opening)
      requires OpeningOk() && o.hellos == HelloTranscript(u, hellos)
      ensures FlightSoFar(o)
    {
      OpeningIs();
      NoFlight();
    }

    /** Notes how the connection came about. */
    method RecordSession(ghost o: Opening)
      requires HellosOk(u, hellos) && Agreed(u, schedule.ecdhe, hellos)
      requires o == OpeningOf(u, schedule.ecdhe, config.hostname, hellos)
      requires FlightOk(u, o, flight) && Finished(flight)
      requires finished == Encode(Message(FINISHED, ClientFinished(u, schedule.ecdhe, hellos, flight)))
      requires schedule.clientApplication == ClientSecret(u, schedule.ecdhe, hellos, flight)
      requires schedule.serverApplication == ServerSecret(u, schedule.ecdhe, hellos, flight)
      requires KeysDerived() && writeGeneration == readGeneration == 0
      modifies this`session
      ensures Joined()
    {
      session := Session(u, config.hostname, schedule.ecdhe, hellos, flight, finished,
                         schedule.clientApplication, schedule.serverApplication);
    }

    /** The application keys are those of the present secrets, unused. */
    ghost predicate KeysDerived()
      reads schedule`clientApplication, schedule`serverApplication, clientApp, serverApp
    {
      && clientApp.key == u.crypto.keyOf(schedule.clientApplication)
      && clientApp.iv == u.crypto.ivOf(schedule.clientApplication)
      && serverApp.key == u.crypto.keyOf(schedule.serverApplication)
      && serverApp.iv == u.crypto.ivOf(schedule.serverApplication)
      && clientApp.sequenceNumber == serverApp.sequenceNumber == 0
    }

    /** What makes the connected state true. */
    ghost predicate Joined()
      reads this`config, this`session, this`writeGeneration, this`readGeneration, this`hellos, this`flight, this`finished
      reads schedule, clientApp, serverApp
    {
      && session.Session? && SessionOk(session)
      && session.u == u && session.hostname == config.hostname && session.ecdhe == schedule.ecdhe
      && session.hellos == hellos && session.flight == flight && session.finished == finished
      && writeGeneration == readGeneration == 0
      && schedule.clientApplication == session.clientSecret && schedule.serverApplication == session.serverSecret
      && KeysDerived()
    }

    /** A complete handshake: its transcript is the history, its session is recorded, the first hello asks for what the
        configuration names, and the flight is exactly what was taken from the deframer. */
    ghost predicate Established()
      reads this`config, this`session, this`writeGeneration, this`readGeneration, this`hellos, this`flight, this`finished
      reads schedule, clientApp, serverApp, transcript, transcript.sha, transcript.sha.buffer, deframer`consumed
    {
      HistoryOk() && Joined() && Asked() && deframer.consumed == EncodeAll(flight)
    }

    lemma EstablishedIs()
      ensures Established() <==> HistoryOk() && Joined() && Asked() && deframer.consumed == EncodeAll(flight)
    {
    }

    /** Since the streams stood at `sent` and `incoming`, exactly this handshake went over them. */
    ghost predicate OnStreams(sent: Bytes, incoming: Bytes)
      reads this`session, this`stream, if stream == null then {} else {stream}, deframer, deframer.storage
    {
      && stream != null && deframer.Valid()
      && OnWire(session, sent, stream.sent, incoming, stream.incoming, deframer.Buffered())
    }

    /** Everything Connect does between its argument checks and the connected state. */
    method Handshake() returns (e: Error)
      requires Fixed() && BookOk() && stream != null && state == HANDSHAKING && deframer.Valid()
      requires OpeningOk() && hellos == []
      modifies this`book, this`writeGeneration, this`readGeneration, this`session, this`privateKey, this`publicKey
      modifies this`hellos, this`flight, this`finished, this`negotiatedAlpn, this`certificateStorage
      modifies this`lastAlertLevel, this`lastAlertDescription
      modifies schedule, clientHs, serverHs, clientApp, serverApp, clientHello, stream`incoming, stream`ended, stream`sent, stream`broken
      modifies transcript.sha, transcript.sha.buffer, deframer`used, deframer`appended, deframer`consumed, deframer.storage
      ensures BookOk() && deframer.Valid()
      ensures e == OK ==> Established() && OnStreams(old(stream.sent), old(stream.incoming))
      ensures old(book.sealings) <= book.sealings
    {
      hide *;
      Apart();
      var sh;
      ghost var base, s := stream.sent, stream.incoming;
      e, sh := ExchangeHellos();
      if e != OK { return; }
      ghost var mid, told := stream.incoming, stream.sent;
      ExchangeIs(base, []);
      e := KeyHandshake(sh);
      EstablishedIs();
      if e == OK { WholeHandshake(base, told, s, mid); }
    }

    /** The private key kept is the one behind the share in the last ClientHello, and the ServerHello is in its group. */
    ghost predicate KeyHeld(sh: ServerHello)
      reads this`hellos, this`privateKey
    {
      && |hellos| >= 2 && u.parsers.serverHello(hellos[|hellos| - 1]) == Ok(sh)
      && ShareOf(u.agreement, hellos[|hellos| - 2], privateKey)
      && ShareIn(hellos[|hellos| - 2]).value.0 == sh.group
    }

    lemma KeyHeldIs(p: ClientHello.Params, sh: ServerHello)
      requires |hellos| >= 2 && u.parsers.serverHello(hellos[|hellos| - 1]) == Ok(sh)
      requires Asking(p, hellos[|hellos| - 2]) && sh.group == p.group
      ensures KeyHeld(sh)
    {
      hide Asking;
      hide ShareOf;
      hide ShareIn;
      AskingReads(p, hellos[|hellos| - 2]);
    }

    lemma KeyHeldAgrees(sh: ServerHello, ecdhe: Bytes)
      requires KeyHeld(sh) && u.agreement.shared(sh.group, privateKey, sh.share) == Ok(ecdhe)
      ensures Agreed(u, ecdhe, hellos)
    {
      hide ShareOf;
      hide ShareIn;
      assert KeyUsed(u, hellos[|hellos| - 2], hellos[|hellos| - 1], privateKey, ecdhe);
    }

    /** From the ServerHello to the client's Finished. */
    method KeyHandshake(sh: ServerHello) returns (e: Error)
      requires Fixed() && BookOk() && OpeningOk() && HellosOk(u, hellos) && stream != null && state == HANDSHAKING
      requires deframer.Valid() && KeyHeld(sh)
      modifies this`book, this`writeGeneration, this`readGeneration, this`session
      modifies this`flight, this`finished, this`negotiatedAlpn, this`certificateStorage
      modifies this`lastAlertLevel, this`lastAlertDescription
      modifies schedule, clientHs, serverHs, clientApp, serverApp, stream`incoming, stream`ended, stream`sent, stream`broken
      modifies transcript.sha, transcript.sha.buffer, deframer`used, deframer`appended, deframer`consumed, deframer.storage
      ensures BookOk() && deframer.Valid()
      ensures e == OK ==> HistoryOk() && Joined() && deframer.consumed == EncodeAll(flight)
      ensures e == OK ==> schedule.serverHandshake == OpeningOf(u, schedule.ecdhe, config.hostname, hellos).secret
      ensures e == OK ==> Finishes(old(stream.sent), old(stream.incoming), Reader(schedule.serverHandshake, 0, []))
      ensures old(book.sealings) <= book.sealings
    {
      hide *;
      Apart();
      deframer.Reset();
      e := AgreeKeys(sh);
      if e != OK { return; }
      KeyHeldAgrees(sh, schedule.ecdhe);
      FlightViewIs();
      HandshakeKeyedIs();
      e := CompleteHandshake();
    }

    /** The first hello asks for what the configuration names. */
    ghost predicate Asked()
      reads this`hellos, this`config
    {
      hellos != [] && Offers(u, config, hellos[0])
    }

    lemma AskedIs()
      ensures Asked() <==> hellos != [] && Offers(u, config, hellos[0])
    {
    }

    lemma WholeHandshake(base: Bytes, told: Bytes, s: Bytes, mid: Bytes)
      requires Joined() && deframer.Valid() && deframer.consumed == EncodeAll(flight)
      requires stream != null && told == base + SentHellos(hellos) && ReadsPlain(s, ServerHellos(hellos), mid)
      requires Finishes(told, mid, Reader(schedule.serverHandshake, 0, []))
      requires schedule.serverHandshake == OpeningOf(u, schedule.ecdhe, config.hostname, hellos).secret
      ensures OnStreams(base, s)
    {
      SessionIs();
      deframer.Room();
      var n := serverHs.sequenceNumber;
      assert FlightView() == FlightReader(session, n, EncodeAll(session.flight) + deframer.Buffered());
    }

    /** Sends the first ClientHello. */
    method BeginHellos() returns (e: Error, p: ClientHello.Params)
      requires Fixed() && stream != null && OpeningOk() && hellos == []
      modifies this`privateKey, this`publicKey, this`hellos
      modifies transcript.sha, transcript.sha.buffer, clientHello, stream`sent, stream`broken
      ensures e == OK ==> OpeningOk() && Waiting(p, false) && Asked()
      ensures e == OK ==> Told(old(stream.sent)) && ServerHellos(hellos) == []
    {
      hide *;
      ghost var base := stream.sent;
      NoHellos(base);
      p := ClientHello.Params([], [], [], config.group, config.hostname, config.alpn, []);
      var random, sid;
      e, random := RandomBytes(32);
      if e != OK { return; }
      e, sid := RandomBytes(32);
      if e != OK { return; }
      e := MakeKeyShare(config.group);
      if e != OK { return; }
      p := ClientHello.Params(random, sid, publicKey, config.group, config.hostname, config.alpn, []);
      ghost var h := ClientHello.Encode(p);
      assert [] + [h] == [h];
      ExchangeIs(base, h);
      e := SendHello(p);
      ExchangeIs(base, []);
      AskingIs(p, h);
      WaitingIs(p, false);
      AskedIs();
      if e == OK { FirstHello(u, config, p, privateKey); }
    }

    method ExchangeHellos() returns (e: Error, sh: ServerHello)
      requires Fixed() && stream != null && deframer.Valid() && OpeningOk() && hellos == []
      modifies this`privateKey, this`publicKey, this`hellos, this`lastAlertLevel, this`lastAlertDescription
      modifies transcript.sha, transcript.sha.buffer, clientHello, stream`sent, stream`broken, stream`incoming, stream`ended
      modifies deframer`used, deframer`appended, deframer`consumed, deframer.storage
      ensures deframer.Valid()
      ensures e == OK ==> OpeningOk() && HellosOk(u, hellos) && Told(old(stream.sent)) && Asked() && KeyHeld(sh)
      ensures e == OK ==> ReadsPlain(old(stream.incoming), ServerHellos(hellos), stream.incoming)
    {
      hide *;
      Apart();
      ghost var base := stream.sent;
      sh := ServerHello(false, 0, [], [], []);
      var p;
      e, p := BeginHellos();
      if e != OK { return; }
      AskedIs();
      deframer.Reset();
      ExchangeIs(base, []);
      e, p, sh := AwaitServerHello(p, base);
      AskedIs();
      CompleteIs(p, sh);
      if e == OK { KeyHeldIs(p, sh); }
    }

    method Connect(c: Config, s: Stream) returns (e: Error)
      requires Valid()
      modifies this`state, this`config, this`stream, this`pendingOffset, this`pendingLength
      modifies this`book, this`writeGeneration, this`readGeneration, this`session, this`privateKey, this`publicKey
      modifies this`hellos, this`flight, this`finished, this`negotiatedAlpn, this`certificateStorage
      modifies this`lastAlertLevel, this`lastAlertDescription
      modifies schedule, clientHs, serverHs, clientApp, serverApp, clientHello, s
      modifies transcript.sha, transcript.sha.buffer, deframer, deframer.storage
      ensures Valid() && (state == CONNECTED ==> e == OK || old(state) == CONNECTED)
      ensures old(state) != IDLE || c.hostname == [] ==> e == INVALID_ARGUMENT && state == old(state)
      ensures e == OK ==> state == CONNECTED && stream == s && config == c && pendingLength == 0
      ensures e == OK ==> Established() && OnStreams(old(s.sent), old(s.incoming))
      ensures old(state) == IDLE && c.hostname != [] && e != OK ==> state == FAILED
      ensures old(book.sealings) <= book.sealings
      ensures old(Vouched()) ==> Vouched()
    {
      hide *;
      ValidIs();
      WritableIs();
      Apart();
      if state != IDLE || c.hostname == [] { return INVALID_ARGUMENT; }
      ghost var sent, incoming := s.sent, s.incoming;
      Begin(c, s);
      ValidIs();
      e := Handshake();
      ValidIs();
      Conclude(e == OK, sent, incoming);
    }

    /** Connected after a complete handshake, failed otherwise. */
    method Conclude(complete: bool, ghost sent: Bytes, ghost incoming: Bytes)
      requires Fixed() && BookOk() && Readable() && stream != null
      requires complete ==> Established() && OnStreams(sent, incoming)
      modifies this`state, this`privateKey, this`publicKey, this`book, schedule, clientHs, serverHs, clientApp, serverApp, stream
      ensures Valid() && Vouched() && state == (if complete then CONNECTED else FAILED)
      ensures complete ==> Established() && OnStreams(sent, incoming)
      ensures book.sealings == old(book.sealings)
    {
      hide *;
      EstablishedIs();
      if complete {
        state := CONNECTED;
        JoinedIs();
        WritableIs();
      } else {
        Fail();
      }
      ValidIs();
    }

    /** The connected state is true of a session just joined. */
    lemma JoinedIs()
      requires Joined() && stream != null
      ensures ConnectedOk() && Vouched()
    {
    }

    method Begin(c: Config, s: Stream)
      requires Fixed()
      modifies this`state, this`config, this`stream, this`pendingOffset, this`pendingLength
      modifies this`hellos, this`flight, this`finished, this`negotiatedAlpn, this`certificateStorage
      modifies this`lastAlertLevel, this`lastAlertDescription, transcript.sha, transcript.sha.buffer, deframer
      ensures Readable() && pendingLength == 0 && OpeningOk() && hellos == []
      ensures state == HANDSHAKING && stream == s && config == c
    {
      hide *;
      config, stream, state := c, s, HANDSHAKING;
      Clear();
    }
  }

  /** A hello that asks for what the configuration names, with the public share of a private key. */
  ghost predicate Offers(u: Suite, c: Config, hello: Bytes)
  {
    exists p, key :: OfferOf(u, c, hello, p, key)
  }

  ghost predicate OfferOf(u: Suite, c: Config, hello: Bytes, p: ClientHello.Params, key: Bytes)
  {
    && hello == ClientHello.Encode(p) && ClientHello.BuildError(p, HELLO) == OK
    && p.group == c.group && p.serverName == c.hostname && p.alpn == c.alpn && p.cookie == []
    && u.agreement.publicKey(c.group, key) == Ok(p.keyShare)
  }

  lemma FlightCases(c: Crypto, r: Reader, record: Bytes)
    ensures var p, o, f := ParseHeader(record), Incoming.Open(c, r, record), FlightStep(c, r, record);
      && (p.Ok? && p.value.kind == CHANGE_CIPHER_SPEC ==> f == Some(r))
      && (p.Ok? && p.value.kind != CHANGE_CIPHER_SPEC && o.Ok? && o.value.kind == HANDSHAKE ==>
            f == Some(Reader(r.secret, Next(r.number), r.buffered + o.value.content)))
    ensures CHANGE_CIPHER_SPEC != APPLICATION_DATA
  {
  }

  lemma FirstLength(s: Bytes, record: Bytes)
    requires FirstRecord(s) == Some(record)
    ensures |record| > 0
  {
  }

  lemma NothingBehind(s: Bytes, t: Bytes)
    ensures |t| == 0 ==> s + t == s
  {
  }

  lemma HelloKinds(u: Suite, hello: Bytes)
    ensures var sh := u.parsers.serverHello(hello); IsRetry(u, hello) <==> sh.Ok? && sh.value.retry
  {
  }

  lemma HellosComplete(u: Suite, before: seq<Bytes>, hello: Bytes, sh: ServerHello)
    requires |before| == 1 || (|before| == 3 && Retried(u, before[0], before[1], before[2]))
    requires u.parsers.serverHello(hello) == Ok(sh) && !sh.retry && SessionIn(before[|before| - 1]) == Some(sh.sessionId)
    ensures HellosOk(u, before + [hello])
  {
    hide Retried;
    hide SessionIn;
  }

  lemma FirstHello(u: Suite, c: Config, p: ClientHello.Params, key: Bytes)
    requires p.group == c.group && p.serverName == c.hostname && p.alpn == c.alpn && p.cookie == []
    requires ClientHello.BuildError(p, HELLO) == OK && u.agreement.publicKey(p.group, key) == Ok(p.keyShare)
    ensures Offers(u, c, ClientHello.Encode(p))
  {
    hide ClientHello.BuildError;
    hide ClientHello.Encode;
    assert OfferOf(u, c, ClientHello.Encode(p), p, key);
  }

  lemma NoHellos(base: Bytes)
    ensures base + SentHellos([]) == base && SentHellos([]) == ServerHellos([]) == []
  {
  }

  lemma EmptyHistory(u: Suite)
    ensures HelloTranscript(u, []) + EncodeAll([]) + [] == []
  {
  }

  lemma FinishedBytes(data: Secret)
    ensures Encode(Message(FINISHED, data)) == [FINISHED, 0, 0, 32] + data
  {
    ClientHello.ThreeOctets(32);
  }

  lemma NoFlight()
    ensures forall s: Bytes :: s + EncodeAll([]) + [] == s
  {
    assert EncodeAll([]) == [];
  }

  /** The platform's random source. */
  method RandomBytes(n: nat) returns (e: Error, r: Bytes)
    ensures |r| == n && (e == OK || e == CRYPTO)
  {
    var x: Bytes :| |x| == n by { assert |seq(n, _ => 0)| == n; }
    r := x;
    if * { e := OK; } else { e := CRYPTO; }
  }

  function Padding(c: Config): nat { if c.padding > 255 then 255 else c.padding }

  /** Every outcome of a record. */
  lemma StepCases(c: Crypto, r: Reader, record: Bytes)
    ensures var p, o, s := ParseHeader(record), Incoming.Open(c, r, record), StepOf(c, r, record);
      && (ErrorOf(o) == OK <==> o.Ok?)
      && (p.Err? ==> s == Stop)
      && (p.Ok? && p.value.kind == CHANGE_CIPHER_SPEC ==> s == Skip(r, []))
      && (p.Ok? && p.value.kind != CHANGE_CIPHER_SPEC && p.value.kind != APPLICATION_DATA ==> s == Stop)
      && (p.Ok? && p.value.kind == APPLICATION_DATA ==> s == OpenedStep(c, r, o))
      && (p.Ok? && p.value.kind == APPLICATION_DATA && o.Err? ==> s == Stop)
    ensures CHANGE_CIPHER_SPEC != APPLICATION_DATA
  {
  }

  lemma AlertCases(c: Crypto, r: Reader, record: Bytes)
    ensures var p, o := ParseHeader(record), Incoming.Open(c, r, record);
      CloseNotify(c, r, record) <==> p.Ok? && p.value.kind == APPLICATION_DATA && o.Ok? && o.value.kind == ALERT
                                     && |o.value.content| == 2 && o.value.content[1] == 0
  {
  }

  lemma OpenedCases(c: Crypto, r: Reader, o: Opened)
    ensures var s := OpenedStep(c, r, Ok(o)); var after := AfterPayload(c, Counted(r), o.content);
      && (o.kind == APPLICATION_DATA ==> s == Data(Counted(r), o.content))
      && (o.kind == HANDSHAKE && after.None? ==> s == Stop)
      && (o.kind == HANDSHAKE && after.Some? ==> s == Skip(after.value, Answers(Messages(r.buffered + o.content))))
      && (o.kind != APPLICATION_DATA && o.kind != HANDSHAKE ==> s == Stop)
      && Counted(r).buffered == r.buffered
    ensures ALERT != APPLICATION_DATA && ALERT != HANDSHAKE
  {
  }

  // ---- following a payload message by message ----

  /** Where a list of messages leads: the reading side, everything sent, and the writing side. */
  datatype Final = Final(reader: Option<Reader>, sent: Bytes, write: Half)

  function Finally(c: Crypto, r: Reader, h: Half, sent: Bytes, ms: seq<Message>): Final
  {
    Final(AfterAll(c, r, ms), sent + Wire(c, h, Answers(ms)), AdvanceAll(c, h, Answers(ms)))
  }

  lemma {:induction false} PayloadIs(c: Crypto, r: Reader, h: Half, sent: Bytes, payload: Bytes)
    ensures var s := r.buffered + payload; var f := Finally(c, r, h, sent, Messages(s));
      && (|s| > STORAGE || f.reader.None? ==> AfterPayload(c, r, payload) == None)
      && (|s| <= STORAGE && f.reader.Some? ==> AfterPayload(c, r, payload) == Some(f.reader.value.(buffered := Rest(s))))
      && f.sent == sent + Wire(c, h, Answers(Messages(s))) && f.write == AdvanceAll(c, h, Answers(Messages(s)))
  {
  }

  lemma {:induction false} NothingLeft(c: Crypto, r: Reader, h: Half, sent: Bytes, s: Bytes)
    requires Parse(s).Err?
    ensures Finally(c, r, h, sent, Messages(s)) == Final(Some(r), sent, h) && Rest(s) == s
  {
    assert sent + [] == sent;
  }

  lemma {:induction false} FinallyStep(c: Crypto, r: Reader, h: Half, sent: Bytes, s: Bytes, m: Message)
    requires Parse(s) == Ok(m)
    ensures var t := s[|Encode(m)|..];
      && Rest(s) == Rest(t)
      && (After(c, r, m) == None ==> Finally(c, r, h, sent, Messages(s)).reader == None)
      && (After(c, r, m).Some? ==>
            var g := AdvanceAll(c, h, Answer(m));
            Finally(c, r, h, sent, Messages(s)) == Finally(c, After(c, r, m).value, g, sent + Wire(c, h, Answer(m)), Messages(t)))
  {
    ParseIff(s, m);
    var t := s[|Encode(m)|..];
    FirstMessage(s, m, t);
    var ms := [m] + Messages(t);
    assert ms[0] == m && ms[1..] == Messages(t);
    WireConcat(c, h, Answer(m), Answers(Messages(t)));
    Associate(sent, Wire(c, h, Answer(m)), Wire(c, AdvanceAll(c, h, Answer(m)), Answers(Messages(t))));
  }

  lemma AnsweredNothing(f: Fetch)
    ensures Answered([], f) == f
  {
    if f.Fetched? { assert [] + f.answers == f.answers; }
  }

  lemma {:induction false} OverrunIs(c: Crypto, r: Reader, s: Bytes, size: nat)
    ensures Overruns(c, r, s, size) <==> FetchFrom(c, r, s).Fetched? && |FetchFrom(c, r, s).content| > size + PENDING
  {
  }

  lemma NothingBefore(s: Bytes, t: Bytes)
    ensures |s| == 0 ==> s == [] && s + t == t
  {
  }

  lemma AnsweredData(before: seq<Item>, r: Reader, rest: Bytes, content: Bytes)
    ensures Answered(before, Ended) == Ended
    ensures Answered(before, Fetched(r, rest, content, [])) == Fetched(r, rest, content, before) && before + [] == before
  {
  }

  /** A fetch, record by record. */
  lemma {:induction false} NextFetch(c: Crypto, r: Reader, s: Bytes)
    ensures FirstRecord(s) == None ==> FetchFrom(c, r, s) == Ended
    ensures FirstRecord(s).Some? ==>
      var record := FirstRecord(s).value; var step := StepOf(c, r, record); var f := FetchFrom(c, r, s);
      && (step == Stop ==> f == Ended)
      && (step.Data? ==> f == Fetched(step.reader, s[|record|..], step.content, []))
      && (step.Skip? ==> f == Answered(step.answers, FetchFrom(c, step.reader, s[|record|..])))
  {
  }

  /** Whether a close_notify comes, record by record. */
  lemma {:induction false} NextClosing(c: Crypto, r: Reader, s: Bytes)
    ensures FirstRecord(s) == None ==> Closing(c, r, s) == None
    ensures FirstRecord(s).Some? ==>
      var record := FirstRecord(s).value; var step := StepOf(c, r, record); var f := Closing(c, r, s);
      && (CloseNotify(c, r, record) ==> step == Stop && f == Some(s[|record|..]))
      && (step == Stop && !CloseNotify(c, r, record) ==> f == None)
      && (step.Data? ==> f == None)
      && (step.Skip? ==> f == Closing(c, step.reader, s[|record|..]))
  {
  }

  /** Two turns of reading and answering make one. */
  lemma {:induction false} TurnTaken(c: Crypto, h: Half, sent: Bytes, before: seq<Item>, more: seq<Item>, f: Fetch)
    ensures sent + Wire(c, h, before) + Wire(c, AdvanceAll(c, h, before), more) == sent + Wire(c, h, before + more)
    ensures AdvanceAll(c, AdvanceAll(c, h, before), more) == AdvanceAll(c, h, before + more)
    ensures Answered(before, Answered(more, f)) == Answered(before + more, f)
    ensures before + [] == before
  {
    WireConcat(c, h, before, more);
    Associate(sent, Wire(c, h, before), Wire(c, AdvanceAll(c, h, before), more));
    if f.Fetched? { Associate(before, more, f.answers); }
  }

  // ---- following a send chunk by chunk ----

  lemma PaddingIs(c: Config, size: nat)
    ensures Padding(c) == if c.padding > 255 then 255 else c.padding
    ensures Oversize(size, c.padding) <==> Oversize(size, Padding(c))
    ensures size == 0 ==> !Oversize(size, c.padding)
  {
  }

  lemma {:induction false} NoChunks(c: Crypto, h: Half, data: Bytes, padding: nat, sent: Bytes)
    requires padding <= 255 && data == []
    ensures sent + Wire(c, h, Chunks(data, padding)) == sent && AdvanceAll(c, h, Chunks(data, padding)) == h
  {
    assert sent + [] == sent;
  }

  lemma {:induction false} FirstChunk(c: Crypto, h: Half, data: Bytes, off: nat, padding: nat, next: nat, sent: Bytes)
    requires padding <= 255 && off < |data|
    requires next == off + if |data| - off > 16623 - padding then 16623 - padding else |data| - off
    ensures var i := Piece(data[off..next], padding); var g := Advance(c, h, i);
      && sent + Wire(c, h, Chunks(data[off..], padding)) == sent + RecordOf(c, h, i) + Wire(c, g, Chunks(data[next..], padding))
      && AdvanceAll(c, h, Chunks(data[off..], padding)) == AdvanceAll(c, g, Chunks(data[next..], padding))
  {
    var d := data[off..];
    var n := next - off;
    assert d[..n] == data[off..next] && d[n..] == data[next..];
    var i, rest := Piece(d[..n], padding), Chunks(d[n..], padding);
    assert Chunks(d, padding) == [i] + rest && Chunks(d, padding)[0] == i && Chunks(d, padding)[1..] == rest;
    Associate(sent, RecordOf(c, h, i), Wire(c, Advance(c, h, i), rest));
  }
}
