/** What a client accepts as a handshake: the hellos, the server's flight and the transcript they make. */
module Flight {
  import opened Bits
  import opened Types
  import opened Primitives
  import opened Handshake
  import opened KeySchedule
  import Sha256
  import ClientHello
  import HelloReader

  datatype ServerHello = ServerHello(retry: bool, group: ClientHello.u16, share: Bytes, sessionId: Bytes, cookie: Bytes)

  datatype CertificateVerify = CertificateVerify(algorithm: nat, signature: Bytes)

  /** The readers of single messages, and the verifier's verdict on (certificate list, CertificateVerify, transcript
      hash, host name), as parameters. */
  datatype Parsers = Parsers(
    serverHello: Bytes -> Result<ServerHello>,
    encryptedExtensions: Message -> Result<Option<Bytes>>,
    certificate: Message -> Result<Bytes>,
    certificateVerify: Message -> Result<CertificateVerify>,
    authenticate: (Bytes, CertificateVerify, Bytes, Bytes) -> Error)

  /** Key agreement: clamping an X25519 key, the public share of a private key, the secret shared with a peer's share. */
  datatype Agreement = Agreement(
    clamp: Bytes -> Bytes,
    publicKey: (ClientHello.u16, Bytes) -> Result<Bytes>,
    shared: (ClientHello.u16, Bytes, Bytes) -> Result<Bytes>)

  datatype Suite = Suite(crypto: Crypto, parsers: Parsers, agreement: Agreement)

  function Hash(u: Suite, s: Bytes): Secret { Sha256.Hash(u.crypto.compression, s) }

  // ---- the hellos ----

  predicate IsRetry(u: Suite, hello: Bytes)
  {
    u.parsers.serverHello(hello).Ok? && u.parsers.serverHello(hello).value.retry
  }

  /** The synthetic message_hash message that stands for the first ClientHello. */
  function MessageHash(u: Suite, hello: Bytes): Bytes { [254, 0, 0, 32] + Hash(u, hello) }

  /** The hellos in the transcript, by section 4.4.1 of RFC 8446. */
  function HelloTranscript(u: Suite, hellos: seq<Bytes>): Bytes
  {
    if |hellos| >= 2 && IsRetry(u, hellos[1]) then MessageHash(u, hellos[0]) + Concat(hellos[1..]) else Concat(hellos)
  }

  lemma {:induction false} ConcatOneMore(ss: seq<Bytes>, s: Bytes)
    ensures Concat(ss + [s]) == Concat(ss) + s
  {
    assert (ss + [s])[..|ss|] == ss;
  }

  lemma HelloTranscriptSnoc(u: Suite, hellos: seq<Bytes>, s: Bytes)
    requires |hellos| != 1 || !IsRetry(u, s)
    ensures HelloTranscript(u, hellos + [s]) == HelloTranscript(u, hellos) + s
  {
    if |hellos| >= 2 && IsRetry(u, hellos[1]) {
      assert (hellos + [s])[1..] == hellos[1..] + [s];
      ConcatOneMore(hellos[1..], s);
    } else {
      ConcatOneMore(hellos, s);
    }
  }

  /** A first HelloRetryRequest replaces the ClientHello by its hash. */
  lemma HelloTranscriptRetry(u: Suite, hello: Bytes, retry: Bytes)
    requires IsRetry(u, retry)
    ensures HelloTranscript(u, [hello, retry]) == MessageHash(u, hello) + retry
    ensures HelloTranscript(u, [hello]) == hello
  {
    assert [hello, retry][1..] == [retry];
    ConcatOneMore([], retry);
    ConcatOneMore([], hello);
    assert [] + [retry] == [retry] && [] + [hello] == [hello];
  }

  // ---- the hellos as a reader of their octets sees them ----

  function SessionIn(hello: Bytes): Option<Bytes>
  {
    match HelloReader.ReadHello(hello)
    case None => None
    case Some(h) => Some(h.sessionId)
  }

  /** The group and the octets of the one key share. */
  function ShareIn(hello: Bytes): Option<(nat, Bytes)>
  {
    match HelloReader.ReadHello(hello)
    case None => None
    case Some(h) => HelloReader.KeyShareOf(h)
  }

  /** The answer repeats the session id it was asked with. */
  predicate Echoes(u: Suite, asked: Bytes, answer: Bytes)
  {
    u.parsers.serverHello(answer).Ok? && SessionIn(asked) == Some(u.parsers.serverHello(answer).value.sessionId)
  }

  /** The second hello repeats the first, but for the group and the cookie of the retry and a share in that group. */
  predicate Retried(u: Suite, first: Bytes, retry: Bytes, second: Bytes)
  {
    && IsRetry(u, retry) && Echoes(u, first, retry)
    && ShareIn(first).Some? && ShareIn(second).Some?
    && var r := u.parsers.serverHello(retry).value;
       && ShareIn(first).value.0 != r.group && ShareIn(second).value.0 == r.group
       && var a, b := HelloReader.ReadHello(first).value, HelloReader.ReadHello(second).value;
          && b.random == a.random && b.sessionId == a.sessionId
          && HelloReader.ServerNameOf(b) == HelloReader.ServerNameOf(a)
          && HelloReader.ProtocolsOf(b) == HelloReader.ProtocolsOf(a)
          && HelloReader.CookieOf(b) == if r.cookie == [] then None else Some(r.cookie)
  }

  /** At most one HelloRetryRequest, which the second ClientHello answers, and a ServerHello at the end; every answer
      repeats the session id. */
  predicate HellosOk(u: Suite, hellos: seq<Bytes>)
  {
    && (|hellos| == 2 || (|hellos| == 4 && Retried(u, hellos[0], hellos[1], hellos[2])))
    && Echoes(u, hellos[|hellos| - 2], hellos[|hellos| - 1])
    && !IsRetry(u, hellos[|hellos| - 1])
  }

  /** The share in the hello is the public one of the private key. */
  predicate ShareOf(a: Agreement, hello: Bytes, key: Bytes)
  {
    && ShareIn(hello).Some?
    && var (group, share) := ShareIn(hello).value;
       group < 65536 && a.publicKey(group, key) == Ok(share)
  }

  lemma ShareIs(a: Agreement, hello: Bytes, key: Bytes, group: ClientHello.u16, share: Bytes)
    requires ShareIn(hello) == Some((group as nat, share)) && a.publicKey(group, key) == Ok(share)
    ensures ShareOf(a, hello, key)
  {
    hide ShareIn;
  }

  /** The private key behind the share asked with makes the shared secret of the answer, in the group asked for. */
  predicate KeyUsed(u: Suite, asked: Bytes, answer: Bytes, key: Bytes, ecdhe: Bytes)
  {
    && ShareOf(u.agreement, asked, key) && u.parsers.serverHello(answer).Ok?
    && var sh := u.parsers.serverHello(answer).value;
       ShareIn(asked).value.0 == sh.group && u.agreement.shared(sh.group, key, sh.share) == Ok(ecdhe)
  }

  /** The shared secret is that of one private key, whose public share the last ClientHello carries, and of the
      share in the ServerHello. */
  ghost predicate Agreed(u: Suite, ecdhe: Bytes, hellos: seq<Bytes>)
  {
    |hellos| >= 2 && SomeKey(u, hellos[|hellos| - 2], hellos[|hellos| - 1], ecdhe)
  }

  ghost predicate SomeKey(u: Suite, asked: Bytes, answer: Bytes, ecdhe: Bytes)
  {
    exists key :: KeyUsed(u, asked, answer, key, ecdhe)
  }

  /** What a reader finds in a hello that was built. */
  lemma HelloRead(p: ClientHello.Params, capacity: nat)
    requires ClientHello.BuildError(p, capacity) == OK
    ensures var hello := ClientHello.Encode(p);
      SessionIn(hello) == Some(p.sessionId) && ShareIn(hello) == Some((p.group as nat, p.keyShare))
  {
    hide ClientHello.Encode;
    hide HelloReader.ReadHello;
    hide HelloReader.KeyShareOf;
    hide ClientHello.BuildError;
    HelloReader.ParametersReadBack(p, capacity);
  }

  lemma SecondHello(u: Suite, p: ClientHello.Params, q: ClientHello.Params, retry: Bytes, capacity: nat)
    requires ClientHello.BuildError(p, capacity) == OK && ClientHello.BuildError(q, capacity) == OK
    requires IsRetry(u, retry)
    requires var r := u.parsers.serverHello(retry).value;
      r.sessionId == p.sessionId && r.group != p.group && q == p.(group := r.group, keyShare := q.keyShare, cookie := r.cookie)
    ensures Retried(u, ClientHello.Encode(p), retry, ClientHello.Encode(q))
  {
    hide ClientHello.Encode;
    hide HelloReader.ReadHello;
    hide HelloReader.KeyShareOf;
    hide HelloReader.ServerNameOf;
    hide HelloReader.ProtocolsOf;
    hide HelloReader.CookieOf;
    hide ClientHello.BuildError;
    HelloReader.ParametersReadBack(p, capacity);
    HelloReader.ParametersReadBack(q, capacity);
  }

  // ---- the server's flight ----

  function FinishedData(c: Crypto, secret: Secret, th: Bytes): Secret
  {
    c.hmac(c.expand(secret, FINISHED_KEY, []), th)
  }

  function LastCertificate(ms: seq<Message>): Option<Message>
  {
    if ms == [] then None
    else if ms[|ms| - 1].kind == CERTIFICATE then Some(ms[|ms| - 1])
    else LastCertificate(ms[..|ms| - 1])
  }

  /** What is fixed before the flight starts. */
  datatype Opening = Opening(secret: Secret, hostname: Bytes, hellos: Bytes)

  /** May `m` follow the messages `before`? */
  ghost predicate MessageOk(u: Suite, o: Opening, before: seq<Message>, m: Message)
  {
    var th := Hash(u, o.hellos + EncodeAll(before));
    match m.kind
    case 8 => u.parsers.encryptedExtensions(m).Ok?
    case 11 => |Encode(m)| <= MAX_CERTIFICATE && u.parsers.certificate(m).Ok?
    case 15 =>
      && u.parsers.certificateVerify(m).Ok?
      && LastCertificate(before).Some?
      && var list := u.parsers.certificate(LastCertificate(before).value);
      && list.Ok?
      && u.parsers.authenticate(list.value, u.parsers.certificateVerify(m).value, th, o.hostname) == OK
    case 20 => m.body == FinishedData(u.crypto, o.secret, th)
    case _ => false
  }

  const MAX_CERTIFICATE := 24576

  /** Every message was accepted after those before it, and nothing follows a Finished. */
  ghost predicate FlightOk(u: Suite, o: Opening, ms: seq<Message>)
  {
    ms == [] ||
    var n := |ms| - 1;
    && FlightOk(u, o, ms[..n])
    && MessageOk(u, o, ms[..n], ms[n])
    && (n > 0 ==> ms[n - 1].kind != FINISHED)
  }

  ghost predicate Finished(ms: seq<Message>) { ms != [] && ms[|ms| - 1].kind == FINISHED }

  lemma {:induction false} EncodeAllSnoc(ms: seq<Message>, m: Message)
    ensures EncodeAll(ms + [m]) == EncodeAll(ms) + Encode(m)
  {
    if ms == [] {
      assert [m][1..] == [] && [] + [m] == [m];
    } else {
      assert (ms + [m])[1..] == ms[1..] + [m];
      EncodeAllSnoc(ms[1..], m);
    }
  }

  lemma {:induction false} FlightSnoc(u: Suite, o: Opening, ms: seq<Message>, m: Message)
    requires FlightOk(u, o, ms) && MessageOk(u, o, ms, m) && !Finished(ms)
    ensures FlightOk(u, o, ms + [m]) && (Finished(ms + [m]) <==> m.kind == FINISHED)
  {
    assert (ms + [m])[..|ms|] == ms;
  }

  lemma {:induction false} LastCertificateSnoc(ms: seq<Message>, m: Message)
    ensures LastCertificate(ms + [m]) == if m.kind == CERTIFICATE then Some(m) else LastCertificate(ms)
  {
    assert (ms + [m])[..|ms|] == ms;
  }

  lemma {:induction false} FlightAt(u: Suite, o: Opening, ms: seq<Message>, i: nat)
    requires FlightOk(u, o, ms) && i < |ms|
    ensures MessageOk(u, o, ms[..i], ms[i])
    ensures ms[i].kind == FINISHED ==> i == |ms| - 1
    decreases |ms|
  {
    var n := |ms| - 1;
    if i < n {
      FlightAt(u, o, ms[..n], i);
      assert ms[..n][..i] == ms[..i];
      assert ms[i].kind == FINISHED ==> i == n - 1;
    }
  }

  lemma {:induction false} LastCertificateIs(ms: seq<Message>) returns (j: nat)
    requires LastCertificate(ms).Some?
    ensures j < |ms| && ms[j] == LastCertificate(ms).value && ms[j].kind == CERTIFICATE
    ensures forall k :: j < k < |ms| ==> ms[k].kind != CERTIFICATE
  {
    var n := |ms| - 1;
    if ms[n].kind == CERTIFICATE {
      j := n;
    } else {
      j := LastCertificateIs(ms[..n]);
    }
  }

  /** In an accepted flight every CertificateVerify was checked against the Certificate last absorbed before it and the
      hash of exactly the messages before it. */
  lemma CertificateVerifyChecked(u: Suite, o: Opening, ms: seq<Message>, i: nat) returns (j: nat)
    requires FlightOk(u, o, ms) && i < |ms| && ms[i].kind == CERTIFICATE_VERIFY
    ensures j < i && ms[j].kind == CERTIFICATE && (forall k :: j < k < i ==> ms[k].kind != CERTIFICATE)
    ensures u.parsers.certificate(ms[j]).Ok? && u.parsers.certificateVerify(ms[i]).Ok?
    ensures u.parsers.authenticate(u.parsers.certificate(ms[j]).value, u.parsers.certificateVerify(ms[i]).value,
              Hash(u, o.hellos + EncodeAll(ms[..i])), o.hostname) == OK
  {
    FlightAt(u, o, ms, i);
    j := LastCertificateIs(ms[..i]);
  }

  /** The handshakes after which a client is connected. */
  ghost predicate Accepted(u: Suite, ecdhe: Bytes, hostname: Bytes, hellos: seq<Bytes>, ms: seq<Message>)
  {
    && HellosOk(u, hellos)
    && Agreed(u, ecdhe, hellos)
    && FlightOk(u, OpeningOf(u, ecdhe, hostname, hellos), ms)
    && Finished(ms)
  }

  function OpeningOf(u: Suite, ecdhe: Bytes, hostname: Bytes, hellos: seq<Bytes>): Opening
  {
    var t := HelloTranscript(u, hellos);
    Opening(u.crypto.expand(HandshakeSecret(u.crypto, ecdhe), S_HS_TRAFFIC, Hash(u, t)), hostname, t)
  }

  /** The traffic secrets both sides start the application data with. */
  function ClientSecret(u: Suite, ecdhe: Bytes, hellos: seq<Bytes>, ms: seq<Message>): Secret
  {
    u.crypto.expand(MasterSecret(u.crypto, ecdhe), C_AP_TRAFFIC, Hash(u, HelloTranscript(u, hellos) + EncodeAll(ms)))
  }

  function ServerSecret(u: Suite, ecdhe: Bytes, hellos: seq<Bytes>, ms: seq<Message>): Secret
  {
    u.crypto.expand(MasterSecret(u.crypto, ecdhe), S_AP_TRAFFIC, Hash(u, HelloTranscript(u, hellos) + EncodeAll(ms)))
  }

  /** The secret of the client's handshake keys. */
  function ClientHandshakeSecret(u: Suite, ecdhe: Bytes, hellos: seq<Bytes>): Secret
  {
    u.crypto.expand(HandshakeSecret(u.crypto, ecdhe), C_HS_TRAFFIC, Hash(u, HelloTranscript(u, hellos)))
  }

  function ClientFinished(u: Suite, ecdhe: Bytes, hellos: seq<Bytes>, ms: seq<Message>): Secret
  {
    FinishedData(u.crypto, ClientHandshakeSecret(u, ecdhe, hellos), Hash(u, HelloTranscript(u, hellos) + EncodeAll(ms)))
  }

  /** How a connection came about: the handshake, the client's Finished, and the first traffic secrets. */
  datatype Session =
    | NoSession
    | Session(u: Suite, hostname: Bytes, ecdhe: Bytes, hellos: seq<Bytes>, flight: seq<Message>, finished: Bytes,
              clientSecret: Secret, serverSecret: Secret)

  ghost predicate SessionOk(s: Session)
  {
    s.Session? ==>
      && Accepted(s.u, s.ecdhe, s.hostname, s.hellos, s.flight)
      && s.finished == Encode(Message(FINISHED, ClientFinished(s.u, s.ecdhe, s.hellos, s.flight)))
      && s.clientSecret == ClientSecret(s.u, s.ecdhe, s.hellos, s.flight)
      && s.serverSecret == ServerSecret(s.u, s.ecdhe, s.hellos, s.flight)
  }
}
