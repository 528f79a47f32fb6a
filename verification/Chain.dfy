/** The built-in certificate verifier: trust anchors, signatures on certificates, and chains. */
module Chain {
  import opened Bits
  import opened Types
  import opened Der
  import Sha256
  import Aead

  type u32 = x: int | 0 <= x < 0x1_0000_0000
  type u64 = x: int | 0 <= x < 0x1_0000_0000_0000_0000

  datatype KeyKind = RSA | P256 | OTHER_KEY

  datatype KeyUsage = KeyUsage(digitalSignature: bool, certSign: bool)

  /** The certificate fields the verifier looks at. */
  datatype View = View(
    subject: Bytes,
    issuer: Bytes,
    validity: Option<(u64, u64)>,
    basicConstraints: bool,
    ca: bool,
    pathLen: Option<u32>,
    keyUsage: Option<KeyUsage>,
    serverAuth: Option<bool>,
    san: Option<Bytes>,
    keyKind: KeyKind,
    keyBits: Bytes)

  /** Certificate parsing and the signature verifiers, on (key, signed octets, signature). */
  datatype Tools = Tools(
    parse: Bytes -> Result<View>,
    pssParameters: Bytes -> bool,
    rsaPkcs1: (Bytes, Bytes, Bytes) -> Error,
    rsaPss: (Bytes, Bytes, Bytes) -> Error,
    ecdsa: (Bytes, Bytes, Bytes) -> Error,
    compression: Sha256.Compression)

  // ---- the signature on a certificate ----

  datatype SignatureKind = UNKNOWN | RSA_SHA256 | ECDSA_SHA256 | RSA_PSS_SHA256

  datatype Signature = Signature(tbs: Bytes, algorithm: Bytes, bits: Bytes)

  const SEQUENCE: Byte := 0x30
  const INTEGER: Byte := 0x02
  const BIT_STRING: Byte := 0x03
  const OID: Byte := 0x06

  /** The octets and value of the element at `off`, and what follows, if it has the tag. */
  datatype Part = Part(full: Bytes, value: Bytes, next: nat)

  function Tagged(s: Bytes, off: nat, tag: Byte): (r: Option<Part>)
    ensures r.Some? ==> off < r.value.next <= |s| && r.value.full == s[off..r.value.next]
  {
    match Tlv(s, off)
    case None => None
    case Some(e) => if e.tag == tag then Some(Part(s[off..e.next], e.value, e.next)) else None
  }

  /** The signature algorithm inside a TBSCertificate: behind an optional version and the serial number. */
  function InnerAlgorithm(tbs: Bytes): Option<Bytes>
  {
    match Tlv(tbs, 0)
    case None => None
    case Some(first) =>
      match Tagged(tbs, if first.tag == 0xA0 then first.next else 0, INTEGER)
      case None => None
      case Some(serial) =>
        match Tagged(tbs, serial.next, SEQUENCE)
        case None => None
        case Some(algorithm) => Some(algorithm.full)
  }

  /** An AlgorithmIdentifier: the object identifier and the encoded parameters, empty if absent. */
  function AlgorithmOf(full: Bytes): Option<(Bytes, Bytes)>
  {
    match Tagged(full, 0, SEQUENCE)
    case None => None
    case Some(a) =>
      if a.next != |full| then None
      else match Tagged(a.value, 0, OID)
        case None => None
        case Some(oid) =>
          if oid.next == |a.value| then Some((oid.value, []))
          else match Tlv(a.value, oid.next)
            case None => None
            case Some(p) => if p.next == |a.value| then Some((oid.value, a.value[oid.next..])) else None
  }

  /** The parts of a certificate, as they are read one behind the other. */
  function Parsed(der: Bytes): Result<Signature>
  {
    match Tagged(der, 0, SEQUENCE)
    case None => Err(BAD_HANDSHAKE)
    case Some(cert) =>
      if cert.next != |der| then Err(BAD_HANDSHAKE) else ParsedBody(cert.value)
  }

  function ParsedBody(cert: Bytes): Result<Signature>
  {
    match Tagged(cert, 0, SEQUENCE)
    case None => Err(BAD_HANDSHAKE)
    case Some(tbs) =>
      match Tagged(cert, tbs.next, SEQUENCE)
      case None => Err(BAD_HANDSHAKE)
      case Some(alg) =>
        match InnerAlgorithm(tbs.value)
        case None => Err(BAD_HANDSHAKE)
        case Some(inner) =>
          if inner != alg.full then Err(VERIFY)
          else if AlgorithmOf(alg.full).None? then Err(BAD_HANDSHAKE)
          else match Tagged(cert, alg.next, BIT_STRING)
            case None => Err(BAD_HANDSHAKE)
            case Some(bits) =>
              if bits.next != |cert| || |bits.value| < 1 || bits.value[0] != 0 then Err(BAD_HANDSHAKE)
              else Ok(Signature(tbs.full, alg.full, bits.value[1..]))
  }

  /** A certificate is a sequence of exactly a TBSCertificate, an algorithm equal to the one inside it, and a bit string
      of whole octets. */
  ghost predicate Signed(der: Bytes, sig: Signature)
  {
    exists cert, tbs :: SignedParts(der, cert, tbs, sig)
  }

  ghost predicate SignedParts(der: Bytes, cert: Bytes, tbs: Bytes, sig: Signature)
  {
    der == Encode(SEQUENCE, cert) && |cert| < 0x1_0000_0000 && SignedBody(cert, tbs, sig)
  }

  ghost predicate SignedBody(cert: Bytes, tbs: Bytes, sig: Signature)
  {
    && cert == sig.tbs + sig.algorithm + Encode(BIT_STRING, [0] + sig.bits)
    && sig.tbs == Encode(SEQUENCE, tbs) && |tbs| < 0x1_0000_0000 && |sig.bits| + 1 < 0x1_0000_0000
    && Whole(sig.algorithm, SEQUENCE)
    && InnerAlgorithm(tbs) == Some(sig.algorithm)
    && AlgorithmOf(sig.algorithm).Some?
  }

  /** `s` is one element with the tag. */
  ghost predicate Whole(s: Bytes, tag: Byte)
  {
    Tagged(s, 0, tag).Some? && Tagged(s, 0, tag).value.next == |s|
  }

  lemma TaggedSound(s: Bytes, off: nat, tag: Byte)
    requires Tagged(s, off, tag).Some?
    ensures var p := Tagged(s, off, tag).value; p.full == Encode(tag, p.value) && |p.value| < 0x1_0000_0000
    ensures Whole(Tagged(s, off, tag).value.full, tag)
  {
    TlvSound(s, off);
    var p := Tagged(s, off, tag).value;
    assert p.full[0..|p.full|] == p.full;
    TlvComplete(p.full, 0, tag, p.value);
  }

  /** An encoding is read where it stands. */
  lemma TaggedSlice(s: Bytes, off: nat, tag: Byte, value: Bytes, full: Bytes, next: nat)
    requires |value| < 0x1_0000_0000 && full == Encode(tag, value)
    requires next == off + |full| <= |s| && s[off..next] == full
    ensures Tagged(s, off, tag) == Some(Part(full, value, next))
  {
    TlvComplete(s, off, tag, value);
  }

  lemma BodyIff(cert: Bytes, sig: Signature)
    ensures ParsedBody(cert) == Ok(sig) <==> exists tbs :: SignedBody(cert, tbs, sig)
  {
    if ParsedBody(cert) == Ok(sig) {
      BodySound(cert, sig);
    }
    forall tbs | SignedBody(cert, tbs, sig)
      ensures ParsedBody(cert) == Ok(sig)
    {
      BodyComplete(cert, tbs, sig);
    }
  }

  lemma BodySound(cert: Bytes, sig: Signature)
    requires ParsedBody(cert) == Ok(sig)
    ensures exists tbs :: SignedBody(cert, tbs, sig)
  {
    var tbs := Tagged(cert, 0, SEQUENCE).value;
    var alg := Tagged(cert, tbs.next, SEQUENCE).value;
    var bits := Tagged(cert, alg.next, BIT_STRING).value;
    ThreeParts(cert, tbs, alg, bits);
    HeadAndTail(bits.value, sig.bits);
    assert SignedBody(cert, tbs.value, sig);
  }

  lemma HeadAndTail(s: Bytes, t: Bytes)
    requires s != [] && s[0] == 0 && t == s[1..]
    ensures s == [0] + t
  {
  }

  /** Three elements that follow one another to the end. */
  lemma ThreeParts(cert: Bytes, a: Part, b: Part, c: Part)
    requires Tagged(cert, 0, SEQUENCE) == Some(a) && Tagged(cert, a.next, SEQUENCE) == Some(b)
    requires Tagged(cert, b.next, BIT_STRING) == Some(c) && c.next == |cert|
    ensures cert == a.full + b.full + c.full && Whole(b.full, SEQUENCE)
    ensures a.full == Encode(SEQUENCE, a.value) && c.full == Encode(BIT_STRING, c.value)
    ensures |a.value| < 0x1_0000_0000 && |c.value| < 0x1_0000_0000
  {
    TaggedSound(cert, 0, SEQUENCE);
    TaggedSound(cert, a.next, SEQUENCE);
    TaggedSound(cert, b.next, BIT_STRING);
    CutAt(cert, a.next, b.next);
  }

  lemma CutAt(s: Bytes, p: nat, q: nat)
    requires p <= q <= |s|
    ensures s == s[0..p] + s[p..q] + s[q..|s|]
  {
  }

  lemma BodyComplete(cert: Bytes, tbs: Bytes, sig: Signature)
    requires SignedBody(cert, tbs, sig)
    ensures ParsedBody(cert) == Ok(sig)
  {
    var value := Tagged(sig.algorithm, 0, SEQUENCE).value.value;
    OneRead(sig.algorithm);
    var bits := [0] + sig.bits;
    var p := |sig.tbs|;
    var q := p + |sig.algorithm|;
    var a, b, c := Part(sig.tbs, tbs, p), Part(sig.algorithm, value, q), Part(Encode(BIT_STRING, bits), bits, |cert|);
    ThreeRead(a, b, c, cert);
    assert bits[1..] == sig.bits;
    ReadsAs(cert, a, b, c);
  }

  lemma ReadsAs(cert: Bytes, a: Part, b: Part, c: Part)
    requires Tagged(cert, 0, SEQUENCE) == Some(a) && Tagged(cert, a.next, SEQUENCE) == Some(b)
    requires Tagged(cert, b.next, BIT_STRING) == Some(c) && c.next == |cert| && c.value != [] && c.value[0] == 0
    requires InnerAlgorithm(a.value) == Some(b.full) && AlgorithmOf(b.full).Some?
    ensures ParsedBody(cert) == Ok(Signature(a.full, b.full, c.value[1..]))
  {
  }

  lemma ThreeRead(a: Part, b: Part, c: Part, cert: Bytes)
    requires a.full == Encode(SEQUENCE, a.value) && b.full == Encode(SEQUENCE, b.value) && c.full == Encode(BIT_STRING, c.value)
    requires |a.value| < 0x1_0000_0000 && |b.value| < 0x1_0000_0000 && |c.value| < 0x1_0000_0000
    requires cert == a.full + b.full + c.full && a.next == |a.full| && b.next == a.next + |b.full| && c.next == |cert|
    ensures Tagged(cert, 0, SEQUENCE) == Some(a)
    ensures Tagged(cert, a.next, SEQUENCE) == Some(b)
    ensures Tagged(cert, b.next, BIT_STRING) == Some(c)
  {
    ThreeSlices(a, b, c, cert);
    TaggedSlice(cert, 0, SEQUENCE, a.value, a.full, a.next);
    TaggedSlice(cert, a.next, SEQUENCE, b.value, b.full, b.next);
    TaggedSlice(cert, b.next, BIT_STRING, c.value, c.full, c.next);
  }

  lemma ThreeSlices(a: Part, b: Part, c: Part, s: Bytes)
    requires s == a.full + b.full + c.full && a.next == |a.full| && b.next == a.next + |b.full| && c.next == |s|
    ensures s[0..a.next] == a.full && s[a.next..b.next] == b.full && s[b.next..c.next] == c.full
  {
  }

  /** Reading succeeds on exactly the certificates, and yields their parts. */
  lemma ParsedIff(der: Bytes, sig: Signature)
    ensures Parsed(der) == Ok(sig) <==> Signed(der, sig)
  {
    if Parsed(der) == Ok(sig) {
      var cert := Tagged(der, 0, SEQUENCE).value.value;
      OneRead(der);
      BodyIff(cert, sig);
      var tbs :| SignedBody(cert, tbs, sig);
      assert SignedParts(der, cert, tbs, sig);
    }
    forall cert, tbs | SignedParts(der, cert, tbs, sig)
      ensures Parsed(der) == Ok(sig)
    {
      OneEncoded(der, cert);
      BodyIff(cert, sig);
    }
  }

  lemma OneRead(der: Bytes)
    requires Whole(der, SEQUENCE)
    ensures var v := Tagged(der, 0, SEQUENCE).value.value; der == Encode(SEQUENCE, v) && |v| < 0x1_0000_0000
  {
    TaggedSound(der, 0, SEQUENCE);
    assert der[0..|der|] == der;
  }

  lemma OneEncoded(der: Bytes, v: Bytes)
    requires der == Encode(SEQUENCE, v) && |v| < 0x1_0000_0000
    ensures Tagged(der, 0, SEQUENCE) == Some(Part(der, v, |der|))
  {
    assert der[0..|der|] == der;
    TaggedSlice(der, 0, SEQUENCE, v, der, |der|);
  }

  method ReadTagged(s: Bytes, off: nat, tag: Byte) returns (r: Option<Part>)
    ensures r == Tagged(s, off, tag)
  {
    var e, o := ReadTlv(s, off);
    if e != OK || o.tag != tag { return None; }
    return Some(Part(s[off..o.next], o.value, o.next));
  }

  method ReadInnerAlgorithm(tbs: Bytes) returns (r: Option<Bytes>)
    ensures r == InnerAlgorithm(tbs)
  {
    var e, first := ReadTlv(tbs, 0);
    if e != OK { return None; }
    var serial := ReadTagged(tbs, if first.tag == 0xA0 then first.next else 0, INTEGER);
    if serial.None? { return None; }
    var algorithm := ReadTagged(tbs, serial.value.next, SEQUENCE);
    return if algorithm.None? then None else Some(algorithm.value.full);
  }

  method ReadAlgorithm(full: Bytes) returns (r: Option<(Bytes, Bytes)>)
    ensures r == AlgorithmOf(full)
  {
    var a := ReadTagged(full, 0, SEQUENCE);
    if a.None? || a.value.next != |full| { return None; }
    var oid := ReadTagged(a.value.value, 0, OID);
    if oid.None? { return None; }
    if oid.value.next == |a.value.value| { return Some((oid.value.value, [])); }
    var e, p := ReadTlv(a.value.value, oid.value.next);
    if e != OK || p.next != |a.value.value| { return None; }
    return Some((oid.value.value, a.value.value[oid.value.next..]));
  }

  method CertSignature(der: Bytes) returns (r: Result<Signature>)
    ensures r == Parsed(der)
  {
    var cert := ReadTagged(der, 0, SEQUENCE);
    if cert.None? || cert.value.next != |der| { return Err(BAD_HANDSHAKE); }
    var tbs := ReadTagged(cert.value.value, 0, SEQUENCE);
    if tbs.None? { return Err(BAD_HANDSHAKE); }
    var alg := ReadTagged(cert.value.value, tbs.value.next, SEQUENCE);
    if alg.None? { return Err(BAD_HANDSHAKE); }
    var inner := ReadInnerAlgorithm(tbs.value.value);
    if inner.None? { return Err(BAD_HANDSHAKE); }
    if inner.value != alg.value.full { return Err(VERIFY); }
    var algorithm := ReadAlgorithm(alg.value.full);
    if algorithm.None? { return Err(BAD_HANDSHAKE); }
    var bits := ReadTagged(cert.value.value, alg.value.next, BIT_STRING);
    if bits.None? || bits.value.next != |cert.value.value| || |bits.value.value| < 1 || bits.value.value[0] != 0 {
      return Err(BAD_HANDSHAKE);
    }
    return Ok(Signature(tbs.value.full, alg.value.full, bits.value.value[1..]));
  }

  const SHA256_RSA: Bytes := [0x2A, 0x86, 0x48, 0x86, 0xF7, 0x0D, 0x01, 0x01, 0x0B]
  const SHA256_ECDSA: Bytes := [0x2A, 0x86, 0x48, 0xCE, 0x3D, 0x04, 0x03, 0x02]
  const RSA_PSS: Bytes := [0x2A, 0x86, 0x48, 0x86, 0xF7, 0x0D, 0x01, 0x01, 0x0A]

  function KindOf(t: Tools, algorithm: Bytes): SignatureKind
  {
    match AlgorithmOf(algorithm)
    case None => UNKNOWN
    case Some(a) =>
      if a.0 == SHA256_RSA then RSA_SHA256
      else if a.0 == SHA256_ECDSA then ECDSA_SHA256
      else if a.0 == RSA_PSS && t.pssParameters(a.1) then RSA_PSS_SHA256
      else UNKNOWN
  }

  /** The issuer's key verifies the child's signature, with the algorithm both of the child's fields name. */
  ghost predicate SignedBy(t: Tools, child: Bytes, issuer: View)
  {
    exists sig :: Signed(child, sig) && Verifies(t, sig, issuer)
  }

  predicate Verifies(t: Tools, sig: Signature, issuer: View)
  {
    match KindOf(t, sig.algorithm)
    case RSA_SHA256 => issuer.keyKind == RSA && t.rsaPkcs1(issuer.keyBits, sig.tbs, sig.bits) == OK
    case RSA_PSS_SHA256 => issuer.keyKind == RSA && t.rsaPss(issuer.keyBits, sig.tbs, sig.bits) == OK
    case ECDSA_SHA256 => issuer.keyKind == P256 && t.ecdsa(issuer.keyBits, sig.tbs, sig.bits) == OK
    case UNKNOWN => false
  }

  lemma SignedByIff(t: Tools, child: Bytes, issuer: View)
    ensures SignedBy(t, child, issuer) <==> Parsed(child).Ok? && Verifies(t, Parsed(child).value, issuer)
  {
    forall sig ensures Signed(child, sig) <==> Parsed(child) == Ok(sig) { ParsedIff(child, sig); }
  }

  method VerifySignature(t: Tools, sig: Signature, issuer: View) returns (e: Error)
    ensures e == OK <==> Verifies(t, sig, issuer)
  {
    var kind := KindOf(t, sig.algorithm);
    if kind == RSA_SHA256 && issuer.keyKind == RSA { return t.rsaPkcs1(issuer.keyBits, sig.tbs, sig.bits); }
    if kind == RSA_PSS_SHA256 && issuer.keyKind == RSA { return t.rsaPss(issuer.keyBits, sig.tbs, sig.bits); }
    if kind == ECDSA_SHA256 && issuer.keyKind == P256 { return t.ecdsa(issuer.keyBits, sig.tbs, sig.bits); }
    return UNSUPPORTED;
  }

  method VerifyCertSignedBy(t: Tools, child: Bytes, issuer: Bytes) returns (e: Error)
    ensures e == OK <==> t.parse(issuer).Ok? && SignedBy(t, child, t.parse(issuer).value)
  {
    var iv := t.parse(issuer);
    if iv.Err? { return iv.error; }
    SignedByIff(t, child, iv.value);
    var r := CertSignature(child);
    if r.Err? { return r.error; }
    e := VerifySignature(t, r.value, iv.value);
  }

  // ---- chains ----

  /** What is fixed while one chain is checked. */
  datatype Setting = Setting(tools: Tools, now: Option<u64>, pin: Option<Bytes>, hostname: Bytes)

  predicate InDate(v: View, now: Option<u64>)
  {
    now.Some? ==> v.validity.Some? && v.validity.value.0 <= now.value <= v.validity.value.1
  }

  /** A certificate authority in date. */
  predicate Authority(v: View, now: Option<u64>)
  {
    v.basicConstraints && v.ca && (v.keyUsage.Some? ==> v.keyUsage.value.certSign) && InDate(v, now)
  }

  /** May `v` issue certificates with `below` CA certificates under it? */
  predicate Issuer(v: View, now: Option<u64>, below: nat)
  {
    Authority(v, now) && (v.pathLen.Some? ==> below <= v.pathLen.value)
  }

  /** `issuer` vouches for `child`, with `below` CA certificates under the issuer. */
  ghost predicate Link(s: Setting, child: Bytes, issuer: Bytes, below: nat)
  {
    && s.tools.parse(child).Ok? && s.tools.parse(issuer).Ok?
    && s.tools.parse(child).value.issuer == s.tools.parse(issuer).value.subject
    && Issuer(s.tools.parse(issuer).value, s.now, below)
    && SignedBy(s.tools, child, s.tools.parse(issuer).value)
  }

  /** Every certificate is vouched for by the next. */
  ghost predicate Path(s: Setting, certs: seq<Bytes>)
  {
    forall i :: 0 <= i < |certs| - 1 ==> Link(s, certs[i], certs[i + 1], i)
  }

  ghost predicate Leaf(s: Setting, der: Bytes)
  {
    && s.tools.parse(der).Ok?
    && var v := s.tools.parse(der).value;
    && (s.pin.Some? ==> Sha256.Hash(s.tools.compression, der) == s.pin.value)
    && v.validity.Some? && !(v.basicConstraints && v.ca)
    && (v.keyUsage.Some? ==> v.keyUsage.value.digitalSignature)
    && (v.serverAuth.Some? ==> v.serverAuth.value)
    && InDate(v, s.now)
    && v.san.Some? && Listed(v.san.value, 0, s.hostname)
  }

  /** The path through an anchor: the chain itself if the anchor is its top, one certificate more otherwise. */
  function Through(chain: seq<Bytes>, anchor: Bytes): seq<Bytes>
    requires chain != []
  {
    if chain[|chain| - 1] == anchor then chain else chain + [anchor]
  }

  /** Path validation (a simplification of section 6.1 of RFC 5280): a good leaf and a path of at least two certificates
      that ends at a trust anchor. */
  ghost predicate Trusted(s: Setting, chain: seq<Bytes>, anchors: seq<Bytes>)
  {
    && s.hostname != [] && chain != []
    && Leaf(s, chain[0])
    && exists a :: a in anchors && |Through(chain, a)| >= 2 && Path(s, Through(chain, a))
  }

  lemma PathSnoc(s: Setting, certs: seq<Bytes>, c: Bytes)
    requires certs != []
    ensures Path(s, certs + [c]) <==> Path(s, certs) && Link(s, certs[|certs| - 1], c, |certs| - 1)
  {
    hide Link;
    var n := |certs|;
    var more := certs + [c];
    assert forall i :: 0 <= i < n ==> more[i] == certs[i];
    assert more[n - 1] == certs[n - 1] && more[n - 1 + 1] == c;
    if Path(s, more) {
      assert Link(s, more[n - 1], more[n - 1 + 1], n - 1);
      forall i | 0 <= i < n - 1
        ensures Link(s, certs[i], certs[i + 1], i)
      {
        assert Link(s, more[i], more[i + 1], i);
      }
    }
  }

  /** What the loop over the anchors asks of one. */
  ghost predicate AnchorOk(s: Setting, chain: seq<Bytes>, a: Bytes)
    requires chain != []
  {
    var n, top := |chain|, chain[|chain| - 1];
    && s.tools.parse(a).Ok?
    && if a == top then Issuer(s.tools.parse(a).value, s.now, if n >= 2 then n - 2 else 0)
       else Link(s, top, a, n - 1)
  }

  /** Under a good leaf and a good chain, that is a path of at least two certificates through the anchor. */
  lemma AnchorIff(s: Setting, chain: seq<Bytes>, a: Bytes)
    requires chain != [] && Leaf(s, chain[0]) && Path(s, chain)
    ensures AnchorOk(s, chain, a) <==> |Through(chain, a)| >= 2 && Path(s, Through(chain, a))
  {
    var n := |chain|;
    if a == chain[n - 1] {
      if n >= 2 { assert Link(s, chain[n - 2], chain[n - 2 + 1], n - 2); }
    } else {
      PathSnoc(s, chain, a);
    }
  }

  class Verifier {
    const tools: Tools
    var anchors: seq<Bytes>
    var pin: Option<Bytes>

    ghost predicate Valid()
      reads this
    {
      && |anchors| <= 16
      && (forall a :: a in anchors ==> tools.parse(a).Ok?)
      && (pin.Some? ==> |pin.value| == 32)
    }

    constructor (tools: Tools)
      ensures Valid() && anchors == [] && pin == None
    {
      this.tools := tools;
      anchors, pin := [], None;
    }

    method SetLeafPin(digest: Bytes) returns (e: Error)
      requires Valid()
      modifies this`pin
      ensures Valid()
      ensures e == if |digest| == 32 then OK else INVALID_ARGUMENT
      ensures pin == if e == OK then Some(digest) else old(pin)
    {
      if |digest| != 32 { return INVALID_ARGUMENT; }
      pin := Some(digest);
      e := OK;
    }

    method ClearLeafPin()
      requires Valid()
      modifies this`pin
      ensures Valid() && pin == None
    {
      pin := None;
    }

    method AddTrustAnchor(der: Bytes) returns (e: Error)
      requires Valid()
      modifies this`anchors
      ensures Valid()
      ensures e == if der == [] then INVALID_ARGUMENT
                   else if |old(anchors)| >= 16 then BUFFER_TOO_SMALL
                   else match tools.parse(der) case Ok(_) => OK case Err(f) => f
      ensures anchors == if e == OK then old(anchors) + [der] else old(anchors)
    {
      if der == [] { return INVALID_ARGUMENT; }
      if |anchors| >= 16 { return BUFFER_TOO_SMALL; }
      var v := tools.parse(der);
      if v.Err? { return v.error; }
      anchors := anchors + [der];
      e := OK;
    }

    method ClearTrustAnchors()
      requires Valid()
      modifies this`anchors
      ensures Valid() && anchors == []
    {
      anchors := [];
    }

    function Here(now: Option<u64>, hostname: Bytes): Setting
      reads this`pin
    {
      Setting(tools, now, pin, hostname)
    }

    method CheckPin(der: Bytes) returns (ok: bool)
      requires Valid()
      ensures ok <==> (pin.Some? ==> Sha256.Hash(tools.compression, der) == pin.value)
    {
      if pin.None? { return true; }
      var h := new Sha256.Hasher(tools.compression);
      h.Update(der);
      assert [] + der == der;
      var digest := h.Final();
      ok := Aead.ConstantTimeEqual(digest, pin.value);
    }

    /** The checks on the end-entity certificate. */
    method CheckLeaf(der: Bytes, now: Option<u64>, hostname: Bytes) returns (e: Error)
      requires Valid() && hostname != []
      ensures e == OK <==> Leaf(Here(now, hostname), der)
      ensures tools.parse(der).Err? ==> e == tools.parse(der).error
      ensures tools.parse(der).Ok? ==> e == OK || e == VERIFY
    {
      var leaf := tools.parse(der);
      if leaf.Err? { return leaf.error; }
      var v := leaf.value;
      var pinned := CheckPin(der);
      if !pinned { return VERIFY; }
      if v.validity.None? || (v.basicConstraints && v.ca) { return VERIFY; }
      if v.keyUsage.Some? && !v.keyUsage.value.digitalSignature { return VERIFY; }
      if v.serverAuth.Some? && !v.serverAuth.value { return VERIFY; }
      if now.Some? && (now.value < v.validity.value.0 || now.value > v.validity.value.1) { return VERIFY; }
      e := VerifyHostname(v.san, hostname);
      return if e == OK then OK else VERIFY;
    }

    method CheckDate(v: View, now: Option<u64>) returns (ok: bool)
      ensures ok <==> InDate(v, now)
    {
      if now.Some? {
        if v.validity.None? || now.value < v.validity.value.0 || now.value > v.validity.value.1 { return false; }
      }
      return true;
    }

    /** Is `issuer` an authority in date that signed `child`, with `below` certificates under it? */
    method CheckLink(child: Bytes, issuer: Bytes, below: nat, now: Option<u64>, hostname: Bytes) returns (ok: bool)
      requires below < 8
      ensures ok <==> Link(Here(now, hostname), child, issuer, below)
    {
      var c, i := tools.parse(child), tools.parse(issuer);
      if c.Err? || i.Err? { return false; }
      if c.value.issuer != i.value.subject { return false; }
      if !i.value.basicConstraints || !i.value.ca || (i.value.keyUsage.Some? && !i.value.keyUsage.value.certSign) { return false; }
      if i.value.pathLen.Some? && i.value.pathLen.value < below { return false; }
      ok := CheckDate(i.value, now);
      if !ok { return; }
      var e := VerifyCertSignedBy(tools, child, issuer);
      ok := e == OK;
    }

    method CheckAnchor(chain: seq<Bytes>, a: Bytes, now: Option<u64>, hostname: Bytes) returns (ok: bool)
      requires 1 <= |chain| <= 8 && tools.parse(chain[|chain| - 1]).Ok?
      ensures ok <==> AnchorOk(Here(now, hostname), chain, a)
    {
      var n, top := |chain|, chain[|chain| - 1];
      var parsed := tools.parse(a);
      if parsed.Err? { return false; }
      var av := parsed.value;
      if !av.basicConstraints || !av.ca || (av.keyUsage.Some? && !av.keyUsage.value.certSign) { return false; }
      ok := CheckDate(av, now);
      if !ok { return; }
      if top == a {
        var below := if n >= 2 then n - 2 else 0;
        return !(av.pathLen.Some? && av.pathLen.value < below);
      }
      if tools.parse(top).value.issuer != av.subject { return false; }
      if av.pathLen.Some? && av.pathLen.value < n - 1 { return false; }
      var e := VerifyCertSignedBy(tools, top, a);
      ok := e == OK;
    }

    /** Accepts exactly the chains with a good leaf and a path to an anchor. */
    method VerifyChain(chain: seq<Bytes>, hostname: Bytes, now: Option<u64>) returns (e: Error)
      requires Valid() && |chain| <= 8
      ensures e == OK <==> Trusted(Here(now, hostname), chain, anchors)
      ensures hostname == [] || chain == [] || anchors == [] ==> e == VERIFY
      ensures hostname != [] && chain != [] && anchors != [] && tools.parse(chain[0]).Err? ==> e == tools.parse(chain[0]).error
      ensures hostname != [] && chain != [] && tools.parse(chain[0]).Ok? ==> e == OK || e == VERIFY
    {
      hide Link;
      hide Issuer;
      hide Authority;
      hide AnchorOk;
      hide Path;
      if hostname == [] || chain == [] || anchors == [] { return VERIFY; }
      ghost var s := Here(now, hostname);
      e := CheckLeaf(chain[0], now, hostname);
      if e != OK { return; }
      for i := 0 to |chain| - 1
        invariant forall k :: 0 <= k < i ==> Link(s, chain[k], chain[k + 1], k)
      {
        var ok := CheckLink(chain[i], chain[i + 1], i, now, hostname);
        if !ok {
          NoPath(s, chain, anchors, i);
          return VERIFY;
        }
      }
      WholePath(s, chain);
      TopParses(s, chain);
      for j := 0 to |anchors|
        invariant forall k :: 0 <= k < j ==> !AnchorOk(s, chain, anchors[k])
      {
        var ok := CheckAnchor(chain, anchors[j], now, hostname);
        if ok {
          AnchorIff(s, chain, anchors[j]);
          return OK;
        }
      }
      forall a | a in anchors
        ensures !(|Through(chain, a)| >= 2 && Path(s, Through(chain, a)))
      {
        AnchorIff(s, chain, a);
      }
      return VERIFY;
    }
  }

  lemma WholePath(s: Setting, chain: seq<Bytes>)
    requires forall k :: 0 <= k < |chain| - 1 ==> Link(s, chain[k], chain[k + 1], k)
    ensures Path(s, chain)
  {
    hide Link;
  }

  lemma TopParses(s: Setting, chain: seq<Bytes>)
    requires chain != [] && Leaf(s, chain[0]) && Path(s, chain)
    ensures s.tools.parse(chain[|chain| - 1]).Ok?
  {
    var n := |chain|;
    if n >= 2 { assert Link(s, chain[n - 2], chain[n - 2 + 1], n - 2); }
  }

  /** A broken link breaks every path through the chain. */
  lemma NoPath(s: Setting, chain: seq<Bytes>, anchors: seq<Bytes>, i: nat)
    requires i + 1 < |chain| && !Link(s, chain[i], chain[i + 1], i)
    ensures !Trusted(s, chain, anchors)
  {
    forall a
      ensures !Path(s, Through(chain, a))
    {
      var p := Through(chain, a);
      assert p[i] == chain[i] && p[i + 1] == chain[i + 1];
      assert !Link(s, p[i], p[i + 1], i);
    }
  }
}
