/** Object identifiers and algorithm identifiers of certificates: what the constants name, and which octets are
    which signature algorithm. */
module Algorithms {
  import opened Types
  import opened Der
  import opened Bits
  import opened Chain
  import Extensions
  import Rsa

  // ---- object identifiers: section 8.19 of X.690 ----

  /** One subidentifier in base 128, every octet but the last with its top bit set. */
  function Arc(v: nat): Bytes
  {
    if v < 128 then [v] else Continued(v / 128) + [v % 128]
  }

  function Continued(v: nat): Bytes
  {
    if v < 128 then [128 + v] else Continued(v / 128) + [128 + v % 128]
  }

  /** The first subidentifier holds two arcs. */
  function Root(a: nat, b: nat): Bytes { Arc(40 * a + b) }

  /** id-ce 17, 19, 15 and 37, and id-kp-serverAuth, of section 4.2.1 of RFC 5280. */
  lemma ExtensionIdentifiers()
    ensures Extensions.SUBJECT_ALT_NAME == Root(2, 5) + Arc(29) + Arc(17)
    ensures Extensions.BASIC_CONSTRAINTS == Root(2, 5) + Arc(29) + Arc(19)
    ensures Extensions.KEY_USAGE == Root(2, 5) + Arc(29) + Arc(15)
    ensures Extensions.EXTENDED_KEY_USAGE == Root(2, 5) + Arc(29) + Arc(37)
    ensures Extensions.SERVER_AUTH == Root(1, 3) + Arc(6) + Arc(1) + Arc(5) + Arc(5) + Arc(7) + Arc(3) + Arc(1)
  {
  }

  /** sha256WithRSAEncryption, ecdsa-with-SHA256 and id-RSASSA-PSS. */
  lemma SignatureIdentifiers()
    ensures SHA256_RSA == Root(1, 2) + Arc(840) + Arc(113549) + Arc(1) + Arc(1) + Arc(11)
    ensures SHA256_ECDSA == Root(1, 2) + Arc(840) + Arc(10045) + Arc(4) + Arc(3) + Arc(2)
    ensures RSA_PSS == Root(1, 2) + Arc(840) + Arc(113549) + Arc(1) + Arc(1) + Arc(10)
  {
    assert Arc(840) == [0x86, 0x48];
    assert Arc(113549) == [0x86, 0xF7, 0x0D];
    assert Arc(10045) == [0xCE, 0x3D];
  }

  /** id-sha256. */
  function Sha256Identifier(): Bytes
  {
    Root(2, 16) + Arc(840) + Arc(1) + Arc(101) + Arc(3) + Arc(4) + Arc(2) + Arc(1)
  }

  lemma Sha256IdentifierIs()
    ensures Sha256Identifier() == [0x60, 0x86, 0x48, 0x01, 0x65, 0x03, 0x04, 0x02, 0x01]
  {
    assert Arc(840) == [0x86, 0x48];
  }

  /** DigestInfo of section 9.2 of RFC 8017 for SHA-256: the algorithm with NULL parameters, and the digest. */
  lemma DigestInfoIs(digest: Bytes)
    requires |digest| == 32
    ensures var alg := Encode(OID, Sha256Identifier()) + Encode(0x05, []);
      Rsa.DIGEST_INFO + digest == Encode(SEQUENCE, Encode(SEQUENCE, alg) + Encode(0x04, digest))
  {
    hide Sha256Identifier;
    Sha256IdentifierIs();
    var alg := Encode(OID, Sha256Identifier()) + Encode(0x05, []);
    assert alg == [0x06, 0x09] + Sha256Identifier() + [0x05, 0x00];
    assert Encode(SEQUENCE, alg) == [0x30, 0x0d] + alg;
    assert Encode(0x04, digest) == [0x04, 0x20] + digest;
  }

  // ---- algorithm identifiers ----

  /** `s` is one element, of any tag. */
  ghost predicate Single(s: Bytes)
  {
    exists tag, value :: s == Encode(tag, value) && |value| < 0x1_0000_0000
  }

  /** AlgorithmIdentifier of section 4.1.1.2 of RFC 5280; the parameters are one element or absent. */
  ghost predicate Identifier(alg: Bytes, oid: Bytes, params: Bytes)
  {
    var body := Encode(OID, oid) + params;
    && alg == Encode(SEQUENCE, body) && |body| < 0x1_0000_0000 && |oid| < 0x1_0000_0000
    && (params == [] || Single(params))
  }

  lemma AlgorithmIff(alg: Bytes, oid: Bytes, params: Bytes)
    ensures AlgorithmOf(alg) == Some((oid, params)) <==> Identifier(alg, oid, params)
  {
    if AlgorithmOf(alg) == Some((oid, params)) { AlgorithmSound(alg, oid, params); }
    if Identifier(alg, oid, params) { AlgorithmComplete(alg, oid, params); }
  }

  lemma AlgorithmSound(alg: Bytes, oid: Bytes, params: Bytes)
    requires AlgorithmOf(alg) == Some((oid, params))
    ensures Identifier(alg, oid, params)
  {
    hide Encode;
    hide Tlv;
    var a := Tagged(alg, 0, SEQUENCE).value;
    var o := Tagged(a.value, 0, OID).value;
    TaggedSound(alg, 0, SEQUENCE);
    TaggedSound(a.value, 0, OID);
    assert alg[0..|alg|] == alg;
    assert a.value == a.value[0..o.next] + a.value[o.next..];
    if o.next != |a.value| {
      var p := Tlv(a.value, o.next).value;
      TlvSound(a.value, o.next);
      assert a.value[o.next..p.next] == a.value[o.next..];
      assert params == Encode(p.tag, p.value);
      assert Single(params);
    } else {
      assert params == [] == a.value[o.next..];
    }
  }

  lemma AlgorithmComplete(alg: Bytes, oid: Bytes, params: Bytes)
    requires Identifier(alg, oid, params)
    ensures AlgorithmOf(alg) == Some((oid, params))
  {
    hide Encode;
    hide Tlv;
    var first := Encode(OID, oid);
    var body := first + params;
    EncodeNotEmpty(OID, oid);
    assert alg[0..|alg|] == alg && body[0..|first|] == first && body[|first|..] == params;
    TaggedSlice(alg, 0, SEQUENCE, body, alg, |alg|);
    TaggedSlice(body, 0, OID, oid, first, |first|);
    if params != [] {
      var tag, value :| params == Encode(tag, value) && |value| < 0x1_0000_0000;
      assert body[|first|..|body|] == params;
      TlvComplete(body, |first|, tag, value);
    }
  }

  lemma EncodeNotEmpty(tag: Byte, value: Bytes)
    ensures Encode(tag, value) != []
  {
  }

  /** Which octets are which of the signature algorithms. */
  lemma KindIff(t: Tools, alg: Bytes)
    ensures KindOf(t, alg) == RSA_SHA256 <==> exists params :: Identifier(alg, SHA256_RSA, params)
    ensures KindOf(t, alg) == ECDSA_SHA256 <==> exists params :: Identifier(alg, SHA256_ECDSA, params)
    ensures KindOf(t, alg) == RSA_PSS_SHA256
       <==> exists params :: Identifier(alg, RSA_PSS, params) && t.pssParameters(params)
  {
    hide AlgorithmOf;
    hide Identifier;
    Different();
    forall oid, params
      ensures AlgorithmOf(alg) == Some((oid, params)) <==> Identifier(alg, oid, params)
    {
      AlgorithmIff(alg, oid, params);
    }
  }

  lemma Different()
    ensures SHA256_RSA != SHA256_ECDSA && SHA256_RSA != RSA_PSS && SHA256_ECDSA != RSA_PSS
  {
    assert SHA256_RSA[8] != RSA_PSS[8] && |SHA256_ECDSA| == 8;
  }

  // ---- the algorithm inside a TBSCertificate ----

  /** The version, if any, the serial number and the algorithm, and whatever follows. */
  ghost predicate Begins(tbs: Bytes, version: Bytes, serial: Bytes, alg: Bytes, rest: Bytes)
  {
    && tbs == version + Encode(INTEGER, serial) + alg + rest && |serial| < 0x1_0000_0000
    && (version == [] || exists v :: version == Encode(0xA0, v) && |v| < 0x1_0000_0000)
    && exists a :: alg == Encode(SEQUENCE, a) && |a| < 0x1_0000_0000
  }

  lemma InnerIff(tbs: Bytes, alg: Bytes)
    ensures InnerAlgorithm(tbs) == Some(alg) <==> exists version, serial, rest :: Begins(tbs, version, serial, alg, rest)
  {
    if InnerAlgorithm(tbs) == Some(alg) { InnerSound(tbs, alg); }
    if version, serial, rest :| Begins(tbs, version, serial, alg, rest) {
      InnerComplete(tbs, version, serial, alg, rest);
    }
  }

  lemma InnerSound(tbs: Bytes, alg: Bytes)
    requires InnerAlgorithm(tbs) == Some(alg)
    ensures exists version, serial, rest :: Begins(tbs, version, serial, alg, rest)
  {
    hide Encode;
    hide Tlv;
    var first := Tlv(tbs, 0).value;
    var p := if first.tag == 0xA0 then first.next else 0;
    var n := Tagged(tbs, p, INTEGER).value;
    var a := Tagged(tbs, n.next, SEQUENCE).value;
    TlvSound(tbs, 0);
    TaggedSound(tbs, p, INTEGER);
    TaggedSound(tbs, n.next, SEQUENCE);
    var version, rest := tbs[0..p], tbs[a.next..];
    assert first.tag != 0xA0 ==> version == [];
    assert tbs == version + n.full + a.full + rest;
    assert Begins(tbs, version, n.value, alg, rest);
  }

  lemma InnerComplete(tbs: Bytes, version: Bytes, serial: Bytes, alg: Bytes, rest: Bytes)
    requires Begins(tbs, version, serial, alg, rest)
    ensures InnerAlgorithm(tbs) == Some(alg)
  {
    hide Encode;
    hide Tlv;
    var a :| alg == Encode(SEQUENCE, a) && |a| < 0x1_0000_0000;
    var n := Encode(INTEGER, serial);
    var p := |version|;
    var q := p + |n|;
    var r := q + |alg|;
    assert tbs[0..p] == version && tbs[p..q] == n && tbs[q..r] == alg;
    if version != [] {
      var v :| version == Encode(0xA0, v) && |v| < 0x1_0000_0000;
      TlvComplete(tbs, 0, 0xA0, v);
    }
    TaggedSlice(tbs, p, INTEGER, serial, n, q);
    TaggedSlice(tbs, q, SEQUENCE, a, alg, r);
  }
}
