/** The RSAPublicKey octets the RSA verifier accepts, refuses, and reads as which modulus and exponent. */
module RsaKey {
  import opened Bits
  import opened Types
  import Der
  import Rsa

  /** RSAPublicKey of section A.1.1 of RFC 8017 with the contents `n` and `x` of its two integers. */
  predicate KeyOctets(der: Bytes, n: Bytes, x: Bytes)
  {
    var body := Der.Encode(2, n) + Der.Encode(2, x);
    der == Der.Encode(0x30, body) && |body| < 0x1_0000_0000
  }

  /** The modulus of the contents `n`: one leading zero octet in front of others is the sign. */
  predicate ModulusOf(n: Bytes, mod: Bytes)
  {
    (n == [0] + mod && mod != []) || (n == mod && !(|n| > 1 && n[0] == 0))
  }

  predicate ModulusFits(mod: Bytes) { 1 <= |mod| <= 512 }

  predicate ExponentFits(x: Bytes) { 1 <= |x| <= 4 }

  /** An odd exponent above 1. */
  predicate ExponentOk(x: Bytes) { Be(x) >= 3 && Be(x) % 2 == 1 }

  predicate Acceptable(n: Bytes, x: Bytes, mod: Bytes, e: nat)
  {
    ModulusOf(n, mod) && ModulusFits(mod) && ExponentFits(x) && ExponentOk(x) && Be(x) == e
  }

  lemma EncodeFits(tag: Byte, value: Bytes)
    ensures |value| <= |Der.Encode(tag, value)|
  {
  }

  /** What is read from the octets of a key, and the error of every pair of contents that is refused. */
  lemma {:induction false} KeyOctetsRead(der: Bytes, n: Bytes, x: Bytes, mod: Bytes)
    requires KeyOctets(der, n, x) && ModulusOf(n, mod)
    ensures Rsa.ParseKey(der) == Err(UNSUPPORTED) <==> !ModulusFits(mod) || !ExponentFits(x)
    ensures Rsa.ParseKey(der) == Err(VERIFY) <==> ModulusFits(mod) && ExponentFits(x) && !ExponentOk(x)
    ensures ModulusFits(mod) && ExponentFits(x) && ExponentOk(x) ==> Rsa.ParseKey(der) == Ok((mod, Be(x)))
    ensures Rsa.ParseKey(der) != Err(BAD_HANDSHAKE)
  {
    hide Der.Tlv;
    hide Der.Encode;
    hide Be;
    var first, second := Der.Encode(2, n), Der.Encode(2, x);
    var body := first + second;
    EncodeFits(2, n);
    EncodeFits(2, x);
    assert der[0..|der|] == der && body[0..|first|] == first && body[|first|..|body|] == second;
    Der.TlvComplete(der, 0, 0x30, body);
    Der.TlvComplete(body, 0, 2, n);
    Der.TlvComplete(body, |first|, 2, x);
    if n == [0] + mod { assert n[1..] == mod; }
  }

  /** Anything else than two integers in a sequence is malformed. */
  lemma MalformedIff(der: Bytes)
    ensures Rsa.ParseKey(der) == Err(BAD_HANDSHAKE) <==> !exists n, x :: KeyOctets(der, n, x)
  {
    hide Rsa.ParseKey;
    hide KeyOctets;
    if Rsa.ParseKey(der) != Err(BAD_HANDSHAKE) { KeyContents(der); }
    if n, x :| KeyOctets(der, n, x) {
      var mod := if |n| > 1 && n[0] == 0 then n[1..] else n;
      assert |n| > 1 && n[0] == 0 ==> n == [0] + n[1..];
      KeyOctetsRead(der, n, x, mod);
    }
  }

  lemma KeyContents(der: Bytes)
    requires Rsa.ParseKey(der) != Err(BAD_HANDSHAKE)
    ensures exists n, x :: KeyOctets(der, n, x)
  {
    hide Der.Tlv;
    hide Der.Encode;
    hide Be;
    var body := Der.Tlv(der, 0).value.value;
    var n := Der.Tlv(body, 0).value;
    var x := Der.Tlv(body, n.next).value;
    Der.TlvSound(der, 0);
    Der.TlvSound(body, 0);
    Der.TlvSound(body, n.next);
    assert der[0..|der|] == der && body == body[0..n.next] + body[n.next..x.next];
    assert KeyOctets(der, n.value, x.value);
  }

  /** The accepted keys: a modulus of at most 512 octets and an odd exponent from 3 on, of at most four octets. */
  lemma KeyIff(der: Bytes, mod: Bytes, e: nat)
    ensures Rsa.ParseKey(der) == Ok((mod, e)) <==> exists n, x :: KeyOctets(der, n, x) && Acceptable(n, x, mod, e)
  {
    hide Rsa.ParseKey;
    hide KeyOctets;
    if Rsa.ParseKey(der) == Ok((mod, e)) {
      KeyContents(der);
      var n, x :| KeyOctets(der, n, x);
      var m := if |n| > 1 && n[0] == 0 then n[1..] else n;
      assert |n| > 1 && n[0] == 0 ==> n == [0] + n[1..];
      KeyOctetsRead(der, n, x, m);
    }
    if n, x :| KeyOctets(der, n, x) && Acceptable(n, x, mod, e) {
      KeyOctetsRead(der, n, x, mod);
    }
  }
}
