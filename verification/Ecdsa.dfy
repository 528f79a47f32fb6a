/** ECDSA over the signatures P-256 verifies: which octets are read as which pair of numbers, and why
    every signature made by section 4.1.3 of SEC 1 is accepted. */
module Ecdsa {
  import opened Bits
  import opened ModArith
  import opened Types
  import opened Curve
  import opened P256
  import Der

  // ---- what the reader accepts ----

  /** `l` is a length of `n`: one octet below 128, or 0x81 and 0x82 followed by one and two octets. */
  predicate LengthReads(l: Bytes, n: nat)
  {
    || (|l| == 1 && l[0] < 128 && l[0] as int == n)
    || (1 < |l| <= 3 && l[0] as int == 127 + |l| && Be(l[1..]) == n)
  }

  /** The octets of an element with the length octets `l`. */
  function Octets(tag: Byte, l: Bytes, value: Bytes): Bytes { [tag] + l + value }

  /** An element is read exactly where its tag, a length of its value and its value stand. */
  lemma ReadTlvIff(s: Bytes, off: nat, t: Tlv)
    ensures ReadTlv(s, off) == Some(t)
      <==> exists l :: LengthReads(l, |t.value|) && off <= t.next <= |s| && s[off..t.next] == Octets(t.tag, l, t.value)
  {
    hide ReadTlv;
    if ReadTlv(s, off) == Some(t) { ReadParts(s, off, t); }
    if l :| LengthReads(l, |t.value|) && off <= t.next <= |s| && s[off..t.next] == Octets(t.tag, l, t.value) {
      ReadsBack(s, off, t, l);
    }
  }

  lemma ReadParts(s: Bytes, off: nat, t: Tlv)
    requires ReadTlv(s, off) == Some(t)
    ensures exists l :: LengthReads(l, |t.value|) && off <= t.next <= |s| && s[off..t.next] == Octets(t.tag, l, t.value)
  {
    var lb := s[off + 1];
    var p := off + 2 + (if lb < 128 then 0 else lb - 128);
    var l := s[off + 1..p];
    if lb >= 128 { assert l[1..] == s[off + 2..p]; }
    assert LengthReads(l, |t.value|);
    assert s[off..t.next] == Octets(t.tag, l, t.value);
  }

  lemma ReadsBack(s: Bytes, off: nat, t: Tlv, l: Bytes)
    requires LengthReads(l, |t.value|) && off <= t.next <= |s| && s[off..t.next] == Octets(t.tag, l, t.value)
    ensures ReadTlv(s, off) == Some(t)
  {
    var o, p := s[off..t.next], off + 1 + |l|;
    assert t.next == p + |t.value|;
    assert s[off] == o[0] == t.tag && s[off + 1] == o[1] == l[0];
    assert s[p..t.next] == o[1 + |l|..] == t.value;
    if l[0] >= 128 { assert s[off + 2..p] == o[2..1 + |l|] == l[1..]; }
  }

  /** Up to 32 octets, or 33 of which the first is zero, read big-endian. */
  lemma {:induction false} MagnitudeIff(v: Bytes, r: nat)
    ensures Magnitude(v) == Some(r) <==> 1 <= |v| && Be(v) == r && (|v| <= 32 || (|v| == 33 && v[0] == 0))
  {
    if |v| > 1 && v[0] == 0 {
      assert v == [0] + v[1..];
      BeCons(0, v[1..]);
    }
  }

  /** The two numbers of a signature with the length octets `l`, `m` and `n`. */
  ghost predicate SignatureOf(der: Bytes, l: Bytes, m: Bytes, n: Bytes, a: Bytes, b: Bytes)
  {
    var body := Octets(2, m, a) + Octets(2, n, b);
    der == Octets(0x30, l, body) && LengthReads(l, |body|) && LengthReads(m, |a|) && LengthReads(n, |b|)
  }

  /** A signature is read as (r, s) exactly when it is a sequence of the two integers in this order and nothing else. */
  lemma ParseSigIff(der: Bytes, r: nat, s: nat)
    ensures ParseSig(der) == Some((r, s))
      <==> exists l, m, n, a, b :: SignatureOf(der, l, m, n, a, b) && Magnitude(a) == Some(r) && Magnitude(b) == Some(s)
  {
    if ParseSig(der) == Some((r, s)) { PartsOf(der, r, s); }
    if l, m, n, a, b :| SignatureOf(der, l, m, n, a, b) && Magnitude(a) == Some(r) && Magnitude(b) == Some(s) {
      ParsesBack(der, l, m, n, a, b);
    }
  }

  lemma PartsOf(der: Bytes, r: nat, s: nat)
    requires ParseSig(der) == Some((r, s))
    ensures exists l, m, n, a, b :: SignatureOf(der, l, m, n, a, b) && Magnitude(a) == Some(r) && Magnitude(b) == Some(s)
  {
    hide ReadTlv;
    hide Magnitude;
    hide LengthReads;
    var t := ReadTlv(der, 0).value;
    var a := ReadTlv(t.value, 0).value;
    var b := ReadTlv(t.value, a.next).value;
    ReadTlvIff(der, 0, t);
    ReadTlvIff(t.value, 0, a);
    ReadTlvIff(t.value, a.next, b);
    var l :| LengthReads(l, |t.value|) && 0 <= t.next <= |der| && der[0..t.next] == Octets(t.tag, l, t.value);
    var m :| LengthReads(m, |a.value|) && 0 <= a.next <= |t.value| && t.value[0..a.next] == Octets(a.tag, m, a.value);
    var n :| LengthReads(n, |b.value|) && a.next <= b.next <= |t.value|
          && t.value[a.next..b.next] == Octets(b.tag, n, b.value);
    assert der[0..t.next] == der;
    assert t.value == t.value[0..a.next] + t.value[a.next..b.next];
    assert SignatureOf(der, l, m, n, a.value, b.value);
  }

  lemma ParsesBack(der: Bytes, l: Bytes, m: Bytes, n: Bytes, a: Bytes, b: Bytes)
    requires SignatureOf(der, l, m, n, a, b)
    ensures ParseSig(der)
         == if Magnitude(a).Some? && Magnitude(b).Some? then Some((Magnitude(a).value, Magnitude(b).value)) else None
  {
    hide ReadTlv;
    hide Magnitude;
    hide LengthReads;
    var first, second := Octets(2, m, a), Octets(2, n, b);
    var body := first + second;
    assert der[0..|der|] == der && body[0..|first|] == first && body[|first|..|body|] == second;
    ReadsBack(der, 0, Tlv(0x30, body, |der|), l);
    ReadsBack(body, 0, Tlv(2, a, |first|), m);
    ReadsBack(body, |first|, Tlv(2, b, |body|), n);
  }

  // ---- the encoding of a pair ----

  /** The shortest contents of a non-negative INTEGER (section 8.3 of X.690): the first bit is the sign. */
  function Content(r: nat): (c: Bytes)
    ensures c != []
  {
    if r < 128 then [r] else Content(r / 256) + [r % 256]
  }

  lemma {:induction false} ContentReads(r: nat)
    ensures Be(Content(r)) == r
  {
    if r >= 128 {
      ContentReads(r / 256);
      var c := Content(r / 256) + [r % 256];
      assert c[..|c| - 1] == Content(r / 256);
    }
  }

  lemma {:induction false} ContentLength(r: nat, k: nat)
    requires 1 <= k && r < 128 * Pow2(8 * (k - 1))
    ensures |Content(r)| <= k
  {
    if r >= 128 {
      assert Pow2(0) == 1;
      Pow2Add(8, 8 * (k - 2));
      assert Pow2(8) == 256;
      ContentLength(r / 256, k - 1);
    }
  }

  lemma NoTop(c: nat, w: nat, low: nat)
    requires c * w + low < w
    ensures c == 0
  {
  }

  lemma {:induction false} ContentFits(r: nat)
    requires r < Pow2(256)
    ensures Magnitude(Content(r)) == Some(r) && |Content(r)| <= 33
  {
    hide Pow2;
    hide Content;
    hide Be;
    hide Magnitude;
    var c := Content(r);
    var w := Pow2(8 * 32);
    ContentLength(r, 33);
    ContentReads(r);
    if |c| == 33 {
      assert c == [c[0]] + c[1..];
      BeCons(c[0], c[1..]);
      NoTop(c[0], w, Be(c[1..]));
    }
    MagnitudeIff(c, r);
  }

  /** Ecdsa-Sig-Value of section C.5 of SEC 1. */
  function Signature(r: nat, s: nat): Bytes
  {
    Der.Encode(0x30, Der.Encode(2, Content(r)) + Der.Encode(2, Content(s)))
  }

  /** The encoding of every pair of 256-bit numbers is read back, first number first. */
  lemma SignatureReadsBack(r: nat, s: nat)
    requires r < Pow2(256) && s < Pow2(256)
    ensures ParseSig(Signature(r, s)) == Some((r, s))
  {
    hide Magnitude;
    hide ParseSig;
    hide Content;
    ContentFits(r);
    ContentFits(s);
    var a, b := Content(r), Content(s);
    var body := Der.Encode(2, a) + Der.Encode(2, b);
    assert Octets(2, [|a|], a) == Der.Encode(2, a) && Octets(2, [|b|], b) == Der.Encode(2, b);
    assert Octets(0x30, [|body|], body) == Signature(r, s);
    ParsesBack(Signature(r, s), [|body|], [|a|], [|b|], a, b);
  }

  // ---- signatures made with the private key verify ----

  /** The base point has order n: with `CurveFacts`, n is the least such number. */
  ghost predicate BaseOrder(d: Domain)
    requires 2 < d.p && 0 < d.n
  {
    Times(d.n, G(d), d.p) == Zero
  }

  /** Multiples of the base point repeat after n. */
  lemma {:induction false} Periodic(d: Domain, m: nat, k: nat)
    requires Sized(d) && CurveFacts(d) && BaseOrder(d) && m % d.n == k % d.n
    ensures Times(m, G(d), d.p) == Times(k, G(d), d.p)
  {
    hide *;
    SizedIs(d);
    QuotientParts(m, d.n);
    QuotientParts(k, d.n);
    Remainder(d, m, m / d.n, m % d.n);
    Remainder(d, k, k / d.n, k % d.n);
  }

  lemma {:induction false} Remainder(d: Domain, m: nat, c: nat, r: nat)
    requires Sized(d) && CurveFacts(d) && BaseOrder(d) && m == d.n * c + r
    ensures Times(m, G(d), d.p) == Times(r, G(d), d.p)
  {
    hide Times;
    hide Sized;
    hide OnCurve;
    hide GroupLaw;
    hide FieldPrime;
    hide PrimeOrder;
    SizedIs(d);
    ProductIsNat(c, d.n);
    assert d.n * c == c * d.n;
    TimesAdd(c * d.n, r, G(d), d.b, d.p);
    TimesTimes(c, d.n, G(d), d.b, d.p);
    TimesZero(c, d.p);
  }

  lemma ProductIsNat(c: nat, n: nat)
    ensures 0 <= c * n
  {
  }

  lemma {:induction false} TimesZero(k: nat, p: int)
    requires 2 < p
    ensures Times(k, Zero, p) == Zero
  {
    if k > 0 { TimesZero(k - 1, p); }
  }

  /** w (e + r d) = k modulo n when s k = e + r d and w s = 1. */
  lemma MultiplierSum(e: nat, r: nat, key: nat, s: nat, k: nat, w: int, n: int)
    requires 1 < n && InverseOf(w, s, n) && (s * k) % n == (e + r * key) % n
    ensures var u1, u2 := (e * w) % n, (r * w) % n; 0 <= u1 + key * u2 && (u1 + key * u2) % n == k % n
  {
    var u1, u2, t := (e * w) % n, (r * w) % n, e + r * key;
    ModMod(e * w, n);
    ModMod(r * w, n);
    Scale(u2, r * w, key, n);
    ModAdd(u1, key * u2, n);
    ModAdd(e * w, key * (r * w), n);
    Factor(e, r, key, w);
    Scale(s * k, t, w, n);
    SmallMod(1, n);
    Scale(w * s, 1, k, n);
    assert w * (s * k) == k * (w * s);
    assert 0 <= key * u2;
  }

  lemma Factor(e: int, r: int, key: int, w: int)
    ensures e * w + key * (r * w) == w * (e + r * key)
  {
  }

  /** (r, s) is the signature of section 4.1.3 of SEC 1 for the digest `e`, the private key and the nonce `k`. */
  ghost predicate SignedWith(d: Domain, key: Bytes, k: nat, e: nat, r: nat, s: nat)
    requires 2 < d.p && 0 < d.n
  {
    && 0 < k < d.n && 0 < r < d.n && 0 < s < d.n
    && Times(k, G(d), d.p).At? && r == Times(k, G(d), d.p).x % d.n
    && (s * k) % d.n == (e + r * Be(key)) % d.n
  }

  /** Every signature made with a private key is accepted under its public key. */
  lemma {:induction false} SignedVerifies(d: Domain, key: Bytes, k: nat, digest: Bytes, r: nat, s: nat)
    requires Sized(d) && CurveFacts(d) && BaseOrder(d) && FieldPrime(d.n) && PrivateOk(d, key)
    requires SignedWith(d, key, k, Be(digest), r, s)
    ensures EcdsaValid(d, PublicKey(d, key), digest, Signature(r, s))
  {
    hide CurveFacts;
    hide OnCurve;
    hide ParseSig;
    hide Signature;
    hide PublicKey;
    hide PointMatches;
    hide PublicOk;
    SizedIs(d);
    SignatureReadsBack(r, s);
    PublicDecodes(d, key);
    var w := Inverse(s, d.n);
    InverseIsOne(s, d.n);
    SameSum(d, key, k, Be(digest), r, s, w);
  }

  lemma {:induction false} SameSum(d: Domain, key: Bytes, k: nat, e: nat, r: nat, s: nat, w: int)
    requires Sized(d) && CurveFacts(d) && BaseOrder(d) && PrivateOk(d, key)
    requires SignedWith(d, key, k, e, r, s) && InverseOf(w, s, d.n)
    ensures PointMatches(d, Times(Be(key), G(d), d.p), e, r, w)
  {
    hide Sized;
    hide OnCurve;
    hide GroupLaw;
    hide FieldPrime;
    hide PrimeOrder;
    hide Times;
    hide AddAffine;
    hide Be;
    SizedIs(d);
    var u1, u2, g := MulM(e, w, d.n), MulM(r, w, d.n), G(d);
    var m := u2 * Be(key);
    ProductIsNat(u2, Be(key));
    MultiplierSum(e, r, Be(key), s, k, w, d.n);
    TimesTimes(u2, Be(key), g, d.b, d.p);
    TimesAdd(u1, m, g, d.b, d.p);
    assert u2 * Be(key) == Be(key) * u2;
    Periodic(d, u1 + m, k);
    MatchesIs(d, Times(Be(key), g, d.p), e, r, w, u1, u2);
  }
}
