/** NIST P-256: key generation, Diffie-Hellman and ECDSA verification over the Jacobian formulas. */
module P256 {
  import opened Bits
  import opened ModArith
  import opened Types
  import opened Bignum
  import opened Words
  import opened Curve
  import opened Jacobian

  /** The parameters of a short Weierstrass curve with a = -3: field prime, order, b and the base point. */
  datatype Domain = Domain(p: int, n: int, b: int, x: int, y: int)

  /** The parameters secp256r1 of SEC 2. */
  const SECP256R1: Domain := Domain(
    0xffffffff_00000001_00000000_00000000_00000000_ffffffff_ffffffff_ffffffff,
    0xffffffff_00000000_ffffffff_ffffffff_bce6faad_a7179e84_f3b9cac2_fc632551,
    0x5ac635d8_aa3a93e7_b3ebbd55_769886bc_651d06b0_cc53b0f6_3bce3c3e_27d2604b,
    0x6b17d1f2_e12c4247_f8bce6e5_63a440f2_77037d81_2deb33a0_f4a13945_d898c296,
    0x4fe342e2_fe1a7f9b_8ee7eb4a_7c0f9e16_2bce3357_6b315ece_cbb64068_37bf51f5)

  function G(d: Domain): Affine { At(d.x, d.y) }

  /** What the code takes from its constants. */
  ghost predicate Sized(d: Domain)
  {
    && 3 < d.p < Pow2(256) && 1 < d.n < Pow2(256) <= 2 * d.n && 0 <= d.b < d.p
    && OnCurve(G(d), d.b, d.p)
  }

  lemma StandardCurve()
    ensures Sized(SECP256R1)
  {
    Pow2At256();
  }

  /** The order of every point but infinity is n. */
  ghost predicate PrimeOrder(d: Domain)
    requires 2 < d.p
  {
    forall q: Affine, k: nat :: q.At? && OnCurve(q, d.b, d.p) && 0 < k < d.n ==> Times(k, q, d.p).At?
  }

  /** The number theory the code relies on and does not contain. */
  ghost predicate CurveFacts(d: Domain)
  {
    FieldPrime(d.p) && GroupLaw(d.b, d.p) && PrimeOrder(d)
  }

  // ---- key generation and agreement ----

  /** The uncompressed form of section 2.3.3 of SEC 1. */
  function Encode(q: Affine): Bytes
    requires q.At? && 0 <= q.x && 0 <= q.y
  {
    [4] + ToBe(q.x, 32) + ToBe(q.y, 32)
  }

  function Decode(key: Bytes): Affine
    requires |key| == 65
  {
    At(Be(key[1..33]), Be(key[33..65]))
  }

  predicate PrivateOk(d: Domain, key: Bytes) { 0 < Be(key) < d.n }

  /** An uncompressed point of the curve. */
  ghost predicate PublicOk(d: Domain, key: Bytes)
    requires 0 < d.p
  {
    |key| == 65 && key[0] == 4 && OnCurve(Decode(key), d.b, d.p)
  }

  /** d Q, a point for every private key and every point Q of the curve. */
  ghost function Product(d: Domain, key: Bytes, q: Affine): (r: Affine)
    requires CurveFacts(d) && PrivateOk(d, key) && q.At? && OnCurve(q, d.b, d.p)
    ensures r.At? && OnCurve(r, d.b, d.p)
  {
    TimesOnCurve(Be(key), q, d.b, d.p);
    Times(Be(key), q, d.p)
  }

  /** The public key of section 3.2.1 of SEC 1. */
  ghost function PublicKey(d: Domain, key: Bytes): Bytes
    requires Sized(d) && CurveFacts(d) && PrivateOk(d, key)
  {
    Encode(Product(d, key, G(d)))
  }

  /** The shared secret of section 3.3.1 of SEC 1: the abscissa of d Q. */
  ghost function Agree(d: Domain, key: Bytes, peer: Bytes): Bytes
    requires CurveFacts(d) && PrivateOk(d, key) && PublicOk(d, peer)
  {
    ToBe(Product(d, key, Decode(peer)).x, 32)
  }

  /** A number below 2^256 from its constant. */
  method Load(v: nat) returns (r: Nat)
    requires v < Pow2(256)
    ensures fresh(r) && fresh(r.w) && Holding(r, v)
  {
    BeOfToBe(v, 32);
    r := FromBe(ToBe(v, 32), WORDS);
  }

  /** `a` holds the number `v` of at most 256 bits. */
  ghost predicate Holding(a: Nat, v: int)
    reads a, a.w
  {
    a.Canon() && a.w.Length == WORDS && a.n < WORDS && a.Value() == v
  }

  lemma HoldingIs(a: Nat, v: int)
    requires Holding(a, v)
    ensures 0 <= v && a.Canon() && a.Value() == v && Modulus(a, v) && (forall m :: v < m ==> Elem(a, v, m))
  {
  }

  method Read(s: Bytes) returns (r: Nat)
    requires |s| == 32
    ensures fresh(r) && fresh(r.w) && Holding(r, Be(s))
  {
    r := FromBe(s, WORDS);
  }

  method Below(a: Nat, b: Nat, ghost v: int, ghost w: int) returns (below: bool)
    requires Holding(a, v) && Holding(b, w)
    ensures below <==> v < w
  {
    var c := Cmp(a, b);
    below := c < 0;
  }

  /** The 32 octets of a coordinate. */
  method Print(a: Nat, ghost v: int, ghost m: int) returns (s: Bytes)
    requires Elem(a, v, m)
    ensures 0 <= v && s == ToBe(v, 32)
  {
    var out := new Byte[32];
    ToBeFixed(a, out);
    s := out[..];
  }

  lemma Pow2At256()
    ensures Pow2(256) == 0x1_00000000_00000000_00000000_00000000_00000000_00000000_00000000_00000000
  {
    Pow2At32();
    Pow2Add(32, 32);
    Pow2Add(64, 64);
    Pow2Add(128, 128);
  }

  method ValidPrivate(k: Nat, n: Nat, ghost v: int, ghost order: int) returns (ok: bool)
    requires Holding(k, v) && Holding(n, order)
    ensures ok <==> 0 < v < order
  {
    var below := Below(k, n, v, order);
    NumOfZero(k.w[..k.n]);
    ok := k.n != 0 && below;
  }

  /** The equation y^2 = x^3 - 3x + b with the code's operations. */
  method SatisfiesCurve(x: Nat, y: Nat, b: Nat, p: Nat, ghost q: Affine, ghost vb: int, ghost m: int) returns (ok: bool)
    requires 2 < m && Modulus(p, m) && q.At? && Elem(x, q.x, m) && Elem(y, q.y, m) && Elem(b, vb, m)
    requires 0 <= q.x && 0 <= q.y && 0 <= vb
    ensures ok <==> OnCurve(q, vb, m)
  {
    var lhs := Mul(y, y, p, q.y, q.y, m);
    var rhs := CurveSide(x, b, p, q.x, vb, m);
    CubicIs(q.x, vb, m);
    ghost var e := q.x * q.x * q.x - 3 * q.x + vb;
    ok := Equal(lhs, rhs, MulM(q.y, q.y, m), e % m, m);
  }

  method CurveSide(x: Nat, b: Nat, p: Nat, ghost vx: int, ghost vb: int, ghost m: int) returns (rhs: Nat)
    requires 2 < m && Modulus(p, m) && Elem(x, vx, m) && Elem(b, vb, m)
    ensures Elem(rhs, AddM(SubM(MulM(MulM(vx, vx, m), vx, m), AddM(AddM(vx, vx, m), vx, m), m), vb, m), m)
  {
    hide *;
    var x2 := Mul(x, x, p, vx, vx, m);
    var x3 := Mul(x2, x, p, MulM(vx, vx, m), vx, m);
    var twoX := Add(x, x, p, vx, vx, m);
    var threeX := Add(twoX, x, p, AddM(vx, vx, m), vx, m);
    ghost var v3, vt := MulM(MulM(vx, vx, m), vx, m), AddM(AddM(vx, vx, m), vx, m);
    var d := Sub(x3, threeX, p, v3, vt, m);
    rhs := Add(d, b, p, SubM(v3, vt, m), vb, m);
  }

  lemma CubicIs(x: int, b: int, p: int)
    requires 2 < p && 0 <= x < p && 0 <= b < p
    ensures AddM(SubM(MulM(MulM(x, x, p), x, p), AddM(AddM(x, x, p), x, p), p), b, p) == (x * x * x - 3 * x + b) % p
  {
    SmallMod(x, p);
    SmallMod(b, p);
    IsMul(x, x, x, x, p);
    IsMul(MulM(x, x, p), x * x, x, x, p);
    IsAdd(x, x, x, x, p);
    IsAdd(AddM(x, x, p), x + x, x, x, p);
    IsSub(MulM(MulM(x, x, p), x, p), x * x * x, AddM(AddM(x, x, p), x, p), x + x + x, p);
    IsAdd(SubM(MulM(MulM(x, x, p), x, p), AddM(AddM(x, x, p), x, p), p), x * x * x - (x + x + x), b, b, p);
  }

  lemma SizedIs(d: Domain)
    requires Sized(d)
    ensures 3 < d.p < Pow2(256) && 1 < d.n < Pow2(256) <= 2 * d.n && 0 <= d.b < d.p
    ensures 0 <= d.x < d.p && 0 <= d.y < d.p && G(d) == At(d.x, d.y) && OnCurve(G(d), d.b, d.p)
  {
  }

  lemma {:induction false} KeyFacts(d: Domain, key: Bytes)
    ensures PrivateOk(d, key) <==> 0 < Be(key) < d.n
    ensures CurveFacts(d) ==> 2 < d.p
  {
  }

  lemma PublicIs(d: Domain, key: Bytes)
    requires 0 < d.p && PublicOk(d, key)
    ensures |key| == 65 && OnCurve(Decode(key), d.b, d.p) && Decode(key).At? && 0 <= Decode(key).x && 0 <= Decode(key).y
  {
  }

  lemma PublicOkIs(d: Domain, key: Bytes)
    requires 0 < d.p && |key| == 65
    ensures Decode(key) == At(Be(key[1..33]), Be(key[33..65]))
    ensures PublicOk(d, key) <==> key[0] == 4 && OnCurve(Decode(key), d.b, d.p)
    ensures OnCurve(Decode(key), d.b, d.p) ==> Decode(key).x < d.p && Decode(key).y < d.p
  {
  }

  lemma PublicKeyIs(d: Domain, key: Bytes)
    requires Sized(d) && CurveFacts(d) && PrivateOk(d, key)
    ensures PublicKey(d, key) == Encode(Product(d, key, G(d)))
  {
  }

  lemma AgreeIs(d: Domain, key: Bytes, peer: Bytes)
    requires CurveFacts(d) && PrivateOk(d, key) && PublicOk(d, peer)
    ensures Agree(d, key, peer) == ToBe(Product(d, key, Decode(peer)).x, 32)
  {
  }

  /** The checks on a point that both the agreement and the verifier start with. */
  method ReadPoint(d: Domain, p: Nat, key: Bytes) returns (ok: bool, x: Nat, y: Nat)
    requires Sized(d) && Holding(p, d.p) && |key| == 65
    ensures ok <==> PublicOk(d, key)
    ensures ok ==> Elem(x, Decode(key).x, d.p) && Elem(y, Decode(key).y, d.p)
  {
    hide *;
    SizedIs(d);
    PublicOkIs(d, key);
    ghost var q := Decode(key);
    x := Read(key[1..33]);
    y := Read(key[33..65]);
    var b := Load(d.b);
    HoldingIs(p, d.p);
    HoldingIs(x, q.x);
    HoldingIs(y, q.y);
    HoldingIs(b, d.b);
    var inX := Below(x, p, q.x, d.p);
    var inY := Below(y, p, q.y, d.p);
    ok := key[0] == 4 && inX && inY;
    if ok {
      ok := SatisfiesCurve(x, y, b, p, q, d.b, d.p);
    }
  }

  method PublicFromPrivate(d: Domain, key: Bytes) returns (r: Result<Bytes>)
    requires Sized(d) && |key| == 32
    ensures CurveFacts(d) ==> r == if PrivateOk(d, key) then Ok(PublicKey(d, key)) else Err(VERIFY)
  {
    hide *;
    SizedIs(d);
    KeyFacts(d, key);
    var p := Load(d.p);
    var n := Load(d.n);
    var x := Load(d.x);
    var y := Load(d.y);
    var k := Read(key);
    HoldingIs(p, d.p);
    HoldingIs(x, d.x);
    HoldingIs(y, d.y);
    HoldingIs(k, Be(key));
    var ok := ValidPrivate(k, n, Be(key), d.n);
    if !ok { return Err(VERIFY); }
    var q := Scalar(k, x, y, p, d.x, d.y, d.p);
    ghost var j := ScalarJ(Be(key), d.x, d.y, d.p);
    r := PrintPoint(q, p, j, d.p);
    if CurveFacts(d) {
      ScalarIsProduct(d, key, G(d), j);
      PublicKeyIs(d, key);
    }
  }

  /** The affine form of a point, printed. */
  method PrintPoint(a: JP, p: Nat, ghost j: Jac, ghost m: int) returns (r: Result<Bytes>)
    requires 2 < m && Modulus(p, m) && Holds(a, j, m)
    ensures r == match ToAffine(j, m) case Zero => Err(VERIFY) case At(x, y) => Ok(Encode(At(x, y)))
  {
    var ok, x, y := AffineXY(a, p, j, m);
    if !ok { return Err(VERIFY); }
    var sx := Print(x, ToAffine(j, m).x, m);
    var sy := Print(y, ToAffine(j, m).y, m);
    r := Ok([4] + sx + sy);
  }

  /** What the scalar multiplication computes, in affine coordinates. */
  lemma {:induction false} ScalarIsProduct(d: Domain, key: Bytes, q: Affine, j: Jac)
    requires CurveFacts(d) && PrivateOk(d, key) && q.At? && OnCurve(q, d.b, d.p)
    requires j == ScalarJ(Be(key), q.x, q.y, d.p)
    ensures ToAffine(j, d.p) == Product(d, key, q)
  {
    ScalarCorrect(Be(key), q, d.b, d.p);
    ToAffineCorrect(j, Times(Be(key), q, d.p), d.p);
  }

  method SharedSecret(d: Domain, key: Bytes, peer: Bytes) returns (r: Result<Bytes>)
    requires Sized(d) && |key| == 32 && |peer| == 65
    ensures CurveFacts(d) ==>
      r == if PrivateOk(d, key) && PublicOk(d, peer) then Ok(Agree(d, key, peer)) else Err(VERIFY)
  {
    hide *;
    SizedIs(d);
    KeyFacts(d, key);
    var p := Load(d.p);
    var n := Load(d.n);
    var k := Read(key);
    HoldingIs(p, d.p);
    HoldingIs(k, Be(key));
    var ok := ValidPrivate(k, n, Be(key), d.n);
    if !ok { return Err(VERIFY); }
    var x, y;
    ok, x, y := ReadPoint(d, p, peer);
    if !ok { return Err(VERIFY); }
    PublicIs(d, peer);
    ghost var q := Decode(peer);
    var a := Scalar(k, x, y, p, q.x, q.y, d.p);
    ghost var j := ScalarJ(Be(key), q.x, q.y, d.p);
    r := PrintX(a, p, j, d.p);
    if CurveFacts(d) {
      ScalarIsProduct(d, key, q, j);
      AgreeIs(d, key, peer);
    }
  }

  method PrintX(a: JP, p: Nat, ghost j: Jac, ghost m: int) returns (r: Result<Bytes>)
    requires 2 < m && Modulus(p, m) && Holds(a, j, m)
    ensures r == match ToAffine(j, m) case Zero => Err(VERIFY) case At(x, _) => Ok(ToBe(x, 32))
  {
    var ok, x, y := AffineXY(a, p, j, m);
    if !ok { return Err(VERIFY); }
    var sx := Print(x, ToAffine(j, m).x, m);
    r := Ok(sx);
  }

  /** Both parties of a key agreement compute the same result, and a public key they can use. */
  lemma AgreementIsSymmetric(d: Domain, a: Bytes, b: Bytes)
    requires Sized(d) && CurveFacts(d) && PrivateOk(d, a) && PrivateOk(d, b)
    ensures PublicOk(d, PublicKey(d, a)) && PublicOk(d, PublicKey(d, b))
    ensures Agree(d, a, PublicKey(d, b)) == Agree(d, b, PublicKey(d, a))
  {
    PublicDecodes(d, a);
    PublicDecodes(d, b);
    TimesTimes(Be(a), Be(b), G(d), d.b, d.p);
    TimesTimes(Be(b), Be(a), G(d), d.b, d.p);
    assert Be(a) * Be(b) == Be(b) * Be(a);
  }

  lemma {:induction false} PublicDecodes(d: Domain, a: Bytes)
    requires Sized(d) && CurveFacts(d) && PrivateOk(d, a)
    ensures PublicOk(d, PublicKey(d, a)) && Decode(PublicKey(d, a)) == Times(Be(a), G(d), d.p)
  {
    var q := Product(d, a, G(d));
    BeOfToBe(q.x, 32);
    BeOfToBe(q.y, 32);
    var key := PublicKey(d, a);
    assert key[1..33] == ToBe(q.x, 32) && key[33..65] == ToBe(q.y, 32);
  }

  // ---- ECDSA ----

  datatype Tlv = Tlv(tag: Byte, value: Bytes, next: nat)

  /** One tag-length-value element with a length of at most two octets. */
  function ReadTlv(s: Bytes, off: nat): (r: Option<Tlv>)
    ensures r.Some? ==> off < r.value.next <= |s| && |r.value.value| <= |s|
  {
    if off + 1 >= |s| then None
    else
      var lb := s[off + 1];
      var n := if lb < 128 then 0 else lb - 128;
      if lb == 128 || n > 2 || off + 2 + n > |s| then None
      else
        var len := if lb < 128 then lb as int else Be(s[off + 2..off + 2 + n]);
        var p := off + 2 + n;
        if len > |s| - p then None else Some(Tlv(s[off], s[p..p + len], p + len))
  }

  /** An integer with one leading zero octet dropped, at most 32 octets long. */
  function Magnitude(v: Bytes): Option<nat>
  {
    var u := if |v| > 1 && v[0] == 0 then v[1..] else v;
    if 1 <= |u| <= 32 then Some(Be(u)) else None
  }

  function ParseSig(der: Bytes): Option<(nat, nat)>
  {
    var seq0 := ReadTlv(der, 0);
    if seq0.None? || seq0.value.tag != 0x30 || seq0.value.next != |der| then None
    else
      var body := seq0.value.value;
      var a := ReadTlv(body, 0);
      if a.None? || a.value.tag != 2 then None
      else
        var b := ReadTlv(body, a.value.next);
        if b.None? || b.value.tag != 2 || b.value.next != |body| then None
        else
          var r, s := Magnitude(a.value.value), Magnitude(b.value.value);
          if r.None? || s.None? then None else Some((r.value, s.value))
  }

  ghost predicate InverseOf(w: int, s: int, n: int)
    requires 0 < n
  {
    0 < w < n && (w * s) % n == 1
  }

  /** Steps 5 to 8 of section 4.1.4 of SEC 1 for an inverse `w` of `s`. */
  ghost predicate PointMatches(d: Domain, q: Affine, e: nat, r: nat, w: int)
    requires 2 < d.p && 0 < d.n
  {
    var u1, u2 := (e * w) % d.n, (r * w) % d.n;
    var sum := AddAffine(Times(u1, G(d), d.p), Times(u2, q, d.p), d.p);
    sum.At? && sum.x % d.n == r
  }

  /** Section 4.1.4 of SEC 1 for a digest of 256 bits. */
  ghost predicate EcdsaValid(d: Domain, pub: Bytes, digest: Bytes, sig: Bytes)
    requires Sized(d)
  {
    && PublicOk(d, pub)
    && ParseSig(sig).Some?
    && var (r, s) := ParseSig(sig).value;
       && 0 < r < d.n && 0 < s < d.n
       && exists w :: InverseOf(w, s, d.n) && PointMatches(d, Decode(pub), Be(digest), r, w)
  }

  method VerifyEcdsa(d: Domain, pub: Bytes, digest: Bytes, sig: Bytes) returns (e: Error)
    requires Sized(d) && |digest| == 32
    ensures e == OK || e == VERIFY
    ensures CurveFacts(d) && FieldPrime(d.n) ==> (e == OK <==> EcdsaValid(d, pub, digest, sig))
  {
    hide Elem;
    hide Holding;
    hide Modulus;
    hide CurveFacts;
    hide FieldPrime;
    hide PointMatches;
    if |pub| != 65 { return VERIFY; }
    var p := Load(d.p);
    var ok, x, y := ReadPoint(d, p, pub);
    if !ok { return VERIFY; }
    var parsed := ParseSig(sig);
    if parsed.None? { return VERIFY; }
    var (r, s) := parsed.value;
    if r == 0 || s == 0 || r >= d.n || s >= d.n { return VERIFY; }
    ok := MatchPoint(d, p, x, y, Decode(pub), digest, r, s);
    e := if ok then OK else VERIFY;
    if CurveFacts(d) && FieldPrime(d.n) { AnyInverse(d, Decode(pub), Be(digest), r, s); }
  }

  /** Every inverse of s is the one the code computes. */
  lemma AnyInverse(d: Domain, q: Affine, e: nat, r: nat, s: nat)
    requires 2 < d.p && FieldPrime(d.n) && 0 < s < d.n
    ensures (exists w :: InverseOf(w, s, d.n) && PointMatches(d, q, e, r, w)) <==> PointMatches(d, q, e, r, Inverse(s, d.n))
  {
    var i := Inverse(s, d.n);
    InverseIsOne(s, d.n);
    forall w | InverseOf(w, s, d.n)
      ensures w == i
    {
      OnlyInverse(w, i, s, d.n);
    }
  }

  /** The computation of the verifier from the digest on. */
  method MatchPoint(d: Domain, p: Nat, x: Nat, y: Nat, ghost q: Affine, digest: Bytes, r: nat, s: nat) returns (ok: bool)
    requires Sized(d) && Holding(p, d.p) && q.At? && Elem(x, q.x, d.p) && Elem(y, q.y, d.p) && OnCurve(q, d.b, d.p)
    requires |digest| == 32 && 0 < r < d.n && 0 < s < d.n
    ensures CurveFacts(d) && FieldPrime(d.n) ==> (ok <==> PointMatches(d, q, Be(digest), r, Inverse(s, d.n)))
  {
    hide *;
    SizedIs(d);
    var n := Load(d.n);
    ghost var w;
    var k1, k2;
    k1, k2, w := Multipliers(n, digest, r, s, d.n);
    ghost var u1, u2 := MulM(Be(digest), w, d.n), MulM(r, w, d.n);
    var gx := Load(d.x);
    var gy := Load(d.y);
    HoldingIs(p, d.p);
    HoldingIs(gx, d.x);
    HoldingIs(gy, d.y);
    ElemIs(k1, u1, d.n);
    ElemIs(k2, u2, d.n);
    var a := Scalar(k1, gx, gy, p, d.x, d.y, d.p);
    var b := Scalar(k2, x, y, p, q.x, q.y, d.p);
    ghost var j, k := ScalarJ(u1, d.x, d.y, d.p), ScalarJ(u2, q.x, q.y, d.p);
    var sum := AddPoints(a, b, p, j, k, d.p);
    ok := Abscissa(sum, p, n, r, AddJ(j, k, d.p), d.p, d.n);
    if CurveFacts(d) && FieldPrime(d.n) {
      SumRepresents(d, j, k, u1, u2, q);
      MatchesIs(d, q, Be(digest), r, w, u1, u2);
    }
  }

  lemma ElemIs(a: Nat, v: int, m: int)
    requires Elem(a, v, m)
    ensures 0 <= v && a.Canon() && a.Value() == v
  {
  }

  lemma {:induction false} MatchesIs(d: Domain, q: Affine, e: nat, r: nat, w: int, u1: nat, u2: nat)
    requires 2 < d.p && 0 < d.n && u1 == MulM(e, w, d.n) && u2 == MulM(r, w, d.n)
    ensures var sum := AddAffine(Times(u1, G(d), d.p), Times(u2, q, d.p), d.p);
      PointMatches(d, q, e, r, w) <==> sum.At? && sum.x % d.n == r
  {
  }

  /** u1 and u2 of section 4.1.4 of SEC 1, with the inverse of s they come from. */
  method Multipliers(n: Nat, digest: Bytes, r: nat, s: nat, ghost m: int) returns (u1: Nat, u2: Nat, ghost w: int)
    requires Holding(n, m) && |digest| == 32 && Pow2(256) <= 2 * m && 2 < m < Pow2(256) && 0 < r < m && 0 < s < m
    ensures w == Inverse(s, m) && Elem(u1, MulM(Be(digest), w, m), m) && Elem(u2, MulM(r, w, m), m)
  {
    hide *;
    HoldingIs(n, m);
    var z := ReduceOnce(n, digest, m);
    ghost var v := if Be(digest) >= m then Be(digest) - m else Be(digest);
    var sn := Load(s);
    HoldingIs(sn, s);
    var inverse := Invert(sn, n, s, m);
    w := Inverse(s, m);
    var rn := Load(r);
    HoldingIs(rn, r);
    u1 := Mul(z, inverse, n, v, w, m);
    u2 := Mul(rn, inverse, n, r, w, m);
    ReducedDigest(Be(digest), v, w, m);
  }

  /** The digest as a number, the order subtracted once if it is not below. */
  method ReduceOnce(n: Nat, digest: Bytes, ghost m: int) returns (z: Nat)
    requires Holding(n, m) && |digest| == 32 && Pow2(256) <= 2 * m
    ensures Elem(z, if Be(digest) >= m then Be(digest) - m else Be(digest), m)
  {
    BeBound(digest);
    z := Read(digest);
    var below := Below(z, n, Be(digest), m);
    if !below {
      SubInPlace(z, n);
    }
  }

  /** Is the abscissa of the point, modulo the order, the number r? */
  method Abscissa(a: JP, p: Nat, n: Nat, r: nat, ghost j: Jac, ghost m: int, ghost order: int) returns (ok: bool)
    requires 2 < m && Modulus(p, m) && Holds(a, j, m) && Holding(n, order) && 0 < order && r < Pow2(256)
    ensures ok <==> ToAffine(j, m).At? && ToAffine(j, m).x % order == r
  {
    var found, x, y := AffineXY(a, p, j, m);
    if !found { return false; }
    ReduceByOrder(x, n, ToAffine(j, m).x, order);
    var wanted := Load(r);
    var c := Cmp(x, wanted);
    ok := c == 0;
  }

  method ReduceByOrder(x: Nat, n: Nat, ghost v: int, ghost order: int)
    requires x != n && x.w != n.w && x.Canon() && n.Canon() && x.Value() == v && n.Value() == order && 0 < order
    modifies x`n, x.w
    ensures x.Canon() && x.Value() == v % order
  {
    var c := Cmp(x, n);
    while c >= 0
      invariant x.Canon() && n.Canon() && n.Value() == order && x.Value() % order == v % order
      invariant c == if x.Value() < order then -1 else if x.Value() == order then 0 else 1
      decreases x.Value()
    {
      ModShift(x.Value(), -1, order);
      SubInPlace(x, n);
      c := Cmp(x, n);
    }
    SmallMod(x.Value(), order);
  }

  lemma {:induction false} SumRepresents(d: Domain, a: Jac, b: Jac, u1: nat, u2: nat, q: Affine)
    requires Sized(d) && CurveFacts(d) && q.At? && OnCurve(q, d.b, d.p)
    requires a == ScalarJ(u1, d.x, d.y, d.p) && b == ScalarJ(u2, q.x, q.y, d.p)
    ensures var sum := AddAffine(Times(u1, G(d), d.p), Times(u2, q, d.p), d.p);
      Represents(AddJ(a, b, d.p), sum, d.p) && ToAffine(AddJ(a, b, d.p), d.p) == sum
  {
    var s, t := Times(u1, G(d), d.p), Times(u2, q, d.p);
    ScalarCorrect(u1, G(d), d.b, d.p);
    ScalarCorrect(u2, q, d.b, d.p);
    TimesOnCurve(u1, G(d), d.b, d.p);
    TimesOnCurve(u2, q, d.b, d.p);
    AddJCorrect(a, b, s, t, d.b, d.p);
    ToAffineCorrect(AddJ(a, b, d.p), AddAffine(s, t, d.p), d.p);
  }

  /** Subtracting the order once from the digest does not change u1. */
  lemma ReducedDigest(z0: nat, z: nat, w: int, n: int)
    requires 0 < n && z == if z0 >= n then z0 - n else z0
    ensures MulM(z, w, n) == MulM(z0, w, n)
  {
    if z0 >= n {
      ModShift(z * w, w, n);
      assert z0 * w == z * w + w * n;
    }
  }

  lemma InverseIsOne(s: int, n: int)
    requires FieldPrime(n) && 0 < s < n
    ensures InverseOf(Inverse(s, n), s, n)
  {
    var i := Inverse(s, n);
    assert MulM(i, s, n) == 1;
    if i == 0 { SmallMod(0, n); }
  }

  lemma OnlyInverse(w: int, i: int, s: int, n: int)
    requires FieldPrime(n) && 0 < s < n && InverseOf(w, s, n) && InverseOf(i, s, n)
    ensures w == i
  {
    assert w * s == s * w && i * s == s * i;
    SmallMod(s, n);
    CancelEq(s, w, i, n);
    SmallMod(w, n);
    SmallMod(i, n);
  }
}
