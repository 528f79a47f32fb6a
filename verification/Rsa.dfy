/** RSA signature verification: key parsing, the public operation, PSS and PKCS #1 v1.5 checks. */
module Rsa {
  import opened Bits
  import opened ModArith
  import opened Types
  import opened Words
  import opened Bignum
  import Der
  import opened Sha256

  // ---- the public operation ----

  /** Modulus octets and exponent, or the error of the failing step. */
  function ParseKey(der: Bytes): Result<(Bytes, nat)>
  {
    var seq0 := Der.Tlv(der, 0);
    if seq0.None? || seq0.value.tag != 0x30 || seq0.value.next != |der| then Err(BAD_HANDSHAKE)
    else
      var body := seq0.value.value;
      var n := Der.Tlv(body, 0);
      if n.None? || n.value.tag != 2 then Err(BAD_HANDSHAKE)
      else
        var x := Der.Tlv(body, n.value.next);
        if x.None? || x.value.tag != 2 || x.value.next != |body| then Err(BAD_HANDSHAKE)
        else
          var nv := n.value.value;
          var mod := if |nv| > 1 && nv[0] == 0 then nv[1..] else nv;
          if mod == [] || |mod| > 512 then Err(UNSUPPORTED)
          else if x.value.value == [] || |x.value.value| > 4 then Err(UNSUPPORTED)
          else
            var e := Be(x.value.value);
            if e < 3 || e % 2 == 0 then Err(VERIFY) else Ok((mod, e))
  }

  function BitLength(v: nat): nat
  {
    if v == 0 then 0 else 1 + BitLength(v / 2)
  }

  lemma {:induction false} BitLengthIs(v: nat, b: nat)
    requires v < Pow2(b) && (b > 0 ==> Pow2(b - 1) <= v)
    ensures BitLength(v) == b
    decreases b
  {
    if b > 1 {
      BitLengthIs(v / 2, b - 1);
    } else if b == 1 {
      assert v == 1 && BitLength(0) == 0 && v / 2 == 0;
    }
  }

  /** RSAVP1 of section 5.2.2 of RFC 8017, written out over the modulus length. */
  function Recovered(mod: Bytes, e: nat, sig: Bytes): Option<Bytes>
  {
    var m, s := Be(mod), Be(sig);
    if |sig| != |mod| || m == 0 || s >= m then None else Some(ToBe(Power(s, e) % m, |mod|))
  }

  /** The public operation on a parsed key: the recovered block and the modulus bit length. */
  method RsaPublic(mod: Bytes, x: nat, sig: Bytes) returns (ok: bool, em: Bytes, bits: nat)
    requires 1 <= |mod| <= 512 && 0 < x < B
    ensures ok <==> Recovered(mod, x, sig).Some?
    ensures ok ==> em == Recovered(mod, x, sig).value && bits == BitLength(Be(mod)) > 0
  {
    em, bits := [], 0;
    if |sig| != |mod| { return false, em, bits; }
    var m := FromBe(mod, 129);
    var s := FromBe(sig, 129);
    NumOfZero(m.w[..m.n]);
    var c := Cmp(s, m);
    if m.n == 0 || c >= 0 { return false, em, bits; }
    var r := PowU32Mod(s, x, m);
    var out := new Byte[|mod|](_ => 0);
    ToBeFixed(r, out);
    bits := NBits(m);
    BitLengthIs(m.Value(), bits);
    em := out[..];
    ok := true;
  }

  lemma ExponentBound(key: Bytes)
    requires ParseKey(key).Ok?
    ensures var (mod, e) := ParseKey(key).value; 3 <= e < B && 1 <= |mod| <= 512
  {
    var body := Der.Tlv(key, 0).value.value;
    var x := Der.Tlv(body, Der.Tlv(body, 0).value.next).value.value;
    BeBound(x);
    Powers();
    assert |x| == 1 || |x| == 2 || |x| == 3 || |x| == 4;
  }

  // ---- PKCS #1 v1.5 ----

  const DIGEST_INFO: Bytes := [0x30, 0x31, 0x30, 0x0d, 0x06, 0x09, 0x60, 0x86, 0x48, 0x01,
                               0x65, 0x03, 0x04, 0x02, 0x01, 0x05, 0x00, 0x04, 0x20]

  /** EMSA-PKCS1-v1_5 of section 9.2 of RFC 8017 for SHA-256. */
  function Pkcs1Encoding(digest: Digest, n: nat): Bytes
    requires n >= 62
  {
    [0, 1] + seq(n - 54, _ => 0xff) + [0] + DIGEST_INFO + digest
  }

  /** Scans the block from the left, as the code does. */
  method CheckPkcs1(em: Bytes, digest: Digest) returns (ok: bool)
    ensures ok <==> |em| >= 62 && em == Pkcs1Encoding(digest, |em|)
  {
    var n := |em|;
    var tail := |DIGEST_INFO| + 32;
    if n < 3 + 8 + tail { return false; }
    ghost var want := Pkcs1Encoding(digest, n);
    assert want[0] == 0 && want[1] == 1;
    if em[0] != 0 || em[1] != 1 { return false; }
    var p := 2;
    while p < n && em[p] == 0xff
      invariant 2 <= p <= n && forall i :: 2 <= i < p ==> em[i] == 0xff
    {
      p := p + 1;
    }
    Separator(em, digest, p);
    if p < 10 || p >= n { return false; }
    if em[p] != 0 { return false; }
    p := p + 1;
    if n - p != tail { return false; }
    assert em == em[..p] + em[p..p + 19] + em[p + 19..];
    ok := em[p..p + 19] == DIGEST_INFO && em[p + 19..] == digest;
    assert em[..p] == [0, 1] + seq(n - 54, _ => 0xff) + [0];
    assert want[..p] == em[..p] && want[p..p + 19] == DIGEST_INFO && want[p + 19..] == digest;
  }

  /** In an encoding the run of 0xff octets ends at a zero, 51 octets from the end. */
  lemma Separator(em: Bytes, digest: Digest, p: nat)
    requires |em| >= 62 && 2 <= p <= |em| && em[0] == 0 && em[1] == 1
    requires forall i :: 2 <= i < p ==> em[i] == 0xff
    requires p < |em| ==> em[p] != 0xff
    ensures em == Pkcs1Encoding(digest, |em|) ==> p == |em| - 52 && em[p] == 0
  {
    var n := |em|;
    if em == Pkcs1Encoding(digest, n) {
      assert em[n - 52] == 0;
      assert forall i :: 2 <= i < n - 52 ==> em[i] == 0xff;
    }
  }

  /** The recovered block is the PKCS #1 encoding of the message's hash. */
  predicate Pkcs1Valid(f: Compression, mod: Bytes, x: nat, msg: Bytes, sig: Bytes)
  {
    |mod| >= 62 && Recovered(mod, x, sig) == Some(Pkcs1Encoding(Hash(f, msg), |mod|))
  }

  method VerifyPkcs1(f: Compression, key: Bytes, msg: Bytes, sig: Bytes) returns (e: Error)
    ensures e == match ParseKey(key)
      case Err(err) => err
      case Ok((mod, x)) => if Pkcs1Valid(f, mod, x, msg, sig) then OK else VERIFY
  {
    var k := ParseKey(key);
    if k.Err? { return k.error; }
    ExponentBound(key);
    var (mod, x) := k.value;
    var ok := VerifyPkcs1With(f, mod, x, msg, sig);
    e := if ok then OK else VERIFY;
  }

  method VerifyPkcs1With(f: Compression, mod: Bytes, x: nat, msg: Bytes, sig: Bytes) returns (ok: bool)
    requires 1 <= |mod| <= 512 && 0 < x < B
    ensures ok <==> Pkcs1Valid(f, mod, x, msg, sig)
  {
    var recovered, em, bits := RsaPublic(mod, x, sig);
    if !recovered { return false; }
    var d := HashOf(f, msg);
    ok := CheckPkcs1(em, d);
  }

  method HashOf(f: Compression, s: Bytes) returns (d: Digest)
    ensures d == Hash(f, s)
  {
    var h := new Hasher(f);
    h.Update(s);
    assert h.data == s;
    d := h.Final();
  }

  // ---- PSS ----

  /** The concatenation of the first `k` hash blocks of the mask generation function. */
  function MaskBlocks(f: Compression, seed: Bytes, k: nat): (m: Bytes)
    ensures |m| == 32 * k
  {
    if k == 0 then [] else MaskBlocks(f, seed, k - 1) + Hash(f, seed + ToBe(k - 1, 4))
  }

  /** MGF1 of appendix B.2.1 of RFC 8017. */
  function Mgf1(f: Compression, seed: Bytes, n: nat): (m: Bytes)
    ensures |m| == n
  {
    MaskBlocks(f, seed, (n + 31) / 32)[..n]
  }

  method GenerateMask(f: Compression, seed: Digest, n: nat) returns (out: Bytes)
    requires n <= 512
    ensures out == Mgf1(f, seed, n)
  {
    hide Hash;
    hide MaskBlocks;
    hide Mgf1;
    NoMask(f, seed);
    var c: u32 := 0;
    out := [];
    while |out| < n
      invariant |out| <= n && (|out| < n ==> |out| == 32 * c && out == MaskBlocks(f, seed, c))
      invariant |out| == n ==> out == Mgf1(f, seed, n)
      decreases n - |out|
    {
      var d := MaskBlock(f, seed, c);
      var take := if n - |out| < 32 then n - |out| else 32;
      LastMaskBlock(f, seed, c, d, n);
      out := out + d[..take];
      c := c + 1;
    }
  }

  lemma {:induction false} NoMask(f: Compression, seed: Bytes)
    ensures MaskBlocks(f, seed, 0) == Mgf1(f, seed, 0) == []
  {
  }

  lemma {:induction false} LastMaskBlock(f: Compression, seed: Bytes, c: nat, d: Bytes, n: nat)
    requires 32 * c < n && d == Hash(f, seed + ToBe(c, 4))
    ensures n <= 32 * (c + 1) ==> Mgf1(f, seed, n) == MaskBlocks(f, seed, c) + d[..n - 32 * c]
    ensures MaskBlocks(f, seed, c + 1) == MaskBlocks(f, seed, c) + d
  {
    if n <= 32 * (c + 1) {
      assert (n + 31) / 32 == c + 1;
      assert (MaskBlocks(f, seed, c) + d)[..n] == MaskBlocks(f, seed, c) + d[..n - 32 * c];
    }
  }

  method MaskBlock(f: Compression, seed: Digest, c: u32) returns (d: Digest)
    ensures d == Hash(f, seed + ToBe(c, 4))
  {
    var h := new Hasher(f);
    h.Update(seed);
    h.Update(ToBe(c, 4));
    assert h.data == seed + ToBe(c, 4);
    d := h.Final();
  }

  function XorAll(x: Bytes, mask: Bytes): (r: Bytes)
    requires |x| == |mask|
    ensures |r| == |x|
  {
    seq(|x|, i requires 0 <= i < |x| => XorByte(x[i], mask[i]))
  }

  function ClearTop(x: Bytes, u: nat): (r: Bytes)
    requires u <= 8
    ensures |r| == |x|
  {
    if x == [] then [] else x[0 := KeepLow(x[0], 8 - u)]
  }

  /** Masks an octet string and clears the `u` leftmost bits. */
  function XorMask(x: Bytes, mask: Bytes, u: nat): (r: Bytes)
    requires |x| == |mask| && u <= 8
    ensures |r| == |x|
  {
    ClearTop(XorAll(x, mask), u)
  }

  /** Octet strings whose `u` leftmost bits are clear are restored by masking twice. */
  lemma {:induction false} XorMaskTwice(x: Bytes, mask: Bytes, u: nat)
    requires |x| == |mask| && u <= 8 && (x != [] ==> x[0] < Pow2(8 - u))
    ensures XorMask(XorMask(x, mask, u), mask, u) == x
  {
    var y := XorMask(x, mask, u);
    forall i | 0 <= i < |x|
      ensures XorMask(y, mask, u)[i] == x[i]
    {
      XorTwice(x[i], mask[i]);
      if i == 0 { FirstByte(x[0], mask[0], 8 - u); }
    }
  }

  lemma {:induction false} FirstByte(x: Byte, m: Byte, k: nat)
    requires x < Pow2(k)
    ensures KeepLow(XorByte(KeepLow(XorByte(x, m), k), m), k) == x
  {
    var y := Xor(x, m);
    XorLow(y % Pow2(k), m, k);
    XorLow(y, m, k);
    ModMod(y, Pow2(k));
    XorTwice(x, m);
    SmallMod(x, Pow2(k));
  }

  /** M' of section 9.1.1: eight zero octets, the message digest and the salt. */
  function SaltedHash(f: Compression, digest: Digest, salt: Bytes): Digest
  {
    Hash(f, Zeros(8) + digest + salt)
  }

  function DataBlock(salt: Bytes, n: nat): Bytes
    requires |salt| == 32 && n >= 33
  {
    Zeros(n - 33) + [1] + salt
  }

  /** EMSA-PSS-ENCODE of section 9.1.1 of RFC 8017, hash and salt of 32 octets. */
  function PssEncoding(f: Compression, digest: Digest, salt: Bytes, emBits: nat): Bytes
    requires |salt| == 32 && (emBits + 7) / 8 >= 66
  {
    var emLen := (emBits + 7) / 8;
    var h := SaltedHash(f, digest, salt);
    var n := emLen - 33;
    XorMask(DataBlock(salt, n), Mgf1(f, h, n), 8 * emLen - emBits) + h + [0xbc]
  }

  /** The block is an encoding for some salt. */
  ghost predicate IsPss(f: Compression, em: Bytes, digest: Digest, emBits: nat)
  {
    |em| == (emBits + 7) / 8 && |em| >= 66 && exists salt :: |salt| == 32 && em == PssEncoding(f, digest, salt, emBits)
  }

  /** The unmasked block has the right shape and its salt reproduces the hash. */
  ghost predicate DataBlockOk(f: Compression, db: Bytes, h: Bytes, digest: Digest)
    requires |db| >= 33
  {
    exists salt :: |salt| == 32 && db == DataBlock(salt, |db|) && h == SaltedHash(f, digest, salt)
  }

  /** The decoder's view: last octet, leading bits, and the unmasked block. */
  ghost predicate Decodes(f: Compression, masked: Bytes, h: Digest, last: Byte, u: nat, digest: Digest)
    requires |masked| >= 33 && u <= 7
  {
    && last == 0xbc && masked[0] < Pow2(8 - u)
    && DataBlockOk(f, XorMask(masked, Mgf1(f, h, |masked|), u), h, digest)
  }

  lemma ThreeParts(a: Bytes, b: Bytes, c: Bytes, x: Bytes, y: Bytes, z: Bytes)
    requires |a| == |x| && |b| == |y| && a + b + c == x + y + z
    ensures a == x && b == y && c == z
  {
    assert a == (a + b + c)[..|a|] && x == (x + y + z)[..|x|];
    assert b == (a + b + c)[|a|..|a| + |b|] && y == (x + y + z)[|a|..|a| + |b|];
    assert c == (a + b + c)[|a| + |b|..] && z == (x + y + z)[|a| + |b|..];
  }

  /** A block is an encoding exactly when the decoder accepts its parts. */
  lemma PssIff(f: Compression, masked: Bytes, h: Digest, last: Byte, digest: Digest, emBits: nat)
    requires |masked| >= 33 && |masked| + 33 == (emBits + 7) / 8
    ensures IsPss(f, masked + h + [last], digest, emBits)
      <==> Decodes(f, masked, h, last, 8 * (|masked| + 33) - emBits, digest)
  {
    var em := masked + h + [last];
    if IsPss(f, em, digest, emBits) {
      var salt :| |salt| == 32 && em == PssEncoding(f, digest, salt, emBits);
      EncodingDecodes(f, masked, h, last, salt, digest, emBits);
    }
    if Decodes(f, masked, h, last, 8 * (|masked| + 33) - emBits, digest) {
      DecodesEncoding(f, masked, h, last, digest, emBits);
    }
  }

  lemma DecodesEncoding(f: Compression, masked: Bytes, h: Digest, last: Byte, digest: Digest, emBits: nat)
    requires |masked| >= 33 && |masked| + 33 == (emBits + 7) / 8
    requires Decodes(f, masked, h, last, 8 * (|masked| + 33) - emBits, digest)
    ensures IsPss(f, masked + h + [last], digest, emBits)
  {
    var n := |masked|;
    var u := 8 * (n + 33) - emBits;
    var db := XorMask(masked, Mgf1(f, h, n), u);
    var salt :| |salt| == 32 && db == DataBlock(salt, n) && h == SaltedHash(f, digest, salt);
    XorMaskTwice(masked, Mgf1(f, h, n), u);
    assert masked + h + [last] == PssEncoding(f, digest, salt, emBits);
  }

  lemma EncodingDecodes(f: Compression, masked: Bytes, h: Digest, last: Byte, salt: Bytes,
                                           digest: Digest, emBits: nat)
    requires |masked| >= 33 && |masked| + 33 == (emBits + 7) / 8 && |salt| == 32
    requires masked + h + [last] == PssEncoding(f, digest, salt, emBits)
    ensures Decodes(f, masked, h, last, 8 * (|masked| + 33) - emBits, digest)
  {
    var n := |masked|;
    var u := 8 * (n + 33) - emBits;
    var k := SaltedHash(f, digest, salt);
    var db := DataBlock(salt, n);
    ThreeParts(masked, h, [last], XorMask(db, Mgf1(f, k, n), u), k, [0xbc]);
    Pow2Room(8 - u);
    XorMaskTwice(db, Mgf1(f, k, n), u);
  }

  lemma {:induction false} Pow2Room(k: nat)
    requires 1 <= k
    ensures Pow2(k) >= 2
  {
  }

  method CheckPss(f: Compression, em: Bytes, modBits: nat, msg: Bytes) returns (ok: bool)
    requires 0 < modBits && |em| <= 512
    ensures ok <==> IsPss(f, em, Hash(f, msg), modBits - 1)
  {
    var emBits := modBits - 1;
    var want := (emBits + 7) / 8;
    if |em| != want || |em| < 66 { return false; }
    var n := |em| - 33;
    SplitBlock(em);
    PssIff(f, em[..n], em[n..n + 32], em[n + 32], Hash(f, msg), emBits);
    if em[|em| - 1] != 0xbc { return false; }
    ok := CheckParts(f, em[..n], em[n..n + 32], 8 * |em| - emBits, msg);
  }

  lemma SplitBlock(em: Bytes)
    requires |em| >= 33
    ensures var n := |em| - 33; em == em[..n] + em[n..n + 32] + [em[n + 32]]
  {
  }

  method CheckParts(f: Compression, masked: Bytes, h: Digest, unused: nat, msg: Bytes) returns (ok: bool)
    requires 33 <= |masked| <= 512 && unused <= 7
    ensures ok <==> Decodes(f, masked, h, 0xbc, unused, Hash(f, msg))
  {
    var mask := GenerateMask(f, h, |masked|);
    var clear := TopBitsClear(masked[0], unused);
    if !clear { return false; }
    var db := Unmask(masked, mask, unused);
    ok := CheckDataBlock(f, db, h, msg);
  }

  method TopBitsClear(x: Byte, unused: nat) returns (clear: bool)
    requires unused <= 7
    ensures clear <==> x < Pow2(8 - unused)
  {
    assert Pow2(8) == 256;
    clear := true;
    if unused > 0 {
      var keep := Pow2(8 - unused) - 1;
      Pow2Add(8 - unused, unused);
      MulMono(Pow2(8 - unused), 1, Pow2(unused));
      HighBits(x, 8 - unused, 255 - keep);
      clear := And(255 - keep, x) == 0;
    }
  }

  method CheckDataBlock(f: Compression, db: Bytes, h: Digest, msg: Bytes) returns (ok: bool)
    requires |db| >= 33
    ensures ok <==> DataBlockOk(f, db, h, Hash(f, msg))
  {
    var ps := |db| - 33;
    assert forall salt :: |salt| == 32 && db == DataBlock(salt, |db|) ==> salt == db[ps + 1..];
    for i := 0 to ps
      invariant forall j :: 0 <= j < i ==> db[j] == 0
    {
      if db[i] != 0 { return false; }
    }
    if db[ps] != 1 { return false; }
    assert db == DataBlock(db[ps + 1..], |db|);
    var digest := HashOf(f, msg);
    var hp := SaltHash(f, digest, db[ps + 1..]);
    ok := hp == h;
  }

  method SaltHash(f: Compression, digest: Digest, salt: Bytes) returns (d: Digest)
    ensures d == SaltedHash(f, digest, salt)
  {
    var hh := new Hasher(f);
    hh.Update(Zeros(8));
    hh.Update(digest);
    hh.Update(salt);
    assert hh.data == Zeros(8) + digest + salt;
    d := hh.Final();
  }

  method Unmask(em: Bytes, mask: Bytes, u: nat) returns (db: Bytes)
    requires |mask| == |em| > 0 && u < 8
    ensures db == XorMask(em, mask, u)
  {
    db := [];
    for i := 0 to |mask|
      invariant |db| == i && forall j :: 0 <= j < i ==> db[j] == XorByte(em[j], mask[j])
    {
      db := db + [XorByte(em[i], mask[i])];
    }
    assert db == XorAll(em, mask);
    KeepIs(db[0], u);
    if u > 0 {
      db := db[0 := And(Pow2(8 - u) - 1, db[0])];
    }
  }

  lemma KeepIs(x: Byte, u: nat)
    requires u < 8
    ensures And(Pow2(8 - u) - 1, x) == KeepLow(x, 8 - u) && (u == 0 ==> KeepLow(x, 8) == x)
  {
    AndLow(8 - u, x);
    assert Pow2(8) == 256;
    SmallMod(x, 256);
  }

  /** The recovered block of a well-formed key and signature is a PSS encoding of the message's hash. */
  ghost predicate PssValid(f: Compression, mod: Bytes, x: nat, msg: Bytes, sig: Bytes)
  {
    var block := Recovered(mod, x, sig);
    block.Some? && IsPss(f, block.value, Hash(f, msg), BitLength(Be(mod)) - 1)
  }

  method VerifyPss(f: Compression, key: Bytes, msg: Bytes, sig: Bytes) returns (e: Error)
    ensures e == match ParseKey(key)
      case Err(err) => err
      case Ok((mod, x)) => if PssValid(f, mod, x, msg, sig) then OK else VERIFY
  {
    var k := ParseKey(key);
    if k.Err? { return k.error; }
    ExponentBound(key);
    var (mod, x) := k.value;
    var ok := VerifyPssWith(f, mod, x, msg, sig);
    e := if ok then OK else VERIFY;
  }

  method VerifyPssWith(f: Compression, mod: Bytes, x: nat, msg: Bytes, sig: Bytes) returns (ok: bool)
    requires 1 <= |mod| <= 512 && 0 < x < B
    ensures ok <==> PssValid(f, mod, x, msg, sig)
  {
    var recovered, em, bits := RsaPublic(mod, x, sig);
    if !recovered { return false; }
    ok := CheckPss(f, em, bits, msg);
  }

  /** Section 8.1.2 of RFC 8017: the block is written over ceil((modBits - 1) / 8) octets, if it fits. */
  ghost predicate RfcPssValid(f: Compression, mod: Bytes, x: nat, msg: Bytes, sig: Bytes)
  {
    var m, s := Be(mod), Be(sig);
    var emBits := BitLength(m) - 1;
    var emLen := if m == 0 then 0 else (emBits + 7) / 8;
    |sig| == |mod| && 0 < m && s < m && Power(s, x) % m < Pow2(8 * emLen)
      && IsPss(f, ToBe(Power(s, x) % m, emLen), Hash(f, msg), emBits)
  }

  /** The code meets the RFC exactly for moduli whose encoded block is as long as the modulus, that is
      unless the top bit of the modulus stands alone in its first octet; any other key is refused. */
  lemma {:induction false} PssMeetsRfc(f: Compression, mod: Bytes, x: nat, msg: Bytes, sig: Bytes)
    requires 0 < Be(mod)
    ensures PssValid(f, mod, x, msg, sig) <==>
      (RfcPssValid(f, mod, x, msg, sig) && |mod| == (BitLength(Be(mod)) - 1 + 7) / 8)
  {
    var m := Be(mod);
    BeBound(mod);
    if |mod| == (BitLength(m) - 1 + 7) / 8 && |sig| == |mod| && Be(sig) < m {
      assert Power(Be(sig), x) % m < m;
    }
  }

  // ---- for every message, a key the code refuses although RFC 8017 accepts the signature ----

  /** A 529-bit modulus over 67 octets whose encoded blocks have 66. */
  lemma {:induction false} RefusedWhen(f: Compression, mod: Bytes, msg: Bytes, sig: Bytes, em: Bytes)
    requires |mod| == |sig| == 67 && BitLength(Be(mod)) == 529 && Be(sig) < Be(mod)
    requires Power(Be(sig), 3) % Be(mod) == Be(em) && IsPss(f, em, Hash(f, msg), 528)
    ensures RfcPssValid(f, mod, 3, msg, sig) && !PssValid(f, mod, 3, msg, sig)
  {
    BeBound(em);
    ToBeOfBe(em);
    PssMeetsRfc(f, mod, 3, msg, sig);
  }

  /** For every hash, message and salt: modulus q^3 2^516 - EM, exponent 3 and signature q 2^172, with q = 20 or 21. */
  lemma RefusedForEvery(f: Compression, msg: Bytes, salt: Bytes) returns (mod: Bytes, sig: Bytes)
    requires |salt| == 32
    ensures RfcPssValid(f, mod, 3, msg, sig) && !PssValid(f, mod, 3, msg, sig)
  {
    var em := PssEncoding(f, Hash(f, msg), salt, 528);
    assert IsPss(f, em, Hash(f, msg), 528);
    BeBound(em);
    var a: nat, n: nat :| a == 172 && n == 67;
    var m, s := KeyFor(Be(em), a, n);
    BeOfToBe(m, n);
    BeOfToBe(s, n);
    mod, sig := ToBe(m, n), ToBe(s, n);
    RefusedWhen(f, mod, msg, sig, em);
  }

  /** A modulus that leaves the block as the remainder of a cube. */
  lemma KeyFor(e: nat, a: nat, n: nat) returns (m: nat, s: nat)
    requires a == 172 && n == 67 && e < Pow2(3 * a + 12)
    ensures BitLength(m) == 529 && s < m < Pow2(8 * n) && Power(s, 3) % m == e
  {
    hide Pow2;
    hide Power;
    hide BitLength;
    var p, c := Pow2(a), Pow2(3 * a);
    Pow2Add(a, a);
    Pow2Add(2 * a, a);
    Pow2Add(12, 3 * a);
    TwelveBits();
    CubeGrows(p, c);
    var q := CubeAbove(e, c);
    m, s := q * q * q * c - e, q * p;
    ModulusSize(m, 3 * a + 12, n);
    Cubed(q, p, c);
    ModUnique(Power(s, 3), 1, e, m);
  }

  lemma TwelveBits()
    ensures Pow2(12) == 4096
  {
  }

  lemma CubeAbove(e: nat, c: nat) returns (q: nat)
    requires e < 4096 * c
    ensures q == 20 || q == 21
    ensures 4096 * c <= q * q * q * c - e < 8192 * c
  {
    q := if e <= 3904 * c then 20 else 21;
    assert q * q * q == (if q == 20 then 8000 else 9261);
  }

  lemma {:induction false} ModulusSize(m: nat, k: nat, n: nat)
    requires k == 528 && n == 67 && Pow2(k) <= m < 2 * Pow2(k)
    ensures BitLength(m) == 529 && m < Pow2(8 * n)
  {
    BitLengthIs(m, k + 1);
    Pow2Add(8, k);
    Powers();
    assert k + 8 == 8 * n;
  }

  lemma {:induction false} Cubed(q: nat, p: nat, c: nat)
    requires c == p * p * p
    ensures Power(q * p, 3) == q * q * q * c
  {
    var s := q * p;
    assert Power(s, 1) == s;
    assert Power(s, 2) == s * s;
    assert Power(s, 3) == s * s * s;
    Regrouped(q, p);
  }

  lemma Regrouped(q: nat, p: nat)
    ensures q * p * (q * p) * (q * p) == q * q * q * (p * p * p)
  {
  }

  lemma CubeGrows(p: nat, c: nat)
    requires 0 < p && c == p * p * p
    ensures p <= c
  {
    assert p * p >= p;
    assert p * p * p >= p * p;
  }
}
