/** Authenticated encryption: GCM as sections 7.1 and 7.2 of SP 800-38D put it together. */
module Aead {
  import opened Bits
  import opened Types
  import opened Gf128
  import opened Gcm

  /** Writes the `n` first octets of `src xor ks` at `at`. */
  method XorInto(src: Bytes, ks: Bytes, out: array<Byte>, at: nat)
    requires |src| <= |ks| && at + |src| <= out.Length
    modifies out
    ensures forall i :: 0 <= i < |src| ==> out[at + i] == XorByte(src[i], ks[i])
    ensures forall j :: 0 <= j < out.Length && !(at <= j < at + |src|) ==> out[j] == old(out[j])
  {
    for i := 0 to |src|
      invariant forall k :: 0 <= k < i ==> out[at + k] == XorByte(src[k], ks[k])
      invariant forall j :: 0 <= j < out.Length && !(at <= j < at + i) ==> out[j] == old(out[j])
    {
      out[at + i] := XorByte(src[i], ks[i]);
    }
  }

  method CtrCrypt(aes: Cipher, key: Block, j0: Block, input: Bytes, out: array<Byte>, at: nat)
    requires at + |input| <= out.Length
    modifies out
    ensures out[at..at + |input|] == Ctr(aes, key, j0, input)
    ensures forall j :: 0 <= j < out.Length && !(at <= j < at + |input|) ==> out[j] == old(out[j])
  {
    var c := new Byte[16](i requires 0 <= i < 16 => j0[i]);
    assert c[..] == j0;
    CounterZero(j0);
    ghost var ks := Keystream(aes, key, j0, |input|);
    var off := 0;
    ghost var m := 0;
    while off < |input|
      modifies c, out
      invariant off <= |input| && (off < |input| ==> off == 16 * m) && c[..] == Counter(j0, m)
      invariant forall i :: 0 <= i < off ==> out[at + i] == XorByte(input[i], ks[i])
      invariant forall j :: 0 <= j < out.Length && !(at <= j < at + off) ==> out[j] == old(out[j])
    {
      Inc32(c);
      CounterStep(j0, m);
      var block := aes(key, c[..]);
      var n := if |input| - off < 16 then |input| - off else 16;
      ghost var before := out[..];
      XorInto(input[off..off + n], block, out, at + off);
      Extended(input, ks, before, out[..], at, off, n, block, aes, key, j0, m);
      off := off + n;
      m := m + 1;
    }
  }

  /** One block more of the output. */
  lemma Extended(input: Bytes, ks: Bytes, before: Bytes, now: Bytes, at: nat, off: nat, n: nat, block: Block,
                  aes: Cipher, key: Block, j0: Block, m: nat)
    requires ks == Keystream(aes, key, j0, |input|) && block == aes(key, Counter(j0, m + 1))
    requires off == 16 * m && 0 < n <= 16 && off + n <= |input| && at + |input| <= |before| == |now|
    requires forall i :: 0 <= i < off ==> before[at + i] == XorByte(input[i], ks[i])
    requires forall i :: 0 <= i < n ==> now[at + off + i] == XorByte(input[off..off + n][i], block[i])
    requires forall j :: 0 <= j < |now| && !(at + off <= j < at + off + n) ==> now[j] == before[j]
    ensures forall i :: 0 <= i < off + n ==> now[at + i] == XorByte(input[i], ks[i])
  {
    forall i | 0 <= i < off + n
      ensures now[at + i] == XorByte(input[i], ks[i])
    {
      if i >= off {
        var k := i - off;
        assert now[at + off + k] == XorByte(input[off..off + n][k], block[k]);
        assert (16 * m + k) / 16 == m && (16 * m + k) % 16 == k;
      } else {
        assert now[at + i] == before[at + i];
      }
    }
  }

  // ---- the tag ----

  /** Padded with zeros to whole blocks. */
  function Padded(d: Bytes): (p: Bytes)
    ensures |p| % 16 == 0 && |d| <= |p| < |d| + 16 && p[..|d|] == d
  {
    d + seq((16 - |d| % 16) % 16, _ => 0)
  }

  function Lengths(aad: Bytes, ciphertext: Bytes): Block
  {
    ToBe(8 * |aad|, 8) + ToBe(8 * |ciphertext|, 8)
  }

  /** The string GHASH runs over, step 5 of section 7.1. */
  function Authenticated(aad: Bytes, ciphertext: Bytes): Bytes
  {
    Padded(aad) + (Padded(ciphertext) + Lengths(aad, ciphertext))
  }

  function J0(nonce: Nonce): Block { nonce + [0, 0, 0, 1] }

  const ZERO: Block := seq(16, _ => 0)

  function HashKey(aes: Cipher, key: Block): nat { Poly(aes(key, ZERO)) }

  function Tag(aes: Cipher, key: Block, nonce: Nonce, aad: Bytes, ciphertext: Bytes): Block
  {
    var s := GhashFold(HashKey(aes, key), 0, Polys(Blocks(Authenticated(aad, ciphertext))));
    XorBytes(BlockOf(s), aes(key, J0(nonce)))
  }

  lemma {:induction false} BlocksConcat(p: Bytes, d: Bytes)
    requires |p| % 16 == 0
    ensures Blocks(p + d) == Blocks(p) + Blocks(d)
    decreases |p|
  {
    if p == [] {
      assert p + d == d;
    } else {
      assert (p + d)[..16] == p[..16] && (p + d)[16..] == p[16..] + d;
      BlocksConcat(p[16..], d);
    }
  }

  lemma {:induction false} BlocksPadded(d: Bytes)
    ensures Blocks(Padded(d)) == Blocks(d)
    decreases |d|
  {
    if |d| >= 16 {
      assert (|d| - 16) % 16 == |d| % 16;
      assert Padded(d)[..16] == d[..16] && Padded(d)[16..] == Padded(d[16..]);
      BlocksPadded(d[16..]);
    } else if d != [] {
      assert Padded(d)[..16] == Padded(d) && Padded(d)[16..] == [];
    }
  }

  lemma {:induction false} OneBlock(b: Block)
    ensures Blocks(b) == [b]
  {
    assert b[..16] == b && b[16..] == [];
  }

  /** Hashing the two strings and then the lengths hashes the padded whole. */
  lemma {:induction false} HashInParts(h: nat, aad: Bytes, ciphertext: Bytes)
    ensures var b := Lengths(aad, ciphertext);
      GhashFold(h, 0, Polys(Blocks(Authenticated(aad, ciphertext))))
        == Gf(Xor(GhashFold(h, GhashFold(h, 0, Polys(Blocks(aad))), Polys(Blocks(ciphertext))), Poly(b)), h)
  {
    var b := Lengths(aad, ciphertext);
    AuthenticatedBlocks(aad, ciphertext);
    var x, y := Polys(Blocks(aad)), Polys(Blocks(ciphertext));
    PolysConcat(Blocks(ciphertext), [b]);
    PolysConcat(Blocks(aad), Blocks(ciphertext) + [b]);
    FoldConcat(h, 0, x, y + Polys([b]));
    FoldConcat(h, GhashFold(h, 0, x), y, Polys([b]));
    assert Polys([b])[1..] == [];
  }

  lemma {:induction false} AuthenticatedBlocks(aad: Bytes, ciphertext: Bytes)
    ensures Blocks(Authenticated(aad, ciphertext)) == Blocks(aad) + (Blocks(ciphertext) + [Lengths(aad, ciphertext)])
  {
    var b := Lengths(aad, ciphertext);
    BlocksConcat(Padded(aad), Padded(ciphertext) + b);
    BlocksConcat(Padded(ciphertext), b);
    BlocksPadded(aad);
    BlocksPadded(ciphertext);
    OneBlock(b);
  }

  /** The hash part of the tag is the polynomial whose coefficients are the blocks, evaluated at H. */
  lemma TagIsEvaluation(aes: Cipher, key: Block, nonce: Nonce, aad: Bytes, ciphertext: Bytes)
    ensures var xs := Polys(Blocks(Authenticated(aad, ciphertext)));
      Tag(aes, key, nonce, aad, ciphertext) == XorBytes(BlockOf(Evaluate(HashKey(aes, key), xs)), aes(key, J0(nonce)))
  {
    var h := HashKey(aes, key);
    var xs := Polys(Blocks(Authenticated(aad, ciphertext)));
    PolyBound(aes(key, ZERO));
    Pow2At128();
    GhashIsEvaluation(h, 0, xs);
    GfZero(GfPow(h, |xs|));
    XorZero(Evaluate(h, xs));
  }

  // ---- the authenticated string, read back ----

  /** Octets that `n` octets occupy in whole blocks. */
  function WholeBlocks(n: nat): nat { (n + 15) / 16 * 16 }

  /** A reader of the layout of section 7.1 of SP 800-38D: the last 16 octets are the bit lengths of the additional
      data and of the ciphertext, in this order, and the two strings stand in front, each filled up with zeros. */
  function ReadAuthenticated(s: Bytes): Option<(Bytes, Bytes)>
  {
    if |s| < 16 then None
    else
      var lengths := s[|s| - 16..];
      var m, n := Be(lengths[..8]), Be(lengths[8..]);
      var p := WholeBlocks(m / 8);
      if m % 8 != 0 || n % 8 != 0 || p + WholeBlocks(n / 8) + 16 != |s| then None
      else if exists i :: m / 8 <= i < p && s[i] != 0 then None
      else if exists i :: p + n / 8 <= i < |s| - 16 && s[i] != 0 then None
      else Some((s[..m / 8], s[p..p + n / 8]))
  }

  /** What is hashed determines the additional data and the ciphertext, below 2^61 octets each. */
  lemma AuthenticatedReadsBack(aad: Bytes, ciphertext: Bytes)
    requires 8 * |aad| < Pow2(64) && 8 * |ciphertext| < Pow2(64)
    ensures ReadAuthenticated(Authenticated(aad, ciphertext)) == Some((aad, ciphertext))
  {
    hide Be;
    hide ToBe;
    hide Pow2;
    var a, c, l := Padded(aad), Padded(ciphertext), Lengths(aad, ciphertext);
    var s := Authenticated(aad, ciphertext);
    PaddedSize(aad);
    PaddedSize(ciphertext);
    LengthsRead(aad, ciphertext);
    assert s[|s| - 16..] == l;
    assert s[..|aad|] == a[..|aad|] == aad;
    assert s[|a|..|a| + |ciphertext|] == c[..|ciphertext|] == ciphertext;
  }

  lemma PaddedSize(d: Bytes)
    ensures |Padded(d)| == WholeBlocks(|d|) && forall i :: |d| <= i < |Padded(d)| ==> Padded(d)[i] == 0
  {
  }

  lemma LengthsRead(aad: Bytes, ciphertext: Bytes)
    requires 8 * |aad| < Pow2(64) && 8 * |ciphertext| < Pow2(64)
    ensures var l := Lengths(aad, ciphertext); Be(l[..8]) == 8 * |aad| && Be(l[8..]) == 8 * |ciphertext|
  {
    hide Be;
    hide ToBe;
    hide Pow2;
    BeOfToBe(8 * |aad|, 8);
    BeOfToBe(8 * |ciphertext|, 8);
    var l := Lengths(aad, ciphertext);
    assert l[..8] == ToBe(8 * |aad|, 8) && l[8..] == ToBe(8 * |ciphertext|, 8);
  }

  /** The pre-counter block for a 96-bit nonce: the nonce and the 32-bit number 1; the first block to encrypt is 2. */
  lemma PreCounter(nonce: Nonce)
    ensures J0(nonce)[..12] == nonce && Be(J0(nonce)[12..]) == 1
    ensures Counter(J0(nonce), 1)[..12] == nonce && Be(Counter(J0(nonce), 1)[12..]) == 2
  {
    var j := J0(nonce);
    Powers();
    FourOctetsOfOne();
    assert j[12..] == [0, 0, 0, 1];
    BeOfToBe(1, 4);
    assert Counter(j, 1)[12..] == ToBe(2, 4);
    BeOfToBe(2, 4);
  }

  lemma FourOctetsOfOne()
    ensures ToBe(1, 4) == [0, 0, 0, 1]
  {
    assert ToBe(0, 1) == [0] && ToBe(0, 2) == [0, 0] && ToBe(0, 3) == [0, 0, 0];
  }

  method AuthTag(aes: Cipher, key: Block, nonce: Nonce, aad: Bytes, ciphertext: Bytes) returns (tag: Block)
    ensures tag == Tag(aes, key, nonce, aad, ciphertext)
  {
    var h := aes(key, seq(16, _ => 0));
    var y := new Byte[16](_ => 0);
    PolyZero(y[..]);
    GhashData(y, h, aad);
    GhashData(y, h, ciphertext);
    GhashBlock(y, h, Lengths(aad, ciphertext));
    HashInParts(Poly(h), aad, ciphertext);
    BlockOfPoly(y[..]);
    var e0 := aes(key, J0(nonce));
    Xor16(y, e0);
    tag := y[..];
  }

  /** Compares without stopping early: all differences are or-ed together. */
  method ConstantTimeEqual(a: Bytes, b: Bytes) returns (same: bool)
    requires |a| == |b|
    ensures same <==> a == b
  {
    var d: Byte := 0;
    for i := 0 to |a|
      invariant d == 0 <==> a[..i] == b[..i]
    {
      d := Gather(d, a[i], b[i]);
      assert a[..i + 1] == a[..i] + [a[i]] && b[..i + 1] == b[..i] + [b[i]];
    }
    assert a[..|a|] == a && b[..|b|] == b;
    same := d == 0;
  }

  function Gather(d: Byte, x: Byte, y: Byte): (r: Byte)
    ensures r == 0 <==> d == 0 && x == y
  {
    var z := XorByte(x, y);
    assert Pow2(8) == 256;
    OrBound(d, z, 8);
    OrIsZero(d, z);
    XorIsZero(x, y);
    Or(d, z)
  }

  lemma {:induction false} XorIsZero(x: nat, y: nat)
    ensures Xor(x, y) == 0 <==> x == y
  {
    if Xor(x, y) == 0 {
      XorCancel(x, y);
      XorZero(x);
    } else if x == y {
      XorSelf(x);
    }
  }

  // ---- sealing and opening ----

  function Seal(aes: Cipher, key: Block, nonce: Nonce, aad: Bytes, plaintext: Bytes): (Bytes, Block)
  {
    var c := Ctr(aes, key, J0(nonce), plaintext);
    (c, Tag(aes, key, nonce, aad, c))
  }

  function Open(aes: Cipher, key: Block, nonce: Nonce, aad: Bytes, ciphertext: Bytes, tag: Block): Option<Bytes>
  {
    if tag == Tag(aes, key, nonce, aad, ciphertext) then Some(Ctr(aes, key, J0(nonce), ciphertext)) else None
  }

  /** Opening succeeds with `p` on exactly the sealings of `p`. */
  lemma OpenIff(aes: Cipher, key: Block, nonce: Nonce, aad: Bytes, ciphertext: Bytes, tag: Block, p: Bytes)
    ensures Open(aes, key, nonce, aad, ciphertext, tag) == Some(p) <==> (ciphertext, tag) == Seal(aes, key, nonce, aad, p)
  {
    CtrTwice(aes, key, J0(nonce), p);
    CtrTwice(aes, key, J0(nonce), ciphertext);
  }

  /** Writes the ciphertext at `at`. */
  method Encrypt(aes: Cipher, key: Block, nonce: Nonce, aad: Bytes, plaintext: Bytes, out: array<Byte>, at: nat, size: nat)
    returns (e: Error, tag: Block)
    requires at + size <= out.Length
    modifies out
    ensures e == if size < |plaintext| then BUFFER_TOO_SMALL else OK
    ensures e == OK ==> (out[at..at + |plaintext|], tag) == Seal(aes, key, nonce, aad, plaintext)
    ensures e == OK ==> forall j :: 0 <= j < out.Length && !(at <= j < at + |plaintext|) ==> out[j] == old(out[j])
    ensures e != OK ==> out[..] == old(out[..])
  {
    if size < |plaintext| { return BUFFER_TOO_SMALL, ZERO; }
    CtrCrypt(aes, key, J0(nonce), plaintext, out, at);
    tag := AuthTag(aes, key, nonce, aad, out[at..at + |plaintext|]);
    e := OK;
  }

  /** Checks the tag first; writes nothing unless it is right. */
  method Decrypt(aes: Cipher, key: Block, nonce: Nonce, aad: Bytes, ciphertext: Bytes, tag: Block, out: array<Byte>, size: nat)
    returns (e: Error)
    requires size <= out.Length
    modifies out
    ensures e == if size < |ciphertext| then BUFFER_TOO_SMALL
                 else if Open(aes, key, nonce, aad, ciphertext, tag).Some? then OK else VERIFY
    ensures e == OK ==> Some(out[..|ciphertext|]) == Open(aes, key, nonce, aad, ciphertext, tag)
    ensures e != OK ==> out[..] == old(out[..])
  {
    if size < |ciphertext| { return BUFFER_TOO_SMALL; }
    var expected := AuthTag(aes, key, nonce, aad, ciphertext);
    var same := ConstantTimeEqual(expected, tag);
    if !same { return VERIFY; }
    CtrCrypt(aes, key, J0(nonce), ciphertext, out, 0);
    return OK;
  }
}
