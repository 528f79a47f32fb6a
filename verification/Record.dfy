/** The record layer: headers, nonces, sealing and opening records under traffic keys. */
module Record {
  import opened Bits
  import opened Types
  import opened Gcm
  import opened Aead
  import opened Primitives

  const CHANGE_CIPHER_SPEC: Byte := 20
  const ALERT: Byte := 21
  const HANDSHAKE: Byte := 22
  const APPLICATION_DATA: Byte := 23

  const MAX_CONTENT: nat := 16384
  const MAX_FRAGMENT: nat := 16640
  const MAX_RECORD: nat := 16645

  type u64 = x: int | 0 <= x < 0x1_0000_0000_0000_0000

  /** ++ on a 64-bit counter. */
  function Next(n: u64): u64 { if n == 0xFFFF_FFFF_FFFF_FFFF then 0 else n + 1 }

  lemma NextWraps(n: u64)
    ensures Next(n) == (n + 1) % 0x1_0000_0000_0000_0000
  {
  }

  // ---- headers ----

  datatype Header = Header(kind: Byte, version: nat, length: nat)

  function ParseHeader(input: Bytes): Result<Header>
  {
    if |input| < 5 then Err(BUFFER_TOO_SMALL)
    else
      var length := Be(input[3..5]);
      if length > MAX_FRAGMENT then Err(BAD_RECORD) else Ok(Header(input[0], Be(input[1..3]), length))
  }

  function EncodeHeader(kind: Byte, length: nat): (h: Bytes)
    ensures |h| == 5
  {
    [kind, 3, 3] + ToBe(length, 2)
  }

  /** The header of a fragment is read back as written, whatever follows it. */
  lemma HeaderRoundTrip(kind: Byte, length: nat, rest: Bytes)
    requires length <= MAX_FRAGMENT
    ensures ParseHeader(EncodeHeader(kind, length) + rest) == Ok(Header(kind, 0x0303, length))
  {
    var s := EncodeHeader(kind, length) + rest;
    assert s[3..5] == ToBe(length, 2);
    Powers();
    BeOfToBe(length, 2);
    BeOfVersion(s);
  }

  lemma BeOfVersion(s: Bytes)
    requires |s| >= 3
    ensures Be(s[1..3]) == Pair(s[2], s[1])
  {
    var v := s[1..3];
    assert v[..1] == [s[1]] && [s[1]][..0] == [];
    assert Be(v) == Be(v[..1]) * 256 + v[1];
    assert Be([s[1]]) == s[1];
  }

  /** A header is read exactly from its type, two octets of version and two of a length of at most 16640. */
  lemma HeaderIff(input: Bytes, h: Header)
    ensures ParseHeader(input) == Ok(h) <==>
      && |input| >= 5 && h.version < 65536 && h.length <= 16640
      && input[..5] == [h.kind] + ToBe(h.version, 2) + ToBe(h.length, 2)
    ensures ParseHeader(input) == Err(BUFFER_TOO_SMALL) <==> |input| < 5
  {
    hide Be;
    hide ToBe;
    hide Pow2;
    Powers();
    if |input| >= 5 {
      BeBound(input[1..3]);
      ToBeOfBe(input[1..3]);
      ToBeOfBe(input[3..5]);
      assert input[..5] == [input[0]] + input[1..3] + input[3..5];
      if h.version < 65536 && h.length <= 16640 && input[..5] == [h.kind] + ToBe(h.version, 2) + ToBe(h.length, 2) {
        BeOfToBe(h.version, 2);
        BeOfToBe(h.length, 2);
        assert input[1..3] == input[..5][1..3] == ToBe(h.version, 2);
        assert input[3..5] == input[..5][3..5] == ToBe(h.length, 2);
        assert input[0] == input[..5][0];
      }
    }
  }

  /** Only the encoding of what was read. */
  lemma HeaderSound(input: Bytes)
    requires ParseHeader(input).Ok? && ParseHeader(input).value.version == 0x0303
    ensures var h := ParseHeader(input).value; input[..5] == EncodeHeader(h.kind, h.length)
  {
    BeOfVersion(input);
    ToBeOfBe(input[3..5]);
    var h := ParseHeader(input).value;
    assert input[..5] == [input[0], input[1], input[2]] + input[3..5];
  }

  // ---- nonces ----

  /** Section 5.3 of RFC 8446. */
  function NonceOf(iv: Nonce, sequence: nat): Nonce
  {
    XorBytes(iv, [0, 0, 0, 0] + ToBe(sequence, 8))
  }

  method MakeNonce(iv: Nonce, sequence: u64) returns (nonce: Nonce)
    ensures nonce == NonceOf(iv, sequence)
  {
    var s := BigEndian64(sequence);
    var n := new Byte[12](j requires 0 <= j < 12 => iv[j]);
    for j := 0 to 8
      invariant forall k :: 0 <= k < j ==> n[4 + k] == XorByte(iv[4 + k], s[k])
      invariant forall k :: 0 <= k < 12 && !(4 <= k < 4 + j) ==> n[k] == iv[k]
    {
      n[4 + j] := XorByte(n[4 + j], s[j]);
    }
    nonce := n[..];
    NonceBytes(iv, s, nonce);
  }

  method BigEndian64(v: u64) returns (r: Bytes)
    ensures r == ToBe(v, 8)
  {
    var s := new Byte[8];
    var rest := v;
    var i := 8;
    while i > 0
      invariant 0 <= i <= 8 && ToBe(v, 8) == ToBe(rest, i) + s[i..]
    {
      i := i - 1;
      ghost var tail := s[i + 1..];
      s[i] := rest % 256;
      assert s[i..] == [s[i]] + tail;
      rest := rest / 256;
    }
    r := s[..];
    assert ToBe(rest, 0) + s[0..] == r;
  }

  lemma NonceBytes(iv: Nonce, s: Bytes, nonce: Nonce)
    requires |s| == 8 && nonce[..4] == iv[..4]
    requires forall k :: 0 <= k < 8 ==> nonce[4 + k] == XorByte(iv[4 + k], s[k])
    ensures nonce == XorBytes(iv, [0, 0, 0, 0] + s)
  {
    var t := [0, 0, 0, 0] + s;
    forall i | 0 <= i < 12
      ensures nonce[i] == XorByte(iv[i], t[i])
    {
      if i < 4 {
        XorZero(iv[i]);
        assert nonce[i] == nonce[..4][i] == iv[..4][i];
      } else {
        assert nonce[4 + (i - 4)] == XorByte(iv[4 + (i - 4)], s[i - 4]);
      }
    }
  }

  /** Under one IV, different sequence numbers have different nonces. */
  lemma NonceInjective(iv: Nonce, a: u64, b: u64)
    requires NonceOf(iv, a) == NonceOf(iv, b)
    ensures a == b
  {
    var s, t := [0, 0, 0, 0] + ToBe(a, 8), [0, 0, 0, 0] + ToBe(b, 8);
    XorBytesCancel(iv, s, t);
    assert s[4..] == ToBe(a, 8) && t[4..] == ToBe(b, 8);
    Powers64();
    BeOfToBe(a, 8);
    BeOfToBe(b, 8);
  }

  lemma XorBytesCancel(k: Bytes, s: Bytes, t: Bytes)
    requires |k| == |s| == |t| && XorBytes(k, s) == XorBytes(k, t)
    ensures s == t
  {
    forall i | 0 <= i < |k|
      ensures s[i] == t[i]
    {
      assert XorBytes(k, s)[i] == XorBytes(k, t)[i];
      XorCancel(k[i], s[i]);
      XorCancel(k[i], t[i]);
    }
  }

  // ---- sealed records ----

  /** Content, type and padding: TLSInnerPlaintext of section 5.2 of RFC 8446. */
  function Inner(kind: Byte, content: Bytes, padding: nat): Bytes
  {
    content + [kind] + seq(padding, _ => 0)
  }

  ghost predicate Fits(content: Bytes, padding: nat)
  {
    |content| + 1 + padding + 16 <= MAX_FRAGMENT
  }

  function SealRecord(aes: Cipher, key: Block, iv: Nonce, sequence: nat, kind: Byte, content: Bytes, padding: nat): (r: Bytes)
    ensures |r| == 5 + |content| + 1 + padding + 16
  {
    Flat(FragmentOf(aes, key, NonceOf(iv, sequence), Inner(kind, content, padding)))
  }

  /** Drops trailing zeros. */
  function Strip(s: Bytes): (r: Bytes)
    ensures r == [] || r[|r| - 1] != 0
    ensures |r| <= |s| && r == s[..|r|]
  {
    if s == [] || s[|s| - 1] != 0 then s else Strip(s[..|s| - 1])
  }

  lemma {:induction false} StripInner(kind: Byte, content: Bytes, padding: nat)
    requires kind != 0
    ensures Strip(Inner(kind, content, padding)) == content + [kind]
  {
    var s := Inner(kind, content, padding);
    if padding == 0 {
      assert s == content + [kind];
    } else {
      assert s[..|s| - 1] == Inner(kind, content, padding - 1);
      StripInner(kind, content, padding - 1);
    }
  }

  lemma {:induction false} InnerOfStrip(s: Bytes)
    requires Strip(s) != []
    ensures var r := Strip(s); s == Inner(r[|r| - 1], r[..|r| - 1], |s| - |r|)
  {
    var r := Strip(s);
    if s[|s| - 1] == 0 {
      InnerOfStrip(s[..|s| - 1]);
      assert s == s[..|s| - 1] + [0];
    } else {
      assert s == s[..|s| - 1] + [s[|s| - 1]];
    }
  }

  datatype Opened = Opened(kind: Byte, content: Bytes)

  datatype Fragment = Fragment(header: Bytes, ciphertext: Bytes, tag: Block)

  function SplitRecord(record: Bytes): Result<Fragment>
  {
    match ParseHeader(record)
    case Err(e) => Err(e)
    case Ok(h) =>
      if h.kind != APPLICATION_DATA || h.version != 0x0303 || |record| < 5 + h.length || h.length < 17 then Err(BAD_RECORD)
      else
        var ct := h.length - 16;
        Ok(Fragment(record[..5], record[5..5 + ct], record[5 + ct..5 + h.length]))
  }

  function Flat(f: Fragment): Bytes { f.header + f.ciphertext + f.tag }

  function OpenFragment(aes: Cipher, key: Block, nonce: Nonce, f: Fragment): Result<Opened>
  {
    match Open(aes, key, nonce, f.header, f.ciphertext, f.tag)
    case None => Err(VERIFY)
    case Some(inner) => Unpad(inner)
  }

  /** What opening `record` under a key and number yields. */
  function OpenRecord(aes: Cipher, key: Block, iv: Nonce, sequence: nat, record: Bytes): Result<Opened>
  {
    match SplitRecord(record)
    case Err(e) => Err(e)
    case Ok(f) => OpenFragment(aes, key, NonceOf(iv, sequence), f)
  }

  predicate WellFramed(f: Fragment, record: Bytes)
  {
    && 1 <= |f.ciphertext| <= MAX_FRAGMENT - 16
    && f.header == EncodeHeader(APPLICATION_DATA, |f.ciphertext| + 16)
    && Flat(f) <= record
  }

  lemma SplitIff(record: Bytes, f: Fragment)
    ensures SplitRecord(record) == Ok(f) <==> WellFramed(f, record)
  {
    if SplitRecord(record) == Ok(f) { SplitSound(record, f); }
    if WellFramed(f, record) { SplitComplete(record, f); }
  }

  lemma SplitSound(record: Bytes, f: Fragment)
    requires SplitRecord(record) == Ok(f)
    ensures WellFramed(f, record)
  {
    hide Be;
    hide ToBe;
    var ct, n := |f.ciphertext|, 5 + |f.ciphertext| + 16;
    HeaderSound(record);
    assert f.header == record[..5] && f.ciphertext == record[5..5 + ct] && f.tag == record[5 + ct..n];
    ThreeSlices(record, 5, 5 + ct, n);
  }

  lemma ThreeSlices(s: Bytes, a: nat, b: nat, c: nat)
    requires a <= b <= c <= |s|
    ensures s[..a] + s[a..b] + s[b..c] == s[..c]
  {
  }

  lemma SplitComplete(record: Bytes, f: Fragment)
    requires WellFramed(f, record)
    ensures SplitRecord(record) == Ok(f)
  {
    hide Be;
    hide ToBe;
    Parts(record, f.header, f.ciphertext, f.tag);
    assert record == f.header + record[5..];
    HeaderRoundTrip(APPLICATION_DATA, |f.ciphertext| + 16, record[5..]);
  }

  function Unpad(inner: Bytes): Result<Opened>
  {
    var r := Strip(inner);
    if r == [] || !(20 <= r[|r| - 1] <= 23) then Err(BAD_RECORD)
    else Ok(Opened(r[|r| - 1], r[..|r| - 1]))
  }

  lemma UnpadIff(inner: Bytes, o: Opened)
    ensures Unpad(inner) == Ok(o) <==>
      20 <= o.kind <= 23 && |inner| >= |o.content| + 1 && inner == Inner(o.kind, o.content, |inner| - |o.content| - 1)
  {
    if Unpad(inner) == Ok(o) { UnpadSound(inner, o); }
    if 20 <= o.kind <= 23 && |inner| >= |o.content| + 1 && inner == Inner(o.kind, o.content, |inner| - |o.content| - 1) {
      UnpadInner(o, |inner| - |o.content| - 1);
    }
  }

  lemma UnpadSound(inner: Bytes, o: Opened)
    requires Unpad(inner) == Ok(o)
    ensures 20 <= o.kind <= 23 && |inner| >= |o.content| + 1 && inner == Inner(o.kind, o.content, |inner| - |o.content| - 1)
  {
    hide Strip;
    hide Inner;
    InnerOfStrip(inner);
  }

  lemma UnpadInner(o: Opened, padding: nat)
    requires 20 <= o.kind <= 23
    ensures Unpad(Inner(o.kind, o.content, padding)) == Ok(o)
  {
    hide Strip;
    hide Inner;
    StripInner(o.kind, o.content, padding);
    assert (o.content + [o.kind])[..|o.content|] == o.content;
  }

  /** A record opens to (kind, content) exactly when it starts with their sealing, for some padding. */
  lemma OpensIff(aes: Cipher, key: Block, iv: Nonce, sequence: nat, record: Bytes, o: Opened)
    ensures OpenRecord(aes, key, iv, sequence, record) == Ok(o) <==>
      20 <= o.kind <= 23 && exists padding: nat ::
        Fits(o.content, padding) && SealRecord(aes, key, iv, sequence, o.kind, o.content, padding) <= record
  {
    if OpenRecord(aes, key, iv, sequence, record) == Ok(o) {
      var padding := OpenedWasSealed(aes, key, iv, sequence, record, o);
    }
    forall padding: nat | 20 <= o.kind <= 23 && Fits(o.content, padding)
        && SealRecord(aes, key, iv, sequence, o.kind, o.content, padding) <= record
      ensures OpenRecord(aes, key, iv, sequence, record) == Ok(o)
    {
      SealedOpens(aes, key, iv, sequence, record, o, padding);
    }
  }

  lemma FragmentIff(aes: Cipher, key: Block, nonce: Nonce, f: Fragment, o: Opened)
    ensures OpenFragment(aes, key, nonce, f) == Ok(o) <==>
      20 <= o.kind <= 23 && |f.ciphertext| >= |o.content| + 1
      && (f.ciphertext, f.tag) == Seal(aes, key, nonce, f.header, Inner(o.kind, o.content, |f.ciphertext| - |o.content| - 1))
  {
    var p := Open(aes, key, nonce, f.header, f.ciphertext, f.tag);
    if p.Some? {
      OpenIff(aes, key, nonce, f.header, f.ciphertext, f.tag, p.value);
      UnpadIff(p.value, o);
    }
    if |f.ciphertext| >= |o.content| + 1 {
      OpenIff(aes, key, nonce, f.header, f.ciphertext, f.tag, Inner(o.kind, o.content, |f.ciphertext| - |o.content| - 1));
    }
  }

  function FragmentOf(aes: Cipher, key: Block, nonce: Nonce, inner: Bytes): Fragment
  {
    var header := EncodeHeader(APPLICATION_DATA, |inner| + 16);
    var sealed := Seal(aes, key, nonce, header, inner);
    Fragment(header, sealed.0, sealed.1)
  }

  lemma OpenedWasSealed(aes: Cipher, key: Block, iv: Nonce, sequence: nat, record: Bytes, o: Opened)
    returns (padding: nat)
    requires OpenRecord(aes, key, iv, sequence, record) == Ok(o)
    ensures 20 <= o.kind <= 23 && Fits(o.content, padding)
    ensures SealRecord(aes, key, iv, sequence, o.kind, o.content, padding) <= record
  {
    hide Open;
    hide Seal;
    hide Unpad;
    hide NonceOf;
    hide EncodeHeader;
    var f := SplitRecord(record).value;
    SplitIff(record, f);
    padding := FragmentWasSealed(aes, key, NonceOf(iv, sequence), f, o);
  }

  lemma FragmentWasSealed(aes: Cipher, key: Block, nonce: Nonce, f: Fragment, o: Opened) returns (padding: nat)
    requires OpenFragment(aes, key, nonce, f) == Ok(o) && f.header == EncodeHeader(APPLICATION_DATA, |f.ciphertext| + 16)
    ensures 20 <= o.kind <= 23 && |f.ciphertext| == |o.content| + 1 + padding
    ensures f == FragmentOf(aes, key, nonce, Inner(o.kind, o.content, padding))
  {
    hide Open;
    hide Seal;
    hide Unpad;
    FragmentIff(aes, key, nonce, f, o);
    padding := |f.ciphertext| - |o.content| - 1;
  }

  lemma SealedOpens(aes: Cipher, key: Block, iv: Nonce, sequence: nat, record: Bytes, o: Opened, padding: nat)
    requires 20 <= o.kind <= 23 && Fits(o.content, padding)
    requires SealRecord(aes, key, iv, sequence, o.kind, o.content, padding) <= record
    ensures OpenRecord(aes, key, iv, sequence, record) == Ok(o)
  {
    hide Open;
    hide Seal;
    hide Unpad;
    hide SplitRecord;
    hide NonceOf;
    var nonce := NonceOf(iv, sequence);
    FragmentOpens(aes, key, nonce, o, padding);
    SplitIff(record, FragmentOf(aes, key, nonce, Inner(o.kind, o.content, padding)));
  }

  lemma FragmentOpens(aes: Cipher, key: Block, nonce: Nonce, o: Opened, padding: nat)
    requires 20 <= o.kind <= 23
    ensures OpenFragment(aes, key, nonce, FragmentOf(aes, key, nonce, Inner(o.kind, o.content, padding))) == Ok(o)
  {
    FragmentIff(aes, key, nonce, FragmentOf(aes, key, nonce, Inner(o.kind, o.content, padding)), o);
  }

  lemma Parts(record: Bytes, header: Bytes, c: Bytes, tag: Bytes)
    requires header + c + tag <= record
    ensures record[..|header|] == header && record[|header|..|header| + |c|] == c
    ensures record[|header| + |c|..|header| + |c| + |tag|] == tag
  {
    var r := header + c + tag;
    assert record[..|r|] == r;
    forall i | 0 <= i < |r|
      ensures record[i] == r[i]
    {
      assert record[..|r|][i] == r[i];
    }
  }

  /** The error protect reports for its arguments. */
  function ProtectError(kind: Byte, content: nat, padding: nat, capacity: nat): Error
  {
    if kind < 20 || kind > 23 then INVALID_ARGUMENT
    else if content > MAX_CONTENT || padding > 255 then BAD_RECORD
    else if content + 1 + padding + 16 > MAX_FRAGMENT then BAD_RECORD
    else if capacity < 5 + content + 1 + padding + 16 then BUFFER_TOO_SMALL
    else OK
  }

  const NO_IV: Nonce := seq(12, _ => 0)

  class TrafficKeys {
    var key: Block
    var iv: Nonce
    var sequenceNumber: u64

    constructor ()
      ensures key == ZERO && iv == NO_IV && sequenceNumber == 0
    {
      key := ZERO;
      iv := NO_IV;
      sequenceNumber := 0;
    }

    method Wipe()
      modifies this
      ensures key == ZERO && iv == NO_IV && sequenceNumber == 0
    {
      key, iv, sequenceNumber := ZERO, NO_IV, 0;
    }

    /** Section 7.3 of RFC 8446: new keys start at sequence number 0. */
    method Derive(c: Crypto, secret: Secret)
      modifies this
      ensures key == c.keyOf(secret) && iv == c.ivOf(secret) && sequenceNumber == 0
    {
      key := c.keyOf(secret);
      iv := c.ivOf(secret);
      sequenceNumber := 0;
    }

    method Protect(aes: Cipher, kind: Byte, content: Bytes, padding: nat, out: array<Byte>) returns (e: Error, written: nat)
      modifies this`sequenceNumber, out
      ensures e == ProtectError(kind, |content|, padding, out.Length)
      ensures e == OK ==> written == 5 + |content| + 1 + padding + 16 <= out.Length
      ensures e == OK ==> out[..written] == SealRecord(aes, key, iv, old(sequenceNumber), kind, content, padding)
      ensures e == OK ==> sequenceNumber == Next(old(sequenceNumber))
      ensures e != OK ==> sequenceNumber == old(sequenceNumber) && out[..] == old(out[..])
    {
      if kind < 20 || kind > 23 { return INVALID_ARGUMENT, 0; }
      if |content| > MAX_CONTENT || padding > 255 { return BAD_RECORD, 0; }
      var innerLen := |content| + 1 + padding;
      var fragLen := innerLen + 16;
      var total := 5 + fragLen;
      if fragLen > MAX_FRAGMENT { return BAD_RECORD, 0; }
      if out.Length < total { return BUFFER_TOO_SMALL, 0; }
      var nonce := MakeNonce(iv, sequenceNumber);
      var inner := content + [kind] + seq(padding, _ => 0);
      assert inner == Inner(kind, content, padding);
      SealInto(aes, key, nonce, inner, out);
      sequenceNumber := Next(sequenceNumber);
      return OK, total;
    }

    /** Counts the number up only when the record is accepted. */
    method Unprotect(aes: Cipher, record: Bytes, out: array<Byte>) returns (e: Error, kind: Byte, written: nat)
      modifies this`sequenceNumber, out
      ensures written <= out.Length
      ensures out.Length >= MAX_FRAGMENT ==> e == ErrorOf(OpenRecord(aes, key, iv, old(sequenceNumber), record))
      ensures e == OK ==> OpenRecord(aes, key, iv, old(sequenceNumber), record) == Ok(Opened(kind, out[..written]))
      ensures e == OK ==> sequenceNumber == Next(old(sequenceNumber))
      ensures e != OK ==> sequenceNumber == old(sequenceNumber)
    {
      var parsed := ParseHeader(record);
      if parsed.Err? { return parsed.error, 0, 0; }
      var h := parsed.value;
      if h.kind != APPLICATION_DATA || h.version != 0x0303 { return BAD_RECORD, 0, 0; }
      if |record| < 5 + h.length || h.length < 17 { return BAD_RECORD, 0, 0; }
      var ct := h.length - 16;
      if out.Length < ct { return BUFFER_TOO_SMALL, 0, 0; }
      var nonce := MakeNonce(iv, sequenceNumber);
      ghost var f := Fragment(record[..5], record[5..5 + ct], record[5 + ct..5 + h.length]);
      assert SplitRecord(record) == Ok(f);
      e, kind, written := OpenInto(aes, key, nonce, record[..5], record[5..5 + ct], record[5 + ct..5 + h.length], out);
      if e == OK {
        sequenceNumber := Next(sequenceNumber);
      }
    }
  }

  function ErrorOf<T>(r: Result<T>): Error { match r case Ok(_) => OK case Err(e) => e }

  lemma FragmentParts(aes: Cipher, key: Block, nonce: Nonce, inner: Bytes)
    ensures var header := EncodeHeader(APPLICATION_DATA, |inner| + 16); var sealed := Seal(aes, key, nonce, header, inner);
      Flat(FragmentOf(aes, key, nonce, inner)) == header + sealed.0 + sealed.1
  {
  }

  method SealInto(aes: Cipher, key: Block, nonce: Nonce, inner: Bytes, out: array<Byte>)
    requires |inner| + 21 <= out.Length
    modifies out
    ensures out[..|inner| + 21] == Flat(FragmentOf(aes, key, nonce, inner))
  {
    hide *;
    FragmentParts(aes, key, nonce, inner);
    WriteHeader(out, |inner| + 16);
    ghost var header := out[..5];
    var e, tag := Encrypt(aes, key, nonce, out[..5], inner, out, 5, |inner|);
    ghost var sealed := out[5..5 + |inner|];
    assert out[..5] == header;
    assert out[..5 + |inner|] == header + sealed;
    WriteAt(out, 5 + |inner|, tag);
    assert out[..|inner| + 21] == header + sealed + tag;
  }

  /** Decrypts, strips the padding and reads the inner type. */
  method OpenInto(aes: Cipher, key: Block, nonce: Nonce, header: Bytes, ciphertext: Bytes, tag: Block, out: array<Byte>)
    returns (e: Error, kind: Byte, written: nat)
    requires |ciphertext| <= out.Length
    modifies out
    ensures written <= out.Length
    ensures e == ErrorOf(OpenFragment(aes, key, nonce, Fragment(header, ciphertext, tag)))
    ensures e == OK ==> OpenFragment(aes, key, nonce, Fragment(header, ciphertext, tag)) == Ok(Opened(kind, out[..written]))
  {
    e := Decrypt(aes, key, nonce, header, ciphertext, tag, out, |ciphertext|);
    if e != OK { return e, 0, 0; }
    var n := StripZeros(out, |ciphertext|);
    if n == 0 { return BAD_RECORD, 0, 0; }
    var t := out[n - 1];
    if t < 20 || t > 23 { return BAD_RECORD, 0, 0; }
    assert out[..n][..n - 1] == out[..n - 1];
    return OK, t, n - 1;
  }

  method WriteHeader(out: array<Byte>, length: nat)
    requires out.Length >= 5
    modifies out
    ensures out[..5] == EncodeHeader(APPLICATION_DATA, length)
  {
    out[0], out[1], out[2] := APPLICATION_DATA, 0x03, 0x03;
    out[3] := length / 256 % 256;
    out[4] := length % 256;
    TwoOctets(length);
  }

  lemma {:induction false} TwoOctets(v: nat)
    ensures ToBe(v, 2) == [v / 256 % 256, v % 256]
  {
    assert ToBe(v / 256, 1) == ToBe(v / 256 / 256, 0) + [v / 256 % 256];
  }

  method WriteAt(out: array<Byte>, at: nat, s: Bytes)
    requires at + |s| <= out.Length
    modifies out
    ensures out[at..at + |s|] == s
    ensures forall j :: 0 <= j < out.Length && !(at <= j < at + |s|) ==> out[j] == old(out[j])
  {
    for i := 0 to |s|
      invariant forall k :: 0 <= k < i ==> out[at + k] == s[k]
      invariant forall j :: 0 <= j < out.Length && !(at <= j < at + i) ==> out[j] == old(out[j])
    {
      out[at + i] := s[i];
    }
  }

  method StripZeros(a: array<Byte>, len: nat) returns (n: nat)
    requires len <= a.Length
    ensures n <= len && a[..n] == Strip(a[..len])
  {
    n := len;
    while n > 0 && a[n - 1] == 0
      invariant n <= len && Strip(a[..n]) == Strip(a[..len])
    {
      assert a[..n][..n - 1] == a[..n - 1];
      n := n - 1;
    }
  }
}
