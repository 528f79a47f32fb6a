/** Building the ClientHello, and reading one back. */
module ClientHello {
  import opened Bits
  import opened Types

  type CString = s: Bytes | forall i :: 0 <= i < |s| ==> s[i] != 0
  type u16 = x: int | 0 <= x < 65536

  datatype Params = Params(random: Bytes, sessionId: Bytes, keyShare: Bytes, group: u16,
                           serverName: CString, alpn: CString, cookie: Bytes)

  const X25519: u16 := 0x001D
  const SECP256R1: u16 := 0x0017
  const TLS_AES_128_GCM_SHA256: u16 := 0x1301
  const COMMA: Byte := ',' as int

  // ---- the format: section 4.1.2 of RFC 8446 ----

  function Vec8(s: Bytes): Bytes { ToBe(|s|, 1) + s }

  function Vec16(s: Bytes): Bytes { ToBe(|s|, 2) + s }

  function Vec24(s: Bytes): Bytes { ToBe(|s|, 3) + s }

  datatype Extension = Extension(kind: u16, data: Bytes)

  function EncodeExtension(e: Extension): Bytes { ToBe(e.kind, 2) + Vec16(e.data) }

  function EncodeExtensions(es: seq<Extension>): Bytes
  {
    if es == [] then [] else EncodeExtension(es[0]) + EncodeExtensions(es[1..])
  }

  function VersionsData(): Bytes { Vec8(ToBe(0x0304, 2)) }

  function GroupsData(preferred: u16): Bytes
  {
    Vec16(ToBe(preferred, 2) + ToBe(if preferred == X25519 then SECP256R1 else X25519, 2))
  }

  function SignaturesData(): Bytes { Vec16(ToBe(0x0804, 2) + ToBe(0x0809, 2) + ToBe(0x0403, 2)) }

  function KeyShareData(group: u16, key: Bytes): Bytes { Vec16(ToBe(group, 2) + Vec16(key)) }

  function ServerNameData(host: Bytes): Bytes { Vec16([0] + Vec16(host)) }

  function ProtocolsData(names: seq<Bytes>): Bytes { Vec16(NameList(names)) }

  function NameList(names: seq<Bytes>): Bytes
  {
    if names == [] then [] else Vec8(names[0]) + NameList(names[1..])
  }

  function ServerNameExtension(host: Bytes): seq<Extension>
  {
    if host == [] then [] else [Extension(0x0000, ServerNameData(host))]
  }

  function CookieExtension(cookie: Bytes): seq<Extension>
  {
    if cookie == [] then [] else [Extension(0x002c, Vec16(cookie))]
  }

  function ProtocolsExtension(alpn: Bytes): seq<Extension>
  {
    if alpn == [] then [] else [Extension(0x0010, ProtocolsData(Pieces(alpn)))]
  }

  function Extensions(p: Params): seq<Extension>
  {
    ServerNameExtension(p.serverName)
    + [Extension(0x002b, VersionsData())]
    + [Extension(0x000a, GroupsData(p.group))]
    + [Extension(0x000d, SignaturesData())]
    + [Extension(0x0033, KeyShareData(p.group, p.keyShare))]
    + CookieExtension(p.cookie)
    + ProtocolsExtension(p.alpn)
  }

  function Prefix(p: Params): Bytes
  {
    ToBe(0x0303, 2) + p.random + Vec8(p.sessionId) + Vec16(ToBe(TLS_AES_128_GCM_SHA256, 2)) + Vec8([0])
  }

  function Encode(p: Params): Bytes
  {
    [1] + Vec24(Prefix(p) + Vec16(EncodeExtensions(Extensions(p))))
  }

  // ---- the protocol list ----

  /** Length of the piece at the front: up to a comma or the end. */
  function PieceLength(s: Bytes): (n: nat)
    ensures n <= |s| && COMMA !in s[..n] && (n < |s| ==> s[n] == COMMA)
  {
    if s == [] || s[0] == COMMA then 0
    else
      var n := 1 + PieceLength(s[1..]);
      assert s[..n] == [s[0]] + s[1..][..n - 1];
      n
  }

  /** The pieces in the order the scan meets them; a comma at the very end opens no piece. */
  function Pieces(s: Bytes): seq<Bytes>
    decreases |s|
  {
    if s == [] then []
    else
      var n := PieceLength(s);
      [s[..n]] + Pieces(if n < |s| then s[n + 1..] else [])
  }

  /** Splitting at every comma. */
  function Split(s: Bytes): (r: seq<Bytes>)
    ensures r != []
    decreases |s|
  {
    var n := PieceLength(s);
    if n < |s| then [s[..n]] + Split(s[n + 1..]) else [s]
  }

  function Join(names: seq<Bytes>): Bytes
  {
    if names == [] then [] else if |names| == 1 then names[0] else names[0] + [COMMA] + Join(names[1..])
  }

  /** The list sent is the comma split, except that one comma at the end is tolerated. */
  lemma {:induction false} PiecesAreSplit(s: Bytes)
    requires s != []
    ensures Split(s) == Pieces(s) + Extra(s)
    decreases |s|
  {
    var n := PieceLength(s);
    if n == |s| {
      LastPiece(s);
    } else {
      var t := s[n + 1..];
      if t != [] { PiecesAreSplit(t); }
      SplitStep(s, n, t);
      Associate([s[..n]], Pieces(t), Extra(s));
    }
  }

  /** The empty piece behind a comma at the very end. */
  function Extra(s: Bytes): seq<Bytes>
    requires s != []
  {
    if s[|s| - 1] == COMMA then [[]] else []
  }

  lemma {:induction false} LastPiece(s: Bytes)
    requires s != [] && PieceLength(s) == |s|
    ensures Split(s) == Pieces(s) + Extra(s)
  {
    assert s[..|s|] == s;
    assert s[|s| - 1] != COMMA;
    assert Pieces([]) == [];
  }

  lemma {:induction false} SplitStep(s: Bytes, n: nat, t: Bytes)
    requires s != [] && n == PieceLength(s) && n < |s| && t == s[n + 1..]
    ensures Split(s) == [s[..n]] + Split(t) && Pieces(s) == [s[..n]] + Pieces(t)
    ensures if t == [] then Extra(s) == [[]] && Pieces(t) == [] && Split(t) == [[]] else Extra(s) == Extra(t)
  {
    hide PieceLength;
    hide Split;
    hide Pieces;
    SplitFirst(s, n, t);
    PiecesFirst(s, n, t);
    EmptyPieces();
    if t != [] {
      assert t[|t| - 1] == s[|s| - 1];
    } else {
      assert s[|s| - 1] == s[n];
    }
  }

  lemma {:induction false} SplitFirst(s: Bytes, n: nat, t: Bytes)
    requires s != [] && n == PieceLength(s) && n < |s| && t == s[n + 1..]
    ensures Split(s) == [s[..n]] + Split(t) && s[n] == COMMA
  {
    hide PieceLength;
    hide Pieces;
  }

  lemma {:induction false} PiecesFirst(s: Bytes, n: nat, t: Bytes)
    requires s != [] && n == PieceLength(s) && n < |s| && t == s[n + 1..]
    ensures Pieces(s) == [s[..n]] + Pieces(t)
  {
    hide PieceLength;
    hide Split;
  }

  lemma {:induction false} EmptyPieces()
    ensures Pieces([]) == [] && Split([]) == [[]]
  {
  }

  lemma {:induction false} PieceOf(name: Bytes, rest: Bytes)
    requires COMMA !in name && (rest != [] ==> rest[0] == COMMA)
    ensures PieceLength(name + rest) == |name|
    decreases |name|
  {
    if name == [] {
      assert name + rest == rest;
    } else {
      assert (name + rest)[1..] == name[1..] + rest;
      PieceOf(name[1..], rest);
    }
  }

  /** Splitting undoes joining. */
  lemma {:induction false} SplitJoin(names: seq<Bytes>)
    requires names != [] && forall x :: x in names ==> COMMA !in x
    ensures Split(Join(names)) == names
    decreases |names|
  {
    var s := Join(names);
    if |names| == 1 {
      PieceOf(names[0], []);
      assert names[0] + [] == names[0];
    } else {
      var tail := [COMMA] + Join(names[1..]);
      assert s == names[0] + tail;
      PieceOf(names[0], tail);
      assert s[..|names[0]|] == names[0] && s[|names[0]| + 1..] == Join(names[1..]);
      SplitJoin(names[1..]);
    }
  }

  predicate NameOk(x: Bytes) { 1 <= |x| <= 255 }

  /** What the first scan accepts. */
  predicate ProtocolsOk(alpn: Bytes)
  {
    (forall x :: x in Pieces(alpn) ==> NameOk(x)) && |NameList(Pieces(alpn))| <= 65535
  }

  // ---- the writer ----

  class Writer {
    const p: array<Byte>
    var n: nat
    var ok: bool
    ghost var wanted: Bytes   // all octets put so far, whether or not there was room

    ghost predicate Valid()
      reads this, p
    {
      && n <= p.Length
      && (ok <==> |wanted| <= p.Length)
      && (ok ==> p[..n] == wanted)
    }

    constructor (out: array<Byte>)
      ensures Valid() && wanted == [] && p == out && ok
    {
      p, n, ok, wanted := out, 0, true, [];
    }

    method Put8(v: Byte)
      requires Valid()
      modifies this`n, this`ok, this`wanted, p
      ensures Valid() && wanted == old(wanted) + [v]
    {
      wanted := wanted + [v];
      if n + 1 > p.Length { ok := false; return; }
      p[n] := v;
      n := n + 1;
    }

    method Put16(v: u16)
      requires Valid()
      modifies this`n, this`ok, this`wanted, p
      ensures Valid() && wanted == old(wanted) + ToBe(v, 2)
    {
      ghost var front := p[..n];
      wanted := wanted + ToBe(v, 2);
      if n + 2 > p.Length { ok := false; return; }
      TwoOctets(v);
      p[n], p[n + 1] := v / 256, v % 256;
      n := n + 2;
      assert p[..n] == front + [v / 256, v % 256];
    }

    method Put24(v: nat)
      requires Valid() && v < 0x100_0000
      modifies this`n, this`ok, this`wanted, p
      ensures Valid() && wanted == old(wanted) + ToBe(v, 3)
    {
      ghost var front := p[..n];
      wanted := wanted + ToBe(v, 3);
      if n + 3 > p.Length { ok := false; return; }
      ThreeOctets(v);
      p[n], p[n + 1], p[n + 2] := v / 65536, v / 256 % 256, v % 256;
      n := n + 3;
      assert p[..n] == front + [v / 65536, v / 256 % 256, v % 256];
    }

    method PutBytes(s: Bytes)
      requires Valid()
      modifies this`n, this`ok, this`wanted, p
      ensures Valid() && wanted == old(wanted) + s
    {
      wanted := wanted + s;
      if n + |s| > p.Length { ok := false; return; }
      ghost var front := p[..n];
      for i := 0 to |s|
        modifies p
        invariant p[..n + i] == front + s[..i]
      {
        p[n + i] := s[i];
      }
      assert s[..|s|] == s;
      n := n + |s|;
    }

    method Patch16(at: nat, v: u16)
      requires Valid() && ok
      modifies this`wanted, p
      ensures Valid() && ok
      ensures at + 2 <= n ==> wanted == old(wanted)[..at] + ToBe(v, 2) + old(wanted)[at + 2..]
      ensures at + 2 > n ==> wanted == old(wanted)
    {
      if at + 2 > n { return; }
      TwoOctets(v);
      p[at], p[at + 1] := v / 256, v % 256;
      wanted := wanted[..at] + ToBe(v, 2) + wanted[at + 2..];
      assert p[..n] == wanted;
    }

    method Patch24(at: nat, v: nat)
      requires Valid() && ok && v < 0x100_0000
      modifies this`wanted, p
      ensures Valid() && ok
      ensures at + 3 <= n ==> wanted == old(wanted)[..at] + ToBe(v, 3) + old(wanted)[at + 3..]
      ensures at + 3 > n ==> wanted == old(wanted)
    {
      if at + 3 > n { return; }
      ThreeOctets(v);
      p[at], p[at + 1], p[at + 2] := v / 65536, v / 256 % 256, v % 256;
      wanted := wanted[..at] + ToBe(v, 3) + wanted[at + 3..];
      assert p[..n] == wanted;
    }
  }

  lemma {:induction false} TwoOctets(v: u16)
    ensures ToBe(v, 2) == [v / 256, v % 256]
  {
    assert ToBe(v / 256, 1) == ToBe(v / 256 / 256, 0) + [v / 256 % 256];
  }

  lemma {:induction false} ThreeOctets(v: nat)
    requires v < 0x100_0000
    ensures v / 65536 < 256 && ToBe(v, 3) == [v / 65536, v / 256 % 256, v % 256]
  {
    assert v / 256 / 256 == v / 65536;
    assert ToBe(v / 65536, 1) == ToBe(v / 65536 / 256, 0) + [v / 65536 % 256];
    assert ToBe(v / 256, 2) == ToBe(v / 65536, 1) + [v / 256 % 256];
  }

  /** (xt_u16) of a size. */
  function Cast16(v: nat): u16 { v % 65536 }

  lemma {:induction false} CastWrites(v: nat)
    ensures ToBe(Cast16(v), 2) == ToBe(v, 2)
  {
    Powers();
    ToBeWraps(v, 2);
  }

  // ---- the extensions ----

  method PutSupportedVersions(w: Writer) returns (ok: bool)
    requires w.Valid()
    modifies w, w.p
    ensures w.Valid() && ok == w.ok
    ensures w.wanted == old(w.wanted) + EncodeExtension(Extension(0x002b, VersionsData()))
  {
    w.Put16(0x002b);
    w.Put16(3);
    w.Put8(2);
    w.Put16(0x0304);
    VersionsBytes(old(w.wanted));
    return w.ok;
  }

  lemma VersionsBytes(s: Bytes)
    ensures s + EncodeExtension(Extension(0x002b, VersionsData()))
      == s + ToBe(0x002b, 2) + ToBe(3, 2) + [2] + ToBe(0x0304, 2)
  {
    OneOctet(2);
    assert VersionsData() == [2] + ToBe(0x0304, 2);
  }

  lemma {:induction false} OneOctet(v: Byte)
    ensures ToBe(v, 1) == [v]
  {
    assert ToBe(v, 1) == ToBe(v / 256, 0) + [v % 256];
  }

  method PutSupportedGroups(w: Writer, preferred: u16) returns (ok: bool)
    requires w.Valid()
    modifies w, w.p
    ensures w.Valid() && ok == w.ok
    ensures w.wanted == old(w.wanted) + EncodeExtension(Extension(0x000a, GroupsData(preferred)))
  {
    hide ToBe;
    var other := if preferred == X25519 then SECP256R1 else X25519;
    w.Put16(0x000a);
    w.Put16(6);
    w.Put16(4);
    w.Put16(preferred);
    w.Put16(other);
    assert w.wanted == old(w.wanted) + (ToBe(0x000a, 2) + (ToBe(6, 2) + (ToBe(4, 2) + (ToBe(preferred, 2) + ToBe(other, 2)))));
    return w.ok;
  }

  method PutSignatureAlgorithms(w: Writer) returns (ok: bool)
    requires w.Valid()
    modifies w, w.p
    ensures w.Valid() && ok == w.ok
    ensures w.wanted == old(w.wanted) + EncodeExtension(Extension(0x000d, SignaturesData()))
  {
    var a: seq<u16> := [0x0804, 0x0809, 0x0403];
    w.Put16(0x000d);
    w.Put16(2 + 6);
    w.Put16(6);
    ghost var before := w.wanted;
    for i := 0 to 3
      modifies w, w.p
      invariant w.Valid() && w.wanted == before + Words(a[..i])
    {
      assert a[..i + 1][..i] == a[..i];
      w.Put16(a[i]);
    }
    assert a[..3] == a;
    SignatureBytes(old(w.wanted), a);
    return w.ok;
  }

  lemma {:induction false} SignatureBytes(s: Bytes, a: seq<u16>)
    requires a == [0x0804, 0x0809, 0x0403]
    ensures s + EncodeExtension(Extension(0x000d, SignaturesData()))
      == s + ToBe(0x000d, 2) + ToBe(8, 2) + ToBe(6, 2) + Words(a)
  {
    ThreeWords(a[0], a[1], a[2]);
    Nested(s, ToBe(0x000d, 2), ToBe(8, 2), ToBe(6, 2), Words(a));
  }

  lemma {:induction false} ThreeWords(x: u16, y: u16, z: u16)
    ensures Words([x, y, z]) == ToBe(x, 2) + ToBe(y, 2) + ToBe(z, 2)
  {
    var a := [x, y, z];
    assert a[..2] == [x, y] && [x, y][..1] == [x] && [x][..0] == [];
    assert Words([x]) == [] + ToBe(x, 2);
  }

  lemma Nested(s: Bytes, a: Bytes, b: Bytes, c: Bytes, d: Bytes)
    ensures s + (a + (b + (c + d))) == s + a + b + c + d
  {
  }

  function Words(a: seq<u16>): Bytes
  {
    if a == [] then [] else Words(a[..|a| - 1]) + ToBe(a[|a| - 1], 2)
  }

  method PutKeyShare(w: Writer, group: u16, key: Bytes) returns (ok: bool)
    requires w.Valid()
    modifies w, w.p
    ensures w.Valid() && ok == w.ok
    ensures w.wanted == old(w.wanted) + EncodeExtension(Extension(0x0033, KeyShareData(group, key)))
  {
    CastWrites(4 + 2 + |key|);
    CastWrites(2 + 2 + |key|);
    CastWrites(|key|);
    w.Put16(0x0033);
    w.Put16(Cast16(4 + 2 + |key|));
    w.Put16(Cast16(2 + 2 + |key|));
    w.Put16(group);
    w.Put16(Cast16(|key|));
    w.PutBytes(key);
    NestDeep(old(w.wanted), ToBe(0x0033, 2), ToBe(6 + |key|, 2), ToBe(4 + |key|, 2), ToBe(group, 2), ToBe(|key|, 2), key);
    return w.ok;
  }

  method PutServerName(w: Writer, host: CString) returns (ok: bool)
    requires w.Valid()
    modifies w, w.p
    ensures w.Valid() && (ok ==> |host| <= 65530)
    ensures !ok ==> |host| > 65530 || !w.ok
    ensures |host| <= 65530 ==> w.wanted == old(w.wanted) + EncodeExtensions(ServerNameExtension(host))
  {
    if host == [] { return true; }
    var h := |host|;
    if h > 65530 { return false; }
    w.Put16(0x0000);
    w.Put16(Cast16(5 + h));
    w.Put16(Cast16(3 + h));
    w.Put8(0);
    w.Put16(Cast16(h));
    w.PutBytes(host);
    CastWrites(5 + h);
    CastWrites(3 + h);
    CastWrites(h);
    OneExtension(Extension(0x0000, ServerNameData(host)));
    NestDeep(old(w.wanted), ToBe(0, 2), ToBe(5 + h, 2), ToBe(3 + h, 2), [0], ToBe(h, 2), host);
    return w.ok;
  }

  lemma OneExtension(e: Extension)
    ensures EncodeExtensions([e]) == EncodeExtension(e)
  {
    assert [e][1..] == [];
    assert EncodeExtension(e) + [] == EncodeExtension(e);
  }

  method PutCookie(w: Writer, cookie: Bytes) returns (ok: bool)
    requires w.Valid() && w.ok
    modifies w, w.p
    ensures w.Valid() && (ok ==> w.ok && |cookie| <= 65535)
    ensures !ok ==> |cookie| > 65535 || !w.ok
    ensures |cookie| <= 65535 ==> w.wanted == old(w.wanted) + EncodeExtensions(CookieExtension(cookie))
  {
    if cookie == [] { return true; }
    if |cookie| > 65535 { return false; }
    w.Put16(0x002c);
    w.Put16(Cast16(2 + |cookie|));
    w.Put16(Cast16(|cookie|));
    w.PutBytes(cookie);
    CastWrites(2 + |cookie|);
    CastWrites(|cookie|);
    OneExtension(Extension(0x002c, Vec16(cookie)));
    assert w.wanted == old(w.wanted) + (ToBe(0x002c, 2) + (ToBe(2 + |cookie|, 2) + (ToBe(|cookie|, 2) + cookie)));
    return w.ok;
  }

  /** The scan that measures the list. */
  method MeasureProtocols(alpn: CString) returns (ok: bool, size: nat)
    requires alpn != []
    ensures ok <==> ProtocolsOk(alpn)
    ensures ok ==> size == |NameList(Pieces(alpn))|
  {
    size := 0;
    var p := 0;
    assert alpn[0..] == alpn;
    while p < |alpn|
      invariant p <= |alpn| && size <= 65535
      invariant |NameList(Pieces(alpn))| == size + |NameList(Pieces(alpn[p..]))|
      invariant (forall x :: x in Pieces(alpn) ==> NameOk(x)) <==> (forall x :: x in Pieces(alpn[p..]) ==> NameOk(x))
    {
      var end := PieceEnd(alpn, p);
      var length := end - p;
      var next := if end < |alpn| then end + 1 else end;
      FirstPiece(alpn, p, end, next);
      if length == 0 || length > 255 {
        assert !NameOk(alpn[p..end]);
        return false, 0;
      }
      size := size + 1 + length;
      if size > 65535 { return false, 0; }
      p := next;
    }
    assert alpn[p..] == [];
    ok := true;
  }

  /** while (*p && *p != ',') ++p; */
  method PieceEnd(s: CString, p: nat) returns (end: nat)
    requires p <= |s|
    ensures p <= end <= |s| && COMMA !in s[p..end] && (end < |s| ==> s[end] == COMMA)
  {
    end := p;
    while end < |s| && s[end] != COMMA
      invariant p <= end <= |s| && COMMA !in s[p..end]
    {
      end := end + 1;
    }
  }

  lemma FirstPiece(s: Bytes, p: nat, end: nat, next: nat)
    requires p < |s| && p <= end <= |s| && COMMA !in s[p..end] && (end < |s| ==> s[end] == COMMA)
    requires next == if end < |s| then end + 1 else end
    ensures Pieces(s[p..]) == [s[p..end]] + Pieces(s[next..])
    ensures NameList(Pieces(s[p..])) == Vec8(s[p..end]) + NameList(Pieces(s[next..]))
    ensures (forall x :: x in Pieces(s[p..]) ==> NameOk(x)) <==>
      NameOk(s[p..end]) && forall x :: x in Pieces(s[next..]) ==> NameOk(x)
  {
    var t := s[p..];
    assert t == s[p..end] + s[end..];
    PieceOf(s[p..end], s[end..]);
    assert t[..end - p] == s[p..end];
    assert (if end - p < |t| then t[end - p + 1..] else []) == s[next..];
    assert Pieces(t)[1..] == Pieces(s[next..]);
    assert Pieces(t)[0] == s[p..end];
  }

  method PutProtocols(w: Writer, alpn: CString) returns (ok: bool)
    requires w.Valid() && w.ok
    modifies w, w.p
    ensures w.Valid() && (ok ==> w.ok && (alpn == [] || ProtocolsOk(alpn)))
    ensures !ok ==> !w.ok || !(alpn == [] || ProtocolsOk(alpn))
    ensures alpn == [] || ProtocolsOk(alpn) ==>
      w.wanted == old(w.wanted) + EncodeExtensions(ProtocolsExtension(alpn))
  {
    if alpn == [] { return true; }
    var fine, size := MeasureProtocols(alpn);
    if !fine { return false; }
    PutProtocolList(w, alpn, size);
    return w.ok;
  }

  method PutProtocolList(w: Writer, alpn: CString, size: nat)
    requires w.Valid() && alpn != [] && ProtocolsOk(alpn) && size == |NameList(Pieces(alpn))|
    modifies w, w.p
    ensures w.Valid() && w.wanted == old(w.wanted) + EncodeExtensions(ProtocolsExtension(alpn))
  {
    w.Put16(0x0010);
    w.Put16(Cast16(2 + size));
    w.Put16(Cast16(size));
    CastWrites(2 + size);
    CastWrites(size);
    OneExtension(Extension(0x0010, ProtocolsData(Pieces(alpn))));
    Nested(old(w.wanted), ToBe(0x0010, 2), ToBe(2 + size, 2), ToBe(size, 2), NameList(Pieces(alpn)));
    PutNames(w, alpn);
  }

  lemma NestDeep(s: Bytes, a: Bytes, b: Bytes, c: Bytes, d: Bytes, e: Bytes, f: Bytes)
    ensures s + a + b + c + d + e + f == s + (a + (b + (c + (d + (e + f)))))
  {
  }

  /** The second scan writes each piece behind its length. */
  method PutNames(w: Writer, alpn: CString)
    requires w.Valid() && ProtocolsOk(alpn)
    modifies w, w.p
    ensures w.Valid() && w.wanted == old(w.wanted) + NameList(Pieces(alpn))
  {
    var p := 0;
    assert alpn[0..] == alpn;
    while p < |alpn|
      modifies w, w.p
      invariant p <= |alpn| && w.Valid()
      invariant forall x :: x in Pieces(alpn[p..]) ==> NameOk(x)
      invariant w.wanted + NameList(Pieces(alpn[p..])) == old(w.wanted) + NameList(Pieces(alpn))
    {
      var end := PieceEnd(alpn, p);
      var next := if end < |alpn| then end + 1 else end;
      FirstPiece(alpn, p, end, next);
      Associate(w.wanted, Vec8(alpn[p..end]), NameList(Pieces(alpn[next..])));
      PutName(w, alpn[p..end]);
      p := next;
    }
    assert alpn[p..] == [];
  }

  method PutName(w: Writer, name: Bytes)
    requires w.Valid() && NameOk(name)
    modifies w, w.p
    ensures w.Valid() && w.wanted == old(w.wanted) + Vec8(name)
  {
    OneOctet(|name|);
    w.Put8(|name|);
    w.PutBytes(name);
  }

  // ---- the whole message ----

  lemma {:induction false} ExtensionsConcat(a: seq<Extension>, b: seq<Extension>)
    ensures EncodeExtensions(a + b) == EncodeExtensions(a) + EncodeExtensions(b)
  {
    if a == [] {
      assert a + b == b;
    } else {
      assert (a + b)[1..] == a[1..] + b;
      ExtensionsConcat(a[1..], b);
    }
  }

  /** One extension more. */
  lemma {:induction false} Appended(a: seq<Extension>, e: Extension)
    ensures EncodeExtensions(a + [e]) == EncodeExtensions(a) + EncodeExtension(e)
  {
    ExtensionsConcat(a, [e]);
    OneExtension(e);
  }

  predicate ArgumentsOk(p: Params)
  {
    |p.random| == 32 && |p.sessionId| <= 32 && 1 <= |p.keyShare| <= 65535
  }

  predicate PiecesOk(p: Params)
  {
    |p.serverName| <= 65530 && |p.cookie| <= 65535 && (p.alpn == [] || ProtocolsOk(p.alpn))
  }

  lemma Chain(s: Bytes, a: Bytes, b: Bytes, c: Bytes, d: Bytes)
    ensures s + a + b + c + d == s + (a + b + c + d)
  {
  }

  lemma ChainLengths(s: Bytes, a: Bytes, b: Bytes, c: Bytes, d: Bytes)
    ensures |s + a| <= |s + a + b| <= |s + a + b + c| <= |s + a + b + c + d| == |s| + |a + b + c + d|
  {
  }

  /** The four extensions that are always there. */
  method PutAlways(w: Writer, p: Params) returns (ok: bool)
    requires w.Valid()
    modifies w, w.p
    ensures w.Valid() && (ok ==> w.ok)
    ensures !ok ==> !w.ok && |w.wanted| <= |old(w.wanted) + EncodeExtensions(Always(p))|
    ensures ok ==> w.wanted == old(w.wanted) + EncodeExtensions(Always(p))
  {
    ghost var s := w.wanted;
    AlwaysBytes(p);
    ghost var a := EncodeExtension(Extension(0x002b, VersionsData()));
    ghost var b := EncodeExtension(Extension(0x000a, GroupsData(p.group)));
    ghost var c := EncodeExtension(Extension(0x000d, SignaturesData()));
    ghost var d := EncodeExtension(Extension(0x0033, KeyShareData(p.group, p.keyShare)));
    Chain(s, a, b, c, d);
    ChainLengths(s, a, b, c, d);
    ok := PutSupportedVersions(w);
    if !ok { return; }
    ok := PutSupportedGroups(w, p.group);
    if !ok { return; }
    ok := PutSignatureAlgorithms(w);
    if !ok { return; }
    ok := PutKeyShare(w, p.group, p.keyShare);
  }

  function Always(p: Params): seq<Extension>
  {
    [Extension(0x002b, VersionsData())]
    + [Extension(0x000a, GroupsData(p.group))]
    + [Extension(0x000d, SignaturesData())]
    + [Extension(0x0033, KeyShareData(p.group, p.keyShare))]
  }

  lemma AlwaysBytes(p: Params)
    ensures EncodeExtensions(Always(p)) == EncodeExtension(Extension(0x002b, VersionsData()))
      + EncodeExtension(Extension(0x000a, GroupsData(p.group)))
      + EncodeExtension(Extension(0x000d, SignaturesData()))
      + EncodeExtension(Extension(0x0033, KeyShareData(p.group, p.keyShare)))
  {
    var a := [Extension(0x002b, VersionsData())];
    var b := a + [Extension(0x000a, GroupsData(p.group))];
    var c := b + [Extension(0x000d, SignaturesData())];
    OneExtension(Extension(0x002b, VersionsData()));
    Appended(a, Extension(0x000a, GroupsData(p.group)));
    Appended(b, Extension(0x000d, SignaturesData()));
    Appended(c, Extension(0x0033, KeyShareData(p.group, p.keyShare)));
  }

  lemma ExtensionsBytes(p: Params)
    ensures EncodeExtensions(Extensions(p)) == EncodeExtensions(ServerNameExtension(p.serverName))
      + EncodeExtensions(Always(p)) + EncodeExtensions(CookieExtension(p.cookie)) + EncodeExtensions(ProtocolsExtension(p.alpn))
  {
    var a, b, c, d := ServerNameExtension(p.serverName), Always(p), CookieExtension(p.cookie), ProtocolsExtension(p.alpn);
    assert Extensions(p) == a + b + c + d;
    ExtensionsConcat(a, b);
    ExtensionsConcat(a + b, c);
    ExtensionsConcat(a + b + c, d);
  }

  method PutExtensions(w: Writer, p: Params) returns (ok: bool)
    requires w.Valid()
    modifies w, w.p
    ensures w.Valid()
    ensures ok ==> w.ok && PiecesOk(p) && w.wanted == old(w.wanted) + EncodeExtensions(Extensions(p))
    ensures !ok ==> !PiecesOk(p) || |old(w.wanted)| + |EncodeExtensions(Extensions(p))| > w.p.Length
  {
    ExtensionsBytes(p);
    ghost var s := w.wanted;
    ghost var a, b := EncodeExtensions(ServerNameExtension(p.serverName)), EncodeExtensions(Always(p));
    ghost var c, d := EncodeExtensions(CookieExtension(p.cookie)), EncodeExtensions(ProtocolsExtension(p.alpn));
    Chain(s, a, b, c, d);
    ChainLengths(s, a, b, c, d);
    ok := PutServerName(w, p.serverName);
    if !ok { return; }
    ok := PutAlways(w, p);
    if !ok { return; }
    ok := PutCookie(w, p.cookie);
    if !ok { return; }
    ok := PutProtocols(w, p.alpn);
  }

  method PutPrefix(w: Writer, p: Params) returns (hsLen: nat, extLen: nat, extStart: nat)
    requires w.Valid() && w.wanted == [] && ArgumentsOk(p)
    modifies w, w.p
    ensures w.Valid() && w.wanted == [1] + [0, 0, 0] + Prefix(p) + [0, 0]
    ensures w.ok ==> hsLen == 1 && extLen == 4 + |Prefix(p)| && extStart == extLen + 2
  {
    w.Put8(1);
    hsLen := w.n;
    w.Put24(0);
    w.Put16(0x0303);
    w.PutBytes(p.random);
    OneOctet(|p.sessionId|);
    w.Put8(|p.sessionId|);
    w.PutBytes(p.sessionId);
    w.Put16(2);
    w.Put16(TLS_AES_128_GCM_SHA256);
    w.Put8(1);
    w.Put8(0);
    PrefixBytes(p);
    ThreeOctets(0);
    assert w.wanted == [1] + [0, 0, 0] + Prefix(p);
    extLen := w.n;
    w.Put16(0);
    TwoOctets(0);
    extStart := w.n;
  }

  lemma PrefixBytes(p: Params)
    requires |p.sessionId| <= 32
    ensures [1] + [0, 0, 0] + Prefix(p) == [] + [1] + [0, 0, 0] + ToBe(0x0303, 2) + p.random + [|p.sessionId|] + p.sessionId
      + ToBe(2, 2) + ToBe(TLS_AES_128_GCM_SHA256, 2) + [1] + [0]
  {
    OneOctet(|p.sessionId|);
    OneOctet(1);
  }

  function BuildError(p: Params, capacity: nat): Error
  {
    if !ArgumentsOk(p) then INVALID_ARGUMENT
    else if !PiecesOk(p) || |Encode(p)| > capacity then BUFFER_TOO_SMALL
    else if |EncodeExtensions(Extensions(p))| > 65535 then INVALID_ARGUMENT
    else OK
  }

  method Build(p: Params, out: array<Byte>) returns (e: Error, written: nat)
    modifies out
    ensures e == BuildError(p, out.Length)
    ensures e == OK ==> written <= out.Length && out[..written] == Encode(p)
    ensures e != OK ==> written == 0
  {
    if |p.random| != 32 || |p.sessionId| > 32 || p.keyShare == [] || |p.keyShare| > 65535 { return INVALID_ARGUMENT, 0; }
    var w := new Writer(out);
    var hsLen, extLen, extStart := PutPrefix(w, p);
    var ok := PutExtensions(w, p);
    if !ok { return BUFFER_TOO_SMALL, 0; }
    ghost var draft := w.wanted;
    var exts := w.n - extStart;
    if exts > 65535 { return INVALID_ARGUMENT, 0; }
    w.Patch16(extLen, exts);
    ghost var half := w.wanted;
    var body := w.n - (hsLen + 3);
    assert body <= 0xffffff;   // 65535 octets of extensions leave the body far below the source's last limit
    w.Patch24(hsLen, body);
    Patched(p, draft, half, exts, body);
    return OK, w.n;
  }

  lemma {:induction false} Patched(p: Params, draft: Bytes, half: Bytes, exts: nat, body: nat)
    requires draft == [1] + [0, 0, 0] + Prefix(p) + [0, 0] + EncodeExtensions(Extensions(p))
    requires exts == |EncodeExtensions(Extensions(p))| && body == |draft| - 4 && half == Cut(draft, 4 + |Prefix(p)|, exts)
    ensures |half| >= 4 && half[..1] + ToBe(body, 3) + half[4..] == Encode(p)
  {
    hide Prefix;
    hide Extensions;
    hide EncodeExtensions;
    PatchedArith(Prefix(p), EncodeExtensions(Extensions(p)), ToBe(exts, 2), ToBe(body, 3), draft, half);
  }

  /** Two octets replaced at `at`. */
  function Cut(s: Bytes, at: nat, v: nat): Bytes
    requires at + 2 <= |s|
  {
    s[..at] + ToBe(v, 2) + s[at + 2..]
  }

  lemma PatchedArith(prefix: Bytes, x: Bytes, two: Bytes, three: Bytes, draft: Bytes, half: Bytes)
    requires |two| == 2 && |three| == 3 && draft == [1] + [0, 0, 0] + prefix + [0, 0] + x
    requires half == draft[..4 + |prefix|] + two + draft[4 + |prefix| + 2..]
    ensures half[..1] + three + half[4..] == [1] + (three + (prefix + (two + x)))
  {
    var at := 4 + |prefix|;
    assert draft[..at] == [1, 0, 0, 0] + prefix && draft[at + 2..] == x;
    assert half == [1, 0, 0, 0] + (prefix + two + x);
    assert half[4..] == prefix + two + x;
  }
}
