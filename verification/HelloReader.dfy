/** Reading a ClientHello the way a server does, and why every hello that is built reads back. */
module HelloReader {
  import opened Bits
  import opened Types
  import opened ClientHello

  // ---- vectors ----

  /** A vector behind a length of `k` octets, and what follows it. */
  function Take(s: Bytes, k: nat): Option<(Bytes, Bytes)>
  {
    if |s| < k then None
    else
      var n := Be(s[..k]);
      if |s| < k + n then None else Some((s[k..k + n], s[k + n..]))
  }

  lemma {:induction false} TakeVector(k: nat, x: Bytes, rest: Bytes)
    requires |x| < Pow2(8 * k)
    ensures Take(ToBe(|x|, k) + x + rest, k) == Some((x, rest))
  {
    var s := ToBe(|x|, k) + x + rest;
    BeOfToBe(|x|, k);
    assert s[..k] == ToBe(|x|, k);
    assert s[k..k + |x|] == x && s[k + |x|..] == rest;
  }

  /** The whole of `s` as one vector. */
  function TakeAll(s: Bytes, k: nat): Option<Bytes>
  {
    match Take(s, k)
    case None => None
    case Some(t) => if t.1 == [] then Some(t.0) else None
  }

  lemma {:induction false} TakeAllVector(k: nat, x: Bytes)
    requires |x| < Pow2(8 * k)
    ensures TakeAll(ToBe(|x|, k) + x, k) == Some(x)
  {
    TakeVector(k, x, []);
    assert ToBe(|x|, k) + x + [] == ToBe(|x|, k) + x;
  }

  function ReadVectors(s: Bytes, k: nat): Option<seq<Bytes>>
    requires k > 0
    decreases |s|
  {
    if s == [] then Some([])
    else match Take(s, k)
      case None => None
      case Some(t) =>
        match ReadVectors(t.1, k)
        case None => None
        case Some(more) => Some([t.0] + more)
  }

  lemma {:induction false} ReadNames(names: seq<Bytes>)
    requires forall x :: x in names ==> NameOk(x)
    ensures ReadVectors(NameList(names), 1) == Some(names)
  {
    if names == [] {
    } else {
      Powers();
      assert NameOk(names[0]);
      TakeVector(1, names[0], NameList(names[1..]));
      ReadNames(names[1..]);
      assert names == [names[0]] + names[1..];
    }
  }

  // ---- extensions ----

  function ReadExtensions(s: Bytes): Option<seq<Extension>>
    decreases |s|
  {
    if s == [] then Some([])
    else if |s| < 2 then None
    else match Take(s[2..], 2)
      case None => None
      case Some(t) =>
        match ReadExtensions(t.1)
        case None => None
        case Some(more) => Some([ReadExtension(s[..2], t.0)] + more)
  }

  function ReadExtension(kind: Bytes, data: Bytes): Extension
    requires |kind| == 2
  {
    BeBound(kind);
    Powers();
    Extension(Be(kind), data)
  }

  /** Extensions whose encodings together stay below 2^16 octets all read back. */
  lemma {:induction false} ExtensionsReadBack(es: seq<Extension>)
    requires |EncodeExtensions(es)| <= 65535
    ensures ReadExtensions(EncodeExtensions(es)) == Some(es)
  {
    if es == [] {
    } else {
      var e, rest := es[0], EncodeExtensions(es[1..]);
      var s := EncodeExtensions(es);
      assert s == ToBe(e.kind, 2) + (ToBe(|e.data|, 2) + e.data + rest);
      assert s[..2] == ToBe(e.kind, 2) && s[2..] == ToBe(|e.data|, 2) + e.data + rest;
      Powers();
      BeOfToBe(e.kind, 2);
      TakeVector(2, e.data, rest);
      ExtensionsReadBack(es[1..]);
      assert es == [e] + es[1..];
    }
  }

  lemma {:induction false} DataFits(es: seq<Extension>, e: Extension)
    requires e in es
    ensures |e.data| + 4 <= |EncodeExtensions(es)|
  {
    if e != es[0] {
      DataFits(es[1..], e);
    }
  }

  // ---- the message ----

  datatype Hello = Hello(random: Bytes, sessionId: Bytes, suites: Bytes, compression: Bytes, extensions: seq<Extension>)

  function ReadHello(s: Bytes): Option<Hello>
  {
    if |s| < 1 || s[0] != 1 then None
    else match TakeAll(s[1..], 3)
      case None => None
      case Some(body) => ReadBody(body)
  }

  function ReadBody(s: Bytes): Option<Hello>
  {
    if |s| < 34 || Be(s[..2]) != 0x0303 then None
    else match ReadVectorsOf(s[34..])
      case None => None
      case Some(v) =>
        match ReadExtensions(v.3)
        case None => None
        case Some(es) => Some(Hello(s[2..34], v.0, v.1, v.2, es))
  }

  /** Session id, cipher suites, compression methods and extensions. */
  function ReadVectorsOf(s: Bytes): Option<(Bytes, Bytes, Bytes, Bytes)>
  {
    match Take(s, 1)
    case None => None
    case Some(sid) =>
      match Take(sid.1, 2)
      case None => None
      case Some(suites) =>
        match Take(suites.1, 1)
        case None => None
        case Some(compression) =>
          match TakeAll(compression.1, 2)
          case None => None
          case Some(exts) => Some((sid.0, suites.0, compression.0, exts))
  }

  lemma VectorsReadBack(sid: Bytes, suites: Bytes, compression: Bytes, exts: Bytes)
    requires |sid| <= 255 && |suites| <= 65535 && |compression| <= 255 && |exts| <= 65535
    ensures ReadVectorsOf(Vec8(sid) + (Vec16(suites) + (Vec8(compression) + Vec16(exts)))) == Some((sid, suites, compression, exts))
  {
    Powers();
    TakeVector(1, sid, Vec16(suites) + (Vec8(compression) + Vec16(exts)));
    TakeVector(2, suites, Vec8(compression) + Vec16(exts));
    TakeVector(1, compression, Vec16(exts));
    TakeAllVector(2, exts);
  }

  ghost predicate Sendable(p: Params)
  {
    ArgumentsOk(p) && PiecesOk(p) && |EncodeExtensions(Extensions(p))| <= 65535
  }

  lemma BodyReadsBack(p: Params)
    requires Sendable(p)
    ensures ReadBody(Prefix(p) + Vec16(EncodeExtensions(Extensions(p))))
      == Some(Hello(p.random, p.sessionId, ToBe(TLS_AES_128_GCM_SHA256, 2), [0], Extensions(p)))
  {
    var exts := EncodeExtensions(Extensions(p));
    var suites := ToBe(TLS_AES_128_GCM_SHA256, 2);
    var tail := Vec8(p.sessionId) + (Vec16(suites) + (Vec8([0]) + Vec16(exts)));
    var s := Prefix(p) + Vec16(exts);
    BodyShape(p, s, tail);
    Powers();
    BeOfToBe(0x0303, 2);
    VectorsReadBack(p.sessionId, suites, [0], exts);
    ExtensionsReadBack(Extensions(p));
  }

  lemma BodyShape(p: Params, s: Bytes, tail: Bytes)
    requires |p.random| == 32
    requires s == Prefix(p) + Vec16(EncodeExtensions(Extensions(p)))
    requires tail == Vec8(p.sessionId) + (Vec16(ToBe(TLS_AES_128_GCM_SHA256, 2))
                     + (Vec8([0]) + Vec16(EncodeExtensions(Extensions(p)))))
    ensures |s| >= 34 && s[..2] == ToBe(0x0303, 2) && s[2..34] == p.random && s[34..] == tail
  {
    var suites := ToBe(TLS_AES_128_GCM_SHA256, 2);
    Nested(ToBe(0x0303, 2) + p.random, Vec8(p.sessionId), Vec16(suites), Vec8([0]), Vec16(EncodeExtensions(Extensions(p))));
    HeadSlices(ToBe(0x0303, 2), p.random, tail);
  }

  lemma HeadSlices(v: Bytes, r: Bytes, t: Bytes)
    requires |v| == 2 && |r| == 32
    ensures (v + r + t)[..2] == v && (v + r + t)[2..34] == r && (v + r + t)[34..] == t
  {
  }

  /** Every length prefix of a hello that is built covers exactly its contents, so it reads back. */
  lemma HelloReadsBack(p: Params)
    requires Sendable(p)
    ensures ReadHello(Encode(p))
      == Some(Hello(p.random, p.sessionId, ToBe(TLS_AES_128_GCM_SHA256, 2), [0], Extensions(p)))
  {
    var body := Prefix(p) + Vec16(EncodeExtensions(Extensions(p)));
    assert Encode(p)[1..] == ToBe(|body|, 3) + body;
    Powers();
    TakeAllVector(3, body);
    BodyReadsBack(p);
  }

  // ---- the parameters behind the extensions ----

  function Find(es: seq<Extension>, kind: u16): Option<Bytes>
  {
    if es == [] then None else if es[0].kind == kind then Some(es[0].data) else Find(es[1..], kind)
  }

  function ServerNameOf(h: Hello): Option<Bytes>
  {
    match Find(h.extensions, 0x0000)
    case None => None
    case Some(data) =>
      match TakeAll(data, 2)
      case None => None
      case Some(list) => if list == [] || list[0] != 0 then None else TakeAll(list[1..], 2)
  }

  function ProtocolsOf(h: Hello): Option<seq<Bytes>>
  {
    match Find(h.extensions, 0x0010)
    case None => None
    case Some(data) =>
      match TakeAll(data, 2)
      case None => None
      case Some(list) => ReadVectors(list, 1)
  }

  function CookieOf(h: Hello): Option<Bytes>
  {
    match Find(h.extensions, 0x002c)
    case None => None
    case Some(data) => TakeAll(data, 2)
  }

  /** The one key share, with its group. */
  function KeyShareOf(h: Hello): Option<(nat, Bytes)>
  {
    match Find(h.extensions, 0x0033)
    case None => None
    case Some(data) =>
      match TakeAll(data, 2)
      case None => None
      case Some(list) =>
        if |list| < 2 then None
        else match TakeAll(list[2..], 2)
          case None => None
          case Some(key) => Some((Be(list[..2]), key))
  }

  lemma {:induction false} FindConcat(a: seq<Extension>, b: seq<Extension>, kind: u16)
    ensures Find(a + b, kind) == if Find(a, kind).Some? then Find(a, kind) else Find(b, kind)
  {
    if a == [] {
      assert a + b == b;
    } else {
      assert (a + b)[1..] == a[1..] + b;
      FindConcat(a[1..], b, kind);
    }
  }

  /** Each extension of a built hello is found under its own type. */
  lemma {:induction false} FoundKind(p: Params, kind: u16)
    ensures Find(Extensions(p), kind) == (
      if kind == 0x0000 && p.serverName != [] then Some(ServerNameData(p.serverName))
      else if kind == 0x002b then Some(VersionsData())
      else if kind == 0x000a then Some(GroupsData(p.group))
      else if kind == 0x000d then Some(SignaturesData())
      else if kind == 0x0033 then Some(KeyShareData(p.group, p.keyShare))
      else if kind == 0x002c && p.cookie != [] then Some(Vec16(p.cookie))
      else if kind == 0x0010 && p.alpn != [] then Some(ProtocolsData(Pieces(p.alpn)))
      else None)
  {
    hide VersionsData;
    hide GroupsData;
    hide SignaturesData;
    hide KeyShareData;
    hide ServerNameData;
    hide ProtocolsData;
    hide Vec16;
    hide Pieces;
    hide Always;
    var a, b, c, d := ServerNameExtension(p.serverName), Always(p), CookieExtension(p.cookie), ProtocolsExtension(p.alpn);
    AlwaysBetween(p);
    FindConcat(a + b + c, d, kind);
    FindConcat(a + b, c, kind);
    FindConcat(a, b, kind);
    FindAlways(p, kind);
  }

  lemma AlwaysBetween(p: Params)
    ensures Extensions(p)
         == ServerNameExtension(p.serverName) + Always(p) + CookieExtension(p.cookie) + ProtocolsExtension(p.alpn)
  {
  }

  lemma {:induction false} FindAlways(p: Params, kind: u16)
    ensures Find(Always(p), kind) == (
      if kind == 0x002b then Some(VersionsData())
      else if kind == 0x000a then Some(GroupsData(p.group))
      else if kind == 0x000d then Some(SignaturesData())
      else if kind == 0x0033 then Some(KeyShareData(p.group, p.keyShare))
      else None)
  {
    var a, b := Extension(0x002b, VersionsData()), Extension(0x000a, GroupsData(p.group));
    var c, d := Extension(0x000d, SignaturesData()), Extension(0x0033, KeyShareData(p.group, p.keyShare));
    assert Always(p) == [a] + [b] + [c] + [d];
    FindConcat([a] + [b] + [c], [d], kind);
    FindConcat([a] + [b], [c], kind);
    FindConcat([a], [b], kind);
    FindOne(a, kind);
    FindOne(b, kind);
    FindOne(c, kind);
    FindOne(d, kind);
  }

  lemma {:induction false} FindOne(e: Extension, kind: u16)
    ensures Find([e], kind) == if e.kind == kind then Some(e.data) else None
  {
    assert [e][1..] == [];
  }

  /** Reading a built hello gives back the parameters it was built from. */
  lemma ParametersReadBack(p: Params, capacity: nat)
    requires BuildError(p, capacity) == OK
    ensures ReadHello(Encode(p)).Some?
    ensures var h := ReadHello(Encode(p)).value;
      && h.random == p.random && h.sessionId == p.sessionId
      && ServerNameOf(h) == (if p.serverName == [] then None else Option<Bytes>.Some(p.serverName))
      && KeyShareOf(h) == Some((p.group as nat, p.keyShare))
      && CookieOf(h) == (if p.cookie == [] then None else Some(p.cookie))
      && ProtocolsOf(h) == (if p.alpn == [] then None else Some(Pieces(p.alpn)))
  {
    HelloReadsBack(p);
    var h := ReadHello(Encode(p)).value;
    ServerNameReadsBack(p, h);
    KeyShareReadsBack(p, h);
    CookieReadsBack(p, h);
    ProtocolsReadBack(p, h);
  }

  lemma ServerNameReadsBack(p: Params, h: Hello)
    requires h.extensions == Extensions(p) && Sendable(p)
    ensures ServerNameOf(h) == (if p.serverName == [] then None else Option<Bytes>.Some(p.serverName))
  {
    FoundKind(p, 0x0000);
    if p.serverName != [] { ServerNameBack(p.serverName); }
  }

  lemma KeyShareReadsBack(p: Params, h: Hello)
    requires h.extensions == Extensions(p) && Sendable(p)
    ensures KeyShareOf(h) == Some((p.group as nat, p.keyShare))
  {
    FoundKind(p, 0x0033);
    KeyShareBack(p);
  }

  lemma CookieReadsBack(p: Params, h: Hello)
    requires h.extensions == Extensions(p) && Sendable(p)
    ensures CookieOf(h) == (if p.cookie == [] then None else Some(p.cookie))
  {
    FoundKind(p, 0x002c);
    Powers();
    TakeAllVector(2, p.cookie);
  }

  lemma ProtocolsReadBack(p: Params, h: Hello)
    requires h.extensions == Extensions(p) && Sendable(p)
    ensures ProtocolsOf(h) == (if p.alpn == [] then None else Some(Pieces(p.alpn)))
  {
    FoundKind(p, 0x0010);
    if p.alpn != [] { ProtocolsBack(p.alpn); }
  }

  lemma ServerNameBack(host: Bytes)
    requires 0 < |host| <= 65530
    ensures TakeAll(ServerNameData(host), 2) == Some([0] + Vec16(host)) && TakeAll(Vec16(host), 2) == Some(host)
    ensures ([0] + Vec16(host))[1..] == Vec16(host)
  {
    Powers();
    TakeAllVector(2, host);
    TakeAllVector(2, [0] + Vec16(host));
  }

  lemma KeyShareBack(p: Params)
    requires Sendable(p)
    ensures var list := ToBe(p.group, 2) + Vec16(p.keyShare);
      && TakeAll(KeyShareData(p.group, p.keyShare), 2) == Some(list)
      && TakeAll(list[2..], 2) == Some(p.keyShare) && Be(list[..2]) == p.group
  {
    var list := ToBe(p.group, 2) + Vec16(p.keyShare);
    Powers();
    var e := Extension(0x0033, KeyShareData(p.group, p.keyShare));
    KeyShareSent(p);
    DataFits(Extensions(p), e);
    TakeAllVector(2, list);
    assert list[2..] == Vec16(p.keyShare) && list[..2] == ToBe(p.group, 2);
    TakeAllVector(2, p.keyShare);
    BeOfToBe(p.group, 2);
  }

  lemma KeyShareSent(p: Params)
    ensures Extension(0x0033, KeyShareData(p.group, p.keyShare)) in Extensions(p)
  {
    var es := Extensions(p);
    var k := |ServerNameExtension(p.serverName)| + 3;
    assert es[k] == Extension(0x0033, KeyShareData(p.group, p.keyShare));
  }

  lemma {:induction false} ProtocolsBack(alpn: Bytes)
    requires ProtocolsOk(alpn)
    ensures TakeAll(ProtocolsData(Pieces(alpn)), 2) == Some(NameList(Pieces(alpn)))
    ensures ReadVectors(NameList(Pieces(alpn)), 1) == Some(Pieces(alpn))
  {
    Powers();
    TakeAllVector(2, NameList(Pieces(alpn)));
    ReadNames(Pieces(alpn));
  }

  // ---- lists of 16-bit numbers ----

  function Numbers(s: Bytes): Option<seq<nat>>
    decreases |s|
  {
    if s == [] then Some([])
    else if |s| < 2 then None
    else match Numbers(s[2..])
      case None => None
      case Some(more) => Some([Be(s[..2])] + more)
  }

  lemma {:induction false} NumbersFirst(v: nat, rest: Bytes)
    requires v < 65536 && Numbers(rest).Some?
    ensures Numbers(ToBe(v, 2) + rest) == Some([v] + Numbers(rest).value)
  {
    hide ToBe;
    hide Be;
    hide Pow2;
    var s := ToBe(v, 2) + rest;
    Powers();
    BeOfToBe(v, 2);
    assert s[..2] == ToBe(v, 2) && s[2..] == rest;
  }

  function VersionsOf(h: Hello): Option<seq<nat>>
  {
    match Find(h.extensions, 0x002b)
    case None => None
    case Some(data) => match TakeAll(data, 1) case None => None case Some(list) => Numbers(list)
  }

  function GroupsOf(h: Hello): Option<seq<nat>> { ListOf(h, 0x000a) }

  function SignaturesOf(h: Hello): Option<seq<nat>> { ListOf(h, 0x000d) }

  function ListOf(h: Hello, kind: u16): Option<seq<nat>>
  {
    match Find(h.extensions, kind)
    case None => None
    case Some(data) => match TakeAll(data, 2) case None => None case Some(list) => Numbers(list)
  }

  lemma {:induction false} OneNumber(a: nat)
    requires a < 65536
    ensures Numbers(ToBe(a, 2)) == Some([a])
  {
    hide ToBe;
    assert Numbers([]) == Some([]);
    NumbersFirst(a, []);
    assert ToBe(a, 2) + [] == ToBe(a, 2);
    assert [a] + [] == [a];
  }

  lemma {:induction false} TwoNumbers(a: nat, b: nat)
    requires a < 65536 && b < 65536
    ensures Numbers(ToBe(a, 2) + ToBe(b, 2)) == Some([a, b])
  {
    hide ToBe;
    hide Numbers;
    OneNumber(b);
    NumbersFirst(a, ToBe(b, 2));
    assert [a] + [b] == [a, b];
  }

  lemma {:induction false} ThreeNumbers(a: nat, b: nat, c: nat)
    requires a < 65536 && b < 65536 && c < 65536
    ensures Numbers(ToBe(a, 2) + ToBe(b, 2) + ToBe(c, 2)) == Some([a, b, c])
  {
    hide ToBe;
    hide Numbers;
    TwoNumbers(b, c);
    assert [a] + [b, c] == [a, b, c];
    NumbersFirst(a, ToBe(b, 2) + ToBe(c, 2));
    Associate(ToBe(a, 2), ToBe(b, 2), ToBe(c, 2));
  }

  /** TLS 1.3 and TLS_AES_128_GCM_SHA256 and nothing else, the group of the key share and then the other one, and
      rsa_pss_rsae_sha256, rsa_pss_pss_sha256 and ecdsa_secp256r1_sha256: what a server finds offered. */
  lemma OffersReadBack(p: Params, capacity: nat)
    requires BuildError(p, capacity) == OK
    ensures ReadHello(Encode(p)).Some?
    ensures var h := ReadHello(Encode(p)).value;
      && VersionsOf(h) == Some([0x0304]) && Numbers(h.suites) == Some([0x1301]) && h.compression == [0]
      && GroupsOf(h) == Some([p.group, if p.group == 0x001d then 0x0017 else 0x001d])
      && SignaturesOf(h) == Some([0x0804, 0x0809, 0x0403])
  {
    hide Find;
    hide Encode;
    hide ReadHello;
    hide Extensions;
    hide Numbers;
    hide ToBe;
    HelloReadsBack(p);
    FoundKind(p, 0x002b);
    FoundKind(p, 0x000a);
    FoundKind(p, 0x000d);
    OneNumber(TLS_AES_128_GCM_SHA256);
    ListsTaken(p.group);
  }

  lemma ListsTaken(group: u16)
    ensures var other := if group == 0x001d then 0x0017 else 0x001d;
      && TakeAll(VersionsData(), 1) == Some(ToBe(0x0304, 2))
      && TakeAll(GroupsData(group), 2) == Some(ToBe(group, 2) + ToBe(other, 2))
      && TakeAll(SignaturesData(), 2) == Some(ToBe(0x0804, 2) + ToBe(0x0809, 2) + ToBe(0x0403, 2))
      && Numbers(ToBe(0x0304, 2)) == Some([0x0304]) && Numbers(ToBe(group, 2) + ToBe(other, 2)) == Some([group, other])
      && Numbers(ToBe(0x0804, 2) + ToBe(0x0809, 2) + ToBe(0x0403, 2)) == Some([0x0804, 0x0809, 0x0403])
  {
    hide Numbers;
    hide ToBe;
    hide TakeAll;
    hide Pow2;
    var other := if group == 0x001d then 0x0017 else 0x001d;
    Powers();
    TakeAllVector(1, ToBe(0x0304, 2));
    TakeAllVector(2, ToBe(group, 2) + ToBe(other, 2));
    TakeAllVector(2, ToBe(0x0804, 2) + ToBe(0x0809, 2) + ToBe(0x0403, 2));
    OneNumber(0x0304);
    TwoNumbers(group, other);
    ThreeNumbers(0x0804, 0x0809, 0x0403);
  }
}
