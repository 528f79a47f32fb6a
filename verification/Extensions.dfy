/** The certificate extensions the library reads: nested walks over DER elements. */
module Extensions {
  import opened Bits
  import opened Types
  import opened Der

  const SUBJECT_ALT_NAME: Bytes := [0x55, 0x1D, 0x11]
  const BASIC_CONSTRAINTS: Bytes := [0x55, 0x1D, 0x13]
  const KEY_USAGE: Bytes := [0x55, 0x1D, 0x0F]
  const EXTENDED_KEY_USAGE: Bytes := [0x55, 0x1D, 0x25]
  const SERVER_AUTH: Bytes := [0x2B, 0x06, 0x01, 0x05, 0x05, 0x07, 0x03, 0x01]

  // ---- one extension: section 4.1 of RFC 5280 ----

  /** The flag is absent or one octet, true unless zero. */
  datatype Extension = Extension(oid: Bytes, flag: Option<Byte>, value: Bytes)

  predicate Critical(x: Extension) { x.flag.Some? && x.flag.value != 0 }

  predicate Known(oid: Bytes)
  {
    oid == SUBJECT_ALT_NAME || oid == BASIC_CONSTRAINTS || oid == KEY_USAGE || oid == EXTENDED_KEY_USAGE
  }

  /** The elements of an extension, and back. */
  function Parts(x: Extension): seq<(Byte, Bytes)>
  {
    [(0x06, x.oid)] + (if x.flag.Some? then [(0x01, [x.flag.value])] else []) + [(0x04, x.value)]
  }

  function OfParts(es: seq<(Byte, Bytes)>): Option<Extension>
  {
    if |es| == 2 && es[0].0 == 0x06 && es[1].0 == 0x04 then Some(Extension(es[0].1, None, es[1].1))
    else if |es| == 3 && es[0].0 == 0x06 && es[1].0 == 0x01 && |es[1].1| == 1 && es[2].0 == 0x04 then
      Some(Extension(es[0].1, Some(es[1].1[0]), es[2].1))
    else None
  }

  lemma PartsIff(es: seq<(Byte, Bytes)>, x: Extension)
    ensures OfParts(es) == Some(x) <==> es == Parts(x)
  {
    if OfParts(es) == Some(x) {
      if |es| == 3 { assert es[1].1 == [es[1].1[0]]; }
      assert es == Parts(x);
    }
  }

  function ReadBody(s: Bytes): Option<Extension>
  {
    match Siblings(s, 0)
    case None => None
    case Some(es) => OfParts(es)
  }

  lemma ReadBodyIff(s: Bytes, x: Extension)
    ensures ReadBody(s) == Some(x) <==> s == EncodeAll(Parts(x)) && Sized(Parts(x))
  {
    hide Siblings;
    hide EncodeAll;
    hide OfParts;
    SiblingsIff(s, Parts(x));
    if ReadBody(s) == Some(x) { PartsIff(Siblings(s, 0).value, x); }
    PartsIff(Parts(x), x);
  }

  // ---- what the extensions say ----

  datatype Fields = Fields(names: Option<Bytes>, basicConstraints: bool, ca: bool, pathLength: Option<nat>,
                           keyUsage: bool, digitalSignature: bool, certSign: bool, extendedUsage: bool, serverAuth: bool)

  const NOTHING: Fields := Fields(None, false, false, None, false, false, false, false, false)

  /** The contents of the one element that `s` is. */
  function Inside(s: Bytes, tag: Byte): Option<Bytes>
  {
    match Tlv(s, 0)
    case None => None
    case Some(e) => if e.tag == tag && e.next == |s| then Some(e.value) else None
  }

  lemma InsideIff(s: Bytes, tag: Byte, v: Bytes)
    ensures Inside(s, tag) == Some(v) <==> s == Encode(tag, v) && |v| < 0x1_0000_0000
  {
    hide Tlv;
    hide Encode;
    if Inside(s, tag) == Some(v) {
      TlvSound(s, 0);
      assert s[0..|s|] == s;
    }
    if s == Encode(tag, v) && |v| < 0x1_0000_0000 {
      assert s[0..|s|] == s;
      TlvComplete(s, 0, tag, v);
    }
  }

  predicate PathLengthOk(e: (Byte, Bytes)) { e.0 == 0x02 && 1 <= |e.1| <= 4 && e.1[0] < 128 }

  /** The CA flag, false if absent, and the path length. */
  function Basic(es: seq<(Byte, Bytes)>): Option<(bool, Option<nat>)>
  {
    var flagged := es != [] && es[0].0 == 0x01;
    if flagged && |es[0].1| != 1 then None
    else
      var ca := flagged && es[0].1[0] != 0;
      var rest := if flagged then es[1..] else es;
      if rest == [] then Some((ca, None))
      else if |rest| == 1 && PathLengthOk(rest[0]) then Some((ca, Some(Be(rest[0].1)))) else None
  }

  function BasicOf(s: Bytes): Option<(bool, Option<nat>)>
  {
    match Siblings(s, 0)
    case None => None
    case Some(es) => Basic(es)
  }

  /** All purposes are object identifiers. */
  predicate PurposesOk(es: seq<(Byte, Bytes)>) { forall i :: 0 <= i < |es| ==> es[i].0 == 0x06 }

  predicate Purpose(es: seq<(Byte, Bytes)>, oid: Bytes) { exists i :: 0 <= i < |es| && es[i].1 == oid }

  /** Is server authentication among the purposes? None if they are malformed. */
  function ServerPurpose(s: Bytes): Option<bool>
  {
    match Siblings(s, 0)
    case None => None
    case Some(es) => if PurposesOk(es) then Some(Purpose(es, SERVER_AUTH)) else None
  }

  /** What one extension adds; a path length once given stays when a later extension has none. */
  function Apply(f: Fields, x: Extension): Result<Fields>
  {
    if x.oid == SUBJECT_ALT_NAME then
      match Inside(x.value, 0x30)
      case None => Err(BAD_HANDSHAKE)
      case Some(names) => Ok(f.(names := Some(names)))
    else if x.oid == BASIC_CONSTRAINTS then
      match Inside(x.value, 0x30)
      case None => Err(BAD_HANDSHAKE)
      case Some(s) =>
        match BasicOf(s)
        case None => Err(BAD_HANDSHAKE)
        case Some((ca, length)) =>
          Ok(f.(basicConstraints := true, ca := ca, pathLength := if length.Some? then length else f.pathLength))
    else if x.oid == KEY_USAGE then
      match Inside(x.value, 0x03)
      case None => Err(BAD_HANDSHAKE)
      case Some(bits) =>
        if |bits| < 2 || bits[0] > 7 then Err(BAD_HANDSHAKE)
        else Ok(f.(keyUsage := true, digitalSignature := bits[1] >= 128, certSign := bits[1] / 4 % 2 == 1))
    else if x.oid == EXTENDED_KEY_USAGE then
      match Inside(x.value, 0x30)
      case None => Err(BAD_HANDSHAKE)
      case Some(s) =>
        match ServerPurpose(s)
        case None => Err(BAD_HANDSHAKE)
        case Some(server) => Ok(f.(extendedUsage := true, serverAuth := f.serverAuth || server))
    else if Critical(x) then Err(UNSUPPORTED)
    else Ok(f)
  }

  function ApplyAll(f: Fields, xs: seq<Extension>): Result<Fields>
    decreases |xs|
  {
    if xs == [] then Ok(f)
    else match Apply(f, xs[0])
      case Err(e) => Err(e)
      case Ok(g) => ApplyAll(g, xs[1..])
  }

  // ---- the list ----

  function EncodeList(xs: seq<Extension>): Bytes
  {
    if xs == [] then [] else Encode(0x30, EncodeAll(Parts(xs[0]))) + EncodeList(xs[1..])
  }

  predicate Fits(x: Extension) { Sized(Parts(x)) && |EncodeAll(Parts(x))| < 0x1_0000_0000 }

  /** The extensions from `off` to the end, one after another, with the first error. */
  function Walk(s: Bytes, off: nat, f: Fields): Result<Fields>
    requires off <= |s|
    decreases |s| - off
  {
    if off == |s| then Ok(f)
    else match Tlv(s, off)
      case None => Err(BAD_HANDSHAKE)
      case Some(e) =>
        if e.tag != 0x30 then Err(BAD_HANDSHAKE)
        else match ReadBody(e.value)
          case None => Err(BAD_HANDSHAKE)
          case Some(x) =>
            match Apply(f, x)
            case Err(r) => Err(r)
            case Ok(g) => Walk(s, e.next, g)
  }

  ghost predicate Lists(s: Bytes, f: Fields, g: Fields, xs: seq<Extension>)
  {
    (forall x :: x in xs ==> Fits(x)) && s == EncodeList(xs) && ApplyAll(f, xs) == Ok(g)
  }

  lemma {:induction false} WalkSound(s: Bytes, off: nat, f: Fields, g: Fields) returns (xs: seq<Extension>)
    requires off <= |s| && Walk(s, off, f) == Ok(g)
    ensures Lists(s[off..], f, g, xs)
    decreases |s| - off
  {
    hide Tlv;
    hide ReadBody;
    hide Apply;
    hide Encode;
    if off == |s| {
      xs := [];
    } else {
      var e := Tlv(s, off).value;
      var x := ReadBody(e.value).value;
      TlvSound(s, off);
      ReadBodyIff(e.value, x);
      var rest := WalkSound(s, e.next, Apply(f, x).value, g);
      assert s[off..] == s[off..e.next] + s[e.next..];
      xs := [x] + rest;
      assert xs[1..] == rest;
    }
  }

  lemma {:induction false} WalkComplete(s: Bytes, off: nat, f: Fields, g: Fields, xs: seq<Extension>)
    requires off <= |s| && Lists(s[off..], f, g, xs)
    ensures Walk(s, off, f) == Ok(g)
    decreases |xs|
  {
    hide Tlv;
    hide ReadBody;
    hide Apply;
    if xs == [] {
      assert |s[off..]| == 0;
    } else {
      var x := xs[0];
      assert Fits(x);
      var body := EncodeAll(Parts(x));
      ReadBodyIff(body, x);
      var end := FirstSibling(s, off, 0x30, body, EncodeList(xs[1..]));
      WalkComplete(s, end, Apply(f, x).value, g, xs[1..]);
    }
  }

  /** The explicit wrapper, the list inside, and the extensions in it. */
  function Parse(input: Bytes): Result<Fields>
  {
    match Inside(input, 0xA3)
    case None => Err(BAD_HANDSHAKE)
    case Some(list) =>
      match Inside(list, 0x30)
      case None => Err(BAD_HANDSHAKE)
      case Some(s) => Walk(s, 0, NOTHING)
  }

  ghost predicate Wrapped(input: Bytes, xs: seq<Extension>)
  {
    var list := Encode(0x30, EncodeList(xs));
    |EncodeList(xs)| < 0x1_0000_0000 && |list| < 0x1_0000_0000 && input == Encode(0xA3, list)
  }

  /** Accepted are exactly the encodings of extension lists of which every member is acceptable after those before it, and
      the fields are what the members say in turn. */
  lemma ParseIff(input: Bytes, g: Fields)
    ensures Parse(input) == Ok(g) <==>
      exists xs :: Wrapped(input, xs) && (forall x :: x in xs ==> Fits(x)) && ApplyAll(NOTHING, xs) == Ok(g)
  {
    hide Inside;
    hide Walk;
    hide EncodeList;
    hide ApplyAll;
    hide Encode;
    if Parse(input) == Ok(g) {
      var list := Inside(input, 0xA3).value;
      var s := Inside(list, 0x30).value;
      InsideIff(input, 0xA3, list);
      InsideIff(list, 0x30, s);
      var xs := WalkSound(s, 0, NOTHING, g);
      assert s[0..] == s;
      assert Wrapped(input, xs);
    }
    forall xs | Wrapped(input, xs) && (forall x :: x in xs ==> Fits(x)) && ApplyAll(NOTHING, xs) == Ok(g)
      ensures Parse(input) == Ok(g)
    {
      var s := EncodeList(xs);
      InsideIff(input, 0xA3, Encode(0x30, s));
      InsideIff(Encode(0x30, s), 0x30, s);
      assert s[0..] == s;
      WalkComplete(s, 0, NOTHING, g, xs);
    }
  }

  /** No accepted list has a critical extension the library does not know. */
  lemma {:induction false} CriticalKnown(f: Fields, xs: seq<Extension>, i: nat)
    requires ApplyAll(f, xs).Ok? && i < |xs| && Critical(xs[i])
    ensures Known(xs[i].oid)
    decreases |xs|
  {
    if i > 0 { CriticalKnown(Apply(f, xs[0]).value, xs[1..], i - 1); }
  }

  /** Server authentication is allowed exactly when some extended key usage lists it. */
  lemma {:induction false} ServerAuthIff(f: Fields, xs: seq<Extension>)
    requires ApplyAll(f, xs).Ok?
    ensures ApplyAll(f, xs).value.serverAuth <==> f.serverAuth || exists i :: 0 <= i < |xs| && Serves(xs[i])
    decreases |xs|
  {
    hide Serves;
    hide Apply;
    if xs != [] {
      var g := Apply(f, xs[0]).value;
      ServerAuthIff(g, xs[1..]);
      ServesFirst(f, xs[0]);
      assert forall i :: 0 <= i < |xs| - 1 ==> xs[1..][i] == xs[i + 1];
      assert forall i :: 0 < i < |xs| ==> xs[i] == xs[1..][i - 1];
    }
  }

  lemma ServesFirst(f: Fields, x: Extension)
    requires Apply(f, x).Ok?
    ensures Apply(f, x).value.serverAuth <==> f.serverAuth || Serves(x)
  {
    hide Inside;
    hide ServerPurpose;
  }

  predicate Serves(x: Extension)
  {
    x.oid == EXTENDED_KEY_USAGE && Inside(x.value, 0x30).Some? && ServerPurpose(Inside(x.value, 0x30).value) == Some(true)
  }

  /** Bit `i` of a named bit list: bit 0 is the top bit of the octet behind the count of unused bits, and bits that
      are not there are clear (sections 8.6 and 11.2.2 of X.690). */
  predicate NamedBit(bits: Bytes, i: nat)
  {
    1 + i / 8 < |bits| && bits[1 + i / 8] / Pow2(7 - i % 8) % 2 == 1
  }

  predicate UsageIs(bits: Bytes, g: Fields)
  {
    g.keyUsage && (g.digitalSignature <==> NamedBit(bits, 0)) && (g.certSign <==> NamedBit(bits, 5))
  }

  predicate BasicIs(s: Bytes, g: Fields)
  {
    g.basicConstraints && BasicOf(s).Some? && g.ca == BasicOf(s).value.0
  }

  /** What one extension says about the key usage, the names and the basic constraints; nothing if it is another. */
  ghost predicate Says(x: Extension, g: Fields)
  {
    && (x.oid == KEY_USAGE ==> exists bits :: x.value == Encode(0x03, bits) && UsageIs(bits, g))
    && (x.oid == SUBJECT_ALT_NAME ==> exists names :: x.value == Encode(0x30, names) && g.names == Some(names))
    && (x.oid == BASIC_CONSTRAINTS ==> exists s :: x.value == Encode(0x30, s) && BasicIs(s, g))
  }

  /** An extension of another kind leaves the fields of a kind alone. */
  predicate Leaves(oid: Bytes, f: Fields, g: Fields)
  {
    && (oid == KEY_USAGE ==>
          g.keyUsage == f.keyUsage && g.digitalSignature == f.digitalSignature && g.certSign == f.certSign)
    && (oid == SUBJECT_ALT_NAME ==> g.names == f.names)
    && (oid == BASIC_CONSTRAINTS ==> g.basicConstraints == f.basicConstraints && g.ca == f.ca)
  }

  lemma ApplySays(f: Fields, x: Extension)
    requires Apply(f, x).Ok?
    ensures Says(x, Apply(f, x).value)
  {
    hide Encode;
    hide Inside;
    hide BasicOf;
    hide ServerPurpose;
    var g := Apply(f, x).value;
    if x.oid == KEY_USAGE {
      var bits := Inside(x.value, 0x03).value;
      InsideIff(x.value, 0x03, bits);
      UsageBits(bits);
      assert x.value == Encode(0x03, bits);
    } else if x.oid == SUBJECT_ALT_NAME || x.oid == BASIC_CONSTRAINTS {
      var s := Inside(x.value, 0x30).value;
      InsideIff(x.value, 0x30, s);
      assert x.value == Encode(0x30, s);
    }
  }

  lemma UsageBits(bits: Bytes)
    requires |bits| >= 2
    ensures (bits[1] >= 128 <==> NamedBit(bits, 0)) && (bits[1] / 4 % 2 == 1 <==> NamedBit(bits, 5))
  {
    assert Pow2(7) == 128 && Pow2(2) == 4;
  }

  lemma ApplyLeaves(f: Fields, x: Extension, oid: Bytes)
    requires Apply(f, x).Ok? && x.oid != oid
    ensures Leaves(oid, f, Apply(f, x).value)
  {
    hide Inside;
    hide BasicOf;
    hide ServerPurpose;
  }

  /** The fields of a kind are what its last extension says, and those given before if there is none. */
  lemma {:induction false} LastSays(f: Fields, xs: seq<Extension>, k: nat)
    requires ApplyAll(f, xs).Ok? && k < |xs| && forall i :: k < i < |xs| ==> xs[i].oid != xs[k].oid
    ensures Says(xs[k], ApplyAll(f, xs).value)
    decreases |xs|
  {
    hide Apply;
    hide Says;
    hide Leaves;
    var g := Apply(f, xs[0]).value;
    if k > 0 {
      LastSays(g, xs[1..], k - 1);
    } else {
      ApplySays(f, xs[0]);
      NoneLeaves(g, xs[1..], xs[0].oid);
      SaysLeaves(xs[0], g, ApplyAll(f, xs).value);
    }
  }

  lemma SaysLeaves(x: Extension, f: Fields, g: Fields)
    requires Says(x, f) && Leaves(x.oid, f, g)
    ensures Says(x, g)
  {
    hide Encode;
    hide BasicOf;
    hide NamedBit;
  }

  lemma {:induction false} NoneLeaves(f: Fields, xs: seq<Extension>, oid: Bytes)
    requires ApplyAll(f, xs).Ok? && forall i :: 0 <= i < |xs| ==> xs[i].oid != oid
    ensures Leaves(oid, f, ApplyAll(f, xs).value)
    decreases |xs|
  {
    hide Apply;
    if xs != [] {
      ApplyLeaves(f, xs[0], oid);
      NoneLeaves(Apply(f, xs[0]).value, xs[1..], oid);
    }
  }

  // ---- the code ----

  class CertificateView {
    var fields: Fields

    constructor ()
      ensures fields == NOTHING
    {
      fields := NOTHING;
    }

    /** Reads one element that must be all of `s`. */
    static method ReadInside(s: Bytes, tag: Byte) returns (e: Error, value: Bytes)
      ensures e == OK <==> Inside(s, tag).Some?
      ensures e == OK ==> value == Inside(s, tag).value
      ensures e != OK ==> e == BAD_HANDSHAKE
    {
      var o;
      e, o := ReadTlv(s, 0);
      value := o.value;
      if e != OK || o.tag != tag || o.next != |s| { e := BAD_HANDSHAKE; }
    }

    static method ReadExtension(s: Bytes) returns (e: Error, x: Extension)
      ensures e == OK <==> ReadBody(s).Some?
      ensures e == OK ==> x == ReadBody(s).value
      ensures e != OK ==> e == BAD_HANDSHAKE
    {
      hide Tlv;
      x := Extension([], None, []);
      var oid, v;
      SiblingsStep(s, 0);
      e, oid := ReadTlv(s, 0);
      if e != OK || oid.tag != 0x06 { return BAD_HANDSHAKE, x; }
      SiblingsStep(s, oid.next);
      e, v := ReadTlv(s, oid.next);
      if e != OK { return; }
      SiblingsStep(s, v.next);
      var flag := None;
      if v.tag == 0x01 {
        if |v.value| != 1 { return BAD_HANDSHAKE, x; }
        flag := Some(v.value[0]);
        e, v := ReadTlv(s, v.next);
        if e != OK { return; }
        SiblingsStep(s, v.next);
      }
      if v.tag != 0x04 || v.next != |s| { return BAD_HANDSHAKE, x; }
      x := Extension(oid.value, flag, v.value);
    }

    static method ReadBasic(s: Bytes) returns (e: Error, ca: bool, length: Option<nat>)
      ensures e == OK <==> BasicOf(s).Some?
      ensures e == OK ==> BasicOf(s) == Some((ca, length))
      ensures e != OK ==> e == BAD_HANDSHAKE
    {
      hide Tlv;
      ca, length := false, None;
      var p := 0;
      SiblingsStep(s, 0);
      if p < |s| {
        var o;
        e, o := ReadTlv(s, p);
        if e != OK { return; }
        SiblingsStep(s, o.next);
        if o.tag == 0x01 {
          if |o.value| != 1 { return BAD_HANDSHAKE, ca, length; }
          ca := o.value[0] != 0;
          p := o.next;
        }
      }
      if p < |s| {
        var o;
        e, o := ReadTlv(s, p);
        if e != OK || o.tag != 0x02 || |o.value| == 0 || |o.value| > 4 || o.next != |s| || o.value[0] >= 128 {
          return BAD_HANDSHAKE, ca, length;
        }
        SiblingsStep(s, o.next);
        var n := BigEndian(o.value);
        length := Some(n);
      }
      e := OK;
    }

    static method BigEndian(s: Bytes) returns (n: nat)
      ensures n == Be(s)
    {
      n := 0;
      assert s[..0] == [];
      for i := 0 to |s|
        invariant n == Be(s[..i])
      {
        assert s[..i + 1][..i] == s[..i];
        n := n * 256 + s[i];
      }
      assert s[..|s|] == s;
    }

    static method ReadPurposes(s: Bytes) returns (e: Error, server: bool)
      ensures e == OK <==> ServerPurpose(s).Some?
      ensures e == OK ==> ServerPurpose(s) == Some(server)
      ensures e != OK ==> e == BAD_HANDSHAKE
    {
      hide Tlv;
      server := false;
      var p := 0;
      ghost var seen: seq<(Byte, Bytes)> := [];
      NothingBefore(Siblings(s, 0));
      while p < |s|
        invariant p <= |s| && PurposesOk(seen) && (server <==> Purpose(seen, SERVER_AUTH))
        invariant Siblings(s, 0) == Before(seen, Siblings(s, p))
      {
        SiblingsStep(s, p);
        var o;
        e, o := ReadTlv(s, p);
        BeforeStep(seen, o, Siblings(s, 0), Siblings(s, p), if e == OK then Siblings(s, o.next) else None);
        if e != OK || o.tag != 0x06 { return BAD_HANDSHAKE, server; }
        PurposeSnoc(seen, o.tag, o.value);
        seen := seen + [(o.tag, o.value)];
        if o.value == SERVER_AUTH { server := true; }
        p := o.next;
      }
      SiblingsStep(s, p);
      assert seen + [] == seen;
      e := OK;
    }

    method ApplyExtension(x: Extension) returns (e: Error)
      modifies this
      ensures match Apply(old(fields), x) case Ok(g) => e == OK && fields == g case Err(r) => e == r
    {
      hide Inside;
      hide BasicOf;
      hide ServerPurpose;
      var s;
      if x.oid == SUBJECT_ALT_NAME {
        e, s := ReadInside(x.value, 0x30);
        if e != OK { return; }
        fields := fields.(names := Some(s));
      } else if x.oid == BASIC_CONSTRAINTS {
        e, s := ReadInside(x.value, 0x30);
        if e != OK { return; }
        fields := fields.(basicConstraints := true, ca := false);
        var ca, length;
        e, ca, length := ReadBasic(s);
        if e != OK { return; }
        fields := fields.(ca := ca);
        if length.Some? { fields := fields.(pathLength := length); }
      } else if x.oid == KEY_USAGE {
        e, s := ReadInside(x.value, 0x03);
        if e != OK { return; }
        if |s| < 2 || s[0] > 7 { return BAD_HANDSHAKE; }
        fields := fields.(keyUsage := true, digitalSignature := s[1] >= 128, certSign := s[1] / 4 % 2 == 1);
      } else if x.oid == EXTENDED_KEY_USAGE {
        e, s := ReadInside(x.value, 0x30);
        if e != OK { return; }
        fields := fields.(extendedUsage := true);
        var server;
        e, server := ReadPurposes(s);
        if e != OK { return; }
        if server { fields := fields.(serverAuth := true); }
      } else if x.flag.Some? && x.flag.value != 0 {
        return UNSUPPORTED;
      }
      e := OK;
    }

    /** All extensions of a certificate; the fields start from nothing. */
    method ReadExtensions(input: Bytes) returns (e: Error)
      requires fields == NOTHING
      modifies this
      ensures match Parse(input) case Ok(g) => e == OK && fields == g case Err(r) => e == r
    {
      hide Inside;
      hide Tlv;
      hide Apply;
      hide ReadBody;
      var list, s;
      e, list := ReadInside(input, 0xA3);
      if e != OK { return; }
      e, s := ReadInside(list, 0x30);
      if e != OK { return; }
      var p := 0;
      while p < |s|
        invariant p <= |s| && Walk(s, 0, NOTHING) == Walk(s, p, fields)
        decreases |s| - p
      {
        var o, x;
        e, o := ReadTlv(s, p);
        if e != OK || o.tag != 0x30 { return BAD_HANDSHAKE; }
        e, x := ReadExtension(o.value);
        if e != OK { return; }
        e := ApplyExtension(x);
        if e != OK { return; }
        p := o.next;
      }
      e := OK;
    }
  }

  lemma {:induction false} SiblingsStep(s: Bytes, off: nat)
    requires off <= |s|
    ensures Siblings(s, |s|) == Some([])
    ensures off < |s| ==> Siblings(s, off) == match Tlv(s, off)
      case None => None
      case Some(o) => Before([(o.tag, o.value)], Siblings(s, o.next))
  {
  }

  lemma NothingBefore(all: Option<seq<(Byte, Bytes)>>)
    ensures Before([], all) == all
  {
    if all.Some? { assert [] + all.value == all.value; }
  }

  lemma PurposeSnoc(es: seq<(Byte, Bytes)>, tag: Byte, oid: Bytes)
    ensures Purpose(es + [(tag, oid)], SERVER_AUTH) <==> Purpose(es, SERVER_AUTH) || oid == SERVER_AUTH
    ensures PurposesOk(es + [(tag, oid)]) <==> PurposesOk(es) && tag == 0x06
  {
    var all := es + [(tag, oid)];
    assert all[|es|] == (tag, oid);
    forall i | 0 <= i < |es|
      ensures all[i] == es[i]
    {
    }
  }

  function Before(es: seq<(Byte, Bytes)>, rest: Option<seq<(Byte, Bytes)>>): Option<seq<(Byte, Bytes)>>
  {
    if rest.None? then None else Some(es + rest.value)
  }

  lemma BeforeStep(seen: seq<(Byte, Bytes)>, o: Element, all: Option<seq<(Byte, Bytes)>>, here: Option<seq<(Byte, Bytes)>>,
                   rest: Option<seq<(Byte, Bytes)>>)
    requires all == Before(seen, here) && here == Before([(o.tag, o.value)], rest)
    ensures all == Before(seen + [(o.tag, o.value)], rest)
    ensures o.tag != 0x06 && all.Some? ==> !PurposesOk(all.value)
  {
    if rest.Some? {
      Associate(seen, [(o.tag, o.value)], rest.value);
      assert all.value[|seen|] == (o.tag, o.value);
    }
  }
}
