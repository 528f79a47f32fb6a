/** DER tag-length-value elements, as the certificate, verifier and RSA code read them. */
module Der {
  import opened Bits
  import opened Types

  /** One element: its tag and value, and the offset just behind it. */
  datatype Element = Element(tag: Byte, value: Bytes, next: nat)

  /** Number of octets of a length that needs the long form. */
  function LengthOctets(n: nat): nat
  {
    if n < 0x100 then 1 else if n < 0x1_0000 then 2 else if n < 0x100_0000 then 3 else 4
  }

  /** The minimal length encoding of section 10.1 of X.690, for lengths below 2^32. */
  function EncodeLength(n: nat): Bytes
  {
    if n < 128 then [n] else [128 + LengthOctets(n)] + ToBe(n, LengthOctets(n))
  }

  function Encode(tag: Byte, value: Bytes): Bytes
  {
    [tag] + EncodeLength(|value|) + value
  }

  /** What the reader accepts at `off`, with the length read big-endian. */
  function Tlv(s: Bytes, off: nat): (r: Option<Element>)
    ensures r.Some? ==> off + 2 <= r.value.next <= |s| && |r.value.value| <= r.value.next - off - 2
  {
    if off + 1 >= |s| then None
    else
      var lb := s[off + 1];
      var n := if lb < 128 then 0 else lb - 128;
      var p := off + 2 + n;
      if lb >= 128 && (n == 0 || n > 4 || p > |s| || s[off + 2] == 0) then None
      else
        var len := if lb < 128 then lb as int else Be(s[off + 2..p]);
        if (lb >= 128 && len < 128) || len > |s| - p then None
        else Some(Element(s[off], s[p..p + len], p + len))
  }

  /** Reads one element; the length octets are accumulated in a loop. */
  method ReadTlv(s: Bytes, off: nat) returns (e: Error, o: Element)
    ensures e == OK <==> Tlv(s, off).Some?
    ensures e == OK ==> o == Tlv(s, off).value
    ensures e != OK ==> e == BAD_HANDSHAKE
  {
    o := Element(0, [], 0);
    if off >= |s| { return BAD_HANDSHAKE, o; }
    var p := off + 1;
    if p >= |s| { return BAD_HANDSHAKE, o; }
    var lb := s[p];
    p := p + 1;
    var len := 0;
    if lb < 128 {
      len := lb as int;
    } else {
      var n := lb - 128;
      if n == 0 || n > 4 || p + n > |s| { return BAD_HANDSHAKE, o; }
      if s[p] == 0 { return BAD_HANDSHAKE, o; }
      var start := p;
      while p < start + n
        invariant start <= p <= start + n && len == Be(s[start..p])
      {
        assert s[start..p + 1][..p - start] == s[start..p];
        len := len * 256 + s[p];
        p := p + 1;
      }
      if len < 128 { return BAD_HANDSHAKE, o; }
    }
    if len > |s| - p { return BAD_HANDSHAKE, o; }
    return OK, Element(s[off], s[p..p + len], p + len);
  }

  /** A big-endian string without a leading zero has as many octets as its value needs. */
  lemma {:induction false} OctetsOf(s: Bytes)
    requires 1 <= |s| <= 4 && s[0] != 0
    ensures Be(s) < 0x1_0000_0000 && LengthOctets(Be(s)) == |s|
  {
    Powers();
    BeBound(s);
    assert s == [s[0]] + s[1..];
    BeCons(s[0], s[1..]);
    assert Pow2(0) == 1;
  }

  /** Accepted elements are minimal: re-encoding gives back exactly the octets consumed. */
  lemma TlvSound(s: Bytes, off: nat)
    requires Tlv(s, off).Some?
    ensures var e := Tlv(s, off).value; s[off..e.next] == Encode(e.tag, e.value) && |e.value| < 0x1_0000_0000
  {
    hide Be;
    hide ToBe;
    hide LengthOctets;
    var e := Tlv(s, off).value;
    var lb := s[off + 1];
    if lb < 128 {
      assert s[off..e.next] == [s[off]] + [lb] + s[off + 2..e.next];
    } else {
      LongSound(s, off, lb - 128, off + 2 + (lb - 128), e);
    }
  }

  lemma LongSound(s: Bytes, off: nat, n: nat, p: nat, e: Element)
    requires 1 <= n <= 4 && p == off + 2 + n && p <= e.next <= |s| && s[off + 1] == 128 + n && s[off + 2] != 0
    requires e.tag == s[off] && e.value == s[p..e.next] && |e.value| == Be(s[off + 2..p]) >= 128
    ensures s[off..e.next] == Encode(e.tag, e.value) && |e.value| < 0x1_0000_0000
  {
    hide Be;
    hide ToBe;
    hide LengthOctets;
    var l := s[off + 2..p];
    OctetsOf(l);
    ToBeOfBe(l);
    assert s[off..e.next] == [s[off]] + ([s[off + 1]] + l) + s[p..e.next];
  }

  lemma {:induction false} LeadingOctet(n: nat)
    requires 128 <= n < 0x1_0000_0000
    ensures ToBe(n, LengthOctets(n))[0] != 0 && Be(ToBe(n, LengthOctets(n))) == n
  {
    hide ToBe;
    hide Be;
    hide LengthOctets;
    hide Pow2;
    var k := LengthOctets(n);
    OctetRange(n);
    BeOfToBe(n, k);
    ToBeByte(n, k, k - 1);
    TopOctet(n, Pow2(8 * (k - 1)));
  }

  lemma OctetRange(n: nat)
    requires 128 <= n < 0x1_0000_0000
    ensures var k := LengthOctets(n); var w := Pow2(8 * (k - 1)); 1 <= k && w <= n < 256 * w && n < Pow2(8 * k)
  {
    Powers();
    assert Pow2(0) == 1;
  }

  lemma TopOctet(n: nat, w: nat)
    requires 0 < w <= n < 256 * w
    ensures n / w % 256 != 0
  {
    QuotientParts(n, w);
    SmallQuotient(n / w, w, 256);
  }

  /** Every minimal encoding is accepted, and read back as it was written. */
  lemma TlvComplete(s: Bytes, off: nat, tag: Byte, value: Bytes)
    requires |value| < 0x1_0000_0000
    requires var end := off + |Encode(tag, value)|; end <= |s| && s[off..end] == Encode(tag, value)
    ensures Tlv(s, off) == Some(Element(tag, value, off + |Encode(tag, value)|))
  {
    hide EncodeLength;
    hide Tlv;
    var len := EncodeLength(|value|);
    LengthNotEmpty(|value|);
    HeaderAndValue(s, off, len, tag, value);
    TlvAt(s, off, len, value);
  }

  lemma LengthNotEmpty(n: nat)
    ensures EncodeLength(n) != []
  {
  }

  /** Reading where a minimal length and its value stand. */
  lemma TlvAt(s: Bytes, off: nat, len: Bytes, value: Bytes)
    requires |value| < 0x1_0000_0000 && len == EncodeLength(|value|)
    requires var p := off + 1 + |len|; p + |value| <= |s| && s[off + 1..p] == len && s[p..p + |value|] == value
    requires s[off + 1] == len[0]
    ensures Tlv(s, off) == Some(Element(s[off], value, off + 1 + |len| + |value|))
  {
    hide Tlv;
    hide ToBe;
    hide Be;
    if |value| < 128 {
      ShortForm(s, off, value);
    } else {
      var k, p := LengthOctets(|value|), off + 1 + |len|;
      LeadingOctet(|value|);
      Slices(s, off + 1, p, 1, 1 + k);
      assert len[1..1 + k] == ToBe(|value|, k);
      LongForm(s, off, k, p, value);
    }
  }

  lemma ShortForm(s: Bytes, off: nat, value: Bytes)
    requires |value| < 128 && off + 2 + |value| <= |s| && s[off + 1] == |value| && s[off + 2..off + 2 + |value|] == value
    ensures Tlv(s, off) == Some(Element(s[off], value, off + 2 + |value|))
  {
  }

  lemma LongForm(s: Bytes, off: nat, k: nat, p: nat, value: Bytes)
    requires 1 <= k <= 4 && 128 <= |value| && p == off + 2 + k && p + |value| <= |s| && s[off + 1] == 128 + k
    requires s[off + 2..p][0] != 0 && Be(s[off + 2..p]) == |value| && s[p..p + |value|] == value
    ensures Tlv(s, off) == Some(Element(s[off], value, p + |value|))
  {
    hide Be;
  }

  lemma HeaderAndValue(s: Bytes, off: nat, len: Bytes, tag: Byte, value: Bytes)
    requires len != []
    requires var end := off + 1 + |len| + |value|; end <= |s| && s[off..end] == [tag] + len + value
    ensures var p := off + 1 + |len|; s[off + 1..p] == len && s[p..p + |value|] == value
    ensures s[off] == tag && s[off + 1] == len[0]
  {
    var enc := [tag] + len + value;
    var end := off + |enc|;
    assert enc[1..1 + |len|] == len && enc[1 + |len|..|enc|] == value;
    Slices(s, off, end, 1, 1 + |len|);
    Slices(s, off, end, 1 + |len|, |enc|);
    assert s[off] == s[off..end][0] && s[off + 1] == s[off..end][1] == enc[1];
  }

  lemma Slices(s: Bytes, a: nat, b: nat, c: nat, d: nat)
    requires a <= b <= |s| && c <= d <= b - a
    ensures s[a..b][c..d] == s[a + c..a + d]
  {
    var t := s[a..b];
    forall i | 0 <= i < d - c
      ensures t[c..d][i] == s[a + c..a + d][i]
    {
      assert t[c..d][i] == t[c + i] == s[a + (c + i)];
    }
  }

  // ---- siblings ----

  function EncodeAll(es: seq<(Byte, Bytes)>): Bytes
  {
    if es == [] then [] else Encode(es[0].0, es[0].1) + EncodeAll(es[1..])
  }

  /** The elements from `off` to the end of the parent, if all of it is elements. */
  function Siblings(s: Bytes, off: nat): (r: Option<seq<(Byte, Bytes)>>)
    requires off <= |s|
    decreases |s| - off
  {
    if off == |s| then Some([])
    else match Tlv(s, off)
      case None => None
      case Some(e) =>
        match Siblings(s, e.next)
          case None => None
          case Some(rest) => Some([(e.tag, e.value)] + rest)
  }

  /** A walk covers its parent exactly: nothing skipped, nothing read beyond. */
  lemma {:induction false} SiblingsCover(s: Bytes, off: nat)
    requires off <= |s| && Siblings(s, off).Some?
    ensures EncodeAll(Siblings(s, off).value) == s[off..]
    ensures Sized(Siblings(s, off).value)
    decreases |s| - off
  {
    hide Tlv;
    if off < |s| {
      var e := Tlv(s, off).value;
      TlvSound(s, off);
      SiblingsCover(s, e.next);
      assert s[off..] == s[off..e.next] + s[e.next..];
    }
  }

  /** No value is too long for a length of four octets. */
  predicate Sized(es: seq<(Byte, Bytes)>)
  {
    forall i :: 0 <= i < |es| ==> |es[i].1| < 0x1_0000_0000
  }

  /** The walk finds exactly the elements whose encodings the parent is. */
  lemma {:induction false} SiblingsIff(s: Bytes, es: seq<(Byte, Bytes)>)
    ensures Siblings(s, 0) == Some(es) <==> s == EncodeAll(es) && Sized(es)
  {
    hide Siblings;
    hide EncodeAll;
    assert s[0..] == s;
    if Siblings(s, 0) == Some(es) { SiblingsCover(s, 0); }
    if s == EncodeAll(es) && Sized(es) { SiblingsParse(s, 0, es); }
  }

  /** Every concatenation of elements is walked back into these elements. */
  lemma {:induction false} SiblingsParse(s: Bytes, off: nat, es: seq<(Byte, Bytes)>)
    requires off <= |s| && s[off..] == EncodeAll(es)
    requires Sized(es)
    ensures Siblings(s, off) == Some(es)
    decreases |es|
  {
    hide Tlv;
    hide Encode;
    if es == [] {
    } else {
      var end := FirstSibling(s, off, es[0].0, es[0].1, EncodeAll(es[1..]));
      SiblingsParse(s, end, es[1..]);
      assert es == [(es[0].0, es[0].1)] + es[1..];
    }
  }

  lemma FirstSibling(s: Bytes, off: nat, tag: Byte, value: Bytes, rest: Bytes) returns (end: nat)
    requires off <= |s| && s[off..] == Encode(tag, value) + rest && |value| < 0x1_0000_0000
    ensures off < end <= |s| && s[end..] == rest && Tlv(s, off) == Some(Element(tag, value, end))
  {
    var enc := Encode(tag, value);
    end := off + |enc|;
    assert s[off..end] == s[off..][..|enc|] == enc;
    TlvComplete(s, off, tag, value);
    assert s[end..] == s[off..][|enc|..] == rest;
  }

  // ---- host names ----

  type Str = Bytes

  /** The same octet, or the two cases of one of the letters A to Z. */
  predicate SameLetter(a: Byte, b: Byte)
  {
    a == b || (65 <= a <= 90 && b == a + 32) || (65 <= b <= 90 && a == b + 32)
  }

  /** Equal up to ASCII case. */
  ghost predicate SameName(a: Bytes, b: Bytes)
  {
    |a| == |b| && forall i :: 0 <= i < |a| ==> SameLetter(a[i], b[i])
  }

  const DOT: Byte := '.' as int
  const STAR: Byte := '*' as int

  /** Equal names, or a wildcard that stands for a nonempty leftmost label. */
  ghost predicate NameMatches(pat: Bytes, host: Bytes)
  {
    || SameName(pat, host)
    || (|pat| > 2 && pat[0] == STAR && pat[1] == DOT
        && exists d :: 0 < d < |host| && host[d] == DOT && DOT !in host[..d] && SameName(pat[2..], host[d + 1..]))
  }

  method SameLower(a: Bytes, b: Bytes) returns (same: bool)
    requires |a| == |b|
    ensures same <==> SameName(a, b)
  {
    for i := 0 to |a|
      invariant forall j :: 0 <= j < i ==> SameLetter(a[j], b[j])
    {
      var x := if 65 <= a[i] <= 90 then a[i] + 32 else a[i];
      var y := if 65 <= b[i] <= 90 then b[i] + 32 else b[i];
      if x != y { return false; }
    }
    return true;
  }

  method DnsEqual(pat: Bytes, host: Bytes) returns (ok: bool)
    ensures ok <==> NameMatches(pat, host)
  {
    if |pat| == |host| {
      var same := SameLower(pat, host);
      if same { return true; }
    }
    if |pat| > 2 && pat[0] == STAR && pat[1] == DOT {
      var d := 0;
      while d < |host| && host[d] != DOT
        invariant d <= |host| && DOT !in host[..d]
      {
        d := d + 1;
      }
      if d == |host| || d == 0 {
        assert d == |host| ==> host[..d] == host;
        return false;
      }
      if |host| - (d + 1) != |pat| - 2 { OnlyFirstDot(host, d); return false; }
      ok := SameLower(pat[2..], host[d + 1..]);
      OnlyFirstDot(host, d);
      return;
    }
    return false;
  }

  lemma OnlyFirstDot(host: Bytes, d: nat)
    requires 0 < d < |host| && host[d] == DOT && DOT !in host[..d]
    ensures forall c :: 0 < c < |host| && host[c] == DOT && DOT !in host[..c] ==> c == d
  {
    forall c | 0 < c < |host| && host[c] == DOT && DOT !in host[..c]
      ensures c == d
    {
      assert forall i :: 0 <= i < d ==> host[..d][i] == host[i];
      assert forall i :: 0 <= i < c ==> host[..c][i] == host[i];
    }
  }

  /** Some dNSName before any malformed entry of the subject alternative names matches. */
  ghost predicate Listed(san: Bytes, off: nat, host: Bytes)
    requires off <= |san|
    decreases |san| - off
  {
    Tlv(san, off).Some? &&
    var e := Tlv(san, off).value;
    (e.tag == 0x82 && NameMatches(e.value, host)) || Listed(san, e.next, host)
  }

  /** With well-formed names: exactly the certificates listing a matching dNSName. */
  lemma {:induction false} ListedIff(san: Bytes, off: nat, host: Bytes)
    requires off <= |san| && Siblings(san, off).Some?
    ensures Listed(san, off, host) <==>
      exists i :: 0 <= i < |Siblings(san, off).value| && Siblings(san, off).value[i].0 == 0x82
        && NameMatches(Siblings(san, off).value[i].1, host)
    decreases |san| - off
  {
    if off < |san| {
      var e := Tlv(san, off).value;
      ListedIff(san, e.next, host);
      var rest := Siblings(san, e.next).value;
      var all := Siblings(san, off).value;
      assert all == [(e.tag, e.value)] + rest;
      assert all[0] == (e.tag, e.value);
      if Listed(san, e.next, host) {
        var i :| 0 <= i < |rest| && rest[i].0 == 0x82 && NameMatches(rest[i].1, host);
        assert all[i + 1] == rest[i];
      }
      forall i | 0 < i < |all| && all[i].0 == 0x82 && NameMatches(all[i].1, host)
        ensures Listed(san, e.next, host)
      {
        assert rest[i - 1] == all[i];
      }
    }
  }

  method VerifyHostname(san: Option<Bytes>, host: Bytes) returns (e: Error)
    ensures e == INVALID_ARGUMENT <==> host == []
    ensures e == OK <==> host != [] && san.Some? && Listed(san.value, 0, host)
  {
    if host == [] { return INVALID_ARGUMENT; }
    if san.None? { return VERIFY; }
    var p := 0;
    while p < |san.value|
      invariant p <= |san.value| && Listed(san.value, 0, host) == Listed(san.value, p, host)
    {
      var err, gn := ReadTlv(san.value, p);
      if err != OK { return err; }
      if gn.tag == 0x82 {
        var ok := DnsEqual(gn.value, host);
        if ok { return OK; }
      }
      p := gn.next;
    }
    return VERIFY;
  }
}
