/** AES-128-GCM over byte blocks; the block cipher is a parameter. */
module Gcm {
  import opened Bits
  import opened ModArith
  import opened Gf128

  type Block = s: Bytes | |s| == 16 witness seq(16, _ => 0)
  type Nonce = s: Bytes | |s| == 12 witness seq(12, _ => 0)
  type Cipher = (Block, Block) -> Block

  // ---- blocks as polynomials: the leftmost bit is the constant coefficient ----

  /** The `n` low bits of `b` in reverse order. */
  function Rev(b: nat, n: nat): (r: nat)
    ensures r < Pow2(n)
  {
    if n == 0 then 0 else b / Pow2(n - 1) % 2 + 2 * Rev(b, n - 1)
  }

  function Mirror(s: Bytes): (r: Bytes)
    ensures |r| == |s|
  {
    if s == [] then [] else [RevByte(s[0])] + Mirror(s[1..])
  }

  function RevByte(b: Byte): Byte
  {
    assert Pow2(8) == 256;
    Rev(b, 8)
  }

  function Poly(s: Bytes): nat { Le(Mirror(s)) }

  /** Bit `k` of a reversed byte is bit `7 - k` of the byte. */
  lemma {:induction false} RevBit(b: nat, n: nat, k: nat)
    requires k < n
    ensures Rev(b, n) / Pow2(k) % 2 == b / Pow2(n - 1 - k) % 2
    decreases n
  {
    var bit := b / Pow2(n - 1) % 2;
    Halve(bit, Rev(b, n - 1));
    if k > 0 {
      RevBit(b, n - 1, k - 1);
      DivDiv(Rev(b, n), 2, Pow2(k - 1));
    }
  }

  lemma {:induction false} RevXor(a: nat, b: nat, n: nat)
    ensures Rev(Xor(a, b), n) == Xor(Rev(a, n), Rev(b, n))
  {
    if n == 0 {
    } else {
      RevXor(a, b, n - 1);
      XorBitAt(a, b, n - 1);
      XorJoin(Rev(a, n - 1), Rev(b, n - 1), a / Pow2(n - 1) % 2, b / Pow2(n - 1) % 2);
    }
  }

  lemma {:induction false} XorBitAt(a: nat, b: nat, k: nat)
    ensures Xor(a, b) / Pow2(k) % 2 == (a / Pow2(k) % 2 + b / Pow2(k) % 2) % 2
  {
    if k == 0 {
      XorStep(a, b);
      ParityOfParts(a, b);
    } else {
      XorStep(a, b);
      XorBitAt(a / 2, b / 2, k - 1);
      DivDiv(a, 2, Pow2(k - 1));
      DivDiv(b, 2, Pow2(k - 1));
      DivDiv(Xor(a, b), 2, Pow2(k - 1));
    }
  }

  function XorBytes(a: Bytes, b: Bytes): (r: Bytes)
    requires |a| == |b|
    ensures |r| == |a|
  {
    seq(|a|, i requires 0 <= i < |a| => XorByte(a[i], b[i]))
  }

  lemma ShrStep(u: nat, k: nat)
    requires k > 0
    ensures Shr(u, k) == Shr(u / 2, k - 1)
  {
    DivDiv(u, 2, Pow2(k - 1));
  }

  lemma {:induction false} XorShift(u: nat, v: nat, k: nat)
    ensures Shr(Xor(u, v), k) == Xor(Shr(u, k), Shr(v, k))
    decreases k
  {
    var w := Xor(u, v);
    if k == 0 {
      assert Shr(u, 0) == u && Shr(v, 0) == v && Shr(w, 0) == w;
    } else {
      XorShift(u / 2, v / 2, k - 1);
      ShrStep(u, k);
      ShrStep(v, k);
      ShrStep(w, k);
      assert w / 2 == Xor(u / 2, v / 2) by { XorStep(u, v); }
    }
  }

  /** Exclusive or of low digits and rests. */
  lemma {:induction false} XorDigits(a: nat, b: nat, x: nat, y: nat, k: nat, u: nat, v: nat)
    requires a < Pow2(k) && b < Pow2(k) && u == a + Pow2(k) * x && v == b + Pow2(k) * y
    ensures Xor(u, v) == Xor(a, b) + Pow2(k) * Xor(x, y)
  {
    DivIs(u, Pow2(k), x, a);
    DivIs(v, Pow2(k), y, b);
    XorShift(u, v, k);
    XorLow(u, v, k);
    QuotientParts(Xor(u, v), Pow2(k));
  }

  lemma {:induction false} XorHigh(low: nat, k: nat)
    requires low < Pow2(k)
    ensures Xor(low, Pow2(k)) == low + Pow2(k)
  {
    XorDigits(low, 0, 0, 1, k, low, Pow2(k));
    XorZero(low);
    XorZero(1);
  }

  lemma {:induction false} PolyXor(a: Bytes, b: Bytes)
    requires |a| == |b|
    ensures Poly(XorBytes(a, b)) == Xor(Poly(a), Poly(b))
    decreases a
  {
    var c := XorBytes(a, b);
    if a == [] {
      XorZero(0);
    } else {
      assert c[1..] == XorBytes(a[1..], b[1..]);
      PolyXor(a[1..], b[1..]);
      RevXor(a[0], b[0], 8);
      assert Pow2(8) == 256;
      PolyCons(a);
      PolyCons(b);
      XorDigits(Rev(a[0], 8), Rev(b[0], 8), Poly(a[1..]), Poly(b[1..]), 8, Poly(a), Poly(b));
      PolyCons(c);
    }
  }

  lemma PolyCons(s: Bytes)
    requires s != []
    ensures Poly(s) == Rev(s[0], 8) + 256 * Poly(s[1..])
  {
    var m := Mirror(s);
    assert m[1..] == Mirror(s[1..]);
  }

  lemma {:induction false} MirrorAt(s: Bytes, i: nat)
    requires i < |s|
    ensures Mirror(s)[i] == RevByte(s[i])
  {
    if i > 0 { MirrorAt(s[1..], i - 1); }
  }

  /** The code's bit test reads coefficient `i`. */
  lemma PolyBit(s: Bytes, i: nat)
    requires i < 8 * |s|
    ensures s[i / 8] / Pow2(7 - i % 8) % 2 == Poly(s) / Pow2(i) % 2
  {
    LeBit(Mirror(s), i);
    MirrorAt(s, i / 8);
    RevBit(s[i / 8], 8, i % 8);
  }

  lemma {:induction false} PolyBound(s: Bytes)
    ensures Poly(s) < Pow2(8 * |s|)
  {
    LeTop(Mirror(s), |s|);
    assert Mirror(s)[..|s|] == Mirror(s);
  }

  // ---- the shift-and-xor product ----

  method Xor16(a: array<Byte>, b: Block)
    requires a.Length == 16
    modifies a
    ensures a[..] == old(XorBytes(a[..], b))
  {
    for i := 0 to 16
      invariant forall j :: 0 <= j < i ==> a[j] == XorByte(old(a[j]), b[j])
      invariant forall j :: i <= j < 16 ==> a[j] == old(a[j])
    {
      a[i] := XorByte(a[i], b[i]);
    }
  }

  lemma {:induction false} PolySnoc(s: Bytes, b: Byte)
    ensures Poly(s + [b]) == Poly(s) + Pow2(8 * |s|) * Rev(b, 8)
  {
    var m := Mirror(s + [b]);
    MirrorConcat(s, b);
    assert m == Mirror(s) + [RevByte(b)];
    LeTop(m, |s|);
    assert m[..|s|] == Mirror(s) && m[|s|..] == [RevByte(b)];
    assert Le([RevByte(b)]) == RevByte(b);
  }

  lemma {:induction false} MirrorConcat(s: Bytes, b: Byte)
    ensures Mirror(s + [b]) == Mirror(s) + [RevByte(b)]
  {
    if s == [] {
      assert [b][1..] == [];
    } else {
      assert (s + [b])[1..] == s[1..] + [b];
      MirrorConcat(s[1..], b);
    }
  }

  lemma {:induction false} RevShift(b: nat, n: nat)
    ensures Rev(b / 2, n) + Pow2(n) * (b % 2) == Rev(b, n + 1)
  {
    if n == 0 {
      assert Rev(b, 1) == b / Pow2(0) % 2 + 2 * Rev(b, 0);
    } else {
      RevShift(b, n - 1);
      DivDiv(b, 2, Pow2(n - 1));
      Doubling(Pow2(n - 1), b % 2);
    }
  }

  lemma {:induction false} RevLow(a: nat, b: nat, n: nat)
    requires a % Pow2(n) == b % Pow2(n)
    ensures Rev(a, n) == Rev(b, n)
  {
    if n > 0 {
      var p := Pow2(n - 1);
      DivDiv(a, p, 2);
      DivDiv(b, p, 2);
      SplitSame(p, a / p % 2, a % p, b / p % 2, b % p);
      RevLow(a, b, n - 1);
    }
  }

  lemma SplitSame(p: nat, i: nat, x: nat, j: nat, y: nat)
    requires x < p && y < p && i < 2 && j < 2 && p * i + x == p * j + y
    ensures i == j && x == y
  {
  }

  /** A byte shifted right with a bit coming in is its reversal shifted left. */
  lemma {:induction false} ShiftByte(b: Byte, carry: nat)
    requires carry < 2
    ensures var x := Or(b / 2, carry * 128);
      x < 256 && Rev(x, 8) + 256 * (b % 2) == 2 * Rev(b, 8) + carry
  {
    assert Pow2(7) == 128;
    OrDisjoint(b / 2, carry, 7);
    var x := b / 2 + carry * 128;
    RevShift(b, 7);
    ModUnique(x, carry, b / 2, 128);
    SmallMod(b / 2, 128);
    RevLow(x, b / 2, 7);
    assert Rev(x, 8) == x / Pow2(7) % 2 + 2 * Rev(x, 7);
  }

  lemma {:induction false} ShiftStep(done: Bytes, x: Byte, s: Bytes, b: Byte, carry: nat)
    requires |done| == |s| && Poly(done) + Pow2(8 * |s|) * carry == 2 * Poly(s)
    requires Rev(x, 8) + 256 * (b % 2) == 2 * Rev(b, 8) + carry
    ensures Poly(done + [x]) + Pow2(8 * (|s| + 1)) * (b % 2) == 2 * Poly(s + [b])
  {
    PolySnoc(done, x);
    PolySnoc(s, b);
    ShiftArith(Poly(done), Rev(x, 8), Poly(s), Rev(b, 8), carry, b % 2, Pow2(8 * |s|));
    assert Pow2(8) == 256;
    Pow2Add(8, 8 * |s|);
  }

  lemma ShiftArith(p: int, r: int, q: int, s: int, carry: int, n: int, w: int)
    requires p + w * carry == 2 * q && r + 256 * n == 2 * s + carry
    ensures p + w * r + (256 * w) * n == 2 * (q + w * s)
  {
    assert w * (r + 256 * n) == w * (2 * s + carry);
  }

  /** (b >> 1) | (carry << 7). */
  function ShiftIn(b: Byte, carry: Byte): (r: Byte)
    requires carry < 2
    ensures Rev(r, 8) + 256 * (b % 2) == 2 * Rev(b, 8) + carry
  {
    ShiftByte(b, carry);
    Or(b / 2, carry * 128)
  }

  /** One position to the right: in the polynomial, times x with the top coefficient dropped. */
  method Shr1(v: array<Byte>)
    requires v.Length == 16
    modifies v
    ensures Poly(v[..]) == 2 * old(Poly(v[..])) % TOP
  {
    hide Poly;
    hide Rev;
    hide Pow2;
    hide ShiftIn;
    ghost var s := v[..];
    var carry: Byte := 0;
    PolyOfNothing();
    assert v[..0] == [] && s[..0] == [];
    for i := 0 to 16
      invariant 0 <= carry < 2 && v[i..] == s[i..]
      invariant Poly(v[..i]) + Pow2(8 * i) * carry == 2 * Poly(s[..i])
    {
      ghost var done := v[..i];
      var n := v[i] % 2;
      assert v[i] == v[i..][0] == s[i];
      v[i] := ShiftIn(v[i], carry);
      assert v[..i + 1] == done + [v[i]] && s[..i + 1] == s[..i] + [s[i]];
      ShiftStep(done, v[i], s[..i], s[i], carry);
      carry := n;
    }
    assert v[..16] == v[..] && s[..16] == s;
    ShiftedWhole(v[..], s, carry);
  }

  lemma PolyOfNothing()
    ensures Poly([]) == 0
  {
  }

  lemma ShiftedWhole(v: Block, s: Block, carry: nat)
    requires Poly(v) + Pow2(128) * carry == 2 * Poly(s)
    ensures Poly(v) == 2 * Poly(s) % TOP
  {
    PolyBound(v);
    Pow2At128();
    ModUnique(2 * Poly(s), carry, Poly(v), TOP);
  }

  // ---- multiplication in the field ----

  /** y x^i in the field, as the loop builds it. */
  function Shifted(y: nat, i: nat): nat { if i == 0 then y else MulX(Shifted(y, i - 1)) }

  function Accumulated(x: nat, y: nat, i: nat): nat
  {
    if i == 0 then 0
    else if x / Pow2(i - 1) % 2 == 1 then Xor(Accumulated(x, y, i - 1), Shifted(y, i - 1))
    else Accumulated(x, y, i - 1)
  }

  lemma {:induction false} ShiftedIs(y: nat, i: nat)
    requires y < TOP
    ensures Shifted(y, i) == Gf(y, Pow2(i)) < TOP
  {
    ReduceBound(ClMul(y, Pow2(i)));
    if i == 0 {
      ClMulOne(y);
      ReduceSmall(y);
    } else {
      ShiftedIs(y, i - 1);
      ClMulDouble(y, Pow2(i - 1));
      ReduceDouble(ClMul(y, Pow2(i - 1)));
    }
  }

  lemma {:induction false} AccumulatedIs(x: nat, y: nat, i: nat)
    requires y < TOP
    ensures Accumulated(x, y, i) == Gf(y, x % Pow2(i))
  {
    if i == 0 {
      assert x % 1 == 0;
    } else {
      AccumulatedIs(x, y, i - 1);
      ShiftedIs(y, i - 1);
      NextBit(x, i - 1);
      GfXor(x % Pow2(i - 1), Pow2(i - 1), y);
    }
  }

  lemma {:induction false} NextBit(x: nat, k: nat)
    ensures x % Pow2(k + 1) == if x / Pow2(k) % 2 == 1 then Xor(x % Pow2(k), Pow2(k)) else x % Pow2(k)
  {
    hide Xor;
    assert Pow2(k + 1) == 2 * Pow2(k);
    OneBitMore(x, Pow2(k));
    XorHigh(x % Pow2(k), k);
  }

  lemma OneBitMore(x: nat, p: nat)
    requires 0 < p
    ensures x % (2 * p) == x % p + p * (x / p % 2)
  {
    var q := x / p;
    QuotientParts(x, p);
    Placed(x, p, q, x % p);
    ModUnique(x, q / 2, x % p + p * (q % 2), 2 * p);
  }

  lemma Placed(x: int, p: nat, q: nat, r: nat)
    requires x == p * q + r && r < p
    ensures x == q / 2 * (2 * p) + (r + p * (q % 2)) && 0 <= r + p * (q % 2) < 2 * p
  {
    assert q == 2 * (q / 2) + q % 2;
    assert p * (2 * (q / 2) + q % 2) == q / 2 * (2 * p) + p * (q % 2);
    if q % 2 == 0 { assert p * (q % 2) == 0; } else { assert p * (q % 2) == p; }
  }

  /** Dropping the top coefficient and adding 0x87 is subtracting the modulus. */
  lemma {:induction false} WrapTop(p: nat)
    requires p < TOP && 2 * p >= TOP
    ensures Xor(2 * p % TOP, 0x87) == MulX(p)
  {
    Pow2At128();
    ModUnique(2 * p, 1, 2 * p - TOP, TOP);
    XorDigits(2 * p - TOP, 0x87, 1, 1, 128, 2 * p, MODULUS);
    XorSelf(1);
  }

  lemma TopCoefficient(p: nat)
    requires p < TOP
    ensures p / Pow2(127) % 2 == 1 <==> 2 * p >= TOP
  {
    Pow2At128();
    var h := Pow2(127);
    if p >= h { DivIs(p, h, 1, p - h); } else { DivIs(p, h, 0, p); }
  }

  lemma RevConstant()
    ensures Rev(0xe1, 8) == 0x87
  {
    assert Rev(0xe1, 1) == 1;
    assert Rev(0xe1, 2) == 2;
    assert Rev(0xe1, 4) == 8;
    assert Rev(0xe1, 6) == 0x21;
  }

  lemma FoldByte(v: Bytes)
    requires |v| == 16
    ensures Poly(v[0 := XorByte(v[0], 0xe1)]) == Xor(Poly(v), 0x87)
  {
    var e: Bytes := [0xe1] + seq(15, _ => 0);
    assert e[1..] == seq(15, _ => 0);
    PolyZero(e[1..]);
    PolyCons(e);
    RevConstant();
    forall i | 0 <= i < 16
      ensures XorBytes(v, e)[i] == v[0 := XorByte(v[0], 0xe1)][i]
    {
      XorZero(v[i]);
    }
    assert XorBytes(v, e) == v[0 := XorByte(v[0], 0xe1)];
    PolyXor(v, e);
  }

  lemma {:induction false} PolyZero(s: Bytes)
    requires forall i :: 0 <= i < |s| ==> s[i] == 0
    ensures Poly(s) == 0
  {
    if s != [] {
      PolyCons(s);
      PolyZero(s[1..]);
      assert Rev(0, 8) == 0;
    }
  }

  method GfMul(x: Block, y: Block, out: array<Byte>)
    requires out.Length == 16
    modifies out
    ensures Poly(out[..]) == Gf(Poly(x), Poly(y))
  {
    var z := new Byte[16](_ => 0);
    var v := new Byte[16](i requires 0 <= i < 16 => y[i]);
    assert v[..] == y;
    PolyZero(z[..]);
    for i := 0 to 128
      modifies z, v
      invariant Poly(v[..]) == Shifted(Poly(y), i) && Poly(z[..]) == Accumulated(Poly(x), Poly(y), i)
    {
      GfMulStep(x, i, z, v);
    }
    GfMulValue(x, y);
    CopyBlock(z[..], out);
  }

  /** One turn of the loop: adds y x^i if bit `i` of `x` is set, and goes on to y x^(i+1). */
  method GfMulStep(x: Block, i: nat, z: array<Byte>, v: array<Byte>)
    requires i < 128 && z.Length == 16 && v.Length == 16 && z != v
    modifies z, v
    ensures Poly(v[..]) == MulX(old(Poly(v[..])))
    ensures Poly(z[..]) == if Poly(x) / Pow2(i) % 2 == 1 then Xor(old(Poly(z[..])), old(Poly(v[..]))) else old(Poly(z[..]))
  {
    PolyBit(x, i);
    if x[i / 8] / Pow2(7 - i % 8) % 2 == 1 {
      PolyXor(z[..], v[..]);
      Xor16(z, v[..]);
    }
    ghost var sum := z[..];
    TimesX(v);
    assert z[..] == sum;
  }

  method CopyBlock(b: Block, out: array<Byte>)
    requires out.Length == 16
    modifies out
    ensures out[..] == b
  {
    for i := 0 to 16
      invariant out[..i] == b[..i]
    {
      out[i] := b[i];
    }
  }

  lemma GfMulValue(x: Block, y: Block)
    ensures Accumulated(Poly(x), Poly(y), 128) == Gf(Poly(x), Poly(y))
  {
    PolyBound(x);
    PolyBound(y);
    Pow2At128();
    AccumulatedIs(Poly(x), Poly(y), 128);
    SmallMod(Poly(x), TOP);
    GfComm(Poly(y), Poly(x));
  }

  method TimesX(v: array<Byte>)
    requires v.Length == 16
    modifies v
    ensures Poly(v[..]) == MulX(old(Poly(v[..])))
  {
    ghost var p := Poly(v[..]);
    LastBit(v[..]);
    var lsb := v[15] % 2;
    Shr1(v);
    if lsb == 1 {
      FoldByte(v[..]);
      WrapTop(p);
      ghost var s := v[..];
      v[0] := XorByte(v[0], 0xe1);
      assert v[..] == s[0 := XorByte(s[0], 0xe1)];
    } else {
      SmallMod(2 * p, TOP);
    }
  }

  lemma LastBit(v: Block)
    ensures Poly(v) < TOP && (v[15] % 2 == 1 <==> 2 * Poly(v) >= TOP)
  {
    PolyBound(v);
    Pow2At128();
    PolyBit(v, 127);
    TopCoefficient(Poly(v));
    assert Pow2(0) == 1;
  }

  // ---- blocks and field elements correspond one to one ----

  function ToLe(v: nat, n: nat): (s: Bytes)
    ensures |s| == n
  {
    if n == 0 then [] else [v % 256] + ToLe(v / 256, n - 1)
  }

  lemma {:induction false} ToLeOfLe(s: Bytes)
    ensures ToLe(Le(s), |s|) == s
  {
    if s != [] {
      DivIs(Le(s), 256, Le(s[1..]), s[0]);
      ToLeOfLe(s[1..]);
    }
  }

  lemma RevDown(b: nat, n: nat)
    requires n > 0
    ensures Rev(Rev(b, n), n) == Rev(Rev(b, n - 1), n - 1) + Pow2(n - 1) * (b / Pow2(n - 1) % 2)
  {
    Halve(b / Pow2(n - 1) % 2, Rev(b, n - 1));
    RevShift(Rev(b, n), n - 1);
  }

  lemma {:induction false} RevTwice(b: nat, n: nat)
    requires b < Pow2(n)
    ensures Rev(Rev(b, n), n) == b
  {
    if n > 0 {
      var p := Pow2(n - 1);
      TopBit(b, p);
      RevDown(b, n);
      SmallMod(b % p, p);
      RevLow(b, b % p, n - 1);
      RevTwice(b % p, n - 1);
    }
  }

  lemma TopBit(b: nat, p: nat)
    requires 0 < p && b < 2 * p
    ensures b == p * (b / p % 2) + b % p && 0 <= b % p < p
  {
    DivDiv(b, p, 2);
    SmallMod(b, 2 * p);
  }

  lemma {:induction false} MirrorTwice(s: Bytes)
    ensures Mirror(Mirror(s)) == s
  {
    if s != [] {
      MirrorTwice(s[1..]);
      assert Pow2(8) == 256;
      RevTwice(s[0], 8);
    }
  }

  function BlockOf(v: nat): Block { Mirror(ToLe(v, 16)) }

  lemma BlockOfPoly(b: Block)
    ensures BlockOf(Poly(b)) == b
  {
    ToLeOfLe(Mirror(b));
    MirrorTwice(b);
  }

  // ---- GHASH ----

  /** The blocks of a byte string, the last one padded with zeros. */
  function Blocks(d: Bytes): seq<Block>
  {
    if d == [] then []
    else if |d| < 16 then [d + seq(16 - |d|, _ => 0)]
    else [d[..16]] + Blocks(d[16..])
  }

  function Polys(bs: seq<Block>): (ps: seq<nat>)
    ensures |ps| == |bs|
  {
    seq(|bs|, i requires 0 <= i < |bs| => Poly(bs[i]))
  }

  lemma PolysConcat(a: seq<Block>, b: seq<Block>)
    ensures Polys(a + b) == Polys(a) + Polys(b)
  {
  }

  lemma {:induction false} FoldConcat(h: nat, y: nat, a: seq<nat>, b: seq<nat>)
    ensures GhashFold(h, y, a + b) == GhashFold(h, GhashFold(h, y, a), b)
    decreases a
  {
    if a == [] {
      assert a + b == b;
    } else {
      assert (a + b)[1..] == a[1..] + b;
      FoldConcat(h, Gf(Xor(y, a[0]), h), a[1..], b);
    }
  }

  method GhashBlock(y: array<Byte>, h: Block, b: Block)
    requires y.Length == 16
    modifies y
    ensures Poly(y[..]) == Gf(Xor(old(Poly(y[..])), Poly(b)), Poly(h))
  {
    var t := new Byte[16](i requires 0 <= i < 16 reads y => y[i]);
    assert t[..] == y[..];
    PolyXor(t[..], b);
    Xor16(t, b);
    GfMul(t[..], h, y);
  }

  method GhashData(y: array<Byte>, h: Block, d: Bytes)
    requires y.Length == 16
    modifies y
    ensures Poly(y[..]) == GhashFold(Poly(h), old(Poly(y[..])), Polys(Blocks(d)))
  {
    ghost var y0 := Poly(y[..]);
    var off := 0;
    assert d[0..] == d;
    while off < |d|
      invariant off <= |d|
      invariant GhashFold(Poly(h), Poly(y[..]), Polys(Blocks(d[off..]))) == GhashFold(Poly(h), y0, Polys(Blocks(d)))
    {
      var n := if |d| - off < 16 then |d| - off else 16;
      var b := d[off..off + n] + seq(16 - n, _ => 0);
      FirstBlock(d[off..], b, d[off + n..]);
      GhashBlock(y, h, b);
      off := off + n;
    }
  }

  lemma {:induction false} FirstBlock(d: Bytes, b: Block, rest: Bytes)
    requires d != []
    requires var n := if |d| < 16 then |d| else 16; b == d[..n] + seq(16 - n, _ => 0) && rest == d[n..]
    ensures Polys(Blocks(d)) == [Poly(b)] + Polys(Blocks(rest))
  {
    if |d| < 16 {
      assert d[..|d|] == d;
    } else {
      assert b == d[..16];
    }
    assert Blocks(d) == [b] + Blocks(rest);
    PolysConcat([b], Blocks(rest));
  }

  // ---- counter mode ----

  /** The counter block `m` steps after `j0`: the last 32 bits count modulo 2^32. */
  function Counter(j0: Block, m: nat): Block
  {
    j0[..12] + ToBe(Be(j0[12..]) + m, 4)
  }

  method Inc32(c: array<Byte>)
    requires c.Length == 16
    modifies c
    ensures c[..] == old(Counter(c[..], 1))
  {
    hide Be;
    hide Pow2;
    hide Counter;
    IncStart();
    ghost var s := c[..];
    assert c[16..] == [] && s[16..] == [];
    var i := 15;
    while i >= 12
      invariant 11 <= i <= 15 && c[..i + 1] == s[..i + 1]
      invariant Be(c[i + 1..]) == 0 && Be(s[i + 1..]) + 1 == Pow2(8 * (15 - i))
    {
      ghost var tail := c[i + 1..];
      c[i] := (c[i] as int + 1) % 256;
      assert c[i..] == [c[i]] + tail && s[i..] == [s[i]] + s[i + 1..];
      IncByte(s[i], c[i], s[i + 1..], tail);
      if c[i] != 0 {
        assert c[..i] == s[..i];
        NoCarry(s, c[..], i);
        return;
      }
      i := i - 1;
    }
    AllCarry(s, c[..]);
  }

  lemma IncStart()
    ensures Be([]) == 0 && Pow2(0) == 1
  {
  }

  lemma {:induction false} IncByte(b: Byte, c: Byte, s: Bytes, t: Bytes)
    requires |s| == |t| && Be(t) == 0 && Be(s) + 1 == Pow2(8 * |s|) && c == (b as int + 1) % 256
    ensures c != 0 ==> Be([c] + t) == Be([b] + s) + 1
    ensures c == 0 ==> Be([c] + t) == 0 && Be([b] + s) + 1 == Pow2(8 * (|s| + 1))
  {
    BeCons(c, t);
    BeCons(b, s);
    assert Pow2(8) == 256;
    Pow2Add(8, 8 * |s|);
    IncArith(b, c, Pow2(8 * |s|));
  }

  lemma IncArith(b: Byte, c: Byte, w: nat)
    requires c == (b as int + 1) % 256
    ensures c != 0 ==> c * w == b * w + w
    ensures c == 0 ==> c * w == 0 && b * w + w == 256 * w
  {
    assert (b as int + 1) * w == b * w + w;
  }

  lemma NoCarry(s: Block, c: Block, i: nat)
    requires 12 <= i <= 15 && c[..i] == s[..i] && Be(c[i..]) == Be(s[i..]) + 1
    ensures c == Counter(s, 1)
  {
    var k := i - 12;
    BeSplit(s[12..], k);
    BeSplit(c[12..], k);
    assert s[12..][..k] == s[..i][12..] && c[12..][..k] == c[..i][12..];
    assert s[12..][k..] == s[i..] && c[12..][k..] == c[i..];
    assert c[..12] == c[..i][..12] && s[..12] == s[..i][..12];
    CounterIs(s, c);
  }

  lemma CounterIs(s: Block, c: Block)
    requires c[..12] == s[..12] && Be(c[12..]) == Be(s[12..]) + 1
    ensures c == Counter(s, 1)
  {
    ToBeOfBe(c[12..]);
    assert c == c[..12] + c[12..];
  }

  lemma AllCarry(s: Block, c: Block)
    requires c[..12] == s[..12] && Be(c[12..]) == 0 && Be(s[12..]) + 1 == Pow2(32)
    ensures c == Counter(s, 1)
  {
    ToBeOfBe(c[12..]);
    ToBeWraps(Pow2(32), 4);
    ModUnique(Pow2(32), 1, 0, Pow2(32));
    assert c == c[..12] + c[12..];
  }

  /** The first `n` octets of AES(J0 + 1), AES(J0 + 2), ... */
  function Keystream(aes: Cipher, key: Block, j0: Block, n: nat): (k: Bytes)
    ensures |k| == n
  {
    seq(n, i requires 0 <= i < n => aes(key, Counter(j0, i / 16 + 1))[i % 16])
  }

  /** GCTR of section 6.5 of SP 800-38D, started at the block after `j0`. */
  function Ctr(aes: Cipher, key: Block, j0: Block, input: Bytes): (out: Bytes)
    ensures |out| == |input|
  {
    XorBytes(input, Keystream(aes, key, j0, |input|))
  }

  /** Counter mode undoes itself at every length. */
  lemma CtrTwice(aes: Cipher, key: Block, j0: Block, input: Bytes)
    ensures Ctr(aes, key, j0, Ctr(aes, key, j0, input)) == input
  {
    var ks := Keystream(aes, key, j0, |input|);
    var once := Ctr(aes, key, j0, input);
    forall i | 0 <= i < |input|
      ensures XorBytes(once, ks)[i] == input[i]
    {
      XorTwice(input[i], ks[i]);
    }
  }

  lemma CounterStep(j0: Block, m: nat)
    ensures Counter(Counter(j0, m), 1) == Counter(j0, m + 1)
  {
    var v := Be(j0[12..]) + m;
    var c := Counter(j0, m);
    assert c[..12] == j0[..12] && c[12..] == ToBe(v, 4);
    SameWrapped(v);
  }

  lemma SameWrapped(v: nat)
    ensures ToBe(Be(ToBe(v, 4)) + 1, 4) == ToBe(v + 1, 4)
  {
    hide ToBe;
    hide Be;
    hide Pow2;
    var p := Pow2(32);
    ToBeWraps(v, 4);
    QuotientParts(v, p);
    BeOfToBe(v % p, 4);
    NextWrapped(v, p);
    ToBeWraps(v % p + 1, 4);
    ToBeWraps(v + 1, 4);
  }

  lemma NextWrapped(v: nat, p: nat)
    requires 0 < p
    ensures (v % p + 1) % p == (v + 1) % p
  {
    ModAdd(v, 1, p);
    ModAdd(v % p, 1, p);
    ModMod(v, p);
  }

  lemma CounterZero(j0: Block)
    ensures Counter(j0, 0) == j0
  {
    ToBeOfBe(j0[12..]);
    assert j0 == j0[..12] + j0[12..];
  }
}
