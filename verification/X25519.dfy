/** Curve25519 on sixteen 64-bit limbs: lazy carries, the constant-time exchange, products, inversion, packing
    and the Montgomery ladder, against the field-level functions of section 5 of RFC 7748. */
module X25519 {
  import opened Limbs
  import opened ModArith
  import opened Bits
  import opened Field25519
  import opened Types

  const WIDE: int := 0x100_0000_0000_0000        // 2^56
  const LOOSE: int := 0x2_0100                   // sums and differences of two products

  /** Limbs as a product leaves them: limb 0 in [-38, 2^16 + 38), the rest in [0, 2^16). */
  ghost predicate Reduced(s: seq<int>)
  {
    |s| == 16 && -38 <= s[0] < R + 38 && forall i :: 1 <= i < 16 ==> 0 <= s[i] < R
  }

  /** Limbs 1..15 are digits and limb 0 differs from a digit by `38 k`. */
  ghost predicate CarryShape(s: seq<int>, k: int)
  {
    |s| == 16 && 0 <= s[0] - 38 * k < R && forall i :: 1 <= i < 16 ==> 0 <= s[i] < R
  }

  /** The state before limb `i` is carried: limbs below are digits, the value is unchanged. */
  ghost predicate Carrying(s: seq<int>, s0: seq<int>, i: nat)
    requires |s0| == 16
  {
    && |s| == 16 && i < 16 && Val(s) == Val(s0) && Digits(s[..i])
    && -2 * WIDE <= s[i] <= 2 * WIDE
    && (forall j :: i < j < 16 ==> s[j] == s0[j])
  }

  /** One carry pass: the quotient `k` of the value by 2^256 leaves the top and re-enters as 38 k. */
  method Car(o: array<i64>)
    requires o.Length == 16 && Within(o[..], WIDE)
    modifies o
    ensures var k := old(Val(o[..])) / TWO256;
      CarryShape(o[..], k) && Val(o[..]) == old(Val(o[..])) - 2 * k * P
  {
    ghost var s0 := o[..];
    for i := 0 to 16
      invariant i < 16 ==> Carrying(o[..], s0, i)
      invariant i == 16 ==> CarryShape(o[..], Val(s0) / TWO256) && Val(o[..]) == Val(s0) - 2 * (Val(s0) / TWO256) * P
    {
      if i < 15 {
        InnerCarry(o[..], s0, i, o[i] / R);
        assert o[i + 1] == o[..][i + 1] == s0[i + 1];
      } else {
        LastCarry(o[..], o[15] / R);
      }
      CarryLimb(o, i);
    }
  }

  /** Moves the excess of limb `i` up, or from limb 15 to limb 0 with weight 38. */
  method CarryLimb(o: array<i64>, i: nat)
    requires o.Length == 16 && i < 16 && -2 * WIDE <= o[i] <= 2 * WIDE
    requires -2 * WIDE <= o[if i < 15 then i + 1 else 0] <= 2 * WIDE
    modifies o
    ensures var s, k := old(o[..]), old(o[i]) / R;
      o[..] == if i < 15 then s[i := s[i] - k * R][i + 1 := s[i + 1] + k] else s[15 := s[15] - k * R][0 := s[0] + 38 * k]
  {
    o[i] := o[i] + R;
    var c: i64 := o[i] / R;
    var carry: i64 := c - 1 + 37 * (c - 1) * (if i == 15 then 1 else 0);
    var t := (i + 1) * (if i < 15 then 1 else 0);
    o[t] := o[t] + carry;
    o[i] := o[i] - c * R;
  }

  lemma InnerCarry(s: seq<int>, s0: seq<int>, i: nat, k: int)
    requires |s0| == 16 && Within(s0, WIDE) && i < 15 && Carrying(s, s0, i)
    requires k == s[i] / R
    ensures Carrying(s[i := s[i] - k * R][i + 1 := s[i + 1] + k], s0, i + 1)
  {
    var u := s[i := s[i] - k * R];
    var w := u[i + 1 := u[i + 1] + k];
    ValUpdate(s, i, -k * R);
    ValUpdate(u, i + 1, k);
    assert k * RPow(i + 1) == k * R * RPow(i);
    assert w[..i + 1] == s[..i] + [s[i] - k * R];
    assert w[i + 1] == s0[i + 1] + k;
  }

  lemma LastCarry(s: seq<int>, k: int)
    requires |s| == 16 && Digits(s[..15]) && k == s[15] / R
    ensures k == Val(s) / TWO256
    ensures var w := s[15 := s[15] - k * R][0 := s[0] + 38 * k];
      CarryShape(w, k) && Val(w) == Val(s) - 2 * k * P
  {
    hide Val;
    var top := s[15] - k * R;
    var u := s[15 := s[15] + (-k * R)];
    ValUpdate(s, 15, -k * R);
    ValUpdate(u, 0, 38 * k);
    RPow16();
    assert RPow(0) == 1 && R * RPow(15) == TWO256;
    assert -k * R * RPow(15) == -k * TWO256;
    DigitsAfterTop(u);
    ModUnique(Val(s), k, Val(u), TWO256);
  }

  lemma {:induction false} DigitsAfterTop(u: seq<int>)
    requires |u| == 16 && Digits(u[..15]) && 0 <= u[15] < R
    ensures 0 <= Val(u) < TWO256
    ensures forall i :: 0 <= i < 15 ==> u[i] == u[..15][i]
  {
    assert u[..15] + [u[15]] == u;
    DigitsBound(u);
    RPow16();
  }

  // ---- how far three carry passes bring any limbs in range ----

  const FIRST: int := 0x1_0000_0000_0000         // 2^48

  lemma {:induction false} FirstPass(s: seq<int>, t: seq<int>)
    requires |s| == 16 && Within(s, FIRST)
    requires CarryShape(t, Val(s) / TWO256)
    ensures Within(t, WIDE) && -0x200_0000_0000 <= t[0] <= 0x200_0000_0000
  {
    WithinBound(s, FIRST);
    RPow16();
    var k := Val(s) / TWO256;
    assert -0x2_0000_0000 <= k <= 0x2_0000_0000;
  }

  /** Limb 0 apart, limbs that are digits stand for a number below 2^256. */
  lemma {:induction false} HighDigits(s: seq<int>)
    requires |s| == 16 && forall i :: 1 <= i < 16 ==> 0 <= s[i] < R
    ensures Val(s) == s[0] + R * Val(s[1..]) && 0 <= R * Val(s[1..]) <= TWO256 - R
  {
    DigitsBound(s[1..]);
    RPow16();
  }

  lemma {:induction false} SecondPass(s: seq<int>, t: seq<int>)
    requires |s| == 16 && (forall i :: 1 <= i < 16 ==> 0 <= s[i] < R)
    requires -0x200_0000_0000 <= s[0] <= 0x200_0000_0000
    requires CarryShape(t, Val(s) / TWO256)
    ensures Reduced(t)
  {
    HighDigits(s);
    assert -1 <= Val(s) / TWO256 <= 1;
  }

  lemma {:induction false} ThirdPass(s: seq<int>, t: seq<int>)
    requires Reduced(s) && CarryShape(t, Val(s) / TWO256)
    requires Val(t) == Val(s) - 2 * (Val(s) / TWO256) * P
    ensures Digits(t)
  {
    HighDigits(s);
    HighDigits(t);
    LowLimbAfterWrap(s[0], Val(s[1..]), t[0], Val(t[1..]), Val(s) / TWO256);
  }

  lemma LowLimbAfterWrap(s0: int, sh: int, t0: int, th: int, k: int)
    requires -38 <= s0 < R + 38 && 0 <= R * sh < TWO256 && 0 <= R * th <= TWO256 - R
    requires k == (s0 + R * sh) / TWO256 && 0 <= t0 - 38 * k < R
    requires t0 + R * th == s0 + R * sh - 2 * k * P
    ensures 0 <= t0 < R
  {
    var v := s0 + R * sh;
    assert -1 <= k <= 1;
    if k == -1 {
      assert v < 0 && t0 + R * th == v + TWO256 - 38;
    } else if k == 1 {
      assert v >= TWO256 && t0 + R * th == v - TWO256 + 38;
    }
  }

  lemma {:induction false} SameElt(s: seq<int>, t: seq<int>, k: int)
    requires Val(t) == Val(s) - 2 * k * P
    ensures Elt(t) == Elt(s)
  {
    ModShift(Val(s), -2 * k, P);
  }

  // ---- constant-time exchange ----

  const M64: int := 0x1_0000_0000_0000_0000

  function U64(x: i64): nat { if x < 0 then x + M64 else x }
  function S64(u: nat): i64
    requires u < M64
  {
    if u < 0x8000_0000_0000_0000 then u else u - M64
  }

  lemma Pow2At64()
    ensures Pow2(64) == M64
  {
    assert Pow2(8) == 256;
    Pow2Add(8, 8);
    Pow2Add(16, 16);
    Pow2Add(32, 32);
  }

  function Xor64(a: i64, b: i64): i64
  {
    Pow2At64();
    XorBound(U64(a), U64(b), 64);
    S64(Xor(U64(a), U64(b)))
  }

  function And64(a: i64, b: i64): i64
  {
    Pow2At64();
    AndBound(U64(a), U64(b));
    S64(And(U64(a), U64(b)))
  }

  lemma SelectWord(p: i64, q: i64, b: int)
    requires 0 <= b <= 1
    ensures var t := And64(-b, Xor64(p, q));
      Xor64(p, t) == (if b == 1 then q else p) && Xor64(q, t) == (if b == 1 then p else q)
  {
    Pow2At64();
    var u, v := U64(p), U64(q);
    XorBound(u, v, 64);
    AndMask(64, Xor(u, v));
    XorCancel(u, v);
    XorCancel(v, u);
    XorComm(u, v);
    XorZero(u);
    XorZero(v);
  }

  /** Exchanges the two limb arrays exactly when `b` is 1. */
  method Sel(p: array<i64>, q: array<i64>, b: int)
    requires p.Length == 16 && q.Length == 16 && p != q && 0 <= b <= 1
    modifies p, q
    ensures p[..] == old(if b == 1 then q[..] else p[..])
    ensures q[..] == old(if b == 1 then p[..] else q[..])
  {
    var c: i64 := -(b - 1) - 1;
    for i := 0 to 16
      invariant forall j :: 0 <= j < i ==> p[j] == old(if b == 1 then q[j] else p[j])
      invariant forall j :: 0 <= j < i ==> q[j] == old(if b == 1 then p[j] else q[j])
      invariant forall j :: i <= j < 16 ==> p[j] == old(p[j]) && q[j] == old(q[j])
    {
      SelectWord(p[i], q[i], b);
      var t := And64(c, Xor64(p[i], q[i]));
      p[i] := Xor64(p[i], t);
      q[i] := Xor64(q[i], t);
    }
  }

  // ---- sums, differences, products ----

  method Add(o: array<i64>, a: array<i64>, b: array<i64>)
    requires o.Length == 16 && a.Length == 16 && b.Length == 16
    requires Reduced(a[..]) && Reduced(b[..])
    modifies o
    ensures Within(o[..], LOOSE) && Elt(o[..]) == old(FAdd(Elt(a[..]), Elt(b[..])))
  {
    for i := 0 to 16
      invariant forall j :: 0 <= j < i ==> o[j] == old(a[j]) + old(b[j])
      invariant forall j :: i <= j < 16 ==> a[j] == old(a[j]) && b[j] == old(b[j])
    {
      o[i] := a[i] + b[i];
    }
    ValLinear(old(a[..]), old(b[..]), o[..], 1);
    ModAdd(old(Val(a[..])), old(Val(b[..])), P);
  }

  method Sub(o: array<i64>, a: array<i64>, b: array<i64>)
    requires o.Length == 16 && a.Length == 16 && b.Length == 16
    requires Reduced(a[..]) && Reduced(b[..])
    modifies o
    ensures Within(o[..], LOOSE) && Elt(o[..]) == old(FSub(Elt(a[..]), Elt(b[..])))
  {
    for i := 0 to 16
      invariant forall j :: 0 <= j < i ==> o[j] == old(a[j]) - old(b[j])
      invariant forall j :: i <= j < 16 ==> a[j] == old(a[j]) && b[j] == old(b[j])
    {
      o[i] := a[i] - b[i];
    }
    ValLinear(old(a[..]), old(b[..]), o[..], -1);
    ModSub(old(Val(a[..])), old(Val(b[..])), P);
  }

  lemma {:induction false} ValLinear(a: seq<int>, b: seq<int>, o: seq<int>, f: int)
    requires |a| == |b| == |o|
    requires forall j :: 0 <= j < |a| ==> o[j] == a[j] + f * b[j]
    ensures Val(o) == Val(a) + f * Val(b)
  {
    if a != [] {
      ValLinear(a[1..], b[1..], o[1..], f);
      assert f * Val(b) == f * b[0] + R * (f * Val(b[1..]));
    }
  }

  method Mul(o: array<i64>, a: array<i64>, b: array<i64>)
    requires o.Length == 16 && a.Length == 16 && b.Length == 16
    requires Within(a[..], LOOSE) && Within(b[..], LOOSE)
    modifies o
    ensures Reduced(o[..]) && Within(o[..], LOOSE) && Elt(o[..]) == old(FMul(Elt(a[..]), Elt(b[..])))
  {
    ghost var va, vb := Val(a[..]), Val(b[..]);
    var t := Convolve(a, b);
    ghost var h := FoldHigh(t);
    ghost var s0 := t[..16];
    for i := 0 to 16
      invariant t[..16] == s0 && o[..i] == s0[..i]
    {
      o[i] := t[i];
    }
    assert o[..] == s0;
    CarryTwice(o);
    ProductElt(va, vb, Val(s0), h);
  }

  lemma ProductElt(va: int, vb: int, v: int, h: int)
    requires v == va * vb - 2 * h * P
    ensures v % P == FMul(va % P, vb % P)
  {
    ModShift(va * vb, -2 * h, P);
    ModMul(va, vb, P);
  }

  method CarryTwice(o: array<i64>)
    requires o.Length == 16 && Within(o[..], FIRST)
    modifies o
    ensures Reduced(o[..]) && Elt(o[..]) == old(Elt(o[..]))
  {
    ghost var s0 := o[..];
    Car(o);
    ghost var s1 := o[..];
    FirstPass(s0, s1);
    SameElt(s0, s1, Val(s0) / TWO256);
    Car(o);
    SecondPass(s1, o[..]);
    SameElt(s1, o[..], Val(s1) / TWO256);
  }

  /** The 31 column sums of the schoolbook product. */
  method Convolve(a: array<i64>, b: array<i64>) returns (t: array<i64>)
    requires a.Length == 16 && b.Length == 16
    requires Within(a[..], LOOSE) && Within(b[..], LOOSE)
    ensures fresh(t) && t.Length == 31 && Within(t[..], 256 * LOOSE * LOOSE)
    ensures Val(t[..]) == Val(a[..]) * Val(b[..])
  {
    hide RPow;
    hide Val;
    t := new i64[31](_ => 0);
    ghost var va, vb := a[..], b[..];
    ValZero(t[..]);
    ValZero(va[..0]);
    for i := 0 to 16
      invariant Within(t[..], 16 * i * LOOSE * LOOSE)
      invariant Val(t[..]) == Val(va[..i]) * Val(vb)
    {
      ValZero(vb[..0]);
      for j := 0 to 16
        invariant Within(t[..], (16 * i + j) * LOOSE * LOOSE)
        invariant Val(t[..]) == Val(va[..i]) * Val(vb) + va[i] * RPow(i) * Val(vb[..j])
      {
        ghost var s := t[..];
        ProductBound(a[i], b[j], LOOSE);
        var prod: i64 := a[i] * b[j];
        t[i + j] := t[i + j] + prod;
        assert t[..] == s[i + j := s[i + j] + prod];
        ValUpdate(s, i + j, prod);
        ColumnStep(va[i], vb, i, j);
      }
      assert vb[..16] == vb;
      ValSnoc(va, i);
      RowStep(Val(va[..i]), RPow(i), va[i], Val(vb));
    }
    assert va[..16] == va;
  }

  lemma ProductBound(x: int, y: int, b: int)
    requires -b <= x <= b && -b <= y <= b
    ensures -b * b <= x * y <= b * b
  {
    var a := if x >= 0 then x else -x;
    MulMono(a, y, b);
    MulMono(a, -b, y);
    MulMono(b, a, b);
    assert a * -b == -(a * b) && a * b == b * a;
    assert x * y == a * y || x * y == -(a * y);
  }

  lemma {:induction false} ValZero(s: seq<int>)
    requires forall i :: 0 <= i < |s| ==> s[i] == 0
    ensures Val(s) == 0
  {
    if s != [] { ValZero(s[1..]); }
  }

  lemma ColumnStep(x: int, b: seq<int>, i: nat, j: nat)
    requires j < |b|
    ensures x * RPow(i) * Val(b[..j]) + x * b[j] * RPow(i + j) == x * RPow(i) * Val(b[..j + 1])
  {
    hide Val;
    hide RPow;
    ValSnoc(b, j);
    RPowAdd(i, j);
    var p, q, v := RPow(i), RPow(j), Val(b[..j]);
    assert x * p * (v + q * b[j]) == x * p * v + x * b[j] * (p * q);
  }

  lemma RowStep(v: int, p: int, x: int, w: int)
    ensures v * w + x * p * w == (v + p * x) * w
  {
  }

  /** Folds columns 16..30 back with weight 38; `h` is their value. */
  method FoldHigh(t: array<i64>) returns (ghost h: int)
    requires t.Length == 31 && Within(t[..], 256 * LOOSE * LOOSE)
    modifies t
    ensures Val(t[..16]) == old(Val(t[..])) - 2 * h * P && Within(t[..16], FIRST)
  {
    hide Val;
    ghost var s := t[..];
    for i := 0 to 15
      invariant forall k :: i <= k < 31 ==> t[k] == s[k]
      invariant forall k :: 0 <= k < i ==> t[k] == s[k] + 38 * s[k + 16]
    {
      t[i] := t[i] + 38 * t[i + 16];
    }
    h := Val(s[16..]);
    FoldedValue(s, t[..16]);
  }

  lemma FoldedValue(s: seq<int>, u: seq<int>)
    requires |s| == 31 && |u| == 16 && u[15] == s[15] && forall k :: 0 <= k < 15 ==> u[k] == s[k] + 38 * s[k + 16]
    ensures Val(u) == Val(s) - 2 * Val(s[16..]) * P
    ensures Within(s, 256 * LOOSE * LOOSE) ==> Within(u, FIRST)
  {
    hide Val;
    hide RPow;
    assert s == s[..16] + s[16..];
    ValConcat(s[..16], s[16..]);
    RPow16();
    ValConcat(s[16..], [0]);
    ValZero([0]);
    ValLinear(s[..16], s[16..] + [0], u, 38);
  }

  // ---- inversion ----

  function Deficit(a: nat): nat
  {
    if a >= 5 then 1 else if a == 4 then 2 else if a == 3 then 3 else if a == 2 then 6 else if a == 1 then 11 else 21
  }

  lemma {:induction false} EnoughBits(a: nat)
    requires a <= 254
    ensures Deficit(a) < Pow2(255 - a)
  {
    if a < 5 {
      assert 255 - a == 250 - a + 5;
      Pow2Add(250 - a, 5);
      assert Pow2(5) == 32;
    }
  }

  /** The leading bits of 2^255 - 21 down to bit `a`. */
  function Exponent(a: nat): nat
    requires a <= 254
  {
    EnoughBits(a);
    Pow2(255 - a) - Deficit(a)
  }

  lemma ExponentStep(a: nat)
    requires a < 254
    ensures Exponent(a) == 2 * Exponent(a + 1) + (if a == 2 || a == 4 then 0 else 1)
  {
  }

  lemma Pow2At255()
    ensures Pow2(255) == TWO255
  {
    Pow2At64();
    Pow2Add(64, 64);
    Pow2Add(128, 64);
    Pow2Add(192, 64);
    assert 2 * Pow2(255) == Pow2(256);
  }

  method Copy(r: array<i64>, a: array<i64>)
    requires r.Length == 16 && a.Length == 16
    modifies r
    ensures r[..] == old(a[..])
  {
    for i := 0 to 16
      invariant forall j :: 0 <= j < i ==> r[j] == old(a[j])
      invariant forall j :: i <= j < 16 ==> a[j] == old(a[j])
    {
      r[i] := a[i];
    }
  }

  /** Fermat inversion: the power 2^255 - 21 = p - 2. */
  method Inv(o: array<i64>, i: array<i64>)
    requires o.Length == 16 && i.Length == 16 && Within(i[..], LOOSE)
    modifies o
    ensures Reduced(o[..]) && Elt(o[..]) == FPow(old(Elt(i[..])), P - 2)
  {
    hide Val;
    var c := new i64[16];
    Copy(c, i);
    ghost var x := Elt(i[..]);
    assert FPow(x, 1) == x by { SmallMod(x, P); assert FPow(x, 1) == FMul(FPow(x, 0), x); }
    assert Pow2(1) == 2;
    var a := 253;
    while a >= 0
      invariant -1 <= a <= 253
      invariant i[..] == old(i[..]) && Within(c[..], LOOSE) && (a < 253 ==> Reduced(c[..]))
      invariant Elt(c[..]) == FPow(x, Exponent(a + 1))
    {
      ghost var e := Exponent(a + 1);
      Mul(c, c, c);
      FPowAdd(x, e, e);
      if a != 2 && a != 4 {
        Mul(c, c, i);
        assert FPow(x, e + e + 1) == FMul(FPow(x, e + e), x);
      }
      ExponentStep(a);
      a := a - 1;
    }
    Pow2At255();
    Copy(o, c);
  }

  // ---- the ladder ----

  ghost predicate Separate(a: array<i64>, b: array<i64>, c: array<i64>, d: array<i64>, e: array<i64>, f: array<i64>,
                           x: array<i64>, k: array<i64>)
  {
    && a.Length == 16 && b.Length == 16 && c.Length == 16 && d.Length == 16
    && e.Length == 16 && f.Length == 16 && x.Length == 16 && k.Length == 16
    && a != b && a != c && a != d && a != e && a != f && a != x && a != k
    && b != c && b != d && b != e && b != f && b != x && b != k
    && c != d && c != e && c != f && c != x && c != k
    && d != e && d != f && d != x && d != k
    && e != f && e != x && e != k && f != x && f != k
  }

  ghost predicate Holds(a: array<i64>, b: array<i64>, c: array<i64>, d: array<i64>, l: Ladder)
    reads a, b, c, d
  {
    && Reduced(a[..]) && Reduced(b[..]) && Reduced(c[..]) && Reduced(d[..])
    && l == Ladder(Elt(a[..]), Elt(c[..]), Elt(b[..]), Elt(d[..]))
  }

  method LadderStep(a: array<i64>, b: array<i64>, c: array<i64>, d: array<i64>, e: array<i64>, f: array<i64>,
                    x: array<i64>, c121665: array<i64>, ghost l: Ladder)
    requires Separate(a, b, c, d, e, f, x, c121665)
    requires Holds(a, b, c, d, l) && Within(x[..], LOOSE)
    requires Within(c121665[..], LOOSE) && Elt(c121665[..]) == 121665
    modifies a, b, c, d, e, f
    ensures Holds(a, b, c, d, Step(Elt(x[..]), l))
  {
    Squares(a, b, c, d, e, f, x, c121665, l);
    ghost var A, B := FAdd(l.x2, l.z2), FSub(l.x2, l.z2);
    ghost var CB, DA := FMul(FAdd(l.x3, l.z3), B), FMul(FSub(l.x3, l.z3), A);
    SumAndDifference(a, b, c, d, e, f, x, c121665, FMul(A, A), FMul(B, B), CB, DA);
    Products(a, b, c, d, e, f, x, c121665, FMul(A, A), FMul(B, B));
    SquareOfDifference(CB, DA, P);
  }

  /** First half of an iteration: d = AA, f = BB, a = CB, c = DA. */
  method Squares(a: array<i64>, b: array<i64>, c: array<i64>, d: array<i64>, e: array<i64>, f: array<i64>,
                     x: array<i64>, k: array<i64>, ghost l: Ladder)
    requires Separate(a, b, c, d, e, f, x, k) && Holds(a, b, c, d, l)
    modifies a, b, c, d, e, f
    ensures Reduced(a[..]) && Reduced(c[..]) && Reduced(d[..]) && Reduced(f[..])
    ensures Elt(d[..]) == FMul(FAdd(l.x2, l.z2), FAdd(l.x2, l.z2))
    ensures Elt(f[..]) == FMul(FSub(l.x2, l.z2), FSub(l.x2, l.z2))
    ensures Elt(a[..]) == FMul(FAdd(l.x3, l.z3), FSub(l.x2, l.z2))
    ensures Elt(c[..]) == FMul(FSub(l.x3, l.z3), FAdd(l.x2, l.z2))
  {
    Add(e, a, c);
    Sub(a, a, c);
    Add(c, b, d);
    Sub(b, b, d);
    Mul(d, e, e);
    Mul(f, a, a);
    Mul(a, c, a);
    Mul(c, b, e);
  }

  /** From d = AA, f = BB, a = CB, c = DA to e = DA + CB, b = (CB - DA)^2, c = E. */
  method SumAndDifference(a: array<i64>, b: array<i64>, c: array<i64>, d: array<i64>, e: array<i64>, f: array<i64>,
                          x: array<i64>, k: array<i64>, ghost AA: Fe, ghost BB: Fe, ghost CB: Fe, ghost DA: Fe)
    requires Separate(a, b, c, d, e, f, x, k)
    requires Reduced(a[..]) && Reduced(c[..]) && Reduced(d[..]) && Reduced(f[..])
    requires Elt(a[..]) == CB && Elt(c[..]) == DA && Elt(d[..]) == AA && Elt(f[..]) == BB
    modifies a, b, c, e
    ensures Reduced(b[..]) && Within(c[..], LOOSE) && Within(e[..], LOOSE)
    ensures Elt(e[..]) == FAdd(DA, CB) && Elt(c[..]) == FSub(AA, BB)
    ensures Elt(b[..]) == FMul(FSub(CB, DA), FSub(CB, DA))
  {
    Add(e, a, c);
    Sub(a, a, c);
    Mul(b, a, a);
    Sub(c, d, f);
  }

  /** The products that end an iteration, from c = E, e = DA + CB and b = (CB - DA)^2. */
  method Products(a: array<i64>, b: array<i64>, c: array<i64>, d: array<i64>, e: array<i64>, f: array<i64>,
                  x: array<i64>, c121665: array<i64>, ghost AA: Fe, ghost BB: Fe)
    requires Separate(a, b, c, d, e, f, x, c121665)
    requires Reduced(b[..]) && Within(c[..], LOOSE) && Within(e[..], LOOSE) && Reduced(d[..]) && Reduced(f[..])
    requires Within(x[..], LOOSE) && Elt(d[..]) == AA && Elt(f[..]) == BB
    requires Within(c121665[..], LOOSE) && Elt(c121665[..]) == 121665
    modifies a, b, c, d
    ensures var E := old(Elt(c[..])); Holds(a, b, c, d,
      Ladder(FMul(AA, BB), FMul(E, FAdd(AA, FMul(121665, E))),
             old(FMul(Elt(e[..]), Elt(e[..]))), old(FMul(Elt(x[..]), Elt(b[..])))))
  {
    FComm(Elt(x[..]), Elt(b[..]));
    TimesA24(a, c, d, c121665);
    Mul(a, d, f);
    Mul(d, b, x);
    Mul(b, e, e);
  }

  /** c := E (AA + a24 E) for c = E and d = AA. */
  method TimesA24(a: array<i64>, c: array<i64>, d: array<i64>, c121665: array<i64>)
    requires a.Length == c.Length == d.Length == c121665.Length == 16
    requires a != c && a != d && a != c121665 && c != d && c != c121665
    requires Within(c[..], LOOSE) && Reduced(d[..])
    requires Within(c121665[..], LOOSE) && Elt(c121665[..]) == 121665
    modifies a, c
    ensures Reduced(c[..])
    ensures var E, AA := old(Elt(c[..])), Elt(d[..]); Elt(c[..]) == FMul(E, FAdd(AA, FMul(121665, E)))
  {
    FComm(Elt(c[..]), 121665);
    FComm(Elt(d[..]), FMul(121665, Elt(c[..])));
    Mul(a, c, c121665);
    Add(a, a, d);
    Mul(c, c, a);
  }

  // ---- bytes to limbs and back ----

  lemma {:induction false} LePairs(n: Bytes, s: seq<int>)
    requires |n| == 2 * |s|
    requires forall i :: 0 <= i < |s| ==> s[i] == Pair(n[2 * i], n[2 * i + 1])
    ensures Val(s) == Le(n)
  {
    if s != [] {
      assert n[2..] == n[1..][1..];
      forall i | 0 <= i < |s| - 1
        ensures s[1..][i] == Pair(n[2..][2 * i], n[2..][2 * i + 1])
      {
        assert s[i + 1] == Pair(n[2 * (i + 1)], n[2 * (i + 1) + 1]);
      }
      LePairs(n[2..], s[1..]);
      assert s[0] == Pair(n[2 * 0], n[2 * 0 + 1]);
      assert n[1..][0] == n[1];
    }
  }

  lemma Pow2At15()
    ensures Pow2(15) == 0x8000
  {
    Pow2Add(7, 8);
    assert Pow2(7) == 128 && Pow2(8) == 256;
  }

  /** The top bit of the last byte is ignored. */
  method Unpack(o: array<i64>, n: Bytes)
    requires o.Length == 16 && |n| == 32
    modifies o
    ensures Digits(o[..]) && Val(o[..]) == Le(n) % TWO255
  {
    for i := 0 to 16
      invariant forall j :: 0 <= j < i ==> o[j] == Pair(n[2 * j], n[2 * j + 1])
    {
      o[i] := (n[2 * i] as int) + (n[2 * i + 1] as int) * 256;
    }
    LePairs(n, o[..]);
    MaskTop(o);
  }

  lemma {:induction false} MaskLimb(x: nat)
    ensures And(0x7fff, x) == x % 0x8000
  {
    Pow2At15();
    AndLow(15, x);
  }

  /** o[15] &= 0x7fff. */
  method MaskTop(o: array<i64>)
    requires o.Length == 16 && Digits(o[..])
    modifies o
    ensures Digits(o[..]) && Val(o[..]) == old(Val(o[..])) % TWO255
  {
    ghost var s := o[..];
    MaskLimb(o[15]);
    o[15] := And(0x7fff, o[15]);
    assert o[..] == s[15 := s[15] % 0x8000];
    TopBit(s, o[..]);
  }

  lemma {:induction false} TopBit(s: seq<int>, t: seq<int>)
    requires |s| == 16 && Digits(s) && t == s[15 := s[15] % 0x8000]
    ensures Digits(t) && Val(t) == Val(s) % TWO255
  {
    hide Val;
    hide RPow;
    assert t[..15] == s[..15] && t[..16] == t && s[..16] == s;
    ValSnoc(t, 15);
    ValSnoc(s, 15);
    assert forall i :: 0 <= i < 15 ==> s[..15][i] == s[i];
    DigitsBound(s[..15]);
    RPow16();
    TopBitArith(Val(s[..15]), s[15], RPow(15));
  }

  lemma TopBitArith(low: int, top: int, w: int)
    requires 0 <= low < w && 0 <= top && w * 0x8000 == TWO255
    ensures low + w * (top % 0x8000) == (low + w * top) % TWO255
  {
    MulMono(w, top % 0x8000, 0x7fff);
    assert w * top == w * 0x8000 * (top / 0x8000) + w * (top % 0x8000);
    ModUnique(low + w * top, top / 0x8000, low + w * (top % 0x8000), TWO255);
  }

  function PLimb(i: nat): int { if i == 0 then 0xffed else if i < 15 then 0xffff else 0x7fff }

  function PLimbs(n: nat): seq<int> { seq(n, i requires 0 <= i => PLimb(i)) }

  lemma PLimbsSnoc(i: nat)
    ensures Val(PLimbs(i + 1)) == Val(PLimbs(i)) + RPow(i) * PLimb(i)
  {
    assert PLimbs(i + 1)[..i] == PLimbs(i);
    ValSnoc(PLimbs(i + 1), i);
    assert PLimbs(i + 1)[..i + 1] == PLimbs(i + 1);
  }

  lemma {:induction false} PPrefix(n: nat)
    requires 1 <= n <= 15
    ensures Val(PLimbs(n)) == RPow(n) - 19
  {
    if n == 1 {
      assert Val(PLimbs(1)[1..]) == 0;
      assert RPow(1) == R;
    } else {
      PPrefix(n - 1);
      PLimbsSnoc(n - 1);
    }
  }

  lemma PValue()
    ensures Val(PLimbs(16)) == P
  {
    PPrefix(15);
    PLimbsSnoc(15);
    RPow16();
  }

  /** Limbs below `i` of t - p, the last one unmasked and still carrying its borrow. */
  ghost predicate Borrowing(m: seq<int>, t: seq<int>, i: nat)
    requires 1 <= i <= 16 == |m| == |t|
  {
    && Digits(m[..i - 1]) && -R <= m[i - 1] < R
    && Val(m[..i]) == Val(t[..i]) - Val(PLimbs(i))
  }

  lemma BorrowStep(m: seq<int>, t: seq<int>, i: nat, bor: int)
    requires |m| == |t| == 16 && 1 <= i < 16 && Digits(t) && Borrowing(m, t, i)
    requires bor == m[i - 1] / R % 2
    ensures Borrowing(m[i := t[i] - PLimb(i) - bor][i - 1 := m[i - 1] % R], t, i + 1)
  {
    var u := m[i := t[i] - PLimb(i) - bor];
    var w := u[i - 1 := m[i - 1] % R];
    Floor(m[i - 1], bor);
    ValUpdate(m[..i], i - 1, bor * R);
    assert w[..i] == m[..i][i - 1 := m[..i][i - 1] + bor * R];
    ValSnoc(w, i);
    ValSnoc(t, i);
    PLimbsSnoc(i);
    BorrowArith(bor, RPow(i - 1), RPow(i), t[i], PLimb(i));
    assert w[..i] == m[..i - 1] + [m[i - 1] % R];
  }

  lemma Floor(x: int, bor: int)
    requires -R <= x < R && bor == x / R % 2
    ensures x % R == x + bor * R && 0 <= bor <= 1
  {
  }

  lemma BorrowArith(bor: int, p: int, q: int, x: int, y: int)
    requires q == R * p
    ensures bor * R * p + q * (x - y - bor) == q * x - q * y
  {
  }

  /** m := t - p with a borrow chain; `b` is the borrow out of the top limb. */
  method Borrow(t: array<i64>, m: array<i64>) returns (b: int)
    requires t.Length == 16 && m.Length == 16 && t != m && Digits(t[..])
    modifies m
    ensures Val(m[..]) == Val(t[..]) - P && b == (if Val(t[..]) >= P then 0 else 1)
    ensures b == 0 ==> Digits(m[..])
  {
    ghost var s := t[..];
    m[0] := t[0] - 0xffed;
    FirstBorrow(m[..], s);
    for i := 1 to 15
      invariant t[..] == s && Borrowing(m[..], s, i)
    {
      MaskStep(t, m, i, 0xffff);
    }
    MaskStep(t, m, 15, 0x7fff);
    b := m[15] / R % 2;
    TopValue(m[..], s);
    TopBorrow(m[..], Val(s) - P, RPow(15));
  }

  method MaskStep(t: array<i64>, m: array<i64>, i: nat, limb: int)
    requires t.Length == 16 && m.Length == 16 && t != m && Digits(t[..])
    requires 1 <= i < 16 && limb == PLimb(i) && Borrowing(m[..], t[..], i)
    modifies m
    ensures Borrowing(m[..], t[..], i + 1)
  {
    ghost var m0 := m[..];
    var bor := m[i - 1] / R % 2;
    assert m0[i - 1] == m[i - 1];
    m[i] := t[i] - limb - bor;
    m[i - 1] := m[i - 1] % R;
    BorrowStep(m0, t[..], i, bor);
    assert m[..] == m0[i := t[i] - PLimb(i) - bor][i - 1 := m0[i - 1] % R];
  }

  /** One conditional subtraction of p; `m` is scratch. */
  method SubtractP(t: array<i64>, m: array<i64>)
    requires t.Length == 16 && m.Length == 16 && t != m && Digits(t[..])
    modifies t, m
    ensures Digits(t[..])
    ensures var v := old(Val(t[..])); Val(t[..]) == if v >= P then v - P else v
  {
    var b := Borrow(t, m);
    Sel(t, m, 1 - b);
  }

  lemma TopBorrow(m: seq<int>, v: int, w: int)
    requires |m| == 16 && Digits(m[..15]) && -R <= m[15] < R
    requires v == Val(m[..15]) + w * m[15] && 0 <= Val(m[..15]) < w
    ensures m[15] / R % 2 == if v >= 0 then 0 else 1
    ensures v >= 0 ==> Digits(m)
  {
    SignOfTop(Val(m[..15]), w, m[15]);
    FloorOfTop(m[15]);
    assert forall i :: 0 <= i < 15 ==> m[i] == m[..15][i];
  }

  lemma {:induction false} TopValue(m: seq<int>, t: seq<int>)
    requires |m| == |t| == 16 && Borrowing(m, t, 16)
    ensures Val(m) == Val(t) - P == Val(m[..15]) + RPow(15) * m[15]
    ensures 0 <= Val(m[..15]) < RPow(15)
  {
    assert m[..16] == m && t[..16] == t;
    PValue();
    ValSnoc(m, 15);
    DigitsBound(m[..15]);
  }

  lemma FirstBorrow(m: seq<int>, t: seq<int>)
    requires |m| == |t| == 16 && Digits(t) && m[0] == t[0] - 0xffed
    ensures Borrowing(m, t, 1)
  {
    assert m[..1] == [m[0]] && t[..1] == [t[0]] && PLimbs(1) == [0xffed];
    assert Val([m[0]]) == m[0] && Val([t[0]]) == t[0] && Val([0xffed]) == 0xffed;
  }

  lemma FloorOfTop(x: int)
    requires -R <= x < R
    ensures x / R % 2 == if x >= 0 then 0 else 1
  {
  }

  lemma SignOfTop(low: int, w: int, top: int)
    requires 0 <= low < w
    ensures low + w * top >= 0 <==> top >= 0
  {
  }

  method Pack(o: array<Byte>, n: array<i64>)
    requires o.Length == 32 && n.Length == 16 && Within(n[..], FIRST)
    modifies o
    ensures Le(o[..]) == old(Elt(n[..]))
  {
    var t, m := new i64[16], new i64[16];
    Copy(t, n);
    ghost var e := Elt(n[..]);
    Normalise(t);
    ghost var v := Val(t[..]);
    DigitsBound(t[..]);
    RPow16();
    SubtractP(t, m);
    SubtractP(t, m);
    Canonical(v, Val(t[..]));
    Store(o, t);
  }

  method Store(o: array<Byte>, t: array<i64>)
    requires o.Length == 32 && t.Length == 16 && Digits(t[..])
    modifies o
    ensures Le(o[..]) == Val(t[..])
  {
    ghost var s := t[..];
    for i := 0 to 16
      invariant forall j :: 0 <= j < i ==> s[j] == Pair(o[2 * j], o[2 * j + 1])
    {
      assert t[i] == s[i];
      o[2 * i] := t[i] % 256;
      o[2 * i + 1] := t[i] / 256 % 256;
    }
    LePairs(o[..], s);
  }

  lemma Canonical(v: int, r: int)
    requires 0 <= v < TWO256
    requires var w := if v >= P then v - P else v; r == if w >= P then w - P else w
    ensures r == v % P
  {
    ModUnique(v, if r == v then 0 else if r == v - P then 1 else 2, r, P);
  }

  /** Three carry passes turn any in-range limbs into digits of a congruent value. */
  method Normalise(t: array<i64>)
    requires t.Length == 16 && Within(t[..], FIRST)
    modifies t
    ensures Digits(t[..]) && Elt(t[..]) == old(Elt(t[..]))
  {
    CarryTwice(t);
    ghost var s := t[..];
    Car(t);
    ThirdPass(s, t[..]);
    SameElt(s, t[..], Val(s) / TWO256);
  }

  // ---- scalar multiplication ----

  /** decodeScalar25519 of section 5 of RFC 7748, before the little-endian read. */
  function Clamp(n: Bytes): (z: Bytes)
    requires |n| == 32
    ensures |z| == 32
  {
    n[0 := n[0] - n[0] % 8][31 := n[31] % 64 + 64]
  }

  lemma {:induction false} ClampTop(top: Byte)
    ensures Or(And(127, top), 64) == top % 64 + 64
  {
    MaskThenSet(top, 6);
    assert Pow2(7) == 128 && Pow2(6) == 64;
  }

  lemma MaskThenSet(x: nat, k: nat)
    ensures Or(And(Pow2(k + 1) - 1, x), Pow2(k)) == x % Pow2(k) + Pow2(k)
  {
    var p := Pow2(k);
    AndLow(k + 1, x);
    OrBit(x % (2 * p), k);
    DivDiv(x, p, 2);
    DivIs(x % (2 * p), p, x / p % 2, x % p);
  }

  lemma {:induction false} ClampLow(low: Byte)
    ensures And(248, low) == low - low % 8
  {
    AndTwice(124, low);
    AndTwice(62, low / 2);
    AndTwice(31, low / 2 / 2);
    assert low / 2 / 2 / 2 < 32 && Pow2(5) == 32;
    AndMask(5, low / 2 / 2 / 2);
  }

  /** Clamping replaces the bits above 2^254 by 1 and clears the three lowest ones. */
  lemma {:induction false} ClampValue(n: Bytes)
    requires |n| == 32
    ensures var x := Le(n) % (TWO255 / 2); Le(Clamp(n)) == TWO255 / 2 + x - x % 8
  {
    hide *;
    ClampShape(n);
    Ends(Clamp(n));
    Ends(n);
    Pow2At248();
    ClampArith(n[0], Le(n[1..31]), Pow2(248), n[31]);
  }

  lemma ClampShape(n: Bytes)
    requires |n| == 32
    ensures var z := Clamp(n);
      |z| == 32 && z[0] == n[0] - n[0] % 8 && z[31] == n[31] % 64 + 64 && z[1..31] == n[1..31]
  {
  }

  lemma {:induction false} Ends(z: Bytes)
    requires |z| == 32
    ensures Le(z) == z[0] + 256 * Le(z[1..31]) + Pow2(248) * z[31]
    ensures z[0] + 256 * Le(z[1..31]) < Pow2(248)
  {
    LeTop(z, 31);
    assert z[31..] == [z[31]];
    assert Le([z[31]]) == z[31];
    assert z[..31][1..] == z[1..31];
  }

  lemma ClampArith(b: Byte, rest: nat, w: nat, top: Byte)
    requires b + 256 * rest < w && w * 128 == TWO255
    ensures var x := (b + 256 * rest + w * top) % (TWO255 / 2);
      b - b % 8 + 256 * rest + w * (top % 64 + 64) == TWO255 / 2 + x - x % 8
  {
    var r := b + 256 * rest + w * (top % 64);
    BelowTop(b + 256 * rest, w, top % 64);
    assert top == 64 * (top / 64) + top % 64;
    SplitTop(w, top / 64, top % 64);
    ModUnique(b + 256 * rest + w * top, top / 64, r, TWO255 / 2);
    EightTimes(w, top % 64);
    ModUnique(r, b / 8 + 32 * rest + w / 8 * (top % 64), b % 8, 8);
  }

  lemma BelowTop(low: nat, w: nat, t: nat)
    requires low < w && t < 64
    ensures 0 <= low + w * t < 64 * w
  {
    assert w * t <= w * 63;
  }

  lemma SplitTop(w: nat, q: nat, r: nat)
    ensures w * (64 * q + r) == q * (64 * w) + w * r && w * (r + 64) == w * r + 64 * w
  {
  }

  lemma EightTimes(w: nat, t: nat)
    requires w * 128 == TWO255
    ensures w * t == 8 * (w / 8 * t)
  {
    assert w == 8 * (w / 8);
    assert 8 * (w / 8) * t == 8 * (w / 8 * t);
  }

  lemma Pow2At248()
    ensures Pow2(248) * 128 == TWO255
  {
    Pow2At255();
    Pow2Add(248, 7);
    assert Pow2(7) == 128;
  }

  method ClampScalar(n: Bytes) returns (z: Bytes)
    requires |n| == 32
    ensures z == Clamp(n)
  {
    ClampTop(n[31]);
    ClampLow(n[0]);
    z := n[31 := Or(And(127, n[31]), 64)];
    z := z[0 := And(248, z[0])];
  }

  /** X25519 of section 5 of RFC 7748: the packed bytes are the canonical form of the ladder's result. */
  method ScalarMult(q: array<Byte>, n: Bytes, p: Bytes)
    requires q.Length == 32 && |n| == 32 && |p| == 32
    modifies q
    ensures Le(q[..]) == RfcX25519(Le(Clamp(n)), Le(p) % TWO255 % P)
  {
    hide Clamp;
    hide Step;
    hide PlainLoop;
    hide SwapLoop;
    hide FPow;
    var z := ClampScalar(n);
    var x, a, b, c, d, e, f, k121665 := new i64[16], new i64[16], new i64[16], new i64[16],
        new i64[16], new i64[16], new i64[16], new i64[16];
    Start(p, x, a, b, c, d, k121665);
    Iterate(z, a, b, c, d, e, f, x, k121665);
    DeferredSwap(Le(z), StepWith(Elt(x[..])), Ladder(1, 0, Elt(x[..]), 1), 0);
    Finish(q, a, c);
  }

  method Finish(q: array<Byte>, a: array<i64>, c: array<i64>)
    requires q.Length == 32 && a.Length == c.Length == 16 && a != c && Reduced(a[..]) && Reduced(c[..])
    modifies q, a, c
    ensures Le(q[..]) == old(FMul(Elt(a[..]), FPow(Elt(c[..]), P - 2)))
  {
    Inv(c, c);
    Mul(a, a, c);
    Pack(q, a);
  }

  method Start(p: Bytes, x: array<i64>, a: array<i64>, b: array<i64>, c: array<i64>, d: array<i64>, k121665: array<i64>)
    requires |p| == 32 && a.Length == b.Length == c.Length == d.Length == x.Length == k121665.Length == 16
    requires a != b && a != c && a != d && a != x && a != k121665 && b != c && b != d && b != x && b != k121665
    requires c != d && c != x && c != k121665 && d != x && d != k121665 && x != k121665
    modifies a, b, c, d, x, k121665
    ensures Holds(a, b, c, d, Ladder(1, 0, Elt(x[..]), 1))
    ensures Elt(x[..]) == Le(p) % TWO255 % P && Within(x[..], LOOSE)
    ensures Within(k121665[..], LOOSE) && Elt(k121665[..]) == 121665
  {
    Unpack(x, p);
    Small(a, 1, 0);
    Copy(b, x);
    Small(c, 0, 0);
    Small(d, 1, 0);
    Small(k121665, 0xDB41, 1);
  }

  /** The 255 iterations, bit 254 of the scalar first. */
  method Iterate(z: Bytes, a: array<i64>, b: array<i64>, c: array<i64>, d: array<i64>, e: array<i64>, f: array<i64>,
                 x: array<i64>, k121665: array<i64>)
    requires |z| == 32 && Separate(a, b, c, d, e, f, x, k121665) && Within(x[..], LOOSE)
    requires Within(k121665[..], LOOSE) && Elt(k121665[..]) == 121665
    requires Holds(a, b, c, d, Ladder(1, 0, Elt(x[..]), 1))
    modifies a, b, c, d, e, f
    ensures Holds(a, b, c, d, PlainLoop(Le(z), StepWith(Elt(x[..])), Ladder(1, 0, Elt(x[..]), 1), 0))
  {
    ghost var u := Elt(x[..]);
    ghost var k := Le(z);
    ghost var xs, ks := x[..], k121665[..];
    var i := 254;
    while i >= 0
      invariant -1 <= i <= 254
      invariant x[..] == xs && k121665[..] == ks
      invariant Holds(a, b, c, d, PlainLoop(k, StepWith(u), Ladder(1, 0, u, 1), i + 1))
    {
      LeBit(z, i);
      var r := z[i / 8] / Pow2(i % 8) % 2;
      SwappedStep(a, b, c, d, e, f, x, k121665, r, PlainLoop(k, StepWith(u), Ladder(1, 0, u, 1), i + 1));
      i := i - 1;
    }
  }

  /** One iteration between its two conditional exchanges. */
  method SwappedStep(a: array<i64>, b: array<i64>, c: array<i64>, d: array<i64>, e: array<i64>, f: array<i64>,
                     x: array<i64>, k121665: array<i64>, r: int, ghost l: Ladder)
    requires Separate(a, b, c, d, e, f, x, k121665) && Within(x[..], LOOSE) && 0 <= r <= 1
    requires Within(k121665[..], LOOSE) && Elt(k121665[..]) == 121665 && Holds(a, b, c, d, l)
    modifies a, b, c, d, e, f
    ensures Holds(a, b, c, d, CSwap(StepWith(Elt(x[..]))(CSwap(l, r)), r))
  {
    Sel(a, b, r);
    Sel(c, d, r);
    LadderStep(a, b, c, d, e, f, x, k121665, CSwap(l, r));
    Sel(a, b, r);
    Sel(c, d, r);
  }

  method Small(o: array<i64>, v: i64, w: i64)
    requires o.Length == 16 && 0 <= v < R && 0 <= w <= 1
    modifies o
    ensures Digits(o[..]) && Reduced(o[..]) && Within(o[..], LOOSE) && Elt(o[..]) == v + R * w
  {
    for i := 0 to 16
      invariant forall j :: 0 <= j < i ==> o[j] == 0
    {
      o[i] := 0;
    }
    ValZero(o[2..]);
    o[0], o[1] := v, w;
    assert o[..] == [v, w] + o[2..];
    ValConcat([v, w], o[2..]);
    assert Val([v, w]) == v + R * Val([v, w][1..]) && [v, w][1..] == [w] && Val([w]) == w;
    SmallMod(v + R * w, P);
  }

  method AllZero(p: array<Byte>) returns (zero: bool)
    requires p.Length == 32
    ensures zero <==> Le(p[..]) == 0
  {
    var v: Byte := 0;
    assert Pow2(8) == 256;
    for i := 0 to 32
      invariant v == 0 <==> forall j :: 0 <= j < i ==> p[j] == 0
    {
      OrIsZero(v, p[i]);
      OrBound(v, p[i], 8);
      v := Or(v, p[i]);
    }
    LeIsZero(p[..]);
    return v == 0;
  }

  lemma {:induction false} LeIsZero(s: Bytes)
    ensures Le(s) == 0 <==> forall j :: 0 <= j < |s| ==> s[j] == 0
  {
    if s != [] {
      LeIsZero(s[1..]);
      assert forall j :: 1 <= j < |s| ==> s[j] == s[1..][j - 1];
    }
  }

  method PublicFromPrivate(key: Bytes, out: array<Byte>)
    requires |key| == 32 && out.Length == 32
    modifies out
    ensures Le(out[..]) == RfcX25519(Le(Clamp(key)), 9)
  {
    var base := [9] + seq(31, _ => 0);
    LeIsZero(base[1..]);
    assert base[0] == 9 && Le(base) == 9;
    SmallMod(9, TWO255);
    SmallMod(9, P);
    ScalarMult(out, key, base);
  }

  /** The all-zero secret of section 6.1 of RFC 7748 is an error. */
  method SharedSecret(key: Bytes, peer: Bytes, secret: array<Byte>) returns (e: Error)
    requires |key| == 32 && |peer| == 32 && secret.Length == 32
    modifies secret
    ensures var r := RfcX25519(Le(Clamp(key)), Le(peer) % TWO255 % P);
      Le(secret[..]) == r && e == if r == 0 then VERIFY else OK
  {
    ScalarMult(secret, key, peer);
    var zero := AllZero(secret);
    if zero {
      LeIsZero(secret[..]);
      forall i | 0 <= i < 32 { secret[i] := 0; }
      LeIsZero(secret[..]);
      return VERIFY;
    }
    return OK;
  }
}
