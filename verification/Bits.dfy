/** Bitwise operations on naturals, and the few laws the byte and limb code needs.
    A byte, a limb or a 128-bit block is a natural number; bit `k` of `n` is `n / Pow2(k) % 2`. */
module Bits {

  type Byte = x: int | 0 <= x < 256
  type Bytes = seq<Byte>

  lemma Associate<T>(a: seq<T>, b: seq<T>, c: seq<T>)
    ensures a + (b + c) == a + b + c
  {
  }

  function Pow2(k: nat): (r: nat)
    ensures 0 < r
  {
    if k == 0 then 1 else 2 * Pow2(k - 1)
  }

  lemma {:induction false} Pow2Add(a: nat, b: nat)
    ensures Pow2(a + b) == Pow2(a) * Pow2(b)
  {
    if a == 0 {
    } else {
      Pow2Add(a - 1, b);
      assert Pow2(a + b) == 2 * Pow2(a - 1 + b);
    }
  }

  lemma Powers()
    ensures Pow2(8) == 0x100 && Pow2(16) == 0x1_0000 && Pow2(24) == 0x100_0000 && Pow2(32) == 0x1_0000_0000
  {
    Pow2Add(8, 8);
    Pow2Add(8, 16);
    Pow2Add(16, 16);
  }

  lemma Powers64()
    ensures Pow2(64) == 0x1_0000_0000_0000_0000
  {
    Powers();
    Pow2Add(32, 32);
  }

  function Xor(a: nat, b: nat): nat
    decreases a + b
  {
    if a == 0 && b == 0 then 0 else (a + b) % 2 + 2 * Xor(a / 2, b / 2)
  }

  function And(a: nat, b: nat): nat
    decreases a + b
  {
    if a == 0 then 0 else (a % 2) * (b % 2) + 2 * And(a / 2, b / 2)
  }

  function Or(a: nat, b: nat): nat
    decreases a + b
  {
    if a == 0 && b == 0 then 0
    else (if a % 2 == 1 || b % 2 == 1 then 1 else 0) + 2 * Or(a / 2, b / 2)
  }

  lemma {:induction false} XorComm(a: nat, b: nat)
    ensures Xor(a, b) == Xor(b, a)
    decreases a + b
  {
    if a + b > 0 { XorComm(a / 2, b / 2); }
  }

  lemma {:induction false} XorZero(a: nat)
    ensures Xor(a, 0) == a && Xor(0, a) == a
  {
    if a > 0 { XorZero(a / 2); }
  }

  lemma {:induction false} XorSelf(a: nat)
    ensures Xor(a, a) == 0
  {
    if a > 0 { XorSelf(a / 2); }
  }

  /** The low bit and the rest of an exclusive or. */
  lemma {:induction false} XorStep(a: nat, b: nat)
    ensures Xor(a, b) % 2 == (a + b) % 2
    ensures Xor(a, b) / 2 == Xor(a / 2, b / 2)
  {
    var bit, rest := (a + b) % 2, Xor(a / 2, b / 2);
    assert Xor(a, b) == bit + 2 * rest;
    Halve(bit, rest);
  }

  lemma Halve(bit: nat, rest: nat)
    requires bit < 2
    ensures (bit + 2 * rest) % 2 == bit && (bit + 2 * rest) / 2 == rest
  {
  }

  lemma {:induction false} XorAssoc(a: nat, b: nat, c: nat)
    ensures Xor(Xor(a, b), c) == Xor(a, Xor(b, c))
    decreases a + b + c
  {
    if a + b + c > 0 {
      XorAssoc(a / 2, b / 2, c / 2);
      ParityOfSums(a, b, c);
      XorHalves(a, b, c);
      SameHalves(Xor(Xor(a, b), c), Xor(a, Xor(b, c)));
    }
  }

  lemma {:induction false} XorHalves(a: nat, b: nat, c: nat)
    ensures Xor(Xor(a, b), c) % 2 == (Xor(a, b) + c) % 2 && Xor(a, Xor(b, c)) % 2 == (a + Xor(b, c)) % 2
    ensures Xor(Xor(a, b), c) / 2 == Xor(Xor(a / 2, b / 2), c / 2)
    ensures Xor(a, Xor(b, c)) / 2 == Xor(a / 2, Xor(b / 2, c / 2))
  {
    XorTwoSteps(a, b, c, Xor(a, b));
    XorTwoSteps(b, c, a, Xor(b, c));
  }

  lemma {:induction false} XorTwoSteps(a: nat, b: nat, c: nat, x: nat)
    requires x == Xor(a, b)
    ensures Xor(x, c) % 2 == (x + c) % 2 && Xor(c, x) % 2 == (c + x) % 2
    ensures Xor(x, c) / 2 == Xor(Xor(a / 2, b / 2), c / 2) && Xor(c, x) / 2 == Xor(c / 2, Xor(a / 2, b / 2))
  {
    XorStep(a, b);
    XorStep(x, c);
    XorStep(c, x);
  }

  lemma SameHalves(x: nat, y: nat)
    requires x % 2 == y % 2 && x / 2 == y / 2
    ensures x == y
  {
  }

  lemma {:induction false} ParityOfSums(a: nat, b: nat, c: nat)
    ensures (Xor(a, b) + c) % 2 == (a + Xor(b, c)) % 2
  {
    XorStep(a, b);
    XorStep(b, c);
    SameParity(Xor(a, b), a + b, c);
    SameParity(Xor(b, c), b + c, a);
  }

  lemma SameParity(x: nat, y: nat, z: nat)
    requires x % 2 == y % 2
    ensures (x + z) % 2 == (y + z) % 2
  {
    assert x + z == 2 * (x / 2 - y / 2) + (y + z);
  }

  lemma {:induction false} XorCancel(a: nat, b: nat)
    ensures Xor(a, Xor(a, b)) == b
  {
    XorAssoc(a, a, b);
    XorSelf(a);
    XorZero(b);
  }

  /** Two applications of the same mask undo each other. */
  lemma {:induction false} XorTwice(a: nat, k: nat)
    ensures Xor(Xor(a, k), k) == a
  {
    XorAssoc(a, k, k);
    XorSelf(k);
    XorZero(a);
  }

  lemma {:induction false} XorBound(a: nat, b: nat, k: nat)
    requires a < Pow2(k) && b < Pow2(k)
    ensures Xor(a, b) < Pow2(k)
    decreases k
  {
    if k > 0 && a + b > 0 {
      XorBound(a / 2, b / 2, k - 1);
    }
  }

  lemma {:induction false} AndMask(k: nat, x: nat)
    requires x < Pow2(k)
    ensures And(Pow2(k) - 1, x) == x && And(0, x) == 0
    decreases k
  {
    if k > 0 {
      AndMask(k - 1, x / 2);
      assert (Pow2(k) - 1) % 2 == 1 && (Pow2(k) - 1) / 2 == Pow2(k - 1) - 1;
    }
  }

  /** Disjoint bit ranges: or is addition. */
  lemma {:induction false} OrDisjoint(a: nat, b: nat, k: nat)
    requires a < Pow2(k)
    ensures Or(a, b * Pow2(k)) == a + b * Pow2(k)
    decreases k
  {
    if k == 0 {
      OrZero(b);
    } else {
      var c := b * Pow2(k);
      assert c == 2 * (b * Pow2(k - 1));
      OrDisjoint(a / 2, b, k - 1);
      assert c % 2 == 0 && c / 2 == b * Pow2(k - 1);
    }
  }

  lemma {:induction false} OrZero(b: nat)
    ensures Or(0, b) == b
  {
    if b > 0 { OrZero(b / 2); }
  }

  /** Exclusive or of two bytes. */
  function XorByte(a: Byte, b: Byte): Byte
  {
    XorBound(a, b, 8);
    assert Pow2(8) == 256;
    Xor(a, b)
  }

  /** Big-endian value of a byte string. */
  function Be(s: Bytes): nat
  {
    if s == [] then 0 else Be(s[..|s| - 1]) * 256 + s[|s| - 1]
  }

  /** The `n` low bytes of `v`, most significant first. */
  function ToBe(v: nat, n: nat): (s: Bytes)
    ensures |s| == n
  {
    if n == 0 then [] else ToBe(v / 256, n - 1) + [v % 256]
  }

  lemma {:induction false} BeBound(s: Bytes)
    ensures Be(s) < Pow2(8 * |s|)
  {
    if s == [] {
    } else {
      BeBound(s[..|s| - 1]);
      Pow2Add(8, 8 * (|s| - 1));
      assert Pow2(8) == 256;
    }
  }

  /** Reading back what the writer wrote, and the converse. */
  lemma {:induction false} BeOfToBe(v: nat, n: nat)
    requires v < Pow2(8 * n)
    ensures Be(ToBe(v, n)) == v
  {
    if n > 0 {
      Pow2Add(8, 8 * (n - 1));
      assert Pow2(8) == 256;
      BeOfToBe(v / 256, n - 1);
      assert ToBe(v, n)[..n - 1] == ToBe(v / 256, n - 1);
    }
  }

  lemma {:induction false} ToBeOfBe(s: Bytes)
    ensures ToBe(Be(s), |s|) == s
  {
    if s != [] {
      ToBeOfBe(s[..|s| - 1]);
      assert s == s[..|s| - 1] + [s[|s| - 1]];
    }
  }

  /** Little-endian value of a byte string. */
  function Le(s: Bytes): nat
  {
    if s == [] then 0 else s[0] + 256 * Le(s[1..])
  }

  lemma {:induction false} LeBit(s: Bytes, i: nat)
    requires i < 8 * |s|
    ensures s[i / 8] / Pow2(i % 8) % 2 == Le(s) / Pow2(i) % 2
  {
    if i < 8 {
      ByteBit(s[0], Le(s[1..]), i);
    } else {
      LeBit(s[1..], i - 8);
      assert s[1..][(i - 8) / 8] == s[i / 8];
      var n := Le(s[1..]);
      assert Le(s) == s[0] + 256 * n;
      assert Pow2(8) == 256;
      Pow2Add(8, i - 8);
      DivDiv(s[0] + 256 * n, 256, Pow2(i - 8));
      DivIs(s[0] + 256 * n, 256, n, s[0]);
    }
  }

  lemma DivDiv(x: nat, a: nat, b: nat)
    requires 0 < a && 0 < b
    ensures 0 < a * b && x / (a * b) == x / a / b && x % (a * b) == a * (x / a % b) + x % a
  {
    var q, r := x / a, x % a;
    var q2, r2 := q / b, q % b;
    Compose(x, a, b, q, r, q2, r2);
    DivIs(x, a * b, q2, a * r2 + r);
  }

  lemma Compose(x: nat, a: nat, b: nat, q: nat, r: nat, q2: nat, r2: nat)
    requires r < a && r2 < b && x == a * q + r && q == b * q2 + r2
    ensures x == (a * b) * q2 + (a * r2 + r) && 0 <= a * r2 + r < a * b
  {
    assert a * (b * q2 + r2) == (a * b) * q2 + a * r2;
    assert a * r2 <= a * (b - 1);
  }

  lemma DivIs(x: int, d: nat, q: int, r: int)
    requires 0 <= r < d && x == d * q + r
    ensures x / d == q && x % d == r
  {
    var y, m := x / d, x % d;
    assert x == d * y + m;
    Between(y - q, d, r - m);
  }

  lemma Between(e: int, d: int, gap: int)
    requires -d < gap < d && e * d == gap
    ensures e == 0
  {
  }

  lemma {:induction false} ByteBit(b: Byte, n: nat, i: nat)
    requires i < 8
    ensures b / Pow2(i) % 2 == (b + 256 * n) / Pow2(i) % 2
  {
    var p, q := Pow2(i), Pow2(7 - i);
    Pow2Add(i, 8 - i);
    assert Pow2(8) == 256 && Pow2(8 - i) == 2 * q;
    LowBitArith(b, n, p, q, 256);
  }

  lemma LowBitArith(b: nat, n: nat, p: nat, q: nat, base: nat)
    requires 0 < p && p * (2 * q) == base
    ensures b / p % 2 == (b + base * n) / p % 2
  {
    var x, r := b / p, b % p;
    assert (p * (2 * q)) * n == p * (2 * (q * n));
    DivIs(b + base * n, p, x + 2 * (q * n), r);
    EvenShift(x, q * n);
  }

  lemma EvenShift(x: int, y: int)
    ensures (x + 2 * y) % 2 == x % 2
  {
  }

  lemma {:induction false} AndLow(k: nat, x: nat)
    ensures And(Pow2(k) - 1, x) == x % Pow2(k)
    decreases k
  {
    if k == 0 {
    } else {
      var p := Pow2(k - 1);
      AndLow(k - 1, x / 2);
      Halve(1, p - 1);
      DivDiv(x, 2, p);
    }
  }

  /** Setting bit `k` of a number below 2^(k+1). */
  lemma {:induction false} OrBit(y: nat, k: nat)
    requires y < 2 * Pow2(k)
    ensures Or(y, Pow2(k)) == y % Pow2(k) + Pow2(k)
    decreases k
  {
    if k == 0 {
      assert y == 0 || y == 1;
      OrZero(1);
      assert Or(1, 1) == 1;
    } else {
      var p := Pow2(k - 1);
      OrBit(y / 2, k - 1);
      Halve(0, p);
      DivDiv(y, 2, p);
    }
  }

  /** Two little-endian bytes. */
  function Pair(lo: Byte, hi: Byte): (v: int)
    ensures 0 <= v < 65536
  {
    (lo as int) + 256 * (hi as int)
  }

  lemma {:induction false} OrIsZero(a: nat, b: nat)
    ensures Or(a, b) == 0 <==> a == 0 && b == 0
    decreases a + b
  {
    if a + b > 0 { OrIsZero(a / 2, b / 2); }
  }

  lemma {:induction false} OrBound(a: nat, b: nat, k: nat)
    requires a < Pow2(k) && b < Pow2(k)
    ensures Or(a, b) < Pow2(k)
    decreases k
  {
    if k > 0 && a + b > 0 { OrBound(a / 2, b / 2, k - 1); }
  }

  /** Byte `k` of the big-endian form, counted from the end. */
  lemma {:induction false} ToBeByte(v: nat, n: nat, k: nat)
    requires k < n
    ensures ToBe(v, n)[n - 1 - k] == v / Pow2(8 * k) % 256
  {
    if k > 0 {
      ToBeByte(v / 256, n - 1, k - 1);
      assert Pow2(8) == 256;
      Pow2Add(8, 8 * (k - 1));
      DivDiv(v, 256, Pow2(8 * (k - 1)));
    }
  }

  lemma {:induction false} BeCons(b: Byte, s: Bytes)
    ensures Be([b] + s) == b * Pow2(8 * |s|) + Be(s)
  {
    var t := [b] + s;
    if s == [] {
      assert t[..0] == [];
    } else {
      var k := |s| - 1;
      assert t[..|t| - 1] == [b] + s[..k];
      BeCons(b, s[..k]);
      assert Pow2(8) == 256;
      Pow2Add(8, 8 * k);
      assert 256 * (b * Pow2(8 * k)) == b * (256 * Pow2(8 * k));
    }
  }

  /** The writer keeps only the low `n` octets. */
  lemma {:induction false} ToBeWraps(v: nat, n: nat)
    ensures ToBe(v % Pow2(8 * n), n) == ToBe(v, n)
  {
    if n > 0 {
      var m := Pow2(8 * (n - 1));
      assert Pow2(8) == 256;
      Pow2Add(8, 8 * (n - 1));
      DivDiv(v, 256, m);
      var w := v % (256 * m);
      assert w == 256 * (v / 256 % m) + v % 256;
      DivIs(w, 256, v / 256 % m, v % 256);
      ToBeWraps(v / 256, n - 1);
    }
  }

  /** Exclusive or acts on the low bits alone. */
  lemma {:induction false} XorLow(a: nat, b: nat, k: nat)
    ensures Xor(a, b) % Pow2(k) == Xor(a % Pow2(k), b % Pow2(k))
    decreases k
  {
    if k == 0 {
    } else {
      var p := Pow2(k - 1);
      XorLow(a / 2, b / 2, k - 1);
      XorJoin(a / 2 % p, b / 2 % p, a % 2, b % 2);
      XorStep(a, b);
      ParityOfParts(a, b);
      LowSplit(a, p);
      LowSplit(b, p);
      LowSplit(Xor(a, b), p);
    }
  }

  lemma LowSplit(a: nat, p: nat)
    requires 0 < p
    ensures a % (2 * p) == 2 * (a / 2 % p) + a % 2
  {
    DivDiv(a, 2, p);
  }

  lemma ParityOfParts(a: nat, b: nat)
    ensures (a % 2 + b % 2) % 2 == (a + b) % 2
  {
  }

  lemma XorJoin(x: nat, y: nat, i: nat, j: nat)
    requires i < 2 && j < 2
    ensures Xor(2 * x + i, 2 * y + j) == 2 * Xor(x, y) + (i + j) % 2
  {
    var a, b := 2 * x + i, 2 * y + j;
    XorStep(a, b);
    Halve(i, x);
    Halve(j, y);
    ParityOfParts(a, b);
  }

  lemma {:induction false} AndBound(a: nat, b: nat)
    ensures And(a, b) <= a
  {
    if a > 0 { AndBound(a / 2, b / 2); }
  }

  lemma {:induction false} AndTwice(m: nat, x: nat)
    ensures And(2 * m, x) == 2 * And(m, x / 2)
  {
    Halve(0, m);
    if m == 0 {
    }
  }

  lemma {:induction false} AndShifted(q: nat, m: nat, x: nat, k: nat, h: nat)
    requires q == Pow2(k) * m && h == x / Pow2(k)
    ensures And(q, x) == Pow2(k) * And(m, h)
    decreases k
  {
    if k > 0 {
      var p := Pow2(k - 1);
      Doubling(p, m);
      DivDiv(x, 2, p);
      AndShifted(p * m, m, x / 2, k - 1, h);
      AndTwice(p * m, x);
      Doubling(p, And(m, h));
    }
  }

  lemma Doubling(p: nat, m: nat)
    ensures (2 * p) * m == 2 * (p * m)
  {
  }

  /** Testing the bits from `k` up of a byte. */
  lemma {:induction false} HighBits(x: Byte, k: nat, mask: nat)
    requires 1 <= k <= 8 && mask + Pow2(k) == 256
    ensures And(mask, x) == 0 <==> x < Pow2(k)
  {
    var p, q := Pow2(k), Pow2(8 - k);
    Pow2Add(k, 8 - k);
    assert Pow2(8) == 256;
    MaskShape(p, q, mask);
    AndShifted(mask, q - 1, x, k, x / p);
    AndLow(8 - k, x / p);
    TopQuotient(x, p, q);
  }

  lemma MaskShape(p: nat, q: nat, mask: nat)
    requires p * q == 256 && mask + p == 256
    ensures p * (q - 1) == mask
  {
  }

  lemma TopQuotient(x: nat, p: nat, q: nat)
    requires 0 < p && p * q == 256 && x < 256
    ensures 0 < q && x / p % q == x / p && (p * (x / p) == 0 <==> x < p)
  {
    var y, r := x / p, x % p;
    assert x == p * y + r;
    if x < p { DivIs(x, p, 0, x); }
    SmallQuotient(y, p, q);
    DivIs(y, q, 0, y);
  }

  lemma SmallQuotient(y: int, p: nat, q: int)
    requires p * y < p * q
    ensures y < q
  {
  }

  /** The low `k` bits of a byte. */
  function KeepLow(x: Byte, k: nat): (r: Byte)
    ensures r == x % Pow2(k)
  {
    RemainderLe(x, Pow2(k));
    x % Pow2(k)
  }

  /** `x` without its low `k` bits. */
  function Shr(x: nat, k: nat): (r: nat)
    ensures r == x / Pow2(k)
  {
    QuotientParts(x, Pow2(k));
    x / Pow2(k)
  }

  lemma QuotientParts(x: nat, p: nat)
    requires 0 < p
    ensures x == p * (x / p) + x % p && 0 <= x % p < p && 0 <= x / p
  {
    if x / p < 0 { SmallQuotient(x / p, p, 0); }
  }

  lemma RemainderLe(x: nat, p: nat)
    requires 0 < p
    ensures 0 <= x % p <= x
  {
    if x < p { DivIs(x, p, 0, x); }
  }

  lemma {:induction false} LeTop(z: Bytes, k: nat)
    requires k <= |z|
    ensures Le(z) == Le(z[..k]) + Pow2(8 * k) * Le(z[k..]) && 0 <= Le(z[..k]) < Pow2(8 * k)
  {
    if k > 0 {
      LeTop(z[1..], k - 1);
      assert z[1..][..k - 1] == z[..k][1..] && z[1..][k - 1..] == z[k..];
      Pow2Add(8, 8 * (k - 1));
      assert Pow2(8) == 256;
      LeTopArith(z[0], Le(z[..k][1..]), Pow2(8 * (k - 1)), Le(z[k..]));
    }
  }

  lemma LeTopArith(b: nat, low: nat, w: nat, high: nat)
    requires b < 256 && low < w
    ensures b + 256 * (low + w * high) == b + 256 * low + 256 * w * high
    ensures b + 256 * low < 256 * w
  {
  }

  lemma {:induction false} BeSplit(s: Bytes, k: nat)
    requires k <= |s|
    ensures Be(s) == Be(s[..k]) * Pow2(8 * (|s| - k)) + Be(s[k..])
    decreases |s|
  {
    if k == |s| {
      assert s[..k] == s;
    } else {
      var n := |s| - 1;
      BeSplit(s[..n], k);
      assert s[..n][..k] == s[..k] && s[..n][k..] == s[k..n] && s[k..][..n - k] == s[k..n];
      assert Pow2(8) == 256;
      Pow2Add(8, 8 * (n - k));
      BeSplitArith(Be(s[..k]), Pow2(8 * (n - k)), Be(s[k..n]), s[n]);
    }
  }

  lemma BeSplitArith(h: nat, w: nat, l: nat, b: nat)
    ensures (h * w + l) * 256 + b == h * (256 * w) + (l * 256 + b)
  {
  }
}
