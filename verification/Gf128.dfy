/** Polynomials over GF(2) as naturals (bit i is the coefficient of x^i) and the field
    GF(2^128) = GF(2)[x] / (x^128 + x^7 + x^2 + x + 1) of section 6.3 of NIST SP 800-38D. */
module Gf128 {
  import opened Bits

  const TOP: nat := 0x1_0000_0000_0000_0000_0000_0000_0000_0000   // x^128
  const MODULUS: nat := TOP + 0x87

  /** Carry-less product. */
  function ClMul(a: nat, b: nat): nat
    decreases b
  {
    if b == 0 then 0 else Xor(if b % 2 == 1 then a else 0, 2 * ClMul(a, b / 2))
  }

  lemma {:induction false} XorDouble(a: nat, b: nat)
    ensures Xor(2 * a, 2 * b) == 2 * Xor(a, b)
  {
    XorJoin(a, b, 0, 0);
  }

  lemma {:induction false} XorBit(a: nat, i: nat)
    requires i < 2
    ensures Xor(i, 2 * a) == 2 * a + i
  {
    XorJoin(0, a, i, 0);
    XorZero(a);
  }

  /** Four terms may be paired either way. */
  lemma {:induction false} XorSwap(a: nat, b: nat, c: nat, d: nat)
    ensures Xor(Xor(a, b), Xor(c, d)) == Xor(Xor(a, c), Xor(b, d))
  {
    XorAssoc(a, b, Xor(c, d));
    XorAssoc(b, c, d);
    XorComm(b, c);
    XorAssoc(c, b, d);
    XorAssoc(a, c, Xor(b, d));
  }

  lemma {:induction false} ClMulXorRight(a: nat, b: nat, c: nat)
    ensures ClMul(a, Xor(b, c)) == Xor(ClMul(a, b), ClMul(a, c))
    decreases b + c
  {
    if b + c == 0 {
      XorZero(0);
    } else {
      ClMulXorRight(a, b / 2, c / 2);
      ClMulStep(a, b);
      ClMulStep(a, c);
      ClMulStep(a, Xor(b, c));
      XorStep(b, c);
      XorDouble(ClMul(a, b / 2), ClMul(a, c / 2));
      XorSwap(Coeff(a, b), 2 * ClMul(a, b / 2), Coeff(a, c), 2 * ClMul(a, c / 2));
      CoeffXor(a, b, c);
    }
  }

  /** The low coefficient's contribution to a product. */
  function Coeff(a: nat, b: nat): nat { if b % 2 == 1 then a else 0 }

  lemma {:induction false} ClMulStep(a: nat, b: nat)
    ensures ClMul(a, b) == Xor(Coeff(a, b), 2 * ClMul(a, b / 2))
  {
    if b == 0 { XorZero(0); }
  }

  lemma {:induction false} CoeffXor(a: nat, b: nat, c: nat)
    ensures Coeff(a, Xor(b, c)) == Xor(Coeff(a, b), Coeff(a, c))
  {
    XorStep(b, c);
    XorZero(a);
    XorZero(0);
    XorSelf(a);
    OddSum(b, c);
  }

  lemma OddSum(b: nat, c: nat)
    ensures (b + c) % 2 == 1 <==> b % 2 != c % 2
  {
  }

  lemma {:induction false} ClMulXorLeft(a: nat, c: nat, b: nat)
    ensures ClMul(Xor(a, c), b) == Xor(ClMul(a, b), ClMul(c, b))
    decreases b
  {
    if b == 0 {
      XorZero(0);
    } else {
      ClMulXorLeft(a, c, b / 2);
      XorDouble(ClMul(a, b / 2), ClMul(c, b / 2));
      XorZero(0);
      XorSwap(Coeff(a, b), 2 * ClMul(a, b / 2), Coeff(c, b), 2 * ClMul(c, b / 2));
    }
  }

  lemma {:induction false} ClMulDouble(a: nat, b: nat)
    ensures ClMul(2 * a, b) == 2 * ClMul(a, b) && ClMul(a, 2 * b) == 2 * ClMul(a, b)
    decreases b
  {
    ClMulShift(a, b);
    if b > 0 {
      ClMulDouble(a, b / 2);
      XorDouble(Coeff(a, b), 2 * ClMul(a, b / 2));
    }
  }

  lemma {:induction false} ClMulShift(a: nat, b: nat)
    ensures ClMul(a, 2 * b) == 2 * ClMul(a, b)
  {
    Halve(0, b);
    ClMulStep(a, 2 * b);
    XorZero(2 * ClMul(a, b));
  }

  lemma {:induction false} ClMulOne(b: nat)
    ensures ClMul(1, b) == b && ClMul(0, b) == 0 && ClMul(b, 1) == b
    decreases b
  {
    if b > 0 {
      ClMulOne(b / 2);
      XorBit(b / 2, b % 2);
      XorZero(0);
    }
    assert ClMul(b, 0) == 0;
    ClMulStep(b, 1);
    XorZero(b);
  }

  lemma {:induction false} ClMulComm(a: nat, b: nat)
    ensures ClMul(a, b) == ClMul(b, a)
    decreases b
  {
    if b == 0 {
      ClMulOne(a);
    } else {
      ClMulComm(a, b / 2);
      XorBit(b / 2, b % 2);
      ClMulXorLeft(b % 2, 2 * (b / 2), a);
      ClMulDouble(b / 2, a);
      ClMulOne(a);
    }
  }

  lemma {:induction false} ClMulAssoc(a: nat, b: nat, c: nat)
    ensures ClMul(ClMul(a, b), c) == ClMul(a, ClMul(b, c))
    decreases c
  {
    if c > 0 {
      ClMulAssoc(a, b, c / 2);
      ClMulXorRight(a, Coeff(b, c), 2 * ClMul(b, c / 2));
      ClMulDouble(a, ClMul(b, c / 2));
      assert ClMul(a, 0) == 0;
    }
  }

  // ---- reduction ----

  /** Multiplication by x in the field. */
  function MulX(v: nat): nat { if 2 * v >= TOP then Xor(2 * v, MODULUS) else 2 * v }

  /** The residue of a polynomial, by Horner's rule. */
  function Reduce(a: nat): nat
  {
    if a == 0 then 0 else Xor(a % 2, MulX(Reduce(a / 2)))
  }

  lemma Pow2At128()
    ensures Pow2(128) == TOP && Pow2(127) * 2 == TOP
  {
    Powers64();
    Pow2Add(64, 64);
  }

  /** The bit at `k` of an exclusive or, read as a comparison. */
  lemma {:induction false} XorTop(a: nat, b: nat, k: nat)
    requires a < 2 * Pow2(k) && b < 2 * Pow2(k)
    ensures Xor(a, b) >= Pow2(k) <==> ((a >= Pow2(k)) != (b >= Pow2(k)))
    ensures Xor(a, b) < 2 * Pow2(k)
    decreases k
  {
    XorBound(a, b, k + 1);
    if k > 0 {
      XorTop(a / 2, b / 2, k - 1);
      XorStep(a, b);
      HalfCompare(a, Pow2(k - 1));
      HalfCompare(b, Pow2(k - 1));
      HalfCompare(Xor(a, b), Pow2(k - 1));
    } else {
      XorJoin(0, 0, a, b);
    }
  }

  lemma HalfCompare(a: nat, p: nat)
    ensures a >= 2 * p <==> a / 2 >= p
  {
  }

  lemma MulXBound(v: nat)
    requires v < TOP
    ensures MulX(v) < TOP
  {
    Pow2At128();
    if 2 * v >= TOP { XorTop(2 * v, MODULUS, 128); }
  }

  lemma {:induction false} ReduceBound(a: nat)
    ensures Reduce(a) < TOP
  {
    if a > 0 {
      ReduceBound(a / 2);
      MulXBound(Reduce(a / 2));
      Pow2At128();
      XorBound(a % 2, MulX(Reduce(a / 2)), 128);
    }
  }

  lemma {:induction false} MulXXor(a: nat, b: nat)
    requires a < TOP && b < TOP
    ensures MulX(Xor(a, b)) == Xor(MulX(a), MulX(b))
  {
    Pow2At128();
    XorDouble(a, b);
    XorTop(2 * a, 2 * b, 128);
    var M := MODULUS;
    if 2 * a >= TOP && 2 * b >= TOP {
      XorSwap(2 * a, M, 2 * b, M);
      XorSelf(M);
      XorZero(Xor(2 * a, 2 * b));
    } else if 2 * a >= TOP {
      XorAssoc(2 * a, M, 2 * b);
      XorComm(M, 2 * b);
      XorAssoc(2 * a, 2 * b, M);
    } else if 2 * b >= TOP {
      XorAssoc(2 * a, 2 * b, M);
    }
  }

  lemma {:induction false} ReduceXor(a: nat, b: nat)
    ensures Reduce(Xor(a, b)) == Xor(Reduce(a), Reduce(b))
    decreases a + b
  {
    if a + b > 0 {
      ReduceXor(a / 2, b / 2);
      ReduceStep(a);
      ReduceStep(b);
      ReduceStep(Xor(a, b));
      XorStep(a, b);
      ReduceBound(a / 2);
      ReduceBound(b / 2);
      MulXXor(Reduce(a / 2), Reduce(b / 2));
      XorSwap(a % 2, MulX(Reduce(a / 2)), b % 2, MulX(Reduce(b / 2)));
      XorJoin(0, 0, a % 2, b % 2);
      ParityOfParts(a, b);
    } else {
      XorZero(0);
    }
  }

  lemma {:induction false} ReduceStep(a: nat)
    ensures Reduce(a) == Xor(a % 2, MulX(Reduce(a / 2)))
  {
    if a == 0 { XorZero(0); }
  }

  lemma {:induction false} ReduceDouble(a: nat)
    ensures Reduce(2 * a) == MulX(Reduce(a))
  {
    hide Reduce;
    hide MulX;
    hide Xor;
    Halve(0, a);
    ReduceStep(2 * a);
    XorZero(MulX(Reduce(a)));
  }

  lemma {:induction false} ReduceSmall(a: nat)
    requires a < TOP
    ensures Reduce(a) == a
  {
    if a > 0 {
      ReduceSmall(a / 2);
      XorBit(a / 2, a % 2);
    }
  }

  lemma ReduceModulus()
    ensures Reduce(MODULUS) == 0
  {
    var h := MODULUS / 2;
    ReduceSmall(h);
    XorBit(h, 1);
    XorComm(1, 2 * h);
    XorAssoc(2 * h, 2 * h, 1);
    XorSelf(2 * h);
    XorZero(1);
    XorSelf(1);
  }

  /** Multiples of the modulus vanish. */
  lemma {:induction false} ReduceMultiple(q: nat)
    ensures Reduce(ClMul(MODULUS, q)) == 0
    decreases q
  {
    if q > 0 {
      ReduceMultiple(q / 2);
      ReduceXor(Coeff(MODULUS, q), 2 * ClMul(MODULUS, q / 2));
      ReduceDouble(ClMul(MODULUS, q / 2));
      ReduceModulus();
      XorZero(0);
    }
  }

  /** The quotient that goes with Reduce. */
  function QuotientOf(a: nat): nat
  {
    if a == 0 then 0
    else 2 * QuotientOf(a / 2) + if 2 * Reduce(a / 2) >= TOP then 1 else 0
  }

  lemma {:induction false} Division(a: nat)
    ensures a == Xor(ClMul(MODULUS, QuotientOf(a)), Reduce(a))
  {
    if a > 0 {
      Division(a / 2);
      DivisionStep(a, QuotientOf(a / 2), Reduce(a / 2));
    } else {
      XorZero(0);
    }
  }

  /** a = a0 + 2 (F q + r) = F (2 q + bit) + (a0 + MulX(r)). */
  lemma DivisionStep(a: nat, q: nat, r: nat)
    requires a / 2 == Xor(ClMul(MODULUS, q), r)
    ensures a == Xor(ClMul(MODULUS, 2 * q + if 2 * r >= TOP then 1 else 0), Xor(a % 2, MulX(r)))
  {
    var bit := if 2 * r >= TOP then 1 else 0;
    XorBit(a / 2, a % 2);
    XorDouble(ClMul(MODULUS, q), r);
    ClMulStep(MODULUS, 2 * q + bit);
    Halve(bit, q);
    XorZero(2 * r);
    DivisionAlgebra(a % 2, 2 * ClMul(MODULUS, q), 2 * r, if bit == 1 then MODULUS else 0);
  }

  lemma {:induction false} DivisionAlgebra(a0: nat, m: nat, r: nat, f: nat)
    ensures Xor(a0, Xor(m, r)) == Xor(Xor(f, m), Xor(a0, Xor(r, f)))
  {
    XorComm(a0, Xor(r, f));
    XorComm(f, m);
    XorAssoc(r, f, a0);
    XorSwap(m, f, r, Xor(f, a0));
    XorAssoc(f, f, a0);
    XorSelf(f);
    XorZero(a0);
    XorComm(Xor(m, r), a0);
  }

  /** `r` is the remainder of `a`: degree below 128 and congruent modulo the field polynomial. */
  ghost predicate IsRemainder(a: nat, r: nat)
  {
    r < TOP && exists q :: a == Xor(ClMul(MODULUS, q), r)
  }

  /** Reduce computes the remainder, and there is only one. */
  lemma {:induction false} ReduceIsRemainder(a: nat, r: nat)
    ensures IsRemainder(a, r) <==> r == Reduce(a)
  {
    Division(a);
    ReduceBound(a);
    if IsRemainder(a, r) {
      var q :| a == Xor(ClMul(MODULUS, q), r);
      ReduceXor(ClMul(MODULUS, q), r);
      ReduceMultiple(q);
      ReduceSmall(r);
      XorZero(r);
    }
  }

  // ---- the field product ----

  function Gf(a: nat, b: nat): nat { Reduce(ClMul(a, b)) }

  lemma GfComm(a: nat, b: nat)
    ensures Gf(a, b) == Gf(b, a)
  {
    ClMulComm(a, b);
  }

  lemma {:induction false} GfXor(a: nat, b: nat, c: nat)
    ensures Gf(Xor(a, b), c) == Xor(Gf(a, c), Gf(b, c)) && Gf(c, Xor(a, b)) == Xor(Gf(c, a), Gf(c, b))
  {
    ClMulXorLeft(a, b, c);
    ClMulXorRight(c, a, b);
    ReduceXor(ClMul(a, c), ClMul(b, c));
    ReduceXor(ClMul(c, a), ClMul(c, b));
  }

  /** Reducing a factor first does not change the product. */
  lemma {:induction false} ReduceFactor(a: nat, b: nat)
    ensures Gf(Reduce(a), b) == Gf(a, b)
    decreases b
  {
    var r := Reduce(a);
    if b > 0 {
      ReduceFactor(a, b / 2);
      ReduceXor(Coeff(a, b), 2 * ClMul(a, b / 2));
      ReduceXor(Coeff(r, b), 2 * ClMul(r, b / 2));
      ReduceDouble(ClMul(a, b / 2));
      ReduceDouble(ClMul(r, b / 2));
      ReduceBound(a);
      ReduceSmall(r);
    }
  }

  lemma GfAssoc(a: nat, b: nat, c: nat)
    ensures Gf(Gf(a, b), c) == Gf(a, Gf(b, c))
  {
    ReduceFactor(ClMul(a, b), c);
    ClMulAssoc(a, b, c);
    ReduceFactor(ClMul(b, c), a);
    ClMulComm(ClMul(b, c), a);
    ClMulComm(Reduce(ClMul(b, c)), a);
  }

  // ---- GHASH as polynomial evaluation ----

  lemma GfZero(b: nat)
    ensures Gf(0, b) == 0
  {
    GfComm(0, b);
    ReduceSmall(0);
  }

  function GfPow(h: nat, n: nat): nat { if n == 0 then 1 else Gf(GfPow(h, n - 1), h) }

  /** Y := (Y xor X_i) H over all blocks: section 6.4 of SP 800-38D. */
  function GhashFold(h: nat, y: nat, xs: seq<nat>): nat
    decreases |xs|
  {
    if xs == [] then y else GhashFold(h, Gf(Xor(y, xs[0]), h), xs[1..])
  }

  /** X_1 H^m xor X_2 H^(m-1) xor ... xor X_m H. */
  function Evaluate(h: nat, xs: seq<nat>): nat
  {
    if xs == [] then 0 else Xor(Gf(xs[0], GfPow(h, |xs|)), Evaluate(h, xs[1..]))
  }

  lemma {:induction false} GfPowLeft(h: nat, n: nat)
    requires h < TOP
    ensures Gf(h, GfPow(h, n)) == GfPow(h, n + 1)
  {
    if n == 0 {
      ClMulOne(h);
      ReduceSmall(h);
    } else {
      GfPowLeft(h, n - 1);
      GfAssoc(h, GfPow(h, n - 1), h);
    }
  }

  lemma {:induction false} GhashIsEvaluation(h: nat, y: nat, xs: seq<nat>)
    requires h < TOP && y < TOP
    ensures GhashFold(h, y, xs) == Xor(Gf(y, GfPow(h, |xs|)), Evaluate(h, xs))
    decreases xs
  {
    if xs == [] {
      ClMulOne(y);
      ReduceSmall(y);
      XorZero(y);
    } else {
      var s := Xor(y, xs[0]);
      var n := |xs| - 1;
      ReduceBound(ClMul(s, h));
      GhashIsEvaluation(h, Gf(s, h), xs[1..]);
      GfAssoc(s, h, GfPow(h, n));
      GfPowLeft(h, n);
      GfXor(y, xs[0], GfPow(h, n + 1));
      XorAssoc(Gf(y, GfPow(h, n + 1)), Gf(xs[0], GfPow(h, n + 1)), Evaluate(h, xs[1..]));
    }
  }
}
