/** What the function X25519 of RFC 7748 computes: the abscissa of a multiple of a point, for every abscissa. */
module LadderMeaning {
  import opened Bits
  import opened Curve
  import opened Field25519
  import opened Limbs
  import opened ModArith
  import opened Montgomery
  import X25519

  /** Curve25519 for b = 1 (section 4.1 of RFC 7748); its twists for the values of b that are not squares. */
  function Curve25519(b: int): Mont { Mont(486662, b, P) }

  /** The hypotheses: 2^255 - 19 is prime, and chord and tangent associate on the curve. */
  ghost predicate Group25519(b: int)
  {
    0 < b < P && FieldPrime(P) && Law(Curve25519(b))
  }

  lemma CurveIs(b: int)
    requires Group25519(b)
    ensures var e := Curve25519(b); Proper(e) && Law(e) && e.a == 4 * 121665 + 2 && e.p == P
  {
    SmallMod(b, P);
    SmallMod(486660, P);
    SmallMod(486664, P);
  }

  /** Every abscissa is that of a point of the curve or of a twist. */
  lemma EveryAbscissa(u: Fe)
    ensures exists b, y :: 0 < b < P && On(At(u, y), Curve25519(b))
  {
    hide Right;
    var v := Right(u, 486662) % P;
    SmallMod(v, P);
    SmallMod(0, P);
    if v == 0 {
      assert On(At(u, 0), Curve25519(1));
    } else {
      assert On(At(u, 1), Curve25519(v));
    }
  }

  // ---- the field operations are those of the generic formulas ----

  lemma FieldOps(a: Fe, b: Fe)
    ensures FAdd(a, b) == AddM(a, b, P) && FSub(a, b) == SubM(a, b, P) && FMul(a, b) == MulM(a, b, P)
  {
  }

  lemma StepIs(x1: Fe, l: Ladder)
    ensures Step(x1, l) == Ladder(DoubleX(l.x2, l.z2, P), DoubleZ(l.x2, l.z2, 121665, P),
                                  SumX(l.x2, l.z2, l.x3, l.z3, P), SumZ(x1, l.x2, l.z2, l.x3, l.z3, P))
  {
    hide FAdd;
    hide FSub;
    hide FMul;
    hide AddM;
    hide SubM;
    hide MulM;
    var A, B, C, D := FAdd(l.x2, l.z2), FSub(l.x2, l.z2), FAdd(l.x3, l.z3), FSub(l.x3, l.z3);
    FieldOps(l.x2, l.z2);
    FieldOps(l.x3, l.z3);
    FieldOps(A, A);
    FieldOps(B, B);
    FieldOps(FMul(A, A), FMul(B, B));
    var E := FSub(FMul(A, A), FMul(B, B));
    FieldOps(121665, E);
    FieldOps(FMul(A, A), FMul(121665, E));
    FieldOps(E, FAdd(FMul(A, A), FMul(121665, E)));
    FieldOps(D, A);
    FieldOps(C, B);
    FieldOps(FMul(D, A), FMul(C, B));
    var sum, diff := FAdd(FMul(D, A), FMul(C, B)), FSub(FMul(D, A), FMul(C, B));
    FieldOps(sum, sum);
    FieldOps(diff, diff);
    FieldOps(x1, FMul(diff, diff));
  }

  lemma {:induction false} PowIs(a: Fe, e: nat)
    ensures FPow(a, e) == Power(a, e) % P
  {
    hide FMul;
    SmallMod(1, P);
    if e > 0 {
      PowIs(a, e - 1);
      FieldOps(FPow(a, e - 1), a);
      ReduceFactor(Power(a, e - 1), a, P);
    }
  }

  // ---- the ladder of the RFC is the generic one ----

  function AsLadder(f: Four): Ladder
    requires 0 <= f.x2 < P && 0 <= f.z2 < P && 0 <= f.x3 < P && 0 <= f.z3 < P
  {
    Ladder(f.x2, f.z2, f.x3, f.z3)
  }

  lemma {:induction false} LoopIs(k: nat, u: Fe, t: nat)
    requires t <= 255
    ensures var f := Turns(k, t, 255, u, 121665, P);
      && 0 <= f.x2 < P && 0 <= f.z2 < P && 0 <= f.x3 < P && 0 <= f.z3 < P
      && PlainLoop(k, StepWith(u), Ladder(1, 0, u, 1), t) == AsLadder(f)
    decreases 255 - t
  {
    hide Step;
    hide DoubleX;
    hide DoubleZ;
    hide SumX;
    hide SumZ;
    TurnsInRange(k, t, 255, u, 121665, P);
    if t < 255 {
      LoopIs(k, u, t + 1);
      TurnsInRange(k, t + 1, 255, u, 121665, P);
      StepIs(u, CSwap(PlainLoop(k, StepWith(u), Ladder(1, 0, u, 1), t + 1), BitAt(k, t)));
    }
  }

  lemma {:induction false} QuotientIs(x: Fe, z: Fe)
    ensures FMul(x, FPow(z, P - 2)) == MulM(x, Inverse(z, P), P)
  {
    hide FMul;
    PowIs(z, P - 2);
    FieldOps(x, FPow(z, P - 2));
  }

  /** The whole function, on the generic ladder. */
  lemma {:induction false} FunctionIs(k: nat, u: Fe)
    ensures var f := Turns(k, 0, 255, u, 121665, P);
      RfcX25519(k, u) == MulM(f.x2, Inverse(f.z2, P), P)
  {
    hide Step;
    hide FMul;
    hide FPow;
    hide Turns;
    hide PlainLoop;
    hide SwapLoop;
    DeferredSwap(k, StepWith(u), Ladder(1, 0, u, 1), 0);
    LoopIs(k, u, 0);
    var f := Turns(k, 0, 255, u, 121665, P);
    QuotientIs(f.x2, f.z2);
  }

  /** X25519(k, x(P)) = x(kP), 0 standing for infinity, for every point of the curve and of its twists. */
  lemma {:induction false} LadderIsMultiple(k: nat, q: Affine, b: int)
    requires Group25519(b) && q.At? && On(q, Curve25519(b)) && k < Pow2(255)
    ensures 0 <= q.x < P && RfcX25519(k, q.x) == Abscissa(MultipleOf(k, q, Curve25519(b)))
  {
    hide *;
    CurveIs(b);
    PointIs(q, b);
    FunctionIs(k, q.x);
    LadderQuotient(k, 255, q, 121665, Curve25519(b));
  }

  lemma PointIs(q: Affine, b: int)
    requires q.At? && On(q, Curve25519(b))
    ensures 0 <= q.x < P
  {
  }

  // ---- two parties ----

  /** The group law on the curve and on every twist. */
  ghost predicate AllGroups()
  {
    forall b :: 0 < b < P ==> Group25519(b)
  }

  /** X25519(j, X25519(k, u)) = X25519(j k, u) on multiples, so the order of two scalars does not matter. */
  lemma LadderCommutes(j: nat, k: nat, u: Fe)
    requires AllGroups() && j < Pow2(255) && k < Pow2(255)
    ensures RfcX25519(j, RfcX25519(k, u)) == RfcX25519(k, RfcX25519(j, u))
  {
    hide RfcX25519;
    hide On;
    hide Group25519;
    EveryAbscissa(u);
    var b, y :| 0 < b < P && On(At(u, y), Curve25519(b));
    ProductOf(j, k);
    TwoMultiples(j, k, j * k, At(u, y), b);
    TwoMultiples(k, j, j * k, At(u, y), b);
  }

  lemma ProductOf(j: nat, k: nat)
    ensures 0 <= j * k == k * j
  {
  }

  lemma {:induction false} TwoMultiples(j: nat, k: nat, n: nat, q: Affine, b: int)
    requires Group25519(b) && q.At? && On(q, Curve25519(b)) && j < Pow2(255) && k < Pow2(255) && n == j * k
    ensures 0 <= q.x < P && RfcX25519(j, RfcX25519(k, q.x)) == Abscissa(MultipleOf(n, q, Curve25519(b)))
  {
    hide RfcX25519;
    hide On;
    hide Law;
    var e := Curve25519(b);
    var r := MultipleOf(k, q, e);
    CurveIs(b);
    LadderIsMultiple(k, q, b);
    MultipleOn(k, q, e);
    MultipleTimes(j, k, q, e);
    if r.At? {
      LadderIsMultiple(j, r, b);
    } else {
      MultipleOfZero(j, e);
      LadderAtZero(j);
    }
  }

  lemma LadderAtZero(k: nat)
    ensures RfcX25519(k, 0) == 0
  {
    hide *;
    FieldIs();
    FunctionIs(k, 0);
    TurnsVanish(k, 0, 255, 121665, P);
    InverseOfZero(P);
    ZeroProduct(Turns(k, 0, 255, 0, 121665, P).x2, P);
  }

  lemma FieldIs()
    ensures 2 < P
  {
  }

  lemma ZeroProduct(x: int, p: int)
    requires 0 < p
    ensures MulM(x, 0, p) == 0
  {
    SmallMod(0, p);
  }

  lemma {:induction false} MultipleOfZero(k: nat, e: Mont)
    requires 2 < e.p
    ensures MultipleOf(k, Zero, e) == Zero
  {
    if k > 0 { MultipleOfZero(k - 1, e); }
  }

  /** The secrets the two parties of section 6.1 of RFC 7748 compute from each other's public values agree. */
  lemma {:induction false} SecretsAgree(alice: Bytes, bob: Bytes, pubA: Bytes, pubB: Bytes)
    requires AllGroups() && |alice| == |bob| == 32
    requires Le(pubA) == RfcX25519(Le(X25519.Clamp(alice)), 9) && Le(pubB) == RfcX25519(Le(X25519.Clamp(bob)), 9)
    ensures RfcX25519(Le(X25519.Clamp(alice)), Le(pubB) % TWO255 % P)
         == RfcX25519(Le(X25519.Clamp(bob)), Le(pubA) % TWO255 % P)
  {
    hide RfcX25519;
    hide AllGroups;
    ScalarFits(alice);
    ScalarFits(bob);
    TwoReductions(Le(pubA));
    TwoReductions(Le(pubB));
    LadderCommutes(Le(X25519.Clamp(alice)), Le(X25519.Clamp(bob)), 9);
  }

  lemma ScalarFits(n: Bytes)
    requires |n| == 32
    ensures Le(X25519.Clamp(n)) < Pow2(255)
  {
    hide X25519.Clamp;
    X25519.ClampValue(n);
    X25519.Pow2At255();
  }

  lemma TwoReductions(v: int)
    requires 0 <= v < P
    ensures v % TWO255 % P == v
  {
    SmallMod(v, TWO255);
    SmallMod(v, P);
  }
}
