/** Arithmetic of GF(2^255 - 19) on representatives below the prime. */
module Field25519 {
  import opened Limbs
  import opened ModArith
  import opened Bits

  type Fe = x: int | 0 <= x < P

  function FAdd(a: Fe, b: Fe): Fe { (a + b) % P }
  function FSub(a: Fe, b: Fe): Fe { (a - b) % P }
  function FMul(a: Fe, b: Fe): Fe { (a * b) % P }

  function FPow(a: Fe, e: nat): Fe
  {
    if e == 0 then 1 else FMul(FPow(a, e - 1), a)
  }

  /** The field element a limb sequence represents. */
  function Elt(s: seq<int>): Fe { Val(s) % P }

  lemma FComm(a: Fe, b: Fe)
    ensures FAdd(a, b) == FAdd(b, a) && FMul(a, b) == FMul(b, a)
  {
    assert a * b == b * a;
  }

  lemma {:induction false} FPowAdd(a: Fe, m: nat, n: nat)
    ensures FPow(a, m + n) == FMul(FPow(a, m), FPow(a, n))
  {
    if n == 0 {
      SmallMod(FPow(a, m), P);
    } else {
      FPowAdd(a, m, n - 1);
      assert m + n - 1 == m + (n - 1);
      MulAssoc(FPow(a, m), FPow(a, n - 1), a, P);
    }
  }

  // ---- the Montgomery ladder of section 5 of RFC 7748 ----

  datatype Ladder = Ladder(x2: Fe, z2: Fe, x3: Fe, z3: Fe)

  function CSwap(l: Ladder, swap: int): Ladder
  {
    if swap == 1 then Ladder(l.x3, l.z3, l.x2, l.z2) else l
  }

  /** The assignments of one iteration, named as in the RFC. */
  function Step(x1: Fe, l: Ladder): Ladder
  {
    var A := FAdd(l.x2, l.z2);
    var AA := FMul(A, A);
    var B := FSub(l.x2, l.z2);
    var BB := FMul(B, B);
    var E := FSub(AA, BB);
    var C := FAdd(l.x3, l.z3);
    var D := FSub(l.x3, l.z3);
    var DA := FMul(D, A);
    var CB := FMul(C, B);
    var sum, diff := FAdd(DA, CB), FSub(DA, CB);
    Ladder(FMul(AA, BB), FMul(E, FAdd(AA, FMul(121665, E))), FMul(sum, sum), FMul(x1, FMul(diff, diff)))
  }

  function BitAt(k: nat, t: nat): int { k / Pow2(t) % 2 }

  /** State and pending `swap` flag after the iterations for bits 254 down to `t`. */
  function SwapLoop(k: nat, step: Ladder -> Ladder, start: Ladder, t: nat): (Ladder, int)
    requires t <= 255
    decreases 255 - t
  {
    if t == 255 then (start, 0)
    else
      var (l, swap) := SwapLoop(k, step, start, t + 1);
      var kt := BitAt(k, t);
      (step(CSwap(l, (swap + kt) % 2)), kt)
  }

  /** The same ladder with the exchange undone at the end of every iteration. */
  function PlainLoop(k: nat, step: Ladder -> Ladder, start: Ladder, t: nat): Ladder
    requires t <= 255
    decreases 255 - t
  {
    if t == 255 then start
    else
      var kt := BitAt(k, t);
      CSwap(step(CSwap(PlainLoop(k, step, start, t + 1), kt)), kt)
  }

  /** Deferring the second exchange to the next iteration does not change the ladder. */
  lemma {:induction false} DeferredSwap(k: nat, step: Ladder -> Ladder, start: Ladder, t: nat)
    requires t <= 255
    ensures var (l, swap) := SwapLoop(k, step, start, t);
      0 <= swap <= 1 && PlainLoop(k, step, start, t) == CSwap(l, swap)
    decreases 255 - t
  {
    if t < 255 {
      DeferredSwap(k, step, start, t + 1);
      var (l, swap) := SwapLoop(k, step, start, t + 1);
      var kt := BitAt(k, t);
      assert CSwap(CSwap(l, swap), kt) == CSwap(l, (swap + kt) % 2);
    }
  }

  function StepWith(x1: Fe): Ladder -> Ladder { (l: Ladder) => Step(x1, l) }

  /** X25519(k, u) as the RFC writes it. */
  function RfcX25519(k: nat, u: Fe): Fe
  {
    var (l, swap) := SwapLoop(k, StepWith(u), Ladder(1, 0, u, 1), 0);
    var r := CSwap(l, swap);
    FMul(r.x2, FPow(r.z2, P - 2))
  }
}
