module Bignum {
  import opened Bits
  import opened ModArith
  import opened Words

  /** An unsigned integer: `n` words of a fixed buffer, the top one nonzero. */
  class Nat {
    const w: array<u32>
    var n: nat

    constructor (capacity: nat)
      ensures fresh(w) && w.Length == capacity && n == 0
      ensures forall i :: 0 <= i < capacity ==> w[i] == 0
    {
      w := new u32[capacity](_ => 0);
      n := 0;
    }

    ghost predicate Fits()
      reads this
    {
      n <= w.Length
    }

    /** Canonical form: within the buffer and without leading zero words. */
    ghost predicate Canon()
      reads this, w
    {
      Fits() && Trimmed(w[..n])
    }

    ghost function Value(): nat
      requires Fits()
      reads this, w
    {
      Num(w[..n])
    }

    method Trim()
      requires Fits()
      modifies this`n
      ensures Canon() && Value() == old(Value()) && n <= old(n)
    {
      while n > 0 && w[n - 1] == 0
        invariant n <= old(n) && n <= w.Length && Num(w[..n]) == old(Value())
        decreases n
      {
        NumSnoc(w[..], n - 1);
        assert w[..][..n] == w[..n] && w[..][..n - 1] == w[..n - 1];
        n := n - 1;
      }
    }
  }

  /** -1, 0 or 1 as `a` is below, equal to or above `b`. */
  method Cmp(a: Nat, b: Nat) returns (r: int)
    requires a.Canon() && b.Canon()
    ensures r == if a.Value() < b.Value() then -1 else if a.Value() == b.Value() then 0 else 1
  {
    ghost var s, t := a.w[..a.n], b.w[..b.n];
    if a.n != b.n {
      if a.n < b.n { ShorterIsLess(s, t); } else { ShorterIsLess(t, s); }
      return if a.n < b.n then -1 else 1;
    }
    var i := a.n;
    while i > 0
      invariant 0 <= i <= a.n && s[i..] == t[i..]
    {
      if a.w[i - 1] != b.w[i - 1] {
        if a.w[i - 1] < b.w[i - 1] { FirstDifference(s, t, i - 1); } else { FirstDifference(t, s, i - 1); }
        return if a.w[i - 1] < b.w[i - 1] then -1 else 1;
      }
      i := i - 1;
    }
    assert s == t;
    return 0;
  }

  /** The word of `a` at `i`, zero above the top. */
  method WordAt(a: Nat, i: nat) returns (x: u32)
    requires a.Fits()
    ensures x == Padded(a.w[..a.n], i)
  {
    x := if i < a.n then a.w[i] else 0;
  }

  function Padded(s: seq<u32>, i: nat): u32 { if i < |s| then s[i] else 0 }

  /** `s` cut or zero-extended to `k` words. */
  function Extend(s: seq<u32>, k: nat): seq<u32> { seq(k, i requires 0 <= i => Padded(s, i)) }

  lemma {:induction false} ExtendKeeps(s: seq<u32>, k: nat)
    requires |s| <= k
    ensures Num(Extend(s, k)) == Num(s)
    decreases k
  {
    if k == |s| {
      assert Extend(s, k) == s;
    } else {
      ExtendKeeps(s, k - 1);
      NumSnoc(Extend(s, k), k - 1);
      assert Extend(s, k)[..k - 1] == Extend(s, k - 1) && Extend(s, k)[..k] == Extend(s, k);
    }
  }

  /** a := a - b for a >= b. */
  method SubInPlace(a: Nat, b: Nat)
    requires a != b && a.w != b.w && a.Canon() && b.Canon() && b.Value() <= a.Value()
    modifies a`n, a.w
    ensures a.Canon() && a.Value() == old(a.Value()) - b.Value()
  {
    ghost var s, t := a.w[..a.n], b.w[..b.n];
    LengthMono(t, s);
    var borrow := BorrowWords(a, b);
    NumBound(a.w[..a.n]);
    NoBorrow(Num(a.w[..a.n]), Num(s), Num(t), borrow, BPow(a.n));
    a.Trim();
  }

  /** The borrow loop of the subtraction; the result is the borrow out of the top word. */
  method BorrowWords(a: Nat, b: Nat) returns (borrow: u64)
    requires a.w != b.w && a.Fits() && b.Fits() && b.n <= a.n
    modifies a.w
    ensures 0 <= borrow <= 1
    ensures Num(a.w[..a.n]) + b.Value() == old(a.Value()) + borrow * BPow(a.n)
  {
    ghost var s, t := a.w[..a.n], b.w[..b.n];
    borrow := 0;
    for i := 0 to a.n
      invariant b.w[..b.n] == t
      invariant forall j :: i <= j < a.n ==> a.w[j] == s[j]
      invariant 0 <= borrow <= 1
      invariant Num(a.w[..i]) + Num(Extend(t, i)) == Num(s[..i]) + borrow * BPow(i)
    {
      ghost var done := a.w[..i];
      var av: u64 := a.w[i];
      var bw := WordAt(b, i);
      var bv: u64 := bw + borrow;
      ghost var was := borrow;
      if av >= bv {
        a.w[i] := av - bv;
        borrow := 0;
      } else {
        a.w[i] := B + av - bv;
        borrow := 1;
      }
      assert a.w[..i + 1] == done + [a.w[i]];
      SubStep(done, a.w[i], s, t, was, borrow);
    }
    ExtendKeeps(t, a.n);
    assert s[..a.n] == s;
  }

  lemma ExtendSnoc(t: seq<u32>, i: nat)
    ensures Num(Extend(t, i + 1)) == Num(Extend(t, i)) + BPow(i) * Padded(t, i)
  {
    NumSnoc(Extend(t, i + 1), i);
    assert Extend(t, i + 1)[..i] == Extend(t, i) && Extend(t, i + 1)[..i + 1] == Extend(t, i + 1);
  }

  lemma SubStep(done: seq<u32>, r: u32, s: seq<u32>, t: seq<u32>, was: nat, now: nat)
    requires |done| < |s|
    requires Num(done) + Num(Extend(t, |done|)) == Num(s[..|done|]) + was * BPow(|done|)
    requires r + Padded(t, |done|) + was == s[|done|] + now * B
    ensures Num(done + [r]) + Num(Extend(t, |done| + 1)) == Num(s[..|done| + 1]) + now * BPow(|done| + 1)
  {
    var i := |done|;
    NumAppend(done, r);
    NumSnoc(s, i);
    ExtendSnoc(t, i);
    BorrowArith(s[i], Padded(t, i), was, r, now, BPow(i));
  }

  lemma AddStep(done: seq<u32>, r: u32, s: seq<u32>, t: seq<u32>, was: nat, now: nat)
    requires Num(done) + was * BPow(|done|) == Num(Extend(s, |done|)) + Num(Extend(t, |done|))
    requires r + now * B == was + Padded(s, |done|) + Padded(t, |done|)
    ensures Num(done + [r]) + now * BPow(|done| + 1) == Num(Extend(s, |done| + 1)) + Num(Extend(t, |done| + 1))
  {
    var i := |done|;
    NumAppend(done, r);
    ExtendSnoc(s, i);
    ExtendSnoc(t, i);
    CarryArith(Padded(s, i), Padded(t, i), was, r, now, BPow(i));
  }

  lemma BorrowArith(a: int, b: int, was: int, r: int, now: int, p: int)
    requires r + b + was == a + now * B
    ensures p * r + p * b + was * p == p * a + now * (B * p)
  {
    assert p * (r + b + was) == p * (a + now * B);
  }

  lemma NoBorrow(r: nat, s: nat, t: nat, borrow: nat, p: nat)
    requires borrow <= 1 && r + t == s + borrow * p && t <= s && r < p
    ensures borrow == 0
  {
  }

  /** (a + b) mod m for reduced a and b; `m` leaves one spare word for the carry. */
  method AddMod(a: Nat, b: Nat, m: Nat) returns (t: Nat)
    requires a.Canon() && b.Canon() && m.Canon() && m.n < m.w.Length
    requires a.Value() < m.Value() && b.Value() < m.Value()
    ensures fresh(t) && fresh(t.w) && t.w.Length == m.w.Length && t.Canon()
    ensures t.Value() == AddM(a.Value(), b.Value(), m.Value())
  {
    t := AddWords(a, b, m);
    var r := Cmp(t, m);
    if t.n > m.n || r >= 0 {
      if t.n > m.n { ShorterIsLess(m.w[..m.n], t.w[..t.n]); }
      SubInPlace(t, m);
    }
    ReduceOnce(a.Value() + b.Value(), m.Value(), t.Value());
  }

  /** The sum over the words of `m` and one word more. */
  method AddWords(a: Nat, b: Nat, m: Nat) returns (t: Nat)
    requires a.Canon() && b.Canon() && m.Canon() && m.n < m.w.Length
    requires a.Value() < m.Value() && b.Value() < m.Value()
    ensures fresh(t) && fresh(t.w) && t.w.Length == m.w.Length && t.Canon()
    ensures t.Value() == a.Value() + b.Value()
  {
    LengthMono(a.w[..a.n], m.w[..m.n]);
    LengthMono(b.w[..b.n], m.w[..m.n]);
    t := new Nat(m.w.Length);
    var c := CarryWords(a, b, t, m.n);
    ghost var low := t.w[..m.n];
    t.w[m.n] := c;
    t.n := m.n + 1;
    assert t.w[..t.n] == low + [c];
    NumAppend(low, c);
    t.Trim();
  }

  method CarryWords(a: Nat, b: Nat, t: Nat, n: nat) returns (c: u32)
    requires a.Canon() && b.Canon() && a.n <= n && b.n <= n && n <= t.w.Length
    requires t.w != a.w && t.w != b.w
    modifies t.w
    ensures Num(t.w[..n]) + BPow(n) * c == a.Value() + b.Value()
  {
    ghost var sa, sb := a.w[..a.n], b.w[..b.n];
    c := 0;
    for i := 0 to n
      invariant a.w[..a.n] == sa && b.w[..b.n] == sb
      invariant 0 <= c <= 1
      invariant Num(t.w[..i]) + c * BPow(i) == Num(Extend(sa, i)) + Num(Extend(sb, i))
    {
      ghost var done := t.w[..i];
      var x := WordAt(a, i);
      var y := WordAt(b, i);
      var s: u64 := c + x + y;
      ghost var was := c;
      t.w[i] := s % B;
      c := s / B;
      assert t.w[..i + 1] == done + [t.w[i]];
      AddStep(done, t.w[i], sa, sb, was, c);
    }
    ExtendKeeps(sa, n);
    ExtendKeeps(sb, n);
  }

  lemma CarryArith(x: int, y: int, was: int, r: int, now: int, p: int)
    requires r + now * B == was + x + y
    ensures p * r + now * (B * p) == was * p + p * x + p * y
  {
    assert p * (r + now * B) == p * (was + x + y);
  }

  lemma ReduceOnce(v: nat, m: nat, r: nat)
    requires v < 2 * m && r == if v >= m then v - m else v
    ensures r == v % m
  {
    ModUnique(v, if v >= m then 1 else 0, r, m);
  }

  /** A copy, as passing or assigning the C++ struct makes one. */
  method Clone(a: Nat) returns (r: Nat)
    requires a.Canon()
    ensures fresh(r) && fresh(r.w) && r.w.Length == a.w.Length && r.Canon() && r.Value() == a.Value()
  {
    r := new Nat(a.w.Length);
    for i := 0 to a.w.Length
      invariant r.w[..i] == a.w[..i] && a.w[..] == old(a.w[..])
    {
      r.w[i] := a.w[i];
    }
    r.n := a.n;
    assert r.w[..a.w.Length] == a.w[..a.w.Length];
    assert r.w[..r.n] == r.w[..a.w.Length][..a.n] == a.w[..a.n];
  }

  method Minus(a: Nat, b: Nat) returns (r: Nat)
    requires a.Canon() && b.Canon() && b.Value() <= a.Value()
    ensures fresh(r) && fresh(r.w) && r.w.Length == a.w.Length && r.Canon()
    ensures r.Value() == a.Value() - b.Value()
  {
    r := Clone(a);
    SubInPlace(r, b);
  }

  /** (a - b) mod m for reduced a and b. */
  method SubMod(a: Nat, b: Nat, m: Nat) returns (r: Nat)
    requires a.Canon() && b.Canon() && m.Canon()
    requires a.Value() < m.Value() && b.Value() < m.Value()
    requires a.w.Length == b.w.Length == m.w.Length
    ensures fresh(r) && fresh(r.w) && r.w.Length == m.w.Length && r.Canon()
    ensures r.Value() == SubM(a.Value(), b.Value(), m.Value())
  {
    var c := Cmp(a, b);
    if c >= 0 {
      r := Minus(a, b);
      ModUnique(a.Value() - b.Value(), 0, r.Value(), m.Value());
      return;
    }
    var d := Minus(b, a);
    r := Minus(m, d);
    ModUnique(a.Value() - b.Value(), -1, r.Value(), m.Value());
  }

  /** The position above the highest set bit. */
  method NBits(a: Nat) returns (b: nat)
    requires a.Canon()
    ensures a.Value() < Pow2(b) && (b > 0 ==> Pow2(b - 1) <= a.Value())
  {
    if a.n == 0 { return 0; }
    var v := a.w[a.n - 1];
    b := 32;
    Pow2At32();
    while b > 0 && v / Pow2(b - 1) % 2 == 0
      invariant b <= 32 && v < Pow2(b)
    {
      b := b - 1;
      SmallQuotient(v, Pow2(b));
    }
    if b > 0 { OddQuotient(v, Pow2(b - 1)); }
    TopBits(a.w[..a.n], b);
    b := (a.n - 1) * 32 + b;
  }

  lemma SmallQuotient(v: nat, p: nat)
    requires 0 < p && v < 2 * p && v / p % 2 == 0
    ensures v < p
  {
    if v >= p { ModUnique(v, 1, v - p, p); }
  }

  lemma OddQuotient(v: nat, p: nat)
    requires 0 < p && v / p % 2 == 1
    ensures p <= v
  {
    if v < p { ModUnique(v, 0, v, p); }
  }

  lemma TopBits(s: seq<u32>, b: nat)
    requires s != [] && Trimmed(s) && b <= 32
    requires s[|s| - 1] < Pow2(b) && (b > 0 ==> Pow2(b - 1) <= s[|s| - 1])
    ensures b > 0 && Pow2((|s| - 1) * 32 + b - 1) <= Num(s) < Pow2((|s| - 1) * 32 + b)
  {
    var k := |s| - 1;
    NumSnoc(s, k);
    assert s[..k + 1] == s;
    NumBound(s[..k]);
    BPowIsPow2(k);
    assert b > 0 by { assert Pow2(0) == 1; }
    Pow2Add(32 * k, b);
    Pow2Add(32 * k, b - 1);
    assert k * 32 + b == 32 * k + b && k * 32 + b - 1 == 32 * k + (b - 1);
    TopBitsArith(Num(s[..k]), BPow(k), s[k], Pow2(b - 1), Pow2(b));
  }

  lemma TopBitsArith(low: nat, w: nat, top: nat, lo: nat, hi: nat)
    requires low < w && lo <= top < hi
    ensures w * lo <= low + w * top < w * hi
  {
    MulMono(w, top, hi - 1);
    MulMono(w, lo, top);
  }

  method Bit(a: Nat, i: nat) returns (r: bool)
    requires a.Fits()
    ensures r <==> a.Value() / Pow2(i) % 2 == 1
  {
    var w := i / 32;
    WordBit(a.w[..a.n], i);
    r := w < a.n && a.w[w] / Pow2(i % 32) % 2 != 0;
  }

  /** Double-and-add product mod m, least significant bit of `b` first. */
  method MulMod(a: Nat, b: Nat, m: Nat) returns (r: Nat)
    requires a.Canon() && b.Canon() && m.Canon() && m.n < m.w.Length
    requires b.Value() < m.Value() && (a.Value() < m.Value() || b.Value() == 0)
    ensures fresh(r) && fresh(r.w) && r.w.Length == m.w.Length && r.Canon()
    ensures r.Value() == MulM(a.Value(), b.Value(), m.Value())
  {
    hide Doubled;
    hide PartialProduct;
    hide MulM;
    hide AddM;
    hide Pow2;
    ghost var av, bv, mv := a.Value(), b.Value(), m.Value();
    NoProduct(av, mv);
    r := new Nat(m.w.Length);
    var nb := NBits(b);
    if nb == 0 { return; }
    ProductTurns(av, bv, mv, 0);
    var x := a;
    for i := 0 to nb
      invariant fresh(r) && fresh(r.w) && r.w.Length == m.w.Length && r.Canon() && x.Canon()
      invariant r.Value() == PartialProduct(av, bv, mv, i)
      invariant x.Value() == Doubled(av, mv, i)
    {
      ProductTurns(av, bv, mv, i);
      r, x := MulBit(r, x, b, i, m);
    }
    ProductIs(av, bv, mv, nb);
  }

  /** One iteration: adds `x` when the bit is set, then doubles `x`. */
  method MulBit(r: Nat, x: Nat, b: Nat, i: nat, m: Nat) returns (r2: Nat, x2: Nat)
    requires r.Canon() && x.Canon() && b.Canon() && m.Canon() && m.n < m.w.Length && r.w.Length == m.w.Length
    requires r.Value() < m.Value() && x.Value() < m.Value()
    ensures r2 == r || (fresh(r2) && fresh(r2.w))
    ensures r2.Canon() && r2.w.Length == m.w.Length && x2.Canon()
    ensures x2.Value() == AddM(x.Value(), x.Value(), m.Value())
    ensures r2.Value() == if b.Value() / Pow2(i) % 2 == 1 then AddM(r.Value(), x.Value(), m.Value()) else r.Value()
  {
    r2 := r;
    var one := Bit(b, i);
    if one {
      r2 := AddMod(r, x, m);
    }
    x2 := AddMod(x, x, m);
  }

  /** What `i` iterations of the doubling loop compute. */
  function Doubled(a: nat, m: nat, i: nat): (r: nat)
    requires a < m
    ensures r < m
  {
    if i == 0 then a else AddM(Doubled(a, m, i - 1), Doubled(a, m, i - 1), m)
  }

  function PartialProduct(a: nat, b: nat, m: nat, i: nat): (r: nat)
    requires a < m
    ensures r < m
  {
    if i == 0 then 0
    else if b / Pow2(i - 1) % 2 == 1 then AddM(PartialProduct(a, b, m, i - 1), Doubled(a, m, i - 1), m)
    else PartialProduct(a, b, m, i - 1)
  }

  lemma NoProduct(a: nat, m: nat)
    requires 0 < m
    ensures MulM(a, 0, m) == 0 && Pow2(0) == 1
  {
  }

  lemma ProductTurns(a: nat, b: nat, m: nat, i: nat)
    requires a < m
    ensures PartialProduct(a, b, m, 0) == 0 && Doubled(a, m, 0) == a
    ensures Doubled(a, m, i + 1) == AddM(Doubled(a, m, i), Doubled(a, m, i), m)
    ensures var r := PartialProduct(a, b, m, i);
      PartialProduct(a, b, m, i + 1) == if b / Pow2(i) % 2 == 1 then AddM(r, Doubled(a, m, i), m) else r
  {
  }

  lemma {:induction false} DoubledIs(a: nat, m: nat, i: nat)
    requires a < m
    ensures Doubled(a, m, i) == a * Pow2(i) % m
  {
    if i == 0 {
      SmallMod(a, m);
    } else {
      DoubledIs(a, m, i - 1);
      ModAdd(a * Pow2(i - 1), a * Pow2(i - 1), m);
      assert a * Pow2(i - 1) + a * Pow2(i - 1) == a * Pow2(i);
    }
  }

  lemma {:induction false} PartialProductIs(a: nat, b: nat, m: nat, i: nat)
    requires a < m
    ensures PartialProduct(a, b, m, i) == a * (b % Pow2(i)) % m
  {
    if i == 0 {
      assert b % 1 == 0 && a * 0 == 0;
    } else {
      PartialProductIs(a, b, m, i - 1);
      ProductStep(a, b, m, i - 1);
    }
  }

  lemma {:induction false} ProductIs(a: nat, b: nat, m: nat, i: nat)
    requires a < m && b < Pow2(i)
    ensures PartialProduct(a, b, m, i) == MulM(a, b, m)
  {
    PartialProductIs(a, b, m, i);
    SmallMod(b, Pow2(i));
  }

  lemma ProductStep(a: nat, b: nat, m: nat, i: nat)
    requires a < m && PartialProduct(a, b, m, i) == a * (b % Pow2(i)) % m
    ensures PartialProduct(a, b, m, i + 1) == a * (b % Pow2(i + 1)) % m
  {
    LowBits(b, i);
    if b / Pow2(i) % 2 == 1 {
      DoubledIs(a, m, i);
      AddMultiples(a, b % Pow2(i), Pow2(i), m);
    }
  }

  lemma AddMultiples(a: nat, x: nat, y: nat, m: nat)
    requires 0 < m
    ensures (a * x % m + a * y % m) % m == a * (x + y) % m
  {
    ModAdd(a * x, a * y, m);
    assert a * x + a * y == a * (x + y);
  }

  /** One more low bit. */
  lemma LowBits(v: nat, i: nat)
    ensures v % Pow2(i + 1) == v % Pow2(i) + if v / Pow2(i) % 2 == 1 then Pow2(i) else 0
  {
    DivDiv(v, Pow2(i), 2);
  }

  // ---- powers ----

  method One(capacity: nat) returns (r: Nat)
    requires 0 < capacity
    ensures fresh(r) && fresh(r.w) && r.w.Length == capacity && r.Canon() && r.Value() == 1
  {
    r := new Nat(capacity);
    r.n := 1;
    r.w[0] := 1;
    assert r.w[..1] == [1] && Num([1]) == 1;
  }

  /** a^e mod m for a modulus above 1. */
  method PowMod(a: Nat, e: Nat, m: Nat) returns (r: Nat)
    requires a.Canon() && e.Canon() && m.Canon() && m.n < m.w.Length
    requires a.Value() < m.Value() && 1 < m.Value()
    ensures fresh(r) && fresh(r.w) && r.w.Length == m.w.Length && r.Canon()
    ensures r.Value() == Power(a.Value(), e.Value()) % m.Value()
  {
    hide Power;
    hide PartialPower;
    hide Squared;
    hide Pow2;
    hide MulM;
    ghost var av, ev, mv := a.Value(), e.Value(), m.Value();
    PowerTurns(av, ev, mv, 0);
    r := One(m.w.Length);
    var x := a;
    var nb := NBits(e);
    for i := 0 to nb
      invariant fresh(r) && fresh(r.w) && r.w.Length == m.w.Length && r.Canon() && x.Canon()
      invariant r.Value() == PartialPower(av, ev, mv, i)
      invariant x.Value() == Squared(av, mv, i)
    {
      PartialPowerIs(av, ev, mv, i);
      PowerTurns(av, ev, mv, i);
      r, x := PowBit(r, x, e, i, m);
    }
    DivIs(ev, Pow2(nb), 0, ev);
    PowerIs(av, ev, mv, nb);
  }

  method PowBit(r: Nat, x: Nat, e: Nat, i: nat, m: Nat) returns (r2: Nat, x2: Nat)
    requires r.Canon() && x.Canon() && e.Canon() && m.Canon() && m.n < m.w.Length && r.w.Length == m.w.Length
    requires r.Value() < m.Value() && x.Value() < m.Value()
    ensures r2 == r || (fresh(r2) && fresh(r2.w))
    ensures r2.Canon() && r2.w.Length == m.w.Length && x2.Canon()
    ensures x2.Value() == MulM(x.Value(), x.Value(), m.Value())
    ensures r2.Value() == if e.Value() / Pow2(i) % 2 == 1 then MulM(r.Value(), x.Value(), m.Value()) else r.Value()
  {
    r2 := r;
    var one := Bit(e, i);
    if one {
      r2 := MulMod(r, x, m);
    }
    x2 := MulMod(x, x, m);
  }

  /** What `i` iterations of the squaring loop compute. */
  function Squared(a: nat, m: nat, i: nat): (r: nat)
    requires a < m
    ensures r < m
  {
    if i == 0 then a else MulM(Squared(a, m, i - 1), Squared(a, m, i - 1), m)
  }

  function PartialPower(a: nat, e: nat, m: nat, i: nat): nat
    requires a < m
  {
    if i == 0 then 1
    else if e / Pow2(i - 1) % 2 == 1 then MulM(PartialPower(a, e, m, i - 1), Squared(a, m, i - 1), m)
    else PartialPower(a, e, m, i - 1)
  }

  lemma PowerTurns(a: nat, e: nat, m: nat, i: nat)
    requires a < m
    ensures PartialPower(a, e, m, 0) == 1 && Squared(a, m, 0) == a
    ensures Squared(a, m, i + 1) == MulM(Squared(a, m, i), Squared(a, m, i), m)
    ensures var r := PartialPower(a, e, m, i);
      PartialPower(a, e, m, i + 1) == if e / Pow2(i) % 2 == 1 then MulM(r, Squared(a, m, i), m) else r
  {
  }

  lemma {:induction false} SquaredIs(a: nat, m: nat, i: nat)
    requires a < m
    ensures Squared(a, m, i) == Power(a, Pow2(i)) % m
  {
    if i == 0 {
      assert Power(a, 1) == Power(a, 0) * a;
      SmallMod(a, m);
    } else {
      SquaredIs(a, m, i - 1);
      PowerMod(a, Pow2(i - 1), Pow2(i - 1), m);
    }
  }

  /** Modulo 1 the accumulator keeps its initial 1 until the first multiplication. */
  lemma {:induction false} PartialPowerIs(a: nat, e: nat, m: nat, i: nat)
    requires a < m
    ensures 1 < m || e % Pow2(i) > 0 ==> PartialPower(a, e, m, i) == Power(a, e % Pow2(i)) % m
    ensures PartialPower(a, e, m, i) < m || (m == 1 && e % Pow2(i) == 0)
  {
    if i == 0 {
      assert e % 1 == 0;
      if 1 < m { SmallMod(1, m); }
    } else {
      PartialPowerIs(a, e, m, i - 1);
      PowerStep(a, e, m, i - 1);
    }
  }

  lemma PowerStep(a: nat, e: nat, m: nat, i: nat)
    requires a < m
    requires 1 < m || e % Pow2(i) > 0 ==> PartialPower(a, e, m, i) == Power(a, e % Pow2(i)) % m
    requires PartialPower(a, e, m, i) < m || (m == 1 && e % Pow2(i) == 0)
    ensures 1 < m || e % Pow2(i + 1) > 0 ==> PartialPower(a, e, m, i + 1) == Power(a, e % Pow2(i + 1)) % m
    ensures PartialPower(a, e, m, i + 1) < m || (m == 1 && e % Pow2(i + 1) == 0)
  {
    LowBits(e, i);
    SquaredIs(a, m, i);
    if e / Pow2(i) % 2 == 1 {
      if m == 1 {
        ByOne(PartialPower(a, e, m, i) * Squared(a, m, i));
        ByOne(Power(a, e % Pow2(i + 1)));
      } else {
        PowerMod(a, e % Pow2(i), Pow2(i), m);
      }
    }
  }

  lemma ByOne(x: int)
    ensures x % 1 == 0
  {
  }

  /** a^e mod m for a word-sized exponent, squaring only while bits remain. */
  method PowU32Mod(a: Nat, exponent: u32, m: Nat) returns (r: Nat)
    requires a.Canon() && m.Canon() && m.n < m.w.Length && a.Value() < m.Value()
    requires 0 < exponent
    ensures fresh(r) && fresh(r.w) && r.w.Length == m.w.Length && r.Canon()
    ensures r.Value() == Power(a.Value(), exponent) % m.Value()
  {
    hide Power;
    hide PartialPower;
    hide Squared;
    hide Pow2;
    hide MulM;
    ghost var av, mv := a.Value(), m.Value();
    PowerTurns(av, exponent, mv, 0);
    r := One(m.w.Length);
    var x := a;
    var e := exponent;
    ghost var i := 0;
    NoShift(exponent);
    while e > 0
      invariant fresh(r) && fresh(r.w) && r.w.Length == m.w.Length && r.Canon() && x.Canon()
      invariant e == exponent / Pow2(i)
      invariant r.Value() == PartialPower(av, exponent, mv, i)
      invariant e > 0 ==> x.Value() == Squared(av, mv, i)
      decreases e
    {
      PartialPowerIs(av, exponent, mv, i);
      PowerTurns(av, exponent, mv, i);
      NextShift(exponent, i);
      r, x := U32Bit(r, x, e, m);
      e := e / 2;
      i := i + 1;
    }
    PowerIs(av, exponent, mv, i);
  }

  lemma NoShift(e: nat)
    ensures e / Pow2(0) == e
  {
  }

  lemma NextShift(e: nat, i: nat)
    ensures e / Pow2(i + 1) == e / Pow2(i) / 2
  {
    DivDiv(e, Pow2(i), 2);
  }

  /** Once no bits remain the whole power is done. */
  lemma {:induction false} PowerIs(a: nat, e: nat, m: nat, i: nat)
    requires a < m && (1 < m || 0 < e) && e / Pow2(i) == 0
    ensures PartialPower(a, e, m, i) == Power(a, e) % m
  {
    PartialPowerIs(a, e, m, i);
    QuotientZero(e, Pow2(i));
  }

  /** One iteration: multiply on an odd exponent, square only if bits remain. */
  method U32Bit(r: Nat, x: Nat, e: u32, m: Nat) returns (r2: Nat, x2: Nat)
    requires r.Canon() && x.Canon() && m.Canon() && m.n < m.w.Length && r.w.Length == m.w.Length
    requires x.Value() < m.Value() && (r.Value() < m.Value() || x.Value() == 0)
    ensures r2 == r || (fresh(r2) && fresh(r2.w))
    ensures r2.Canon() && r2.w.Length == m.w.Length && x2.Canon()
    ensures r2.Value() == if e % 2 == 1 then MulM(r.Value(), x.Value(), m.Value()) else r.Value()
    ensures e / 2 > 0 ==> x2.Value() == MulM(x.Value(), x.Value(), m.Value())
  {
    r2, x2 := r, x;
    if e % 2 == 1 {
      r2 := MulMod(r, x, m);
    }
    if e / 2 > 0 {
      x2 := MulMod(x, x, m);
    }
  }

  lemma QuotientZero(x: nat, p: nat)
    requires 0 < p && x / p == 0
    ensures x % p == x
  {
  }

  // ---- byte strings ----

  lemma {:induction false} ByteRoom(w: nat, b: Byte, j: nat)
    requires j < 4 && w < Pow2(8 * j)
    ensures w + b * Pow2(8 * j) < Pow2(8 * (j + 1)) <= B
  {
    var p := Pow2(8 * j);
    MulMono(p, b, 255);
    assert Pow2(8) == 256;
    Pow2Add(8, 8 * j);
    Pow2Add(8 * (j + 1), 32 - 8 * (j + 1));
    Pow2At32();
    MulMono(Pow2(8 * (j + 1)), 1, Pow2(32 - 8 * (j + 1)));
  }

  lemma {:induction false} ByteWeight(b: Byte, i: nat)
    ensures BPow(i / 4) * (b * Pow2(8 * (i % 4))) == b * Pow2(8 * i)
  {
    BPowIsPow2(i / 4);
    Pow2Add(32 * (i / 4), 8 * (i % 4));
    assert 32 * (i / 4) + 8 * (i % 4) == 8 * i;
  }

  /** Reads a big-endian string; more than `capacity - 1` words read as zero. */
  method FromBe(s: Bytes, capacity: nat) returns (a: Nat)
    requires 0 < capacity
    ensures fresh(a) && fresh(a.w) && a.w.Length == capacity && a.Canon() && a.n < capacity
    ensures a.Value() == if (|s| + 3) / 4 <= capacity - 1 then Be(s) else 0
  {
    a := new Nat(capacity);
    var words := (|s| + 3) / 4;
    if words > capacity - 1 { return; }
    a.n := words;
    NumZero(a.w[..words]);
    for i := 0 to |s|
      invariant a.n == words
      invariant forall k :: i / 4 < k < capacity ==> a.w[k] == 0
      invariant i < |s| ==> a.w[i / 4] < Pow2(8 * (i % 4))
      invariant Num(a.w[..words]) == Be(s[|s| - i..])
    {
      ghost var before := a.w[..words];
      var rev := |s| - 1 - i;
      OrByte(a, i, s[rev]);
      NextByte(i);
      assert a.w[..words] == before[i / 4 := a.w[i / 4]];
      PlaceByte(before, s, i);
    }
    assert s[0..] == s;
    a.Trim();
  }

  lemma NextByte(i: nat)
    ensures if i % 4 == 3 then (i + 1) / 4 == i / 4 + 1 && (i + 1) % 4 == 0
      else (i + 1) / 4 == i / 4 && (i + 1) % 4 == i % 4 + 1
  {
  }

  /** The read-modify-write of one byte into an empty byte of its word. */
  method OrByte(a: Nat, i: nat, b: Byte)
    requires i / 4 < a.w.Length && a.w[i / 4] < Pow2(8 * (i % 4))
    modifies a.w
    ensures a.w[..] == old(a.w[..])[i / 4 := a.w[i / 4]]
    ensures a.w[i / 4] == old(a.w[i / 4]) + b * Pow2(8 * (i % 4)) < Pow2(8 * (i % 4 + 1))
  {
    hide Pow2;
    hide Or;
    ghost var x := a.w[i / 4];
    ByteRoom(x, b, i % 4);
    OrDisjoint(x, b, 8 * (i % 4));
    a.w[i / 4] := Or(a.w[i / 4], b * Pow2(8 * (i % 4)));
  }

  lemma PlaceByte(w: seq<u32>, s: Bytes, i: nat)
    requires i < |s| && i / 4 < |w| && Num(w) == Be(s[|s| - i..])
    requires w[i / 4] + s[|s| - 1 - i] * Pow2(8 * (i % 4)) < B
    ensures var b := s[|s| - 1 - i];
      Num(w[i / 4 := w[i / 4] + b * Pow2(8 * (i % 4))]) == Be(s[|s| - 1 - i..])
  {
    var b := s[|s| - 1 - i];
    NumUpdate(w, i / 4, w[i / 4] + b * Pow2(8 * (i % 4)));
    assert s[|s| - 1 - i..] == [b] + s[|s| - i..];
    BeCons(b, s[|s| - i..]);
    ByteWeight(b, i);
  }

  /** The low `|out|` bytes, most significant first. */
  method ToBeFixed(a: Nat, out: array<Byte>)
    requires a.Fits()
    modifies out
    ensures out[..] == ToBe(a.Value(), out.Length)
  {
    var n := out.Length;
    for i := 0 to n
      invariant forall k :: 0 <= k < i ==> out[k] == 0
    {
      out[i] := 0;
    }
    ghost var s := a.w[..a.n];
    ghost var full := ToBe(Num(s), n);
    for i := 0 to a.n
      invariant a.n == |s| <= a.w.Length && a.w[..a.n] == s
      invariant forall p :: 0 <= p < n ==> out[p] == (if n - 1 - p < 4 * i then full[p] else 0)
    {
      assert a.w[i] == s[i];
      PutWord(a.w[i], i, out, s);
    }
    forall p | 0 <= p < n && n - 1 - p >= 4 * |s|
      ensures full[p] == 0
    {
      ByteIs(s, n, n - 1 - p);
    }
    assert out[..] == full;
  }

  /** The four bytes of word `i`, as far as they fit. */
  method PutWord(x: u32, i: nat, out: array<Byte>, ghost s: seq<u32>)
    requires i < |s| && x == s[i]
    requires forall p :: 0 <= p < out.Length ==>
      out[p] == (if out.Length - 1 - p < 4 * i then ToBe(Num(s), out.Length)[p] else 0)
    modifies out
    ensures forall p :: 0 <= p < out.Length ==>
      out[p] == (if out.Length - 1 - p < 4 * (i + 1) then ToBe(Num(s), out.Length)[p] else 0)
  {
    hide Num;
    hide ToBe;
    var n := out.Length;
    for j := 0 to 4
      invariant forall p :: 0 <= p < n ==> out[p] == (if n - 1 - p < 4 * i + j then ToBe(Num(s), n)[p] else 0)
    {
      var k := i * 4 + j;
      if k < n {
        ByteIs(s, n, k);
        out[n - 1 - k] := x / Pow2(8 * j) % 256;
      }
    }
  }

  lemma {:induction false} ByteIs(s: seq<u32>, n: nat, k: nat)
    requires k < n
    ensures ToBe(Num(s), n)[n - 1 - k] == if k / 4 < |s| then s[k / 4] / Pow2(8 * (k % 4)) % 256 else 0
  {
    WordByte(s, k);
    ToBeByte(Num(s), n, k);
  }
}
