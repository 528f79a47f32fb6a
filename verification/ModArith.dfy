/** Laws of the remainder that the modular arithmetic proofs use. */
module ModArith {

  function AddM(a: int, b: int, m: int): (r: int)
    requires 0 < m
    ensures 0 <= r < m
  {
    (a + b) % m
  }

  function SubM(a: int, b: int, m: int): (r: int)
    requires 0 < m
    ensures 0 <= r < m
  {
    (a - b) % m
  }

  function MulM(a: int, b: int, m: int): (r: int)
    requires 0 < m
    ensures 0 <= r < m
  {
    (a * b) % m
  }

  lemma ModUnique(x: int, q: int, r: int, m: int)
    requires 0 < m && 0 <= r < m && x == q * m + r
    ensures x % m == r && x / m == q
  {
    var d := x / m - q;
    assert x == (x / m) * m + x % m;
    assert d * m == r - x % m;
    Multiple(d, m);
  }

  /** A multiple of `m` closer to zero than `m` is zero. */
  lemma Multiple(d: int, m: int)
    requires 0 < m && -m < d * m < m
    ensures d == 0
  {
  }

  lemma ModShift(x: int, k: int, m: int)
    requires 0 < m
    ensures (x + k * m) % m == x % m
  {
    assert x + k * m == (x / m + k) * m + x % m;
    ModUnique(x + k * m, x / m + k, x % m, m);
  }

  lemma ModAdd(a: int, b: int, m: int)
    requires 0 < m
    ensures (a % m + b % m) % m == (a + b) % m
  {
    ModShift(a % m + b % m, a / m + b / m, m);
    assert a + b == a % m + b % m + (a / m + b / m) * m;
  }

  lemma ModSub(a: int, b: int, m: int)
    requires 0 < m
    ensures (a % m - b % m) % m == (a - b) % m
  {
    ModShift(a % m - b % m, a / m - b / m, m);
    assert a - b == a % m - b % m + (a / m - b / m) * m;
  }

  lemma ModMul(a: int, b: int, m: int)
    requires 0 < m
    ensures ((a % m) * (b % m)) % m == (a * b) % m
  {
    var qa, ra, qb, rb := a / m, a % m, b / m, b % m;
    assert a == qa * m + ra && b == qb * m + rb;
    var k := qa * qb * m + qa * rb + ra * qb;
    assert a * b == ra * rb + k * m;
    ModShift(ra * rb, k, m);
  }

  lemma ModMod(a: int, m: int)
    requires 0 < m
    ensures (a % m) % m == a % m
  {
  }

  lemma SmallMod(a: int, m: int)
    requires 0 <= a < m
    ensures a % m == a
  {
  }

  lemma MulMono(p: int, x: int, y: int)
    requires 0 <= p && x <= y
    ensures p * x <= p * y
  {
  }

  function Power(a: int, e: nat): int
  {
    if e == 0 then 1 else Power(a, e - 1) * a
  }

  lemma {:induction false} PowerAdd(a: int, m: nat, n: nat)
    ensures Power(a, m + n) == Power(a, m) * Power(a, n)
  {
    if n > 0 {
      PowerAdd(a, m, n - 1);
      assert m + n - 1 == m + (n - 1);
      assert Power(a, m) * (Power(a, n - 1) * a) == Power(a, m) * Power(a, n - 1) * a;
    }
  }

  lemma PowerMod(a: int, x: nat, y: nat, m: int)
    requires 0 < m
    ensures (Power(a, x) % m) * (Power(a, y) % m) % m == Power(a, x + y) % m
  {
    PowerAdd(a, x, y);
    ModMul(Power(a, x), Power(a, y), m);
  }

  lemma MulAssoc(a: int, b: int, c: int, m: int)
    requires 0 < m && 0 <= a < m && 0 <= c < m
    ensures MulM(MulM(a, b, m), c, m) == MulM(a, MulM(b, c, m), m)
  {
    ModMul(a * b, c, m);
    ModMul(a, b * c, m);
    SmallMod(a, m);
    SmallMod(c, m);
    assert (a * b) * c == a * (b * c);
  }

  /** (a - b)^2 and (b - a)^2 leave the same remainder. */
  lemma SquareOfDifference(a: int, b: int, m: int)
    requires 0 < m
    ensures MulM(SubM(a, b, m), SubM(a, b, m), m) == MulM(SubM(b, a, m), SubM(b, a, m), m)
  {
    ModMul(a - b, a - b, m);
    ModMul(b - a, b - a, m);
    assert (a - b) * (a - b) == (b - a) * (b - a);
  }
}
