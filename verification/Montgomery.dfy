/** Montgomery curves b y^2 = x^3 + a x^2 + x over Z/p: the affine law, and why the ladder of x-coordinates
    follows multiples of a point on every such curve, whatever b is. */
module Montgomery {
  import opened Bits
  import opened ModArith
  import opened Curve

  datatype Mont = Mont(a: int, b: int, p: int)

  /** A non-singular curve over a prime field. */
  ghost predicate Proper(e: Mont)
  {
    FieldPrime(e.p) && e.b % e.p != 0 && (e.a - 2) % e.p != 0 && (e.a + 2) % e.p != 0
  }

  function Right(x: int, a: int): int { x * x * x + a * (x * x) + x }

  ghost predicate On(q: Affine, e: Mont)
    requires 0 < e.p
  {
    InField(q, e.p) && (q.At? ==> (e.b * (q.y * q.y)) % e.p == Right(q.x, e.a) % e.p)
  }

  function Opposite(q: Affine, p: int): Affine
    requires 0 < p
  {
    if q.Zero? then Zero else At(q.x, (-q.y) % p)
  }

  /** Slope of the chord, or of the tangent when the abscissas agree. */
  function Gradient(q: Affine, r: Affine, e: Mont): int
    requires 2 < e.p && q.At? && r.At?
  {
    if q.x == r.x then MulM((3 * (q.x * q.x) + 2 * e.a * q.x + 1) % e.p, Inverse((2 * (e.b * q.y)) % e.p, e.p), e.p)
    else MulM((r.y - q.y) % e.p, Inverse((r.x - q.x) % e.p, e.p), e.p)
  }

  /** The third intersection of the line of slope `l` through `q` and abscissa `x2`, reflected. */
  function Reflected(q: Affine, x2: int, l: int, e: Mont): Affine
    requires 2 < e.p && q.At?
  {
    var x3 := (e.b * (l * l) - e.a - q.x - x2) % e.p;
    At(x3, (l * (q.x - x3) - q.y) % e.p)
  }

  function Plus(q: Affine, r: Affine, e: Mont): Affine
    requires 2 < e.p
  {
    if q.Zero? then r
    else if r.Zero? then q
    else if q.x == r.x && (q.y + r.y) % e.p == 0 then Zero
    else Reflected(q, r.x, Gradient(q, r, e), e)
  }

  // ---- congruences from combinations of vanishing terms ----

  lemma Vanish2(d: int, k1: int, e1: int, k2: int, e2: int, p: int)
    requires 0 < p && d == k1 * e1 + k2 * e2 && e1 % p == 0 && e2 % p == 0
    ensures d % p == 0
  {
    SmallMod(0, p);
    Scale(e1, 0, k1, p);
    Scale(e2, 0, k2, p);
    ModAdd(k1 * e1, k2 * e2, p);
  }

  lemma Vanish4(d: int, k1: int, e1: int, k2: int, e2: int, k3: int, e3: int, k4: int, e4: int, p: int)
    requires 0 < p && d == k1 * e1 + k2 * e2 + (k3 * e3 + k4 * e4)
    requires e1 % p == 0 && e2 % p == 0 && e3 % p == 0 && e4 % p == 0
    ensures d % p == 0
  {
    Vanish2(k1 * e1 + k2 * e2, k1, e1, k2, e2, p);
    Vanish2(k3 * e3 + k4 * e4, k3, e3, k4, e4, p);
    Vanish2(d, 1, k1 * e1 + k2 * e2, 1, k3 * e3 + k4 * e4, p);
  }

  // ---- the law stays on the curve ----

  /** Divided difference of the right-hand side minus b times the squared line, at x1 and x. */
  function Rest(x: int, x1: int, y1: int, l: int, a: int, b: int): int
  {
    x * x + x * x1 + x1 * x1 + a * (x + x1) + 1 - b * (l * (l * (x - x1) + 2 * y1))
  }

  lemma LineMeets(x: int, x1: int, y1: int, l: int, a: int, b: int)
    ensures var line := y1 + l * (x - x1);
      Right(x, a) - b * (line * line) == Right(x1, a) - b * (y1 * y1) + (x - x1) * Rest(x, x1, y1, l, a, b)
  {
    CubicDifference(x, x1, a);
    SquareDifference(x - x1, y1, l, b);
  }

  lemma CubicDifference(x: int, x1: int, a: int)
    ensures Right(x, a) - Right(x1, a) == (x - x1) * (x * x + x * x1 + x1 * x1 + a * (x + x1) + 1)
  {
  }

  lemma SquareDifference(d: int, y1: int, l: int, b: int)
    ensures b * ((y1 + l * d) * (y1 + l * d)) == b * (y1 * y1) + d * (b * (l * (l * d + 2 * y1)))
  {
    assert (y1 + l * d) * (y1 + l * d) == y1 * y1 + d * (l * (l * d + 2 * y1));
  }

  lemma RestStep(x: int, x2: int, x1: int, y1: int, l: int, a: int, b: int)
    ensures Rest(x, x1, y1, l, a, b) == Rest(x2, x1, y1, l, a, b) + (x - x2) * (x - (b * (l * l) - a - x1 - x2))
  {
  }

  lemma ReflectedOn(q: Affine, x2: int, l: int, e: Mont)
    requires 2 < e.p && q.At? && On(q, e) && Rest(x2, q.x, q.y, l, e.a, e.b) % e.p == 0
    ensures On(Reflected(q, x2, l, e), e)
  {
    var p, t := e.p, Reflected(q, x2, l, e);
    var line, x3 := q.y + l * (t.x - q.x), e.b * (l * l) - e.a - q.x - x2;
    ModMod(x3, p);
    ZeroDifference(t.x, x3, p);
    ZeroDifference(Right(q.x, e.a), e.b * (q.y * q.y), p);
    LineMeets(t.x, q.x, q.y, l, e.a, e.b);
    RestStep(t.x, x2, q.x, q.y, l, e.a, e.b);
    ZeroSum(Right(q.x, e.a) - e.b * (q.y * q.y), t.x - q.x, Rest(x2, q.x, q.y, l, e.a, e.b), t.x - x2, t.x - x3, p);
    ZeroDifference(Right(t.x, e.a), e.b * (line * line), p);
    assert l * (q.x - t.x) - q.y == -line;
    ModMod(-line, p);
    SquareOf(t.y, -line, p);
    Scale(t.y * t.y, line * line, e.b, p);
  }

  lemma SquareOf(v: int, w: int, p: int)
    requires 0 < p && v % p == w % p
    ensures (v * v) % p == (-w * -w) % p && -w * -w == w * w
  {
    ModMul(v, v, p);
    ModMul(w, w, p);
    assert -w * -w == w * w;
  }

  lemma ChordOf(q: Affine, r: Affine, e: Mont)
    requires FieldPrime(e.p) && q.At? && r.At? && InField(q, e.p) && InField(r, e.p) && q.x != r.x
    ensures (Gradient(q, r, e) * (r.x - q.x) - (r.y - q.y)) % e.p == 0 && (r.x - q.x) % e.p != 0
  {
    var p := e.p;
    SmallMod(q.x, p);
    SmallMod(r.x, p);
    ZeroDifference(r.x, q.x, p);
    QuotientOf(r.y - q.y, r.x - q.x, p);
  }

  /** The defining property of a quotient of two residues. */
  lemma QuotientOf(num: int, den: int, p: int)
    requires FieldPrime(p) && den % p != 0
    ensures (MulM(num % p, Inverse(den % p, p), p) * den - num) % p == 0
  {
    var l := MulM(num % p, Inverse(den % p, p), p);
    Quotient(num % p, den % p, p);
    ModMod(num, p);
    ModMod(den, p);
    Scale(den % p, den, l, p);
    ZeroDifference(l * den, num, p);
  }

  lemma TangentOf(q: Affine, e: Mont)
    requires Proper(e) && q.At? && InField(q, e.p) && (q.y + q.y) % e.p != 0
    ensures (Gradient(q, q, e) * (2 * (e.b * q.y)) - (3 * (q.x * q.x) + 2 * e.a * q.x + 1)) % e.p == 0
    ensures q.y % e.p != 0
  {
    if q.y % e.p == 0 {
      ModAdd(q.y, q.y, e.p);
      SmallMod(0, e.p);
    }
    NonZeroProduct(e.b, q.y, e.p);
    SmallMod(2, e.p);
    NonZeroProduct(2, e.b * q.y, e.p);
    QuotientOf(3 * (q.x * q.x) + 2 * e.a * q.x + 1, 2 * (e.b * q.y), e.p);
  }

  lemma ChordRest(q: Affine, r: Affine, e: Mont)
    requires FieldPrime(e.p) && q.At? && r.At? && On(q, e) && On(r, e) && q.x != r.x
    ensures Rest(r.x, q.x, q.y, Gradient(q, r, e), e.a, e.b) % e.p == 0
  {
    var p, l := e.p, Gradient(q, r, e);
    var line, d, rest := q.y + l * (r.x - q.x), r.x - q.x, Rest(r.x, q.x, q.y, l, e.a, e.b);
    ChordOf(q, r, e);
    assert l * (r.x - q.x) - (r.y - q.y) == line - r.y;
    ZeroDifference(line, r.y, p);
    ModMul(line, line, p);
    ModMul(r.y, r.y, p);
    Scale(line * line, r.y * r.y, e.b, p);
    LineMeets(r.x, q.x, q.y, l, e.a, e.b);
    ZeroDifference(Right(r.x, e.a), e.b * (line * line), p);
    ZeroDifference(Right(q.x, e.a), e.b * (q.y * q.y), p);
    ProductVanishes(Right(r.x, e.a) - e.b * (line * line), Right(q.x, e.a) - e.b * (q.y * q.y), d, rest, p);
  }

  lemma TangentRest(q: Affine, e: Mont)
    requires Proper(e) && q.At? && InField(q, e.p) && (q.y + q.y) % e.p != 0
    ensures Rest(q.x, q.x, q.y, Gradient(q, q, e), e.a, e.b) % e.p == 0
  {
    var l, num := Gradient(q, q, e), 3 * (q.x * q.x) + 2 * e.a * q.x + 1;
    TangentOf(q, e);
    RestAtTangent(q.x, q.y, l, e.a, e.b);
    SmallMod(0, e.p);
    Scale(l * (2 * (e.b * q.y)) - num, 0, -1, e.p);
  }

  lemma RestAtTangent(x: int, y: int, l: int, a: int, b: int)
    ensures Rest(x, x, y, l, a, b) == -1 * (l * (2 * (b * y)) - (3 * (x * x) + 2 * a * x + 1))
  {
    assert b * (l * (l * (x - x) + 2 * y)) == l * (2 * (b * y));
  }

  /** Two points of the curve with one abscissa are equal or opposite. */
  lemma SameX(q: Affine, r: Affine, e: Mont)
    requires Proper(e) && q.At? && r.At? && On(q, e) && On(r, e) && q.x == r.x
    ensures q.y == r.y || (q.y + r.y) % e.p == 0
  {
    var p := e.p;
    CancelEq(e.b, q.y * q.y, r.y * r.y, p);
    ZeroDifference(q.y * q.y, r.y * r.y, p);
    assert (q.y - r.y) * (q.y + r.y) == q.y * q.y - r.y * r.y;
    if (q.y - r.y) % p == 0 {
      ZeroDifference(q.y, r.y, p);
      SmallMod(q.y, p);
      SmallMod(r.y, p);
    } else {
      Cancel(q.y - r.y, q.y + r.y, p);
    }
  }

  lemma PlusOn(q: Affine, r: Affine, e: Mont)
    requires Proper(e) && On(q, e) && On(r, e)
    ensures On(Plus(q, r, e), e)
  {
    if q.At? && r.At? && !(q.x == r.x && (q.y + r.y) % e.p == 0) {
      if q.x == r.x {
        SameX(q, r, e);
        TangentRest(q, e);
      } else {
        ChordRest(q, r, e);
      }
      ReflectedOn(q, r.x, Gradient(q, r, e), e);
    }
  }

  lemma OppositeOn(q: Affine, e: Mont)
    requires 2 < e.p && On(q, e)
    ensures On(Opposite(q, e.p), e) && Plus(q, Opposite(q, e.p), e) == Zero
  {
    if q.At? {
      var p, n := e.p, (-q.y) % e.p;
      ModMod(-q.y, p);
      SquareOf(n, -q.y, p);
      Scale(n * n, q.y * q.y, e.b, p);
      ModAdd(q.y, -q.y, p);
      ModAdd(q.y, n, p);
      SmallMod(0, p);
    }
  }

  // ---- the abscissas of sums, differences and doubles ----

  /** The symmetric part of the abscissa of a sum, times the squared difference of the abscissas. */
  function Mean(x2: int, x3: int, a: int): int { (x2 + x3) * (1 + x2 * x3) + 2 * a * (x2 * x3) }

  lemma SumAbscissa(q: Affine, r: Affine, e: Mont)
    requires FieldPrime(e.p) && q.At? && r.At? && On(q, e) && On(r, e) && q.x != r.x
    ensures var d, s := r.x - q.x, Plus(q, r, e);
      s.At? && (s.x * (d * d)) % e.p == (Mean(q.x, r.x, e.a) - 2 * (e.b * (q.y * r.y))) % e.p
  {
    var p, l, d, s, rise := e.p, Gradient(q, r, e), r.x - q.x, Plus(q, r, e), r.y - q.y;
    var x := e.b * (l * l) - e.a - q.x - r.x;
    ModMod(x, p);
    ZeroDifference(s.x, x, p);
    ChordOf(q, r, e);
    var f2, f3 := Right(q.x, e.a), Right(r.x, e.a);
    ZeroDifference(e.b * (q.y * q.y), f2, p);
    ZeroDifference(e.b * (r.y * r.y), f3, p);
    SumAlgebra(q.x, q.y, r.x, r.y, l, s.x, e.a, e.b);
    Vanish4(s.x * (d * d) - (Mean(q.x, r.x, e.a) - 2 * (e.b * (q.y * r.y))),
            d * d, s.x - x, e.b * (l * d + rise), l * d - rise,
            1, e.b * (q.y * q.y) - f2, 1, e.b * (r.y * r.y) - f3, p);
    ZeroDifference(s.x * (d * d), Mean(q.x, r.x, e.a) - 2 * (e.b * (q.y * r.y)), p);
  }

  lemma SumAlgebra(x2: int, y2: int, x3: int, y3: int, l: int, s: int, a: int, b: int)
    ensures var d, rise := x3 - x2, y3 - y2;
      s * (d * d) - (Mean(x2, x3, a) - 2 * (b * (y2 * y3)))
      == d * d * (s - (b * (l * l) - a - x2 - x3)) + b * (l * d + rise) * (l * d - rise)
         + (1 * (b * (y2 * y2) - Right(x2, a)) + 1 * (b * (y3 * y3) - Right(x3, a)))
  {
    var d, rise := x3 - x2, y3 - y2;
    ChordSquare(l, d, rise, b);
    RiseSquare(y2, y3, b);
    CubicSum(x2, x3, a);
  }

  lemma ChordSquare(l: int, d: int, rise: int, b: int)
    ensures b * (l * d + rise) * (l * d - rise) == d * d * (b * (l * l)) - b * (rise * rise)
  {
    assert (l * d + rise) * (l * d - rise) == d * d * (l * l) - rise * rise;
  }

  lemma RiseSquare(y2: int, y3: int, b: int)
    ensures b * ((y3 - y2) * (y3 - y2)) == b * (y2 * y2) + b * (y3 * y3) - 2 * (b * (y2 * y3))
  {
    assert (y3 - y2) * (y3 - y2) == y2 * y2 + y3 * y3 - 2 * (y2 * y3);
  }

  lemma CubicSum(x2: int, x3: int, a: int)
    ensures Right(x2, a) + Right(x3, a) - (a + x2 + x3) * ((x3 - x2) * (x3 - x2)) == Mean(x2, x3, a)
  {
    var u, q := x2 + x3, x2 * x3;
    assert x2 * x2 + x3 * x3 == u * u - 2 * q;
    assert x2 * x2 * x2 + x3 * x3 * x3 == u * (u * u - 3 * q);
    assert (x3 - x2) * (x3 - x2) == u * u - 4 * q;
    InSumAndProduct(u, q, a);
  }

  lemma InSumAndProduct(u: int, q: int, a: int)
    ensures u * (u * u - 3 * q) + a * (u * u - 2 * q) + u - (a + u) * (u * u - 4 * q) == u * (1 + q) + 2 * a * q
  {
  }

  /** Montgomery's relation: x(Q + R) x(R - Q) (x3 - x2)^2 = (x2 x3 - 1)^2. */
  lemma SumTimesDifference(q: Affine, r: Affine, e: Mont)
    requires FieldPrime(e.p) && q.At? && r.At? && On(q, e) && On(r, e) && q.x != r.x
    ensures var d, s, t := r.x - q.x, Plus(q, r, e), Plus(r, Opposite(q, e.p), e);
      s.At? && t.At? && (s.x * (t.x * (d * d))) % e.p == ((q.x * r.x - 1) * (q.x * r.x - 1)) % e.p
    ensures (r.x - q.x) % e.p != 0
  {
    var p, d, m, w := e.p, r.x - q.x, Mean(q.x, r.x, e.a), 2 * (e.b * (q.y * r.y));
    var s, t := Plus(q, r, e), Plus(r, Opposite(q, e.p), e);
    SumAbscissa(q, r, e);
    DifferenceAbscissa(q, r, e);
    MeanSquare(q, r, e);
    ChordOf(q, r, e);
    NonZeroProduct(d, d, p);
    CommonSquare(s.x, t.x, d * d, m, w, (q.x * r.x - 1) * (q.x * r.x - 1), p);
  }

  lemma DifferenceAbscissa(q: Affine, r: Affine, e: Mont)
    requires FieldPrime(e.p) && q.At? && r.At? && On(q, e) && On(r, e) && q.x != r.x
    ensures var d, t := r.x - q.x, Plus(r, Opposite(q, e.p), e);
      t.At? && (t.x * (d * d)) % e.p == (Mean(q.x, r.x, e.a) + 2 * (e.b * (q.y * r.y))) % e.p
  {
    var o, m := Opposite(q, e.p), Mean(q.x, r.x, e.a);
    OppositeOn(q, e);
    SumAbscissa(r, o, e);
    OtherSign(r.y, q.y, e.b, e.p);
    MeanCommutes(r.x, q.x, e.a);
    ModAdd(m, -2 * (e.b * (r.y * o.y)), e.p);
    ModAdd(m, 2 * (e.b * (q.y * r.y)), e.p);
  }

  lemma MeanCommutes(x2: int, x3: int, a: int)
    ensures Mean(x2, x3, a) == Mean(x3, x2, a) && (x3 - x2) * (x3 - x2) == (x2 - x3) * (x2 - x3)
  {
    assert x2 * x3 == x3 * x2;
  }

  lemma CommonSquare(s: int, t: int, dd: int, m: int, w: int, u: int, p: int)
    requires FieldPrime(p) && dd % p != 0 && (s * dd) % p == (m - w) % p && (t * dd) % p == (m + w) % p
    requires (m * m - w * w) % p == (dd * u) % p
    ensures (s * (t * dd)) % p == u % p
  {
    ModMul(s * dd, t * dd, p);
    ModMul(m - w, m + w, p);
    assert (m - w) * (m + w) == m * m - w * w;
    assert s * dd * (t * dd) == dd * (s * (t * dd));
    CancelEq(dd, s * (t * dd), u, p);
  }

  lemma OtherSign(y: int, n: int, b: int, p: int)
    requires 0 < p
    ensures (-2 * (b * (y * ((-n) % p)))) % p == (2 * (b * (n * y))) % p
  {
    ModMod(-n, p);
    Scale((-n) % p, -n, -2 * (b * y), p);
    assert -2 * (b * y) * -n == 2 * (b * (n * y));
    assert -2 * (b * y) * ((-n) % p) == -2 * (b * (y * ((-n) % p)));
  }

  lemma MeanSquare(q: Affine, r: Affine, e: Mont)
    requires 2 < e.p && q.At? && r.At? && On(q, e) && On(r, e)
    ensures var m, w, d := Mean(q.x, r.x, e.a), 2 * (e.b * (q.y * r.y)), r.x - q.x;
      (m * m - w * w) % e.p == (d * d * ((q.x * r.x - 1) * (q.x * r.x - 1))) % e.p
  {
    var m, w := Mean(q.x, r.x, e.a), 2 * (e.b * (q.y * r.y));
    var f2, f3, g2, g3 := Right(q.x, e.a), Right(r.x, e.a), e.b * (q.y * q.y), e.b * (r.y * r.y);
    ModMul(g2, g3, e.p);
    ModMul(f2, f3, e.p);
    Scale(g2 * g3, f2 * f3, 4, e.p);
    ProductOfSquares(e.b, q.y, r.y);
    ModSub(m * m, 4 * (g2 * g3), e.p);
    ModSub(m * m, 4 * (f2 * f3), e.p);
    MeanAlgebra(q.x, r.x, e.a);
  }

  lemma ProductOfSquares(b: int, y: int, z: int)
    ensures 2 * (b * (y * z)) * (2 * (b * (y * z))) == 4 * (b * (y * y) * (b * (z * z)))
  {
  }

  lemma MeanAlgebra(x2: int, x3: int, a: int)
    ensures Mean(x2, x3, a) * Mean(x2, x3, a) - 4 * (Right(x2, a) * Right(x3, a))
         == (x3 - x2) * (x3 - x2) * ((x2 * x3 - 1) * (x2 * x3 - 1))
  {
    var u, q, t2, t3 := x2 + x3, x2 * x3, x2 * x2 + a * x2 + 1, x3 * x3 + a * x3 + 1;
    Quadratics(x2, x3, a);
    RightFactors(x2, t2, x3, t3, a);
    DifferenceSquare(x2, x3);
    MeanInSumAndProduct(u, q, a, t2 * t3);
  }

  lemma RightFactors(x2: int, t2: int, x3: int, t3: int, a: int)
    requires t2 == x2 * x2 + a * x2 + 1 && t3 == x3 * x3 + a * x3 + 1
    ensures Right(x2, a) * Right(x3, a) == x2 * x3 * (t2 * t3)
  {
    RightFactor(x2, a);
    RightFactor(x3, a);
    Interchange(x2, t2, x3, t3);
  }

  lemma RightFactor(x: int, a: int)
    ensures Right(x, a) == x * (x * x + a * x + 1)
  {
  }

  lemma Interchange(x: int, s: int, y: int, t: int)
    ensures x * s * (y * t) == x * y * (s * t)
  {
  }

  lemma DifferenceSquare(x2: int, x3: int)
    ensures (x3 - x2) * (x3 - x2) == (x2 + x3) * (x2 + x3) - 4 * (x2 * x3)
  {
  }

  lemma Quadratics(x2: int, x3: int, a: int)
    ensures var u, q := x2 + x3, x2 * x3;
      (x2 * x2 + a * x2 + 1) * (x3 * x3 + a * x3 + 1) == (q - 1) * (q - 1) + a * (u * (1 + q)) + a * a * q + u * u
  {
    var u, q := x2 + x3, x2 * x3;
    assert x2 * x2 * (x3 * x3) == q * q;
    assert a * x2 * (x3 * x3) + x2 * x2 * (a * x3) == a * (q * u);
    assert a * x2 * (a * x3) == a * a * q;
    assert x2 * x2 + x3 * x3 == u * u - 2 * q;
  }

  lemma MeanInSumAndProduct(u: int, q: int, a: int, t: int)
    requires t == (q - 1) * (q - 1) + a * (u * (1 + q)) + a * a * q + u * u
    ensures (u * (1 + q) + 2 * a * q) * (u * (1 + q) + 2 * a * q) - 4 * (q * t)
         == (u * u - 4 * q) * ((q - 1) * (q - 1))
  {
    var n, c, v := u * (1 + q), a * q, (q - 1) * (q - 1);
    LinearPart(q, v, a, n, u * u, t);
    SquarePart(u, q);
    CompleteSquare(n, c, v, q, u * u, q * t);
    assert n + 2 * a * q == n + 2 * c;
  }

  lemma LinearPart(q: int, v: int, a: int, n: int, s: int, t: int)
    requires t == v + a * n + a * a * q + s
    ensures q * t == q * v + a * q * n + a * q * (a * q) + q * s
  {
  }

  lemma SquarePart(u: int, q: int)
    ensures u * (1 + q) * (u * (1 + q)) == u * u * ((q - 1) * (q - 1)) + 4 * (u * u * q)
  {
    assert (1 + q) * (1 + q) == (q - 1) * (q - 1) + 4 * q;
    assert u * (1 + q) * (u * (1 + q)) == u * u * ((1 + q) * (1 + q));
  }

  lemma CompleteSquare(n: int, c: int, v: int, q: int, s: int, t: int)
    requires t == q * v + c * n + c * c + q * s && n * n == s * v + 4 * (s * q)
    ensures (n + 2 * c) * (n + 2 * c) - 4 * t == (s - 4 * q) * v
  {
  }

  lemma DoubleAbscissa(q: Affine, e: Mont)
    requires Proper(e) && q.At? && On(q, e) && (q.y + q.y) % e.p != 0
    ensures var s := Plus(q, q, e);
      s.At? && (s.x * (4 * Right(q.x, e.a))) % e.p == ((q.x * q.x - 1) * (q.x * q.x - 1)) % e.p
    ensures (4 * Right(q.x, e.a)) % e.p != 0
  {
    var p, l, s, f, g := e.p, Gradient(q, q, e), Plus(q, q, e), Right(q.x, e.a), e.b * (q.y * q.y);
    var x, num, den := e.b * (l * l) - e.a - q.x - q.x, 3 * (q.x * q.x) + 2 * e.a * q.x + 1, 2 * (e.b * q.y);
    ModMod(x, p);
    ZeroDifference(s.x, x, p);
    TangentOf(q, e);
    ZeroDifference(f, g, p);
    NonZeroProduct(q.y, q.y, p);
    NonZeroProduct(e.b, q.y * q.y, p);
    SmallMod(2, p);
    NonZeroProduct(2, f, p);
    NonZeroProduct(2, 2 * f, p);
    var u := (q.x * q.x - 1) * (q.x * q.x - 1);
    DoubleAlgebra(q.x, q.y, l, s.x, e.a, e.b);
    Vanish4(s.x * (4 * f) - u, 4 * f, s.x - x, 4 * (e.b * (l * l)), f - g, l * den + num, l * den - num, 0, 0, p);
    ZeroDifference(s.x * (4 * f), u, p);
  }

  lemma DoubleAlgebra(x: int, y: int, l: int, s: int, a: int, b: int)
    ensures var f, num, den := Right(x, a), 3 * (x * x) + 2 * a * x + 1, 2 * (b * y);
      s * (4 * f) - (x * x - 1) * (x * x - 1)
      == 4 * f * (s - (b * (l * l) - a - x - x)) + 4 * (b * (l * l)) * (f - b * (y * y))
         + ((l * den + num) * (l * den - num) + 0 * 0)
  {
    var f, num, den := Right(x, a), 3 * (x * x) + 2 * a * x + 1, 2 * (b * y);
    assert (l * den + num) * (l * den - num) == l * den * (l * den) - num * num;
    assert l * den * (l * den) == 4 * (b * (l * l)) * (b * (y * y));
    NumeratorSquare(x, a);
    assert 4 * f * (s - (b * (l * l) - a - x - x)) == s * (4 * f) - 4 * (b * (l * l)) * f + 4 * f * (a + 2 * x);
  }

  lemma NumeratorSquare(x: int, a: int)
    ensures var num := 3 * (x * x) + 2 * a * x + 1;
      num * num - 4 * Right(x, a) * (a + 2 * x) == (x * x - 1) * (x * x - 1)
  {
  }

  // ---- the formulas of the ladder, on residues ----

  function DoubleX(x: int, z: int, p: int): int
    requires 0 < p
  {
    var A, B := AddM(x, z, p), SubM(x, z, p);
    MulM(MulM(A, A, p), MulM(B, B, p), p)
  }

  function DoubleZ(x: int, z: int, a24: int, p: int): int
    requires 0 < p
  {
    var A, B := AddM(x, z, p), SubM(x, z, p);
    var AA := MulM(A, A, p);
    var E := SubM(AA, MulM(B, B, p), p);
    MulM(E, AddM(AA, MulM(a24, E, p), p), p)
  }

  function SumX(x2: int, z2: int, x3: int, z3: int, p: int): int
    requires 0 < p
  {
    var DA, CB := MulM(SubM(x3, z3, p), AddM(x2, z2, p), p), MulM(AddM(x3, z3, p), SubM(x2, z2, p), p);
    MulM(AddM(DA, CB, p), AddM(DA, CB, p), p)
  }

  function SumZ(x1: int, x2: int, z2: int, x3: int, z3: int, p: int): int
    requires 0 < p
  {
    var DA, CB := MulM(SubM(x3, z3, p), AddM(x2, z2, p), p), MulM(AddM(x3, z3, p), SubM(x2, z2, p), p);
    MulM(x1, MulM(SubM(DA, CB, p), SubM(DA, CB, p), p), p)
  }

  lemma DoubleShadow(x: int, z: int, u: int, v: int, t: int, p: int)
    requires 0 < p && Is(x, u, p) && Is(z, v, p)
    ensures Is(DoubleX(x, z, p), (u * u - v * v) * (u * u - v * v), p)
    ensures Is(DoubleZ(x, z, t, p), 4 * (u * v) * (u * u + (4 * t + 2) * (u * v) + v * v), p)
  {
    var A, B, sum, dif := AddM(x, z, p), SubM(x, z, p), (u + v) * (u + v), (u - v) * (u - v);
    var AA, BB := MulM(A, A, p), MulM(B, B, p);
    var E, e := SubM(AA, BB, p), 4 * (u * v);
    IsAdd(x, u, z, v, p);
    IsSub(x, u, z, v, p);
    IsMul(A, u + v, A, u + v, p);
    IsMul(B, u - v, B, u - v, p);
    IsMul(AA, sum, BB, dif, p);
    IsSub(AA, sum, BB, dif, p);
    DoubleFormulas(u, v, t);
    LeftFactor(t, E, e, p);
    IsAdd(AA, sum, MulM(t, E, p), t * e, p);
    IsMul(E, e, AddM(AA, MulM(t, E, p), p), sum + t * e, p);
  }

  lemma DoubleFormulas(u: int, v: int, t: int)
    ensures var sum, dif, e := (u + v) * (u + v), (u - v) * (u - v), 4 * (u * v);
      && sum - dif == e && sum * dif == (u * u - v * v) * (u * u - v * v)
      && e * (sum + t * e) == 4 * (u * v) * (u * u + (4 * t + 2) * (u * v) + v * v)
  {
    assert (u + v) * (u - v) == u * u - v * v;
    Interchange(u + v, u + v, u - v, u - v);
    assert (u + v) * (u + v) + t * (4 * (u * v)) == u * u + (4 * t + 2) * (u * v) + v * v;
  }

  lemma SumShadow(x1: int, x2: int, z2: int, x3: int, z3: int, u2: int, v2: int, u3: int, v3: int, p: int)
    requires 0 < p && Is(x2, u2, p) && Is(z2, v2, p) && Is(x3, u3, p) && Is(z3, v3, p)
    ensures Is(SumX(x2, z2, x3, z3, p), 4 * ((u2 * u3 - v2 * v3) * (u2 * u3 - v2 * v3)), p)
    ensures Is(SumZ(x1, x2, z2, x3, z3, p), x1 * (4 * ((u3 * v2 - u2 * v3) * (u3 * v2 - u2 * v3))), p)
  {
    var A, B, C, D := AddM(x2, z2, p), SubM(x2, z2, p), AddM(x3, z3, p), SubM(x3, z3, p);
    var DA, CB, da, cb := MulM(D, A, p), MulM(C, B, p), (u3 - v3) * (u2 + v2), (u3 + v3) * (u2 - v2);
    IsAdd(x2, u2, z2, v2, p);
    IsSub(x2, u2, z2, v2, p);
    IsAdd(x3, u3, z3, v3, p);
    IsSub(x3, u3, z3, v3, p);
    IsMul(D, u3 - v3, A, u2 + v2, p);
    IsMul(C, u3 + v3, B, u2 - v2, p);
    IsAdd(DA, da, CB, cb, p);
    IsSub(DA, da, CB, cb, p);
    IsMul(AddM(DA, CB, p), da + cb, AddM(DA, CB, p), da + cb, p);
    IsMul(SubM(DA, CB, p), da - cb, SubM(DA, CB, p), da - cb, p);
    SumFormulas(u2, v2, u3, v3);
    LeftFactor(x1, MulM(SubM(DA, CB, p), SubM(DA, CB, p), p), (da - cb) * (da - cb), p);
  }

  lemma SumFormulas(u2: int, v2: int, u3: int, v3: int)
    ensures var da, cb := (u3 - v3) * (u2 + v2), (u3 + v3) * (u2 - v2);
      && (da + cb) * (da + cb) == 4 * ((u2 * u3 - v2 * v3) * (u2 * u3 - v2 * v3))
      && (da - cb) * (da - cb) == 4 * ((u3 * v2 - u2 * v3) * (u3 * v2 - u2 * v3))
  {
    var da, cb := (u3 - v3) * (u2 + v2), (u3 + v3) * (u2 - v2);
    assert da + cb == 2 * (u2 * u3 - v2 * v3);
    assert da - cb == 2 * (u3 * v2 - u2 * v3);
    TwiceSquare(u2 * u3 - v2 * v3);
    TwiceSquare(u3 * v2 - u2 * v3);
  }

  lemma TwiceSquare(s: int)
    ensures 2 * s * (2 * s) == 4 * (s * s)
  {
  }

  /** Exchanging the two points changes neither formula of the sum. */
  lemma SumCommutes(x1: int, x2: int, z2: int, x3: int, z3: int, p: int)
    requires 0 < p
    ensures SumX(x2, z2, x3, z3, p) == SumX(x3, z3, x2, z2, p)
    ensures SumZ(x1, x2, z2, x3, z3, p) == SumZ(x1, x3, z3, x2, z2, p)
  {
    var A, B, C, D := AddM(x2, z2, p), SubM(x2, z2, p), AddM(x3, z3, p), SubM(x3, z3, p);
    assert MulM(D, A, p) == MulM(A, D, p) && MulM(C, B, p) == MulM(B, C, p);
    SquareOfDifference(MulM(D, A, p), MulM(C, B, p), p);
  }

  // ---- what the formulas compute ----

  /** x : z are projective coordinates of the abscissa of `q`; 1 : 0 stands for infinity. */
  ghost predicate Reps(x: int, z: int, q: Affine, p: int)
    requires 0 < p
  {
    0 <= x < p && 0 <= z < p && (if q.Zero? then z == 0 && x != 0 else z != 0 && Is(x, q.x * z, p))
  }

  /** A residue pair in the ratio `s`, from integers in that ratio. */
  lemma RepsFrom(x: int, z: int, n: int, d: int, k: int, s: Affine, p: int)
    requires FieldPrime(p) && s.At? && (s.x * d) % p == n % p && d % p != 0 && k % p != 0
    requires Is(x, n * k, p) && Is(z, d * k, p)
    ensures Reps(x, z, s, p)
  {
    NonZeroProduct(d, k, p);
    ModMod(d * k, p);
    Scale(z, d * k, s.x, p);
    Scale(s.x * d, n, k, p);
    assert s.x * (d * k) == k * (s.x * d);
  }

  lemma InfinityFrom(x: int, z: int, n: int, d: int, p: int)
    requires 0 < p && Is(x, n, p) && Is(z, d, p) && n % p != 0 && d % p == 0
    ensures Reps(x, z, Zero, p)
  {
  }

  /** The quotient of the coordinates, with 0 for infinity. */
  lemma QuotientOfCoordinates(x: int, z: int, q: Affine, p: int)
    requires FieldPrime(p) && InField(q, p) && Reps(x, z, q, p)
    ensures MulM(x, Inverse(z, p), p) == Abscissa(q)
  {
    if q.Zero? {
      InverseOfZero(p);
      SmallMod(0, p);
    } else {
      var i := Inverse(z, p);
      assert MulM(i, z, p) == 1;
      SmallMod(i, p);
      Divide(x, q.x, z, i, i, p);
    }
  }

  lemma InverseOfZero(p: int)
    requires 2 < p
    ensures Inverse(0, p) == 0
  {
    SmallMod(0, p);
    assert Power(0, p - 2) == Power(0, p - 3) * 0;
  }

  lemma OnIs(q: Affine, e: Mont)
    requires 0 < e.p && On(q, e)
    ensures InField(q, e.p)
  {
  }

  lemma FourthPower(z: int, p: int)
    requires FieldPrime(p) && z % p != 0
    ensures (z * z) % p != 0 && (z * z * (z * z)) % p != 0
  {
    NonZeroProduct(z, z, p);
    NonZeroProduct(z * z, z * z, p);
  }

  lemma DoubleAt(x: int, z: int, a: int)
    ensures var u, k := x * z, z * z * (z * z);
      && (u * u - z * z) * (u * u - z * z) == (x * x - 1) * (x * x - 1) * k
      && 4 * (u * z) * (u * u + a * (u * z) + z * z) == 4 * Right(x, a) * k
  {
    var u, w := x * z, z * z;
    assert u * u == x * x * w && u * z == x * w;
    assert u * u - w == (x * x - 1) * w;
    Interchange(x * x - 1, w, x * x - 1, w);
    assert u * u + a * (u * z) + w == (x * x + a * x + 1) * w;
    RightFactor(x, a);
    Interchange(4 * x, w, x * x + a * x + 1, w);
  }

  /** A double root of the quotient would make the curve singular. */
  lemma UnitAbscissa(x: int, a: int, p: int)
    requires FieldPrime(p) && (x * x - 1) % p == 0
    ensures Right(x, a) % p == (a + 2) % p || Right(x, a) % p == (a - 2) % p
  {
    assert (x - 1) * (x + 1) == x * x - 1;
    if (x - 1) % p == 0 {
      UnitFactors(x, a);
      Scale(x - 1, 0, x * x + x + 1 + a * (x + 1) + 1, p);
      SmallMod(0, p);
      ZeroDifference(Right(x, a), a + 2, p);
    } else {
      Cancel(x - 1, x + 1, p);
      UnitFactors(x, a);
      SmallMod(0, p);
      Scale(x + 1, 0, x * x - x + 1 + a * (x - 1) + 1, p);
      ZeroDifference(Right(x, a), a - 2, p);
    }
  }

  lemma UnitFactors(x: int, a: int)
    ensures Right(x, a) - (a + 2) == (x * x + x + 1 + a * (x + 1) + 1) * (x - 1)
    ensures Right(x, a) - (a - 2) == (x * x - x + 1 + a * (x - 1) + 1) * (x + 1)
  {
  }

  /** A point that is its own opposite has no ordinate. */
  lemma OrderTwo(q: Affine, e: Mont)
    requires Proper(e) && q.At? && On(q, e) && (q.y + q.y) % e.p == 0
    ensures Right(q.x, e.a) % e.p == 0 && ((q.x * q.x - 1) * (q.x * q.x - 1)) % e.p != 0
  {
    var p := e.p;
    SmallMod(2, p);
    assert q.y + q.y == 2 * q.y;
    Cancel(2, q.y, p);
    SmallMod(0, p);
    Scale(q.y, 0, e.b * q.y, p);
    assert e.b * q.y * q.y == e.b * (q.y * q.y);
    if (q.x * q.x - 1) % p == 0 { UnitAbscissa(q.x, e.a, p); }
    NonZeroProduct(q.x * q.x - 1, q.x * q.x - 1, p);
  }

  /** The doubling half of a step, at infinity and at points of order two as well. */
  lemma DoubleStep(x: int, z: int, q: Affine, t: int, e: Mont)
    requires Proper(e) && e.a == 4 * t + 2 && On(q, e) && Reps(x, z, q, e.p)
    ensures Reps(DoubleX(x, z, e.p), DoubleZ(x, z, t, e.p), Plus(q, q, e), e.p)
  {
    hide DoubleX;
    hide DoubleZ;
    var p := e.p;
    SmallMod(x, p);
    SmallMod(z, p);
    if q.Zero? {
      DoubleShadow(x, z, x, 0, t, p);
      SmallMod(0, p);
      FourthPower(x, p);
      InfinityFrom(DoubleX(x, z, p), DoubleZ(x, z, t, p), x * x * (x * x), 0, p);
    } else {
      DoubleFinite(q, z, e);
      DoubleShadow(x, z, q.x * z, z, t, p);
      DoubleAt(q.x, z, e.a);
    }
  }

  lemma DoubleFinite(q: Affine, z: int, e: Mont)
    requires Proper(e) && q.At? && On(q, e) && z % e.p != 0
    ensures var n, d, k := (q.x * q.x - 1) * (q.x * q.x - 1), 4 * Right(q.x, e.a), z * z * (z * z);
      Reps((n * k) % e.p, (d * k) % e.p, Plus(q, q, e), e.p)
  {
    hide Right;
    var p, n, f, k := e.p, (q.x * q.x - 1) * (q.x * q.x - 1), Right(q.x, e.a), z * z * (z * z);
    FourthPower(z, p);
    if (q.y + q.y) % p == 0 {
      OrderTwo(q, e);
      NonZeroProduct(n, k, p);
      SmallMod(0, p);
      Scale(f, 0, 4 * k, p);
      assert 4 * k * f == 4 * f * k;
      InfinityFrom((n * k) % p, (4 * f * k) % p, n * k, 4 * f * k, p);
    } else {
      DoubleAbscissa(q, e);
      RepsFrom((n * k) % p, (4 * f * k) % p, n, 4 * f, k, Plus(q, q, e), p);
    }
  }

  /** The adding half: with the abscissa of R - Q for x1, the third pair becomes Q + R. */
  lemma SumStep(x2: int, z2: int, x3: int, z3: int, q: Affine, r: Affine, e: Mont)
    requires Proper(e) && On(q, e) && On(r, e) && Reps(x2, z2, q, e.p) && Reps(x3, z3, r, e.p)
    requires var d := Plus(r, Opposite(q, e.p), e); d.At? && d.x % e.p != 0
    ensures var x1 := Plus(r, Opposite(q, e.p), e).x;
      Reps(SumX(x2, z2, x3, z3, e.p), SumZ(x1, x2, z2, x3, z3, e.p), Plus(q, r, e), e.p)
  {
    if q.Zero? {
      SumLeft(x2, x3, z3, r, e.p);
    } else if r.Zero? {
      SumCommutes(q.x, x2, z2, x3, z3, e.p);
      SumLeft(x3, x2, z2, q, e.p);
    } else {
      SumBoth(x2, z2, x3, z3, q, r, e);
    }
  }

  lemma SumBoth(x2: int, z2: int, x3: int, z3: int, q: Affine, r: Affine, e: Mont)
    requires Proper(e) && On(q, e) && On(r, e) && Reps(x2, z2, q, e.p) && Reps(x3, z3, r, e.p) && q.At? && r.At?
    requires var d := Plus(r, Opposite(q, e.p), e); d.At? && d.x % e.p != 0
    ensures var x1 := Plus(r, Opposite(q, e.p), e).x;
      Reps(SumX(x2, z2, x3, z3, e.p), SumZ(x1, x2, z2, x3, z3, e.p), Plus(q, r, e), e.p)
  {
    hide SumX;
    hide SumZ;
    hide Plus;
    hide On;
    var p, x1 := e.p, Plus(r, Opposite(q, e.p), e).x;
    SmallMod(z2, p);
    SmallMod(z3, p);
    NonZeroProduct(z2, z3, p);
    SumShadow(x1, x2, z2, x3, z3, q.x * z2, z2, r.x * z3, z3, p);
    SumAt(q.x, z2, r.x, z3, x1);
    SumFinite(q, r, z2 * z3, (q.x * r.x - 1) * (q.x * r.x - 1), x1 * ((r.x - q.x) * (r.x - q.x)), e);
  }

  /** The adding half when the first point is at infinity: x2 : 0 and the point `r` itself. */
  lemma SumLeft(x: int, u: int, z: int, r: Affine, p: int)
    requires FieldPrime(p) && r.At? && r.x % p != 0 && 0 < x < p && Reps(u, z, r, p)
    ensures Reps(SumX(x, 0, u, z, p), SumZ(r.x, x, 0, u, z, p), r, p)
  {
    hide SumX;
    hide SumZ;
    var k := 4 * (x * z * (x * z));
    SmallMod(x, p);
    SmallMod(z, p);
    SmallMod(0, p);
    SumShadow(r.x, x, 0, u, z, x, 0, r.x * z, z, p);
    InfinityAlgebra(r.x, x, z);
    NonZeroProduct(x, z, p);
    FourTimes(x * z, p);
    RepsFrom(SumX(x, 0, u, z, p), SumZ(r.x, x, 0, u, z, p), r.x * r.x, r.x, k, r, p);
  }

  lemma FourTimes(w: int, p: int)
    requires FieldPrime(p) && w % p != 0
    ensures (4 * (w * w)) % p != 0
  {
    SmallMod(2, p);
    NonZeroProduct(2, w, p);
    NonZeroProduct(2 * w, 2 * w, p);
    TwiceSquare(w);
  }

  lemma InfinityAlgebra(x1: int, x: int, z: int)
    ensures var u, k := x1 * z, 4 * (x * z * (x * z));
      && 4 * ((x * u - 0 * z) * (x * u - 0 * z)) == x1 * x1 * k
      && x1 * (4 * ((u * 0 - x * z) * (u * 0 - x * z))) == x1 * k
  {
    assert x * (x1 * z) == x1 * (x * z);
    Interchange(x1, x * z, x1, x * z);
  }

  lemma SumAt(x2: int, z2: int, x3: int, z3: int, x1: int)
    ensures var u2, u3, w := x2 * z2, x3 * z3, z2 * z3;
      && 4 * ((u2 * u3 - z2 * z3) * (u2 * u3 - z2 * z3)) == (x2 * x3 - 1) * (x2 * x3 - 1) * (4 * (w * w))
      && x1 * (4 * ((u3 * z2 - u2 * z3) * (u3 * z2 - u2 * z3))) == x1 * ((x3 - x2) * (x3 - x2)) * (4 * (w * w))
  {
    var u2, u3, w := x2 * z2, x3 * z3, z2 * z3;
    Interchange(x2, z2, x3, z3);
    assert u2 * u3 - w == (x2 * x3 - 1) * w;
    Interchange(x2 * x3 - 1, w, x2 * x3 - 1, w);
    assert u3 * z2 - u2 * z3 == (x3 - x2) * w;
    Interchange(x3 - x2, w, x3 - x2, w);
  }

  lemma SumFinite(q: Affine, r: Affine, w: int, n: int, d: int, e: Mont)
    requires Proper(e) && q.At? && r.At? && On(q, e) && On(r, e) && w % e.p != 0
    requires var t := Plus(r, Opposite(q, e.p), e);
      t.At? && t.x % e.p != 0 && d == t.x * ((r.x - q.x) * (r.x - q.x))
    requires n == (q.x * r.x - 1) * (q.x * r.x - 1)
    ensures Reps((n * (4 * (w * w))) % e.p, (d * (4 * (w * w))) % e.p, Plus(q, r, e), e.p)
  {
    hide Plus;
    hide On;
    hide Reps;
    FourTimes(w, e.p);
    var k := 4 * (w * w);
    if q.x == r.x {
      ZeroTimes(d, q.x, r.x, Plus(r, Opposite(q, e.p), e).x);
      SumOpposite(q, r, n, k, e);
    } else {
      SumDistinct(q, r, n, d, k, e);
    }
  }

  lemma ZeroTimes(d: int, x: int, y: int, t: int)
    requires x == y && d == t * ((y - x) * (y - x))
    ensures d == 0
  {
  }

  lemma SumOpposite(q: Affine, r: Affine, n: int, k: int, e: Mont)
    requires Proper(e) && q.At? && r.At? && On(q, e) && On(r, e) && q.x == r.x && k % e.p != 0
    requires var t := Plus(r, Opposite(q, e.p), e); t.At? && t.x % e.p != 0
    requires n == (q.x * r.x - 1) * (q.x * r.x - 1)
    ensures Reps((n * k) % e.p, (0 * k) % e.p, Plus(q, r, e), e.p)
  {
    hide Plus;
    hide On;
    SumOfOpposites(q, r, e);
    NonZeroProduct(n, k, e.p);
    SmallMod(0, e.p);
    InfinityFrom((n * k) % e.p, (0 * k) % e.p, n * k, 0 * k, e.p);
  }

  lemma SumDistinct(q: Affine, r: Affine, n: int, d: int, k: int, e: Mont)
    requires Proper(e) && q.At? && r.At? && On(q, e) && On(r, e) && q.x != r.x && k % e.p != 0
    requires var t := Plus(r, Opposite(q, e.p), e);
      t.At? && t.x % e.p != 0 && d == t.x * ((r.x - q.x) * (r.x - q.x))
    requires n == (q.x * r.x - 1) * (q.x * r.x - 1)
    ensures Reps((n * k) % e.p, (d * k) % e.p, Plus(q, r, e), e.p)
  {
    hide Plus;
    hide On;
    var p, x1 := e.p, Plus(r, Opposite(q, e.p), e).x;
    SumTimesDifference(q, r, e);
    NonZeroProduct(r.x - q.x, r.x - q.x, p);
    NonZeroProduct(x1, (r.x - q.x) * (r.x - q.x), p);
    RepsFrom((n * k) % p, (d * k) % p, n, d, k, Plus(q, r, e), p);
  }

  /** Q and R with one abscissa are opposite, and their difference 2R has a non-zero abscissa. */
  lemma SumOfOpposites(q: Affine, r: Affine, e: Mont)
    requires Proper(e) && q.At? && r.At? && On(q, e) && On(r, e) && q.x == r.x
    requires var d := Plus(r, Opposite(q, e.p), e); d.At? && d.x % e.p != 0
    ensures Plus(q, r, e) == Zero && ((q.x * r.x - 1) * (q.x * r.x - 1)) % e.p != 0
  {
    var p, n := e.p, (r.x * r.x - 1) * (r.x * r.x - 1);
    OppositeOn(q, e);
    OppositeOf(q.y, r.y, p);
    SameX(q, r, e);
    assert Opposite(q, p) == r;
    DoubleAbscissa(r, e);
    NonZeroProduct(Plus(r, r, e).x, 4 * Right(r.x, e.a), p);
  }

  lemma OppositeOf(y: int, w: int, p: int)
    requires 0 < p && 0 <= y < p && 0 <= w < p
    ensures (w + (-y) % p) % p == 0 <==> w == y
    ensures (y + w) % p == 0 ==> (-y) % p == w
  {
    ModMod(-y, p);
    ModAdd(w, (-y) % p, p);
    ModAdd(w, -y, p);
    ZeroDifference(w, y, p);
    SmallMod(w, p);
    SmallMod(y, p);
    ZeroDifference(w, -y, p);
  }

  // ---- multiples ----

  ghost predicate Grouped(q: Affine, r: Affine, s: Affine, e: Mont)
    requires 2 < e.p
  {
    On(q, e) && On(r, e) && On(s, e) ==> Plus(Plus(q, r, e), s, e) == Plus(q, Plus(r, s, e), e)
  }

  /** Associativity of chord and tangent on the curve. */
  ghost predicate Law(e: Mont)
    requires 2 < e.p
  {
    forall q, r, s :: Grouped(q, r, s, e)
  }

  /** The k-fold sum of `q`. */
  function MultipleOf(k: nat, q: Affine, e: Mont): Affine
    requires 2 < e.p
  {
    if k == 0 then Zero else Plus(MultipleOf(k - 1, q, e), q, e)
  }

  lemma {:induction false} MultipleOn(k: nat, q: Affine, e: Mont)
    requires Proper(e) && On(q, e)
    ensures On(MultipleOf(k, q, e), e)
  {
    if k > 0 {
      MultipleOn(k - 1, q, e);
      PlusOn(MultipleOf(k - 1, q, e), q, e);
    }
  }

  lemma {:induction false} MultipleAdd(m: nat, n: nat, q: Affine, e: Mont)
    requires Proper(e) && Law(e) && On(q, e)
    ensures MultipleOf(m + n, q, e) == Plus(MultipleOf(m, q, e), MultipleOf(n, q, e), e)
  {
    hide Plus;
    hide On;
    hide Proper;
    ProperIs(e);
    ZeroIsUnit(MultipleOf(m, q, e), e);
    if n > 0 {
      MultipleAdd(m, n - 1, q, e);
      MultipleOn(m, q, e);
      MultipleOn(n - 1, q, e);
      assert m + n - 1 == m + (n - 1);
      assert Grouped(MultipleOf(m, q, e), MultipleOf(n - 1, q, e), q, e);
    }
  }

  lemma ProperIs(e: Mont)
    requires Proper(e)
    ensures FieldPrime(e.p) && 2 < e.p
  {
  }

  lemma ZeroIsUnit(q: Affine, e: Mont)
    requires 2 < e.p
    ensures Plus(q, Zero, e) == q && Plus(Zero, q, e) == q
  {
  }

  lemma {:induction false} MultipleTimes(m: nat, n: nat, q: Affine, e: Mont)
    requires Proper(e) && Law(e) && On(q, e)
    ensures MultipleOf(m, MultipleOf(n, q, e), e) == MultipleOf(m * n, q, e)
  {
    if m > 0 {
      MultipleTimes(m - 1, n, q, e);
      var k := (m - 1) * n;
      OneMore(m, n, k);
      MultipleAdd(k, n, q, e);
    }
  }

  /** (m + 1)P - mP = P. */
  lemma Successor(m: nat, q: Affine, e: Mont)
    requires Proper(e) && Law(e) && On(q, e)
    ensures Plus(MultipleOf(m + 1, q, e), Opposite(MultipleOf(m, q, e), e.p), e) == q
  {
    hide Plus;
    hide On;
    ProperIs(e);
    var r, o := MultipleOf(m, q, e), Opposite(MultipleOf(m, q, e), e.p);
    MultipleOn(m, q, e);
    OppositeOn(r, e);
    OppositeIsOn(r, e);
    ZeroIsUnit(q, e);
    assert MultipleOf(1, q, e) == Plus(MultipleOf(0, q, e), q, e);
    MultipleAdd(1, m, q, e);
    assert Grouped(q, r, o, e);
  }

  lemma OppositeIsOn(q: Affine, e: Mont)
    requires 2 < e.p && On(q, e)
    ensures On(Opposite(q, e.p), e)
  {
    OppositeOn(q, e);
  }

  /** One turn of the ladder: from mP and (m + 1)P to 2mP, (2m + 1)P and 2(m + 1)P. */
  lemma PairStep(x2: int, z2: int, x3: int, z3: int, m: nat, q: Affine, t: int, e: Mont)
    requires Proper(e) && Law(e) && e.a == 4 * t + 2 && q.At? && q.x != 0 && On(q, e)
    requires Reps(x2, z2, MultipleOf(m, q, e), e.p) && Reps(x3, z3, MultipleOf(m + 1, q, e), e.p)
    ensures Reps(DoubleX(x2, z2, e.p), DoubleZ(x2, z2, t, e.p), MultipleOf(2 * m, q, e), e.p)
    ensures Reps(DoubleX(x3, z3, e.p), DoubleZ(x3, z3, t, e.p), MultipleOf(2 * m + 2, q, e), e.p)
    ensures Reps(SumX(x2, z2, x3, z3, e.p), SumZ(q.x, x2, z2, x3, z3, e.p), MultipleOf(2 * m + 1, q, e), e.p)
  {
    hide Plus;
    hide Reps;
    hide DoubleX;
    hide DoubleZ;
    hide SumX;
    hide SumZ;
    hide MultipleOf;
    hide Law;
    MultipleOn(m, q, e);
    MultipleOn(m + 1, q, e);
    MultipleAdd(m, m, q, e);
    assert m + m == 2 * m;
    MultipleAdd(m, m + 1, q, e);
    assert m + (m + 1) == 2 * m + 1;
    MultipleAdd(m + 1, m + 1, q, e);
    assert m + 1 + (m + 1) == 2 * m + 2;
    DoubleStep(x2, z2, MultipleOf(m, q, e), t, e);
    DoubleStep(x3, z3, MultipleOf(m + 1, q, e), t, e);
    Successor(m, q, e);
    SmallMod(q.x, e.p);
    SumStep(x2, z2, x3, z3, MultipleOf(m, q, e), MultipleOf(m + 1, q, e), e);
  }

  // ---- abscissa 0: a point of order two ----

  lemma {:induction false} MultipleOfOrderTwo(k: nat, q: Affine, e: Mont)
    requires Proper(e) && q.At? && On(q, e) && q.x == 0
    ensures MultipleOf(k, q, e) == Zero || MultipleOf(k, q, e) == q
  {
    var p := e.p;
    SmallMod(0, p);
    Cancel(e.b, q.y * q.y, p);
    if q.y % p != 0 { NonZeroProduct(q.y, q.y, p); }
    SmallMod(q.y, p);
    if k > 0 { MultipleOfOrderTwo(k - 1, q, e); }
  }

  /** Coordinates of which one is zero double to z = 0, and with x1 = 0 every sum has z = 0. */
  lemma VanishingStep(x2: int, z2: int, x3: int, z3: int, t: int, p: int)
    requires 0 < p && 0 <= x2 < p && 0 <= z2 < p && x2 * z2 == 0
    ensures DoubleZ(x2, z2, t, p) == 0 && SumZ(0, x2, z2, x3, z3, p) == 0
  {
    hide DoubleX;
    SmallMod(x2, p);
    SmallMod(z2, p);
    SmallMod(0, p);
    DoubleShadow(x2, z2, x2, z2, t, p);
  }

  // ---- the whole ladder ----

  datatype Four = Four(x2: int, z2: int, x3: int, z3: int)

  function Exchange(f: Four, bit: int): Four { if bit == 1 then Four(f.x3, f.z3, f.x2, f.z2) else f }

  function Turn(x1: int, f: Four, a24: int, p: int): Four
    requires 0 < p
  {
    Four(DoubleX(f.x2, f.z2, p), DoubleZ(f.x2, f.z2, a24, p),
         SumX(f.x2, f.z2, f.x3, f.z3, p), SumZ(x1, f.x2, f.z2, f.x3, f.z3, p))
  }

  /** The turns for the bits of `k` from n - 1 down to t. */
  function Turns(k: nat, t: nat, n: nat, x1: int, a24: int, p: int): Four
    requires 0 < p && t <= n
    decreases n - t
  {
    if t == n then Four(1, 0, x1, 1)
    else
      var bit := Shr(k, t) % 2;
      Exchange(Turn(x1, Exchange(Turns(k, t + 1, n, x1, a24, p), bit), a24, p), bit)
  }

  /** The two points are mP and (m + 1)P. */
  ghost predicate Follows(f: Four, m: nat, q: Affine, e: Mont)
    requires 2 < e.p
  {
    Reps(f.x2, f.z2, MultipleOf(m, q, e), e.p) && Reps(f.x3, f.z3, MultipleOf(m + 1, q, e), e.p)
  }

  lemma TurnFollows(f: Four, m: nat, bit: int, q: Affine, t: int, e: Mont)
    requires Proper(e) && Law(e) && e.a == 4 * t + 2 && q.At? && q.x != 0 && On(q, e)
    requires 0 <= bit <= 1 && Follows(f, m, q, e)
    ensures Follows(Exchange(Turn(q.x, Exchange(f, bit), t, e.p), bit), 2 * m + bit, q, e)
  {
    hide Reps;
    hide MultipleOf;
    hide On;
    hide Law;
    PairStep(f.x2, f.z2, f.x3, f.z3, m, q, t, e);
    SumCommutes(q.x, f.x2, f.z2, f.x3, f.z3, e.p);
    assert 2 * m + 1 + 1 == 2 * m + 2;
  }

  lemma StartFollows(q: Affine, e: Mont)
    requires Proper(e) && q.At? && On(q, e)
    ensures Follows(Four(1, 0, q.x, 1), 0, q, e)
  {
    ZeroIsUnit(q, e);
    assert MultipleOf(1, q, e) == Plus(MultipleOf(0, q, e), q, e);
    SmallMod(q.x, e.p);
  }

  lemma BitOf(k: nat, t: nat)
    ensures Shr(k, t) == 2 * Shr(k, t + 1) + Shr(k, t) % 2 && 0 <= Shr(k, t) % 2 <= 1
  {
    DivDiv(k, Pow2(t), 2);
    assert Pow2(t + 1) == Pow2(t) * 2;
    QuotientParts(Shr(k, t), 2);
  }

  /** After the bits from n - 1 down to t the points are those of the number these bits make. */
  lemma {:induction false} TurnsFollow(k: nat, t: nat, n: nat, q: Affine, a24: int, e: Mont)
    requires Proper(e) && Law(e) && e.a == 4 * a24 + 2 && q.At? && q.x != 0 && On(q, e) && t <= n && k < Pow2(n)
    ensures Follows(Turns(k, t, n, q.x, a24, e.p), Shr(k, t), q, e)
    decreases n - t
  {
    hide Follows;
    hide On;
    hide Law;
    hide Turn;
    hide Exchange;
    hide Pow2;
    StartFollows(q, e);
    if t == n {
      DivIs(k, Pow2(n), 0, k);
    } else {
      TurnsFollow(k, t + 1, n, q, a24, e);
      BitOf(k, t);
      TurnFollows(Turns(k, t + 1, n, q.x, a24, e.p), Shr(k, t + 1), Shr(k, t) % 2, q, a24, e);
    }
  }

  /** With x1 = 0 one turn brings both denominators to zero, and they stay there. */
  lemma {:induction false} TurnsVanish(k: nat, t: nat, n: nat, a24: int, p: int)
    requires 1 < p && t < n
    ensures var f := Turns(k, t, n, 0, a24, p); f.z2 == 0 && f.z3 == 0
    decreases n - t
  {
    hide DoubleX;
    hide DoubleZ;
    hide SumX;
    hide SumZ;
    if t + 1 < n { TurnsVanish(k, t + 1, n, a24, p); }
    TurnsInRange(k, t + 1, n, 0, a24, p);
    var f := Exchange(Turns(k, t + 1, n, 0, a24, p), Shr(k, t) % 2);
    VanishingStep(f.x2, f.z2, f.x3, f.z3, a24, p);
  }

  lemma {:induction false} TurnsInRange(k: nat, t: nat, n: nat, x1: int, a24: int, p: int)
    requires 1 < p && t <= n && 0 <= x1 < p
    ensures var f := Turns(k, t, n, x1, a24, p);
      0 <= f.x2 < p && 0 <= f.z2 < p && 0 <= f.x3 < p && 0 <= f.z3 < p
    decreases n - t
  {
    if t < n { TurnsInRange(k, t + 1, n, x1, a24, p); }
  }

  /** The abscissa, 0 standing for the point at infinity. */
  function Abscissa(q: Affine): int { if q.Zero? then 0 else q.x }

  /** The quotient at the end of the ladder is x(kP), for every point P. */
  lemma {:induction false} LadderQuotient(k: nat, n: nat, q: Affine, a24: int, e: Mont)
    requires Proper(e) && Law(e) && e.a == 4 * a24 + 2 && q.At? && On(q, e) && 0 < n && k < Pow2(n)
    ensures var f := Turns(k, 0, n, q.x, a24, e.p);
      MulM(f.x2, Inverse(f.z2, e.p), e.p) == Abscissa(MultipleOf(k, q, e))
  {
    hide On;
    hide Law;
    hide Turns;
    hide MultipleOf;
    var f := Turns(k, 0, n, q.x, a24, e.p);
    if q.x == 0 {
      TurnsVanish(k, 0, n, a24, e.p);
      InverseOfZero(e.p);
      SmallMod(0, e.p);
      MultipleOfOrderTwo(k, q, e);
    } else {
      TurnsFollow(k, 0, n, q, a24, e);
      assert Shr(k, 0) == k;
      MultipleOn(k, q, e);
      OnIs(MultipleOf(k, q, e), e);
      QuotientOfCoordinates(f.x2, f.z2, MultipleOf(k, q, e), e.p);
    }
  }
}
