/** Short Weierstrass curves y^2 = x^3 - 3x + b over Z/p: the affine chord-and-tangent law, the
    Jacobian formulas of the P-256 code, and why they agree. */
module Curve {
  import opened ModArith

  // ---- integer shadows of residues ----

  /** `v` is the residue of the integer expression `e`. */
  ghost predicate Is(v: int, e: int, p: int)
    requires 0 < p
  {
    v == e % p
  }

  lemma IsAdd(a: int, x: int, b: int, y: int, p: int)
    requires 0 < p && Is(a, x, p) && Is(b, y, p)
    ensures Is(AddM(a, b, p), x + y, p)
  {
    ModAdd(x, y, p);
  }

  lemma IsSub(a: int, x: int, b: int, y: int, p: int)
    requires 0 < p && Is(a, x, p) && Is(b, y, p)
    ensures Is(SubM(a, b, p), x - y, p)
  {
    ModSub(x, y, p);
  }

  lemma IsMul(a: int, x: int, b: int, y: int, p: int)
    requires 0 < p && Is(a, x, p) && Is(b, y, p)
    ensures Is(MulM(a, b, p), x * y, p)
  {
    ModMul(x, y, p);
  }

  /** Congruent factors may be exchanged. */
  lemma Scale(x: int, y: int, k: int, p: int)
    requires 0 < p && x % p == y % p
    ensures (k * x) % p == (k * y) % p
  {
    ModMul(k, x, p);
    ModMul(k, y, p);
  }

  // ---- the field ----

  /** p is an odd prime, stated as what the code uses: Fermat's exponent inverts. */
  ghost predicate FieldPrime(p: int)
  {
    3 < p && p % 2 == 1 && forall a :: 0 < a < p ==> MulM(Inverse(a, p), a, p) == 1
  }

  function Inverse(a: int, p: int): int
    requires 2 < p
  {
    Power(a, p - 2) % p
  }

  lemma Cancel(a: int, x: int, p: int)
    requires FieldPrime(p) && (a * x) % p == 0 && a % p != 0
    ensures x % p == 0
  {
    var r := a % p;
    assert MulM(Inverse(r, p), r, p) == 1;
    ReduceFactor(a, x, p);
    CancelUnit(Inverse(r, p), r, x, p);
  }

  lemma ReduceFactor(a: int, x: int, p: int)
    requires 0 < p
    ensures ((a % p) * x) % p == (a * x) % p
  {
    ModMul(a, x, p);
    ModMul(a % p, x, p);
    ModMod(a, p);
  }

  /** With i r = 1: if r x = 0 then x = i (r x) = 0. */
  lemma CancelUnit(i: int, r: int, x: int, p: int)
    requires 1 < p && MulM(i, r, p) == 1 && (r * x) % p == 0
    ensures x % p == 0
  {
    SmallMod(1, p);
    Scale(i * r, 1, x, p);
    SmallMod(0, p);
    Scale(r * x, 0, i, p);
    Rotate(x, i, r);
  }

  lemma Rotate(x: int, i: int, r: int)
    ensures x * (i * r) == i * (r * x)
  {
  }

  lemma NonZeroProduct(a: int, b: int, p: int)
    requires FieldPrime(p) && a % p != 0 && b % p != 0
    ensures (a * b) % p != 0
  {
    if (a * b) % p == 0 { Cancel(a, b, p); }
  }

  lemma CancelEq(a: int, x: int, y: int, p: int)
    requires FieldPrime(p) && (a * x) % p == (a * y) % p && a % p != 0
    ensures x % p == y % p
  {
    ModSub(a * x, a * y, p);
    assert a * (x - y) == a * x - a * y;
    SmallMod(0, p);
    Cancel(a, x - y, p);
    ZeroDifference(x, y, p);
  }

  lemma ZeroDifference(x: int, y: int, p: int)
    requires 0 < p
    ensures (x - y) % p == 0 <==> x % p == y % p
  {
    ModSub(x, y, p);
    if (x - y) % p == 0 {
      var k := (x - y) / p;
      assert x == y + k * p;
      ModShift(y, k, p);
    } else if x % p == y % p {
      SmallMod(0, p);
    }
  }

  // ---- the affine law ----

  datatype Affine = Zero | At(x: int, y: int)

  ghost predicate InField(a: Affine, p: int)
  {
    a.At? ==> 0 <= a.x < p && 0 <= a.y < p
  }

  ghost predicate OnCurve(a: Affine, b: int, p: int)
    requires 0 < p
  {
    InField(a, p) && (a.At? ==> (a.y * a.y) % p == (a.x * a.x * a.x - 3 * a.x + b) % p)
  }

  /** Slope of the chord, or of the tangent when the abscissas agree. */
  function Slope(a: Affine, b: Affine, p: int): int
    requires 2 < p && a.At? && b.At?
  {
    if a.x == b.x then MulM(SubM(MulM(3, MulM(a.x, a.x, p), p), 3, p), Inverse(AddM(a.y, a.y, p), p), p)
    else MulM(SubM(b.y, a.y, p), Inverse(SubM(b.x, a.x, p), p), p)
  }

  /** The third intersection of the line of slope `l` through `a` and abscissa `x2`, reflected. */
  function Third(a: Affine, x2: int, l: int, p: int): Affine
    requires 2 < p && a.At?
  {
    var x3 := SubM(SubM(MulM(l, l, p), a.x, p), x2, p);
    At(x3, SubM(MulM(l, SubM(a.x, x3, p), p), a.y, p))
  }

  function AddAffine(a: Affine, b: Affine, p: int): Affine
    requires 2 < p
  {
    if a.Zero? then b
    else if b.Zero? then a
    else if a.x == b.x && AddM(a.y, b.y, p) == 0 then Zero
    else Third(a, b.x, Slope(a, b, p), p)
  }

  /** Third, in terms of integer expressions. */
  lemma ThirdIs(a: Affine, x2: int, l: int, p: int)
    requires 2 < p && a.At? && InField(a, p) && 0 <= x2 < p
    ensures var t := Third(a, x2, l, p);
      InField(t, p) && Is(t.x, l * l - a.x - x2, p) && Is(t.y, l * (a.x - t.x) - a.y, p)
  {
    SmallMod(a.x, p);
    SmallMod(a.y, p);
    SmallMod(x2, p);
    var t := Third(a, x2, l, p);
    var ll := MulM(l, l, p);
    IsSub(ll, l * l, a.x, a.x, p);
    IsSub(SubM(ll, a.x, p), l * l - a.x, x2, x2, p);
    SmallMod(t.x, p);
    IsSub(a.x, a.x, t.x, t.x, p);
    LeftFactor(l, SubM(a.x, t.x, p), a.x - t.x, p);
    IsSub(MulM(l, SubM(a.x, t.x, p), p), l * (a.x - t.x), a.y, a.y, p);
  }

  lemma LeftFactor(l: int, v: int, e: int, p: int)
    requires 0 < p && Is(v, e, p)
    ensures Is(MulM(l, v, p), l * e, p)
  {
    ModMod(e, p);
    Scale(v, e, l, p);
  }

  /** The defining property of a quotient. */
  lemma Quotient(num: int, den: int, p: int)
    requires FieldPrime(p) && 0 < den < p
    ensures (MulM(num, Inverse(den, p), p) * den) % p == num % p
  {
    var i := Inverse(den, p);
    assert MulM(i, den, p) == 1;
    SmallMod(1, p);
    Scale(i * den, 1, num, p);
    ModMul(num * i, den, p);
    SmallMod(den, p);
    assert num * i * den == num * (i * den);
  }

  lemma ChordSlope(a: Affine, b: Affine, p: int)
    requires FieldPrime(p) && a.At? && b.At? && InField(a, p) && InField(b, p) && a.x != b.x
    ensures (Slope(a, b, p) * (b.x - a.x)) % p == (b.y - a.y) % p && (b.x - a.x) % p != 0
  {
    ZeroDifference(b.x, a.x, p);
    SmallMod(a.x, p);
    SmallMod(b.x, p);
    var d := SubM(b.x, a.x, p);
    Quotient(SubM(b.y, a.y, p), d, p);
    ModMod(b.y - a.y, p);
    ModMod(b.x - a.x, p);
    Scale(d, b.x - a.x, Slope(a, b, p), p);
  }

  lemma TangentSlope(a: Affine, p: int)
    requires FieldPrime(p) && a.At? && InField(a, p) && AddM(a.y, a.y, p) != 0
    ensures (Slope(a, a, p) * (2 * a.y)) % p == (3 * a.x * a.x - 3) % p && (2 * a.y) % p != 0
  {
    var d := AddM(a.y, a.y, p);
    var xx := MulM(a.x, a.x, p);
    SmallMod(3, p);
    IsMul(3, 3, xx, a.x * a.x, p);
    IsSub(MulM(3, xx, p), 3 * (a.x * a.x), 3, 3, p);
    assert 3 * (a.x * a.x) == 3 * a.x * a.x && a.y + a.y == 2 * a.y;
    var num := SubM(MulM(3, xx, p), 3, p);
    Quotient(num, d, p);
    ModMod(3 * a.x * a.x - 3, p);
    ModMod(2 * a.y, p);
    Scale(d, 2 * a.y, Slope(a, a, p), p);
  }

  // ---- the law stays on the curve ----

  function Cubic(x: int, b: int): int { x * x * x - 3 * x + b }

  /** Divided difference of the cubic minus the squared line y1 + l (x - x1), at x1 and x. */
  function Residual(x: int, x1: int, y1: int, l: int): int
  {
    x * x + x * x1 + x1 * x1 - 3 - l * (l * (x - x1) + 2 * y1)
  }

  lemma LineMeetsCubic(x: int, x1: int, y1: int, l: int, b: int)
    ensures Cubic(x, b) - (y1 + l * (x - x1)) * (y1 + l * (x - x1))
         == Cubic(x1, b) - y1 * y1 + (x - x1) * Residual(x, x1, y1, l)
  {
  }

  lemma ResidualStep(x: int, x2: int, x1: int, y1: int, l: int)
    ensures Residual(x, x1, y1, l) == Residual(x2, x1, y1, l) + (x - x2) * (x - (l * l - x1 - x2))
  {
  }

  lemma ZeroSum(a: int, k: int, c: int, m: int, e: int, p: int)
    requires 0 < p && a % p == 0 && c % p == 0 && e % p == 0
    ensures (a + k * (c + m * e)) % p == 0
  {
    Scale(e, 0, m, p);
    ModAdd(c, m * e, p);
    Scale(c + m * e, 0, k, p);
    ModAdd(a, k * (c + m * e), p);
  }

  lemma ThirdOnCurve(a: Affine, x2: int, l: int, b: int, p: int)
    requires 2 < p && a.At? && OnCurve(a, b, p) && 0 <= x2 < p
    requires Residual(x2, a.x, a.y, l) % p == 0
    ensures OnCurve(Third(a, x2, l, p), b, p)
  {
    ThirdIs(a, x2, l, p);
    var t := Third(a, x2, l, p);
    var line := a.y + l * (t.x - a.x);
    ModMod(l * (a.x - t.x) - a.y, p);
    ModMul(t.y, t.y, p);
    ModMul(-line, -line, p);
    assert l * (a.x - t.x) - a.y == -line && -line * -line == line * line;
    ZeroDifference(a.x * a.x * a.x - 3 * a.x + b, a.y * a.y, p);
    ModMod(l * l - a.x - x2, p);
    ZeroDifference(t.x, l * l - a.x - x2, p);
    LineMeetsCubic(t.x, a.x, a.y, l, b);
    ResidualStep(t.x, x2, a.x, a.y, l);
    ZeroSum(Cubic(a.x, b) - a.y * a.y, t.x - a.x, Residual(x2, a.x, a.y, l), t.x - x2, t.x - (l * l - a.x - x2), p);
    ZeroDifference(Cubic(t.x, b), line * line, p);
  }

  lemma ChordResidual(a: Affine, c: Affine, b: int, p: int)
    requires FieldPrime(p) && a.At? && c.At? && OnCurve(a, b, p) && OnCurve(c, b, p) && a.x != c.x
    ensures Residual(c.x, a.x, a.y, Slope(a, c, p)) % p == 0
  {
    var l := Slope(a, c, p);
    var line := a.y + l * (c.x - a.x);
    var q := Residual(c.x, a.x, a.y, l);
    ChordSlope(a, c, p);
    ChordEnd(a.y, l * (c.x - a.x), c.y, p);
    LineMeetsCubic(c.x, a.x, a.y, l, b);
    ZeroDifference(Cubic(c.x, b), line * line, p);
    ZeroDifference(Cubic(a.x, b), a.y * a.y, p);
    ProductVanishes(Cubic(c.x, b) - line * line, Cubic(a.x, b) - a.y * a.y, c.x - a.x, q, p);
  }

  /** The chord through the first point passes through the second. */
  lemma ChordEnd(y1: int, rise: int, y2: int, p: int)
    requires 0 < p && rise % p == (y2 - y1) % p
    ensures ((y1 + rise) * (y1 + rise)) % p == (y2 * y2) % p
  {
    ModAdd(y1, rise, p);
    ModAdd(y1, y2 - y1, p);
    ModMul(y1 + rise, y1 + rise, p);
    ModMul(y2, y2, p);
  }

  lemma ProductVanishes(g2: int, g1: int, d: int, q: int, p: int)
    requires FieldPrime(p) && g2 == g1 + d * q && g2 % p == 0 && g1 % p == 0 && d % p != 0
    ensures q % p == 0
  {
    DifferenceVanishes(g2, g1, d * q, p);
    Cancel(d, q, p);
  }

  lemma DifferenceVanishes(g2: int, g1: int, e: int, p: int)
    requires 0 < p && g2 == g1 + e && g2 % p == 0 && g1 % p == 0
    ensures e % p == 0
  {
    ModSub(g2, g1, p);
    SmallMod(0, p);
  }

  lemma TangentResidual(a: Affine, p: int)
    requires FieldPrime(p) && a.At? && InField(a, p) && AddM(a.y, a.y, p) != 0
    ensures Residual(a.x, a.x, a.y, Slope(a, a, p)) % p == 0
  {
    var l := Slope(a, a, p);
    TangentSlope(a, p);
    ZeroDifference(3 * a.x * a.x - 3, l * (2 * a.y), p);
    ResidualAtTangent(a.x, a.y, l);
  }

  lemma ResidualAtTangent(x: int, y: int, l: int)
    ensures Residual(x, x, y, l) == 3 * x * x - 3 - l * (2 * y)
  {
  }

  /** Two points of the curve with one abscissa are equal or opposite. */
  lemma SameAbscissa(a: Affine, c: Affine, b: int, p: int)
    requires FieldPrime(p) && a.At? && c.At? && OnCurve(a, b, p) && OnCurve(c, b, p) && a.x == c.x
    ensures a.y == c.y || AddM(a.y, c.y, p) == 0
  {
    ZeroDifference(a.y * a.y, c.y * c.y, p);
    assert (a.y - c.y) * (a.y + c.y) == a.y * a.y - c.y * c.y;
    if (a.y - c.y) % p != 0 {
      Cancel(a.y - c.y, a.y + c.y, p);
    } else {
      ZeroDifference(a.y, c.y, p);
      SmallMod(a.y, p);
      SmallMod(c.y, p);
    }
  }

  /** Chord and tangent stay on the curve. */
  lemma AddOnCurve(a: Affine, c: Affine, b: int, p: int)
    requires FieldPrime(p) && OnCurve(a, b, p) && OnCurve(c, b, p)
    ensures OnCurve(AddAffine(a, c, p), b, p)
  {
    if a.At? && c.At? && !(a.x == c.x && AddM(a.y, c.y, p) == 0) {
      if a.x == c.x {
        SameAbscissa(a, c, b, p);
        assert c == a;
        TangentResidual(a, p);
      } else {
        ChordResidual(a, c, b, p);
      }
      ThirdOnCurve(a, c.x, Slope(a, c, p), b, p);
    }
  }

  lemma AddCommutes(a: Affine, c: Affine, b: int, p: int)
    requires FieldPrime(p) && OnCurve(a, b, p) && OnCurve(c, b, p)
    ensures AddAffine(a, c, p) == AddAffine(c, a, p)
  {
    if a.At? && c.At? {
      if a.x == c.x {
        SameAbscissa(a, c, b, p);
        assert a.y + c.y == c.y + a.y;
      } else {
        ChordCommutes(a, c, p);
      }
    }
  }

  lemma ChordCommutes(a: Affine, c: Affine, p: int)
    requires FieldPrime(p) && a.At? && c.At? && InField(a, p) && InField(c, p) && a.x != c.x
    ensures Third(a, c.x, Slope(a, c, p), p) == Third(c, a.x, Slope(c, a, p), p)
  {
    var l := Slope(a, c, p);
    SlopeCommutes(a, c, p);
    ChordSlope(a, c, p);
    ThirdIs(a, c.x, l, p);
    ThirdIs(c, a.x, l, p);
    var x3 := Third(a, c.x, l, p).x;
    assert l * l - a.x - c.x == l * l - c.x - a.x;
    ZeroDifference(l * (c.x - a.x), c.y - a.y, p);
    SameLine(l, a.x, a.y, c.x, c.y, x3);
    ZeroDifference(l * (c.x - x3) - c.y, l * (a.x - x3) - a.y, p);
  }

  /** Seen from either end, the line has one height at `x3` if it has one slope. */
  lemma SameLine(l: int, x1: int, y1: int, x2: int, y2: int, x3: int)
    ensures (l * (x2 - x3) - y2) - (l * (x1 - x3) - y1) == l * (x2 - x1) - (y2 - y1)
  {
  }

  lemma SlopeCommutes(a: Affine, c: Affine, p: int)
    requires FieldPrime(p) && a.At? && c.At? && InField(a, p) && InField(c, p) && a.x != c.x
    ensures Slope(a, c, p) == Slope(c, a, p)
  {
    var l, k := Slope(a, c, p), Slope(c, a, p);
    ChordSlope(a, c, p);
    ChordSlope(c, a, p);
    Scale(k * (a.x - c.x), a.y - c.y, -1, p);
    NegatedRise(l, k, c.x - a.x, c.y - a.y);
    assert a.x - c.x == -(c.x - a.x) && a.y - c.y == -(c.y - a.y);
    CancelEq(c.x - a.x, l, k, p);
    SmallMod(l, p);
    SmallMod(k, p);
  }

  lemma NegatedRise(l: int, k: int, dx: int, dy: int)
    ensures -1 * (k * -dx) == dx * k && -1 * -dy == dy && l * dx == dx * l
  {
  }

  // ---- Jacobian coordinates: x = X / Z^2, y = Y / Z^3 ----

  datatype Jac = Infinity | Point(x: int, y: int, z: int)

  /** Statement by statement, the doubling for a = -3. */
  function Dbl(a: Jac, p: int): Jac
    requires 0 < p
  {
    if a.Infinity? || a.y == 0 then Infinity
    else
      var xx := MulM(a.x, a.x, p);
      var yy := MulM(a.y, a.y, p);
      var yyyy := MulM(yy, yy, p);
      var zz := MulM(a.z, a.z, p);
      var xpy := AddM(a.x, yy, p);
      var s0 := SubM(SubM(MulM(xpy, xpy, p), xx, p), yyyy, p);
      var s := AddM(s0, s0, p);
      var m0 := SubM(xx, MulM(zz, zz, p), p);
      var m := AddM(AddM(m0, m0, p), m0, p);
      var t := SubM(MulM(m, m, p), AddM(s, s, p), p);
      var y2 := AddM(yyyy, yyyy, p);
      var y4 := AddM(y2, y2, p);
      var y3 := SubM(MulM(m, SubM(s, t, p), p), AddM(y4, y4, p), p);
      var yz := AddM(a.y, a.z, p);
      Point(t, y3, SubM(SubM(MulM(yz, yz, p), yy, p), zz, p))
  }

  /** Adds the affine point (qx, qy). */
  function AddMixed(a: Jac, qx: int, qy: int, p: int): Jac
    requires 0 < p
  {
    if a.Infinity? then Point(qx, qy, 1)
    else
      var z1z1 := MulM(a.z, a.z, p);
      var u2 := MulM(qx, z1z1, p);
      var s2 := MulM(qy, MulM(a.z, z1z1, p), p);
      if u2 == a.x then (if s2 == a.y then Dbl(a, p) else Infinity)
      else
        var h := SubM(u2, a.x, p);
        var hh := MulM(h, h, p);
        var h2 := AddM(hh, hh, p);
        var i := AddM(h2, h2, p);
        var zh := AddM(a.z, h, p);
        Finish(a.x, a.y, h, i, SubM(s2, a.y, p), SubM(SubM(MulM(zh, zh, p), z1z1, p), hh, p), p)
  }

  /** The common end of both additions: from h, i = 4 h^2, half the slope numerator and z3. */
  function Finish(u1: int, s1: int, h: int, i: int, d: int, z3: int, p: int): Jac
    requires 0 < p
  {
    var j := MulM(h, i, p);
    var rr := AddM(d, d, p);
    var v := MulM(u1, i, p);
    var x3 := SubM(SubM(MulM(rr, rr, p), j, p), AddM(v, v, p), p);
    var sj := MulM(s1, j, p);
    Point(x3, SubM(MulM(rr, SubM(v, x3, p), p), AddM(sj, sj, p), p), z3)
  }

  function AddJ(a: Jac, b: Jac, p: int): Jac
    requires 0 < p
  {
    if a.Infinity? then b
    else if b.Infinity? then a
    else
      var z1z1 := MulM(a.z, a.z, p);
      var z2z2 := MulM(b.z, b.z, p);
      var u1 := MulM(a.x, z2z2, p);
      var u2 := MulM(b.x, z1z1, p);
      var s1 := MulM(a.y, MulM(b.z, z2z2, p), p);
      var s2 := MulM(b.y, MulM(a.z, z1z1, p), p);
      if u1 == u2 then (if s1 == s2 then Dbl(a, p) else Infinity)
      else
        var h := SubM(u2, u1, p);
        var twoh := AddM(h, h, p);
        var i := MulM(twoh, twoh, p);
        var zsum := AddM(a.z, b.z, p);
        Finish(u1, s1, h, i, SubM(s2, s1, p), MulM(SubM(SubM(MulM(zsum, zsum, p), z1z1, p), z2z2, p), h, p), p)
  }

  /** `a` stands for the affine point `q`: nonzero z, X = x Z^2 and Y = y Z^3. */
  ghost predicate Represents(a: Jac, q: Affine, p: int)
    requires 0 < p
  {
    if a.Infinity? then q.Zero?
    else
      && q.At? && InField(q, p) && 0 < a.z < p
      && Is(a.x, q.x * (a.z * a.z), p) && Is(a.y, q.y * (a.z * a.z * a.z), p)
  }

  /** From shadows: W any integer congruent to z3, ex and ey congruent to the coordinates. */
  lemma RepresentsFrom(r: Jac, q: Affine, W: int, ex: int, ey: int, p: int)
    requires 2 < p && r.Point? && q.At? && InField(q, p) && Is(r.z, W, p) && W % p != 0
    requires Is(q.x, ex, p) && Is(q.y, ey, p)
    requires Is(r.x, ex * (W * W), p) && Is(r.y, ey * (W * W * W), p)
    ensures Represents(r, q, p)
  {
    ModMod(W, p);
    ModMod(ex, p);
    ModMod(ey, p);
    ModMul(W, W, p);
    ModMul(r.z, r.z, p);
    ModMul(W * W, W, p);
    ModMul(r.z * r.z, r.z, p);
    ModMul(ex, W * W, p);
    ModMul(q.x, r.z * r.z, p);
    ModMul(ey, W * W * W, p);
    ModMul(q.y, r.z * r.z * r.z, p);
  }

  // ---- doubling ----

  /** The intermediate value s = 4 X Y^2. */
  lemma DoublingS(x: int, X: int, y: int, Y: int, p: int)
    requires 0 < p && Is(x, X, p) && Is(y, Y, p)
    ensures var xx := MulM(x, x, p);
      var yy := MulM(y, y, p);
      var xpy := AddM(x, yy, p);
      var s0 := SubM(SubM(MulM(xpy, xpy, p), xx, p), MulM(yy, yy, p), p);
      Is(AddM(s0, s0, p), 4 * X * (Y * Y), p) && Is(MulM(yy, yy, p), Y * Y * (Y * Y), p)
  {
    var xx := MulM(x, x, p);
    var yy := MulM(y, y, p);
    var xpy := AddM(x, yy, p);
    IsMul(x, X, x, X, p);
    IsMul(y, Y, y, Y, p);
    IsMul(yy, Y * Y, yy, Y * Y, p);
    IsAdd(x, X, yy, Y * Y, p);
    TwiceCross(xpy, X, Y * Y, xx, MulM(yy, yy, p), p);
    assert 2 * (2 * X * (Y * Y)) == 4 * X * (Y * Y);
  }

  /** Twice what is left of (A + B)^2 without the squares is 2 (2 A B). */
  lemma TwiceCross(v: int, A: int, B: int, aa: int, bb: int, p: int)
    requires 0 < p && Is(v, A + B, p) && Is(aa, A * A, p) && Is(bb, B * B, p)
    ensures var s0 := SubM(SubM(MulM(v, v, p), aa, p), bb, p);
      Is(s0, 2 * A * B, p) && Is(AddM(s0, s0, p), 2 * (2 * A * B), p)
  {
    var S, T := A + B, 2 * A * B;
    IsMul(v, S, v, S, p);
    var s1 := SubM(MulM(v, v, p), aa, p);
    IsSub(MulM(v, v, p), S * S, aa, A * A, p);
    IsSub(s1, S * S - A * A, bb, B * B, p);
    CrossTerm(A, B);
    var s0 := SubM(s1, bb, p);
    IsAdd(s0, T, s0, T, p);
  }

  /** The intermediate value m = 3 (X^2 - Z^4). */
  lemma DoublingM(x: int, X: int, z: int, p: int)
    requires 0 < p && Is(x, X, p) && 0 <= z < p
    ensures var xx := MulM(x, x, p);
      var zz := MulM(z, z, p);
      var m0 := SubM(xx, MulM(zz, zz, p), p);
      Is(AddM(AddM(m0, m0, p), m0, p), 3 * (X * X - z * z * (z * z)), p)
  {
    SmallMod(z, p);
    var xx := MulM(x, x, p);
    var zz := MulM(z, z, p);
    IsMul(x, X, x, X, p);
    IsMul(z, z, z, z, p);
    IsMul(zz, z * z, zz, z * z, p);
    var m0 := SubM(xx, MulM(zz, zz, p), p);
    var U := X * X - z * z * (z * z);
    IsSub(xx, X * X, MulM(zz, zz, p), z * z * (z * z), p);
    IsAdd(m0, U, m0, U, p);
    IsAdd(AddM(m0, m0, p), U + U, m0, U, p);
  }

  /** The results from m, s and y^4, for any shadows of them. */
  lemma DoublingResults(m: int, M: int, s: int, S: int, f: int, F: int, p: int)
    requires 0 < p && Is(m, M, p) && Is(s, S, p) && Is(f, F, p)
    ensures var t := SubM(MulM(m, m, p), AddM(s, s, p), p);
      var y2 := AddM(f, f, p);
      var y4 := AddM(y2, y2, p);
      && Is(t, M * M - 2 * S, p)
      && Is(SubM(MulM(m, SubM(s, t, p), p), AddM(y4, y4, p), p), M * (S - (M * M - 2 * S)) - 8 * F, p)
  {
    IsMul(m, M, m, M, p);
    IsAdd(s, S, s, S, p);
    IsSub(MulM(m, m, p), M * M, AddM(s, s, p), S + S, p);
    var t := SubM(MulM(m, m, p), AddM(s, s, p), p);
    var T := M * M - 2 * S;
    IsSub(s, S, t, T, p);
    IsMul(m, M, SubM(s, t, p), S - T, p);
    IsAdd(f, F, f, F, p);
    var y2 := AddM(f, f, p);
    IsAdd(y2, 2 * F, y2, 2 * F, p);
    var y4 := AddM(y2, y2, p);
    IsAdd(y4, 4 * F, y4, 4 * F, p);
    IsSub(MulM(m, SubM(s, t, p), p), M * (S - T), AddM(y4, y4, p), 8 * F, p);
  }

  lemma DoublingZ(y: int, Y: int, z: int, p: int)
    requires 2 < p && Is(y, Y, p) && 0 <= z < p
    ensures var yz := AddM(y, z, p);
      Is(SubM(SubM(MulM(yz, yz, p), MulM(y, y, p), p), MulM(z, z, p), p), 2 * Y * z, p)
  {
    SmallMod(z, p);
    var yz := AddM(y, z, p);
    IsAdd(y, Y, z, z, p);
    IsMul(yz, Y + z, yz, Y + z, p);
    IsMul(y, Y, y, Y, p);
    IsMul(z, z, z, z, p);
    IsSub(MulM(yz, yz, p), (Y + z) * (Y + z), MulM(y, y, p), Y * Y, p);
    IsSub(SubM(MulM(yz, yz, p), MulM(y, y, p), p), (Y + z) * (Y + z) - Y * Y, MulM(z, z, p), z * z, p);
    CrossTerm(Y, z);
  }

  lemma CrossTerm(a: int, b: int)
    ensures (a + b) * (a + b) - a * a - b * b == 2 * a * b
  {
  }

  /** In terms of W = 2 Y z: m = l W, s = x W^2 and 8 Y^4 = y W^3. */
  lemma DoublingAlgebra(x: int, y: int, z: int, W: int)
    requires W == 2 * (y * (z * z * z)) * z
    ensures 4 * (x * (z * z)) * (y * (z * z * z) * (y * (z * z * z))) == x * (W * W)
    ensures 3 * (x * (z * z) * (x * (z * z)) - z * z * (z * z)) == z * z * (z * z) * (3 * x * x - 3)
    ensures z * z * (z * z) * (2 * y) == W
    ensures var Y := y * (z * z * z); 8 * (Y * Y * (Y * Y)) == y * (W * W * W)
  {
  }

  lemma OddPrime(p: int)
    requires FieldPrime(p)
    ensures 2 % p != 0
  {
    SmallMod(2, p);
  }

  /** z is a unit, so a multiple of a residue by a power of z vanishes only with the residue. */
  lemma UnitMultiple(v: int, k: int, p: int)
    requires FieldPrime(p) && 0 <= v < p && k % p != 0
    ensures (v * k) % p == 0 <==> v == 0
  {
    SmallMod(v, p);
    if v != 0 { NonZeroProduct(v, k, p); } else { SmallMod(0, p); }
  }

  lemma ZPowers(z: int, p: int)
    requires FieldPrime(p) && 0 < z < p
    ensures (z * z) % p != 0 && (z * z * z) % p != 0
  {
    SmallMod(z, p);
    NonZeroProduct(z, z, p);
    NonZeroProduct(z * z, z, p);
  }

  /** Both coordinates of the third point as integer expressions. */
  lemma ThirdShadow(a: Affine, x2: int, l: int, p: int)
    requires 2 < p && a.At? && InField(a, p) && 0 <= x2 < p
    ensures var t, e := Third(a, x2, l, p), l * l - a.x - x2;
      t.At? && InField(t, p) && Is(t.x, e, p) && Is(t.y, l * (a.x - e) - a.y, p)
  {
    ThirdIs(a, x2, l, p);
    var t, e := Third(a, x2, l, p), l * l - a.x - x2;
    ModMod(e, p);
    ModSub(a.x, t.x, p);
    ModSub(a.x, e, p);
    Scale(a.x - t.x, a.x - e, l, p);
    ModSub(l * (a.x - t.x), a.y, p);
    ModSub(l * (a.x - e), a.y, p);
  }

  lemma TangentScaled(l: int, x: int, y: int, z: int, W: int, p: int)
    requires 0 < p && (l * (2 * y)) % p == (3 * x * x - 3) % p && z * z * (z * z) * (2 * y) == W
    ensures (l * W) % p == (z * z * (z * z) * (3 * x * x - 3)) % p
  {
    var k := z * z * (z * z);
    Scale(l * (2 * y), 3 * x * x - 3, k, p);
    assert l * (k * (2 * y)) == k * (l * (2 * y));
  }

  lemma DoublingUnit(y: int, z: int, W: int, p: int)
    requires FieldPrime(p) && 0 < z < p && (2 * y) % p != 0 && z * z * (z * z) * (2 * y) == W
    ensures W % p != 0
  {
    ZPowers(z, p);
    NonZeroProduct(z * z, z * z, p);
    NonZeroProduct(z * z * (z * z), 2 * y, p);
  }

  lemma TangentResult(l: int, x: int, y: int, W: int, F8: int)
    requires F8 == y * (W * W * W)
    ensures var M, S, e := l * W, x * (W * W), l * l - x - x;
      M * M - 2 * S == e * (W * W) && M * (S - (M * M - 2 * S)) - F8 == (l * (x - e) - y) * (W * W * W)
  {
    var M, S, e := l * W, x * (W * W), l * l - x - x;
    assert M * M == l * l * (W * W);
    assert M * M - 2 * S == e * (W * W);
    assert M * ((x - e) * (W * W)) == l * (x - e) * (W * W * W);
  }

  /** Doubling agrees with the tangent law, infinity and points of order two included. */
  lemma DblCorrect(a: Jac, q: Affine, p: int)
    requires FieldPrime(p) && Represents(a, q, p)
    ensures Represents(Dbl(a, p), AddAffine(q, q, p), p)
  {
    if a.Point? {
      var z := a.z;
      ZPowers(z, p);
      UnitMultiple(q.y, z * z * z, p);
      OddPrime(p);
      UnitMultiple(q.y, 2, p);
      assert q.y * 2 == q.y + q.y;
      if a.y != 0 {
        TangentSlope(q, p);
        DoublingRepresents(a, q, Slope(q, q, p), p);
      }
    }
  }

  lemma DoublingRepresents(a: Jac, q: Affine, l: int, p: int)
    requires FieldPrime(p) && a.Point? && Represents(a, q, p) && a.y != 0
    requires (l * (2 * q.y)) % p == (3 * q.x * q.x - 3) % p && (2 * q.y) % p != 0
    ensures Represents(Dbl(a, p), Third(q, q.x, l, p), p)
  {
    var x, y, z := q.x, q.y, a.z;
    var X, Y := x * (z * z), y * (z * z * z);
    var W := 2 * Y * z;
    DoublingAlgebra(x, y, z, W);
    TangentScaled(l, x, y, z, W, p);
    DoublingUnit(y, z, W, p);
    DoublingZ(a.y, Y, z, p);
    DoublingS(a.x, X, a.y, Y, p);
    DoublingM(a.x, X, z, p);
    DoublingPoint(a, l, x, y, W, Y * Y * (Y * Y), p);
    ThirdShadow(q, x, l, p);
    RepresentsFrom(Dbl(a, p), Third(q, x, l, p), W, l * l - x - x, l * (x - (l * l - x - x)) - y, p);
  }

  lemma DoublingPoint(a: Jac, l: int, x: int, y: int, W: int, F: int, p: int)
    requires 2 < p && a.Point? && a.y != 0 && 8 * F == y * (W * W * W)
    requires var xx := MulM(a.x, a.x, p);
      var yy := MulM(a.y, a.y, p);
      var zz := MulM(a.z, a.z, p);
      var xpy := AddM(a.x, yy, p);
      var s0 := SubM(SubM(MulM(xpy, xpy, p), xx, p), MulM(yy, yy, p), p);
      var m0 := SubM(xx, MulM(zz, zz, p), p);
      && Is(AddM(s0, s0, p), x * (W * W), p)
      && Is(AddM(AddM(m0, m0, p), m0, p), l * W, p)
      && Is(MulM(yy, yy, p), F, p)
    ensures var e := l * l - x - x;
      Is(Dbl(a, p).x, e * (W * W), p) && Is(Dbl(a, p).y, (l * (x - e) - y) * (W * W * W), p)
  {
    var xx := MulM(a.x, a.x, p);
    var yy := MulM(a.y, a.y, p);
    var zz := MulM(a.z, a.z, p);
    var xpy := AddM(a.x, yy, p);
    var s0 := SubM(SubM(MulM(xpy, xpy, p), xx, p), MulM(yy, yy, p), p);
    var m0 := SubM(xx, MulM(zz, zz, p), p);
    DoublingResults(AddM(AddM(m0, m0, p), m0, p), l * W, AddM(s0, s0, p), x * (W * W), MulM(yy, yy, p), F, p);
    TangentResult(l, x, y, W, 8 * F);
  }

  // ---- addition ----

  /** The common end of both additions, for Z = Z1 or Z1 Z2, D = x2 - x1 and W = 2 D Z^3. */
  lemma FinishCorrect(u1: int, s1: int, h: int, i: int, d: int, z3: int,
                                         q: Affine, r: Affine, l: int, Z: int, W: int, p: int)
    requires FieldPrime(p) && q.At? && r.At? && InField(q, p) && InField(r, p)
    requires (l * (r.x - q.x)) % p == (r.y - q.y) % p && (r.x - q.x) % p != 0 && Z % p != 0
    requires W == 2 * (r.x - q.x) * (Z * Z * Z)
    requires Is(u1, q.x * (Z * Z), p) && Is(s1, q.y * (Z * Z * Z), p) && Is(z3, W, p)
    requires Is(h, (r.x - q.x) * (Z * Z), p)
    requires Is(i, 4 * ((r.x - q.x) * (Z * Z) * ((r.x - q.x) * (Z * Z))), p)
    requires Is(d, (r.y - q.y) * (Z * Z * Z), p)
    ensures Represents(Finish(u1, s1, h, i, d, z3, p), Third(q, r.x, l, p), p)
  {
    var x, y, D := q.x, q.y, r.x - q.x;
    var Z2, Z3 := Z * Z, Z * Z * Z;
    var j := MulM(h, i, p);
    var rr := AddM(d, d, p);
    var v := MulM(u1, i, p);
    AdditionAlgebra(x, y, D, Z, W);
    IsMul(h, D * Z2, i, 4 * (D * Z2 * (D * Z2)), p);
    IsMul(u1, x * Z2, i, 4 * (D * Z2 * (D * Z2)), p);
    IsAdd(d, (r.y - q.y) * Z3, d, (r.y - q.y) * Z3, p);
    ChordScaled(l, D, r.y - q.y, Z3, W, p);
    assert Is(rr, l * W, p);
    FinishX(rr, l * W, j, D * (W * W), v, x * (W * W), p);
    var e := l * l - x - r.x;
    ChordResult(l, x, D, y, W);
    IsMul(s1, y * Z3, j, D * (W * W), p);
    FinishY(rr, l * W, v, x * (W * W), SubM(SubM(MulM(rr, rr, p), j, p), AddM(v, v, p), p), e * (W * W),
            MulM(s1, j, p), y * Z3 * (D * (W * W)), p);
    AdditionUnit(D, Z, W, p);
    ThirdShadow(q, r.x, l, p);
    RepresentsFrom(Finish(u1, s1, h, i, d, z3, p), Third(q, r.x, l, p), W, e, l * (x - e) - y, p);
  }

  lemma AdditionAlgebra(x: int, y: int, D: int, Z: int, W: int)
    requires W == 2 * D * (Z * Z * Z)
    ensures var h := D * (Z * Z); var i := 4 * (h * h);
      h * i == D * (W * W) && x * (Z * Z) * i == x * (W * W)
    ensures 2 * (y * (Z * Z * Z) * (D * (W * W))) == y * (W * W * W)
  {
  }

  lemma ChordScaled(l: int, D: int, E: int, Z3: int, W: int, p: int)
    requires 0 < p && (l * D) % p == E % p && W == 2 * D * Z3
    ensures (E * Z3 + E * Z3) % p == (l * W) % p
  {
    Scale(l * D, E, 2 * Z3, p);
    assert 2 * Z3 * (l * D) == l * W && 2 * Z3 * E == E * Z3 + E * Z3;
  }

  lemma ChordResult(l: int, x: int, D: int, y: int, W: int)
    ensures var e := l * l - x - (x + D);
      l * W * (l * W) - D * (W * W) - (x * (W * W) + x * (W * W)) == e * (W * W)
    ensures var e := l * l - x - (x + D);
      l * W * (x * (W * W) - e * (W * W)) - y * (W * W * W) == (l * (x - e) - y) * (W * W * W)
  {
    var e := l * l - x - (x + D);
    assert l * W * (l * W) == l * l * (W * W);
    assert l * W * ((x - e) * (W * W)) == l * (x - e) * (W * W * W);
  }

  lemma FinishX(rr: int, A: int, j: int, J: int, v: int, V: int, p: int)
    requires 0 < p && Is(rr, A, p) && Is(j, J, p) && Is(v, V, p)
    ensures Is(SubM(SubM(MulM(rr, rr, p), j, p), AddM(v, v, p), p), A * A - J - (V + V), p)
  {
    IsMul(rr, A, rr, A, p);
    IsSub(MulM(rr, rr, p), A * A, j, J, p);
    IsAdd(v, V, v, V, p);
    IsSub(SubM(MulM(rr, rr, p), j, p), A * A - J, AddM(v, v, p), V + V, p);
  }

  lemma FinishY(rr: int, A: int, v: int, V: int, x3: int, X: int, sj: int, S: int, p: int)
    requires 0 < p && Is(rr, A, p) && Is(v, V, p) && Is(x3, X, p) && Is(sj, S, p)
    ensures Is(SubM(MulM(rr, SubM(v, x3, p), p), AddM(sj, sj, p), p), A * (V - X) - 2 * S, p)
  {
    IsSub(v, V, x3, X, p);
    IsMul(rr, A, SubM(v, x3, p), V - X, p);
    IsAdd(sj, S, sj, S, p);
    IsSub(MulM(rr, SubM(v, x3, p), p), A * (V - X), AddM(sj, sj, p), S + S, p);
  }

  lemma AdditionUnit(D: int, Z: int, W: int, p: int)
    requires FieldPrime(p) && D % p != 0 && Z % p != 0 && W == 2 * D * (Z * Z * Z)
    ensures W % p != 0
  {
    OddPrime(p);
    NonZeroProduct(2, D, p);
    NonZeroProduct(Z, Z, p);
    NonZeroProduct(Z * Z, Z, p);
    NonZeroProduct(2 * D, Z * Z * Z, p);
  }

  /** Equal multiples of two reduced values by a unit. */
  lemma SameMultiple(v: int, w: int, k: int, p: int)
    requires FieldPrime(p) && 0 <= v < p && 0 <= w < p && k % p != 0
    ensures (v * k) % p == (w * k) % p <==> v == w
  {
    if (v * k) % p == (w * k) % p {
      assert v * k == k * v && w * k == k * w;
      CancelEq(k, v, w, p);
      SmallMod(v, p);
      SmallMod(w, p);
    }
  }

  /** Which branch an addition takes, and what the exceptional branches mean. */
  lemma Exceptional(q: Affine, r: Affine, b: int, p: int)
    requires FieldPrime(p) && q.At? && r.At? && OnCurve(q, b, p) && OnCurve(r, b, p) && q.x == r.x
    ensures q.y == r.y ==> q == r
    ensures q.y != r.y ==> AddAffine(q, r, p) == Zero
  {
    SameAbscissa(q, r, b, p);
  }

  /** Mixed addition agrees with the affine law in every branch. */
  lemma AddMixedCorrect(a: Jac, q: Affine, r: Affine, b: int, p: int)
    requires FieldPrime(p) && Represents(a, q, p) && r.At? && OnCurve(q, b, p) && OnCurve(r, b, p)
    ensures Represents(AddMixed(a, r.x, r.y, p), AddAffine(q, r, p), p)
  {
    SmallMod(r.x, p);
    SmallMod(r.y, p);
    if a.Point? {
      var z := a.z;
      SmallMod(z, p);
      ZPowers(z, p);
      var z1z1 := MulM(z, z, p);
      IsMul(z, z, z, z, p);
      IsMul(r.x, r.x, z1z1, z * z, p);
      IsMul(z, z, z1z1, z * z, p);
      IsMul(r.y, r.y, MulM(z, z1z1, p), z * (z * z), p);
      assert z * (z * z) == z * z * z;
      SameMultiple(q.x, r.x, z * z, p);
      SameMultiple(q.y, r.y, z * z * z, p);
      if q.x == r.x {
        Exceptional(q, r, b, p);
        DblCorrect(a, q, p);
      } else {
        ChordSlope(q, r, p);
        MixedChord(a, q, r, p);
      }
    } else {
      assert r.x * 1 == r.x && r.y * 1 == r.y;
    }
  }

  lemma MixedChord(a: Jac, q: Affine, r: Affine, p: int)
    requires FieldPrime(p) && a.Point? && Represents(a, q, p) && r.At? && InField(r, p) && q.x != r.x
    requires var z1z1 := MulM(a.z, a.z, p);
      && Is(z1z1, a.z * a.z, p) && Is(MulM(r.x, z1z1, p), r.x * (a.z * a.z), p)
      && Is(MulM(r.y, MulM(a.z, z1z1, p), p), r.y * (a.z * a.z * a.z), p)
      && MulM(r.x, z1z1, p) != a.x
    ensures Represents(AddMixed(a, r.x, r.y, p), Third(q, r.x, Slope(q, r, p), p), p)
  {
    var z, D := a.z, r.x - q.x;
    SmallMod(z, p);
    ZPowers(z, p);
    var z1z1 := MulM(z, z, p);
    var u2 := MulM(r.x, z1z1, p);
    var s2 := MulM(r.y, MulM(z, z1z1, p), p);
    var h := SubM(u2, a.x, p);
    var hh := MulM(h, h, p);
    var H := D * (z * z);
    Difference(u2, r.x, a.x, q.x, z * z, p);
    Difference(s2, r.y, a.y, q.y, z * z * z, p);
    QuadrupleSquare(h, H, p);
    MixedZ(h, D, z, p);
    ChordSlope(q, r, p);
    var zh := AddM(z, h, p);
    FinishCorrect(a.x, a.y, h, AddM(AddM(hh, hh, p), AddM(hh, hh, p), p), SubM(s2, a.y, p),
                  SubM(SubM(MulM(zh, zh, p), z1z1, p), hh, p), q, r, Slope(q, r, p), z, 2 * D * (z * z * z), p);
  }

  lemma Difference(u: int, x: int, v: int, y: int, k: int, p: int)
    requires 0 < p && Is(u, x * k, p) && Is(v, y * k, p)
    ensures Is(SubM(u, v, p), (x - y) * k, p)
  {
    IsSub(u, x * k, v, y * k, p);
    assert x * k - y * k == (x - y) * k;
  }

  lemma MixedZ(h: int, D: int, z: int, p: int)
    requires 2 < p && 0 <= z < p && Is(h, D * (z * z), p)
    ensures var zh := AddM(z, h, p);
      Is(SubM(SubM(MulM(zh, zh, p), MulM(z, z, p), p), MulM(h, h, p), p), 2 * D * (z * z * z), p)
  {
    var H := D * (z * z);
    DoublingZ(h, H, z, p);
    assert AddM(h, z, p) == AddM(z, h, p);
    var zh := AddM(z, h, p);
    SubCommutes(MulM(zh, zh, p), MulM(h, h, p), MulM(z, z, p), p);
    CubeTwice(D, z);
  }

  lemma CubeTwice(D: int, z: int)
    ensures 2 * (D * (z * z)) * z == 2 * D * (z * z * z)
  {
  }

  lemma SubCommutes(a: int, b: int, c: int, p: int)
    requires 0 < p
    ensures SubM(SubM(a, b, p), c, p) == SubM(SubM(a, c, p), b, p)
  {
    SubThenSub(a, b, c, p);
    SubThenSub(a, c, b, p);
  }

  lemma SubThenSub(a: int, b: int, c: int, p: int)
    requires 0 < p
    ensures SubM(SubM(a, b, p), c, p) == (a - b - c) % p
  {
    ModSub(a - b, c, p);
    ModMod(a - b, p);
    ModSub((a - b) % p, c, p);
  }

  lemma QuadrupleSquare(h: int, H: int, p: int)
    requires 0 < p && Is(h, H, p)
    ensures var hh := MulM(h, h, p); var h2 := AddM(hh, hh, p);
      Is(AddM(h2, h2, p), 4 * (H * H), p)
    ensures var twoh := AddM(h, h, p); Is(MulM(twoh, twoh, p), 4 * (H * H), p)
  {
    var hh := MulM(h, h, p);
    IsMul(h, H, h, H, p);
    IsAdd(hh, H * H, hh, H * H, p);
    IsAdd(AddM(hh, hh, p), H * H + H * H, AddM(hh, hh, p), H * H + H * H, p);
    var twoh := AddM(h, h, p);
    IsAdd(h, H, h, H, p);
    IsMul(twoh, H + H, twoh, H + H, p);
    assert (H + H) * (H + H) == 4 * (H * H);
  }

  // ---- addition of two Jacobian points: one common denominator Z = Z1 Z2 ----

  /** The coordinates of one point scaled by the other point's Z. */
  lemma CommonDenominator(x: int, y: int, e: int, f: int, z: int, w: int, Z: int, p: int)
    requires 0 < p && Is(w, w, p) && Is(x, e * (z * z), p) && Is(y, f * (z * z * z), p) && Z == z * w
    ensures var ww := MulM(w, w, p);
      Is(MulM(x, ww, p), e * (Z * Z), p) && Is(MulM(y, MulM(w, ww, p), p), f * (Z * Z * Z), p)
  {
    var ww := MulM(w, w, p);
    IsMul(w, w, w, w, p);
    IsMul(w, w, ww, w * w, p);
    IsMul(x, e * (z * z), ww, w * w, p);
    IsMul(y, f * (z * z * z), MulM(w, ww, p), w * (w * w), p);
    CommonAlgebra(e, f, z, w, Z);
  }

  lemma CommonAlgebra(e: int, f: int, z: int, w: int, Z: int)
    requires Z == z * w
    ensures e * (z * z) * (w * w) == e * (Z * Z) && f * (z * z * z) * (w * (w * w)) == f * (Z * Z * Z)
  {
    assert Z * Z == z * z * (w * w);
    assert Z * Z * Z == z * z * z * (w * (w * w));
  }

  lemma AddJZ(h: int, D: int, z: int, w: int, p: int)
    requires 2 < p && 0 <= z < p && 0 <= w < p && Is(h, D * (z * w * (z * w)), p)
    ensures var zw := AddM(z, w, p);
      Is(MulM(SubM(SubM(MulM(zw, zw, p), MulM(z, z, p), p), MulM(w, w, p), p), h, p),
         2 * D * (z * w * (z * w) * (z * w)), p)
  {
    SmallMod(z, p);
    DoublingZ(z, z, w, p);
    var zw := AddM(z, w, p);
    var d := SubM(SubM(MulM(zw, zw, p), MulM(z, z, p), p), MulM(w, w, p), p);
    var Z := z * w;
    IsMul(d, 2 * z * w, h, D * (Z * Z), p);
    TripleZ(D, z, w, Z);
  }

  lemma TripleZ(D: int, z: int, w: int, Z: int)
    requires Z == z * w
    ensures 2 * z * w * (D * (Z * Z)) == 2 * D * (Z * Z * Z)
  {
    assert 2 * z * w == 2 * Z;
  }

  /** Both addition formulas in every branch: infinity, equal, opposite and other points. */
  lemma AddJCorrect(a: Jac, c: Jac, q: Affine, r: Affine, b: int, p: int)
    requires FieldPrime(p) && Represents(a, q, p) && Represents(c, r, p) && OnCurve(q, b, p) && OnCurve(r, b, p)
    ensures Represents(AddJ(a, c, p), AddAffine(q, r, p), p)
  {
    if a.Point? && c.Point? {
      var Z := a.z * c.z;
      AddJTerms(a, c, q, r, Z, p);
      if q.x == r.x {
        Exceptional(q, r, b, p);
        DblCorrect(a, q, p);
      } else {
        AddJChord(a, c, q, r, Z, p);
      }
    }
  }

  /** The common terms, and what their comparison decides. */
  lemma AddJTerms(a: Jac, c: Jac, q: Affine, r: Affine, Z: int, p: int)
    requires FieldPrime(p) && a.Point? && c.Point? && Represents(a, q, p) && Represents(c, r, p) && Z == a.z * c.z
    ensures Z % p != 0
    ensures var z1z1, z2z2 := MulM(a.z, a.z, p), MulM(c.z, c.z, p);
      && Is(MulM(a.x, z2z2, p), q.x * (Z * Z), p) && Is(MulM(a.y, MulM(c.z, z2z2, p), p), q.y * (Z * Z * Z), p)
      && Is(MulM(c.x, z1z1, p), r.x * (Z * Z), p) && Is(MulM(c.y, MulM(a.z, z1z1, p), p), r.y * (Z * Z * Z), p)
      && (MulM(a.x, z2z2, p) == MulM(c.x, z1z1, p) <==> q.x == r.x)
      && (MulM(a.y, MulM(c.z, z2z2, p), p) == MulM(c.y, MulM(a.z, z1z1, p), p) <==> q.y == r.y)
  {
    SmallMod(a.z, p);
    SmallMod(c.z, p);
    NonZeroPowers(a.z, c.z, Z, p);
    CommonDenominator(a.x, a.y, q.x, q.y, a.z, c.z, Z, p);
    CommonDenominator(c.x, c.y, r.x, r.y, c.z, a.z, Z, p);
    SameMultiple(q.x, r.x, Z * Z, p);
    SameMultiple(q.y, r.y, Z * Z * Z, p);
  }

  lemma NonZeroPowers(z: int, w: int, Z: int, p: int)
    requires FieldPrime(p) && Z == z * w && z % p != 0 && w % p != 0
    ensures Z == w * z && Z % p != 0 && (Z * Z) % p != 0 && (Z * Z * Z) % p != 0
  {
    NonZeroProduct(z, w, p);
    NonZeroProduct(Z, Z, p);
    NonZeroProduct(Z * Z, Z, p);
  }

  lemma AddJChord(a: Jac, c: Jac, q: Affine, r: Affine, Z: int, p: int)
    requires FieldPrime(p) && a.Point? && c.Point? && Represents(a, q, p) && Represents(c, r, p) && q.x != r.x
    requires Z == a.z * c.z && Z % p != 0
    requires var z1z1, z2z2 := MulM(a.z, a.z, p), MulM(c.z, c.z, p);
      && Is(MulM(a.x, z2z2, p), q.x * (Z * Z), p) && Is(MulM(a.y, MulM(c.z, z2z2, p), p), q.y * (Z * Z * Z), p)
      && Is(MulM(c.x, z1z1, p), r.x * (Z * Z), p) && Is(MulM(c.y, MulM(a.z, z1z1, p), p), r.y * (Z * Z * Z), p)
      && MulM(a.x, z2z2, p) != MulM(c.x, z1z1, p)
    ensures Represents(AddJ(a, c, p), Third(q, r.x, Slope(q, r, p), p), p)
  {
    var D := r.x - q.x;
    var z1z1, z2z2 := MulM(a.z, a.z, p), MulM(c.z, c.z, p);
    var u1, u2 := MulM(a.x, z2z2, p), MulM(c.x, z1z1, p);
    var s1, s2 := MulM(a.y, MulM(c.z, z2z2, p), p), MulM(c.y, MulM(a.z, z1z1, p), p);
    var h := SubM(u2, u1, p);
    var twoh := AddM(h, h, p);
    Difference(u2, r.x, u1, q.x, Z * Z, p);
    Difference(s2, r.y, s1, q.y, Z * Z * Z, p);
    QuadrupleSquare(h, D * (Z * Z), p);
    AddJZ(h, D, a.z, c.z, p);
    ChordSlope(q, r, p);
    var zsum := AddM(a.z, c.z, p);
    FinishCorrect(u1, s1, h, MulM(twoh, twoh, p), SubM(s2, s1, p),
                  MulM(SubM(SubM(MulM(zsum, zsum, p), z1z1, p), z2z2, p), h, p),
                  q, r, Slope(q, r, p), Z, 2 * D * (Z * Z * Z), p);
  }

  // ---- back to affine coordinates ----

  /** X / Z^2 and Y / Z^3 with one exponentiation, as the code computes them. */
  function ToAffine(a: Jac, p: int): (r: Affine)
    requires 2 < p
    ensures r.At? <==> a.Point?
    ensures r.At? ==> 0 <= r.x < p && 0 <= r.y < p
  {
    if a.Infinity? then Zero
    else
      var zi := Inverse(a.z, p);
      var zi2 := MulM(zi, zi, p);
      At(MulM(a.x, zi2, p), MulM(a.y, MulM(zi2, zi, p), p))
  }

  lemma ToAffineCorrect(a: Jac, q: Affine, p: int)
    requires FieldPrime(p) && Represents(a, q, p)
    ensures ToAffine(a, p) == q
  {
    if a.Point? {
      var z, zi := a.z, Inverse(a.z, p);
      assert MulM(zi, z, p) == 1;
      SmallMod(zi, p);
      UnitPowers(zi, z, p);
      var zi2 := MulM(zi, zi, p);
      IsMul(zi, zi, zi, zi, p);
      IsMul(zi2, zi * zi, zi, zi, p);
      Divide(a.x, q.x, z * z, zi2, zi * zi, p);
      Divide(a.y, q.y, z * z * z, MulM(zi2, zi, p), zi * zi * zi, p);
    }
  }

  lemma UnitPowers(i: int, z: int, p: int)
    requires 2 < p && (i * z) % p == 1
    ensures (i * i * (z * z)) % p == 1 && (i * i * i * (z * z * z)) % p == 1
  {
    SmallMod(1, p);
    ModMul(i * z, i * z, p);
    assert i * z * (i * z) == i * i * (z * z);
    ModMul(i * i * (z * z), i * z, p);
    assert i * i * (z * z) * (i * z) == i * i * i * (z * z * z);
  }

  lemma Divide(v: int, x: int, k: int, m: int, i: int, p: int)
    requires 2 < p && 0 <= x < p && Is(v, x * k, p) && Is(m, i, p) && (i * k) % p == 1
    ensures MulM(v, m, p) == x
  {
    IsMul(v, x * k, m, i, p);
    Regroup(x, k, i);
    SmallMod(1, p);
    Scale(i * k, 1, x, p);
    SmallMod(x, p);
  }

  lemma Regroup(x: int, k: int, i: int)
    ensures x * k * i == x * (i * k)
  {
  }

  // ---- multiples ----

  ghost predicate Associates(q: Affine, r: Affine, s: Affine, b: int, p: int)
    requires 2 < p
  {
    OnCurve(q, b, p) && OnCurve(r, b, p) && OnCurve(s, b, p) ==>
      AddAffine(AddAffine(q, r, p), s, p) == AddAffine(q, AddAffine(r, s, p), p)
  }

  /** Associativity of chord and tangent on the curve: the group law the code relies on. */
  ghost predicate GroupLaw(b: int, p: int)
    requires 2 < p
  {
    forall q, r, s :: Associates(q, r, s, b, p)
  }

  /** The k-fold sum of `a`. */
  function Times(k: nat, a: Affine, p: int): Affine
    requires 2 < p
  {
    if k == 0 then Zero else AddAffine(Times(k - 1, a, p), a, p)
  }

  lemma {:induction false} TimesOnCurve(k: nat, a: Affine, b: int, p: int)
    requires FieldPrime(p) && OnCurve(a, b, p)
    ensures OnCurve(Times(k, a, p), b, p)
  {
    if k > 0 {
      TimesOnCurve(k - 1, a, b, p);
      AddOnCurve(Times(k - 1, a, p), a, b, p);
    }
  }

  lemma {:induction false} TimesAdd(m: nat, n: nat, a: Affine, b: int, p: int)
    requires FieldPrime(p) && GroupLaw(b, p) && OnCurve(a, b, p)
    ensures Times(m + n, a, p) == AddAffine(Times(m, a, p), Times(n, a, p), p)
  {
    if n > 0 {
      TimesAdd(m, n - 1, a, b, p);
      TimesOnCurve(m, a, b, p);
      TimesOnCurve(n - 1, a, b, p);
      assert m + n - 1 == m + (n - 1);
      assert Associates(Times(m, a, p), Times(n - 1, a, p), a, b, p);
    }
  }

  lemma {:induction false} TimesTimes(m: nat, n: nat, a: Affine, b: int, p: int)
    requires FieldPrime(p) && GroupLaw(b, p) && OnCurve(a, b, p)
    ensures Times(m, Times(n, a, p), p) == Times(m * n, a, p)
  {
    if m > 0 {
      TimesTimes(m - 1, n, a, b, p);
      var k := (m - 1) * n;
      OneMore(m, n, k);
      TimesAdd(k, n, a, b, p);
    }
  }

  lemma OneMore(m: nat, n: nat, k: int)
    requires m > 0 && k == (m - 1) * n
    ensures 0 <= k && k + n == m * n
  {
  }

  /** Left-to-right double-and-add. */
  function ScalarJ(k: nat, x: int, y: int, p: int): Jac
    requires 0 < p
  {
    if k == 0 then Infinity
    else
      var r := Dbl(ScalarJ(k / 2, x, y, p), p);
      if k % 2 == 1 then AddMixed(r, x, y, p) else r
  }

  /** Given the group law, double-and-add is the k-fold sum. */
  lemma {:induction false} ScalarCorrect(k: nat, a: Affine, b: int, p: int)
    requires FieldPrime(p) && GroupLaw(b, p) && a.At? && OnCurve(a, b, p)
    ensures Represents(ScalarJ(k, a.x, a.y, p), Times(k, a, p), p)
  {
    if k > 0 {
      ScalarCorrect(k / 2, a, b, p);
      DoubleAndAdd(k / 2, ScalarJ(k / 2, a.x, a.y, p), a, b, p);
    }
  }

  lemma DoubleAndAdd(h: nat, j: Jac, a: Affine, b: int, p: int)
    requires FieldPrime(p) && GroupLaw(b, p) && a.At? && OnCurve(a, b, p) && Represents(j, Times(h, a, p), p)
    ensures Represents(Dbl(j, p), Times(2 * h, a, p), p)
    ensures Represents(AddMixed(Dbl(j, p), a.x, a.y, p), Times(2 * h + 1, a, p), p)
  {
    TimesOnCurve(h, a, b, p);
    DblCorrect(j, Times(h, a, p), p);
    TimesAdd(h, h, a, b, p);
    assert h + h == 2 * h;
    TimesOnCurve(2 * h, a, b, p);
    AddMixedCorrect(Dbl(j, p), Times(2 * h, a, p), a, b, p);
  }
}
