/** The point formulas of the P-256 code on its word arrays, statement by statement. */
module Jacobian {
  import opened ModArith
  import opened Bits
  import opened Words
  import opened Bignum
  import opened Curve

  const WORDS: nat := 9

  /** `p` holds the modulus `m` and has a spare word. */
  ghost predicate Modulus(p: Nat, m: int)
    reads p, p.w
  {
    p.Canon() && p.w.Length == WORDS && p.n < WORDS && p.Value() == m
  }

  /** `a` holds the residue `v`. */
  ghost predicate Elem(a: Nat, v: int, m: int)
    reads a, a.w
  {
    a.Canon() && a.w.Length == WORDS && a.Value() == v && v < m
  }

  method Mul(a: Nat, b: Nat, p: Nat, ghost v: int, ghost w: int, ghost m: int) returns (r: Nat)
    requires 0 < m && Modulus(p, m) && Elem(a, v, m) && Elem(b, w, m)
    ensures fresh(r) && fresh(r.w) && Elem(r, MulM(v, w, m), m)
  {
    r := MulMod(a, b, p);
  }

  method Add(a: Nat, b: Nat, p: Nat, ghost v: int, ghost w: int, ghost m: int) returns (r: Nat)
    requires 0 < m && Modulus(p, m) && Elem(a, v, m) && Elem(b, w, m)
    ensures Elem(r, AddM(v, w, m), m)
  {
    r := AddMod(a, b, p);
  }

  method Sub(a: Nat, b: Nat, p: Nat, ghost v: int, ghost w: int, ghost m: int) returns (r: Nat)
    requires 0 < m && Modulus(p, m) && Elem(a, v, m) && Elem(b, w, m)
    ensures Elem(r, SubM(v, w, m), m)
  {
    r := SubMod(a, b, p);
  }

  method Equal(a: Nat, b: Nat, ghost v: int, ghost w: int, ghost m: int) returns (same: bool)
    requires Elem(a, v, m) && Elem(b, w, m)
    ensures same <==> v == w
  {
    var c := Cmp(a, b);
    same := c == 0;
  }

  method IsZero(a: Nat, ghost v: int, ghost m: int) returns (zero: bool)
    requires Elem(a, v, m)
    ensures zero <==> v == 0
  {
    NumOfZero(a.w[..a.n]);
    zero := a.n == 0;
  }

  /** A Jacobian point in word arrays. */
  datatype JP = Inf | Pt(x: Nat, y: Nat, z: Nat)

  ghost predicate Holds(a: JP, j: Jac, m: int)
    reads if a.Pt? then {a.x, a.x.w, a.y, a.y.w, a.z, a.z.w} else {}
  {
    match a
    case Inf => j == Infinity
    case Pt(x, y, z) => j.Point? && Elem(x, j.x, m) && Elem(y, j.y, m) && Elem(z, j.z, m)
  }

  method Double(a: JP, p: Nat, ghost j: Jac, ghost m: int) returns (r: JP)
    requires 0 < m && Modulus(p, m) && Holds(a, j, m)
    ensures Holds(r, Dbl(j, m), m)
  {
    if a.Inf? { return Inf; }
    var zero := IsZero(a.y, j.y, m);
    if zero { return Inf; }
    r := DoublePoint(a.x, a.y, a.z, p, j, m);
  }

  method DoublePoint(x: Nat, y: Nat, z: Nat, p: Nat, ghost j: Jac, ghost m: int) returns (r: JP)
    requires 0 < m && Modulus(p, m) && j.Point? && Elem(x, j.x, m) && Elem(y, j.y, m) && Elem(z, j.z, m) && j.y != 0
    ensures Holds(r, Dbl(j, m), m)
  {
    hide Elem;
    hide Modulus;
    hide MulM;
    hide AddM;
    hide SubM;
    var xx := Mul(x, x, p, j.x, j.x, m);
    var yy := Mul(y, y, p, j.y, j.y, m);
    var zz := Mul(z, z, p, j.z, j.z, m);
    ghost var vxx, vyy, vzz := MulM(j.x, j.x, m), MulM(j.y, j.y, m), MulM(j.z, j.z, m);
    var yyyy := Mul(yy, yy, p, vyy, vyy, m);
    ghost var vyyyy := MulM(vyy, vyy, m);
    var s, vs := DoubleS(x, xx, yy, yyyy, p, j.x, vxx, vyy, vyyyy, m);
    var k, vk := DoubleM(xx, zz, p, vxx, vzz, m);
    var t, vt := DoubleX(s, k, p, vs, vk, m);
    var y3 := DoubleY(s, t, k, yyyy, p, vs, vt, vk, vyyyy, m);
    var z3 := DoubleZ(y, z, yy, zz, p, j.y, j.z, vyy, vzz, m);
    r := Pt(t, y3, z3);
  }

  /** m^2 - 2 s. */
  method DoubleX(s: Nat, k: Nat, p: Nat, ghost vs: int, ghost vk: int, ghost m: int) returns (t: Nat, ghost vt: int)
    requires 0 < m && Modulus(p, m) && Elem(s, vs, m) && Elem(k, vk, m)
    ensures vt == SubM(MulM(vk, vk, m), AddM(vs, vs, m), m) && Elem(t, vt, m)
  {
    hide *;
    var kk := Mul(k, k, p, vk, vk, m);
    var ss := Add(s, s, p, vs, vs, m);
    t := Sub(kk, ss, p, MulM(vk, vk, m), AddM(vs, vs, m), m);
    vt := SubM(MulM(vk, vk, m), AddM(vs, vs, m), m);
  }

  method DoubleS(x: Nat, xx: Nat, yy: Nat, yyyy: Nat, p: Nat,
                 ghost vx: int, ghost vxx: int, ghost vyy: int, ghost vyyyy: int, ghost m: int) returns (s: Nat, ghost vs: int)
    requires 0 < m && Modulus(p, m) && Elem(x, vx, m) && Elem(xx, vxx, m) && Elem(yy, vyy, m) && Elem(yyyy, vyyyy, m)
    ensures var e := AddM(vx, vyy, m); var s0 := SubM(SubM(MulM(e, e, m), vxx, m), vyyyy, m); vs == AddM(s0, s0, m)
    ensures Elem(s, vs, m)
  {
    hide *;
    var e := Add(x, yy, p, vx, vyy, m);
    ghost var ve := AddM(vx, vyy, m);
    var ee := Mul(e, e, p, ve, ve, m);
    var d := Sub(ee, xx, p, MulM(ve, ve, m), vxx, m);
    var s0 := Sub(d, yyyy, p, SubM(MulM(ve, ve, m), vxx, m), vyyyy, m);
    ghost var v0 := SubM(SubM(MulM(ve, ve, m), vxx, m), vyyyy, m);
    s := Add(s0, s0, p, v0, v0, m);
    vs := AddM(v0, v0, m);
  }

  method DoubleM(xx: Nat, zz: Nat, p: Nat, ghost vxx: int, ghost vzz: int, ghost m: int) returns (k: Nat, ghost vk: int)
    requires 0 < m && Modulus(p, m) && Elem(xx, vxx, m) && Elem(zz, vzz, m)
    ensures var m0 := SubM(vxx, MulM(vzz, vzz, m), m); vk == AddM(AddM(m0, m0, m), m0, m)
    ensures Elem(k, vk, m)
  {
    hide *;
    var zz2 := Mul(zz, zz, p, vzz, vzz, m);
    var m0 := Sub(xx, zz2, p, vxx, MulM(vzz, vzz, m), m);
    ghost var v0 := SubM(vxx, MulM(vzz, vzz, m), m);
    var m2 := Add(m0, m0, p, v0, v0, m);
    k := Add(m2, m0, p, AddM(v0, v0, m), v0, m);
    vk := AddM(AddM(v0, v0, m), v0, m);
  }

  /** m (s - t) - 8 y^4, the multiple by repeated doubling. */
  method DoubleY(s: Nat, t: Nat, k: Nat, yyyy: Nat, p: Nat,
                 ghost vs: int, ghost vt: int, ghost vk: int, ghost vyyyy: int, ghost m: int) returns (y3: Nat)
    requires 0 < m && Modulus(p, m) && Elem(s, vs, m) && Elem(t, vt, m) && Elem(k, vk, m) && Elem(yyyy, vyyyy, m)
    ensures var y2 := AddM(vyyyy, vyyyy, m); var y4 := AddM(y2, y2, m);
      Elem(y3, SubM(MulM(vk, SubM(vs, vt, m), m), AddM(y4, y4, m), m), m)
  {
    hide *;
    var d := Sub(s, t, p, vs, vt, m);
    var kd := Mul(k, d, p, vk, SubM(vs, vt, m), m);
    ghost var v2 := AddM(vyyyy, vyyyy, m);
    ghost var v4 := AddM(v2, v2, m);
    var y2 := Add(yyyy, yyyy, p, vyyyy, vyyyy, m);
    var y4 := Add(y2, y2, p, v2, v2, m);
    var y8 := Add(y4, y4, p, v4, v4, m);
    y3 := Sub(kd, y8, p, MulM(vk, SubM(vs, vt, m), m), AddM(v4, v4, m), m);
  }

  /** (y + z)^2 - a - b. */
  method DoubleZ(y: Nat, z: Nat, a: Nat, b: Nat, p: Nat,
                 ghost vy: int, ghost vz: int, ghost va: int, ghost vb: int, ghost m: int) returns (z3: Nat)
    requires 0 < m && Modulus(p, m) && Elem(y, vy, m) && Elem(z, vz, m) && Elem(a, va, m) && Elem(b, vb, m)
    ensures var yz := AddM(vy, vz, m); Elem(z3, SubM(SubM(MulM(yz, yz, m), va, m), vb, m), m)
  {
    hide *;
    var e := Add(y, z, p, vy, vz, m);
    ghost var ve := AddM(vy, vz, m);
    var ee := Mul(e, e, p, ve, ve, m);
    var d := Sub(ee, a, p, MulM(ve, ve, m), va, m);
    z3 := Sub(d, b, p, SubM(MulM(ve, ve, m), va, m), vb, m);
  }

  /** The common end of both additions. */
  method FinishPoint(u1: Nat, s1: Nat, h: Nat, i: Nat, d: Nat, z3: Nat, p: Nat,
                     ghost vu: int, ghost vs: int, ghost vh: int, ghost vi: int, ghost vd: int, ghost vz: int, ghost m: int)
    returns (r: JP)
    requires 0 < m && Modulus(p, m) && Elem(u1, vu, m) && Elem(s1, vs, m) && Elem(h, vh, m) && Elem(i, vi, m)
    requires Elem(d, vd, m) && Elem(z3, vz, m)
    ensures Holds(r, Finish(vu, vs, vh, vi, vd, vz, m), m)
  {
    hide Elem;
    hide Modulus;
    hide MulM;
    hide AddM;
    hide SubM;
    var j := Mul(h, i, p, vh, vi, m);
    var rr := Add(d, d, p, vd, vd, m);
    var v := Mul(u1, i, p, vu, vi, m);
    ghost var vj, vr, vv := MulM(vh, vi, m), AddM(vd, vd, m), MulM(vu, vi, m);
    var x3, vx := FinishX(rr, j, v, p, vr, vj, vv, m);
    var y3 := FinishY(rr, v, x3, s1, j, p, vr, vv, vx, vs, vj, m);
    r := Pt(x3, y3, z3);
  }

  method FinishX(rr: Nat, j: Nat, v: Nat, p: Nat, ghost vr: int, ghost vj: int, ghost vv: int, ghost m: int)
    returns (x3: Nat, ghost vx: int)
    requires 0 < m && Modulus(p, m) && Elem(rr, vr, m) && Elem(j, vj, m) && Elem(v, vv, m)
    ensures vx == SubM(SubM(MulM(vr, vr, m), vj, m), AddM(vv, vv, m), m) && Elem(x3, vx, m)
  {
    hide *;
    var r2 := Mul(rr, rr, p, vr, vr, m);
    var d := Sub(r2, j, p, MulM(vr, vr, m), vj, m);
    var v2 := Add(v, v, p, vv, vv, m);
    x3 := Sub(d, v2, p, SubM(MulM(vr, vr, m), vj, m), AddM(vv, vv, m), m);
    vx := SubM(SubM(MulM(vr, vr, m), vj, m), AddM(vv, vv, m), m);
  }

  method FinishY(rr: Nat, v: Nat, x3: Nat, s1: Nat, j: Nat, p: Nat,
                 ghost vr: int, ghost vv: int, ghost vx: int, ghost vs: int, ghost vj: int, ghost m: int) returns (y3: Nat)
    requires 0 < m && Modulus(p, m) && Elem(rr, vr, m) && Elem(v, vv, m) && Elem(x3, vx, m) && Elem(s1, vs, m) && Elem(j, vj, m)
    ensures var sj := MulM(vs, vj, m); Elem(y3, SubM(MulM(vr, SubM(vv, vx, m), m), AddM(sj, sj, m), m), m)
  {
    hide *;
    var d := Sub(v, x3, p, vv, vx, m);
    var rd := Mul(rr, d, p, vr, SubM(vv, vx, m), m);
    var sj := Mul(s1, j, p, vs, vj, m);
    ghost var vsj := MulM(vs, vj, m);
    var s2 := Add(sj, sj, p, vsj, vsj, m);
    y3 := Sub(rd, s2, p, MulM(vr, SubM(vv, vx, m), m), AddM(vsj, vsj, m), m);
  }

  /** q times the square, and q times the cube, of a z coordinate. */
  method Scaled(z: Nat, zz: Nat, x: Nat, y: Nat, p: Nat, ghost vz: int, ghost vzz: int, ghost vx: int, ghost vy: int, ghost m: int)
    returns (u: Nat, s: Nat)
    requires 0 < m && Modulus(p, m) && Elem(z, vz, m) && Elem(zz, vzz, m) && Elem(x, vx, m) && Elem(y, vy, m)
    ensures Elem(u, MulM(vx, vzz, m), m) && Elem(s, MulM(vy, MulM(vz, vzz, m), m), m)
  {
    hide *;
    u := Mul(x, zz, p, vx, vzz, m);
    var zzz := Mul(z, zz, p, vz, vzz, m);
    s := Mul(y, zzz, p, vy, MulM(vz, vzz, m), m);
  }

  /** Adds the affine point (qx, qy); `one` is the number 1. */
  method AddMixedPoint(a: JP, qx: Nat, qy: Nat, one: Nat, p: Nat, ghost j: Jac, ghost x: int, ghost y: int, ghost m: int)
    returns (r: JP)
    requires 0 < m && Modulus(p, m) && Holds(a, j, m) && Elem(qx, x, m) && Elem(qy, y, m) && Elem(one, 1, m)
    ensures Holds(r, AddMixed(j, x, y, m), m)
  {
    hide Elem;
    hide Modulus;
    hide MulM;
    hide AddM;
    hide SubM;
    hide Finish;
    hide Dbl;
    if a.Inf? { return Pt(qx, qy, one); }
    var zz := Mul(a.z, a.z, p, j.z, j.z, m);
    ghost var vzz := MulM(j.z, j.z, m);
    var u2, s2 := Scaled(a.z, zz, qx, qy, p, j.z, vzz, x, y, m);
    ghost var vu, vs := MulM(x, vzz, m), MulM(y, MulM(j.z, vzz, m), m);
    var same := Equal(u2, a.x, vu, j.x, m);
    if same {
      same := Equal(s2, a.y, vs, j.y, m);
      if same {
        r := Double(a, p, j, m);
      } else {
        r := Inf;
      }
      return;
    }
    var h := Sub(u2, a.x, p, vu, j.x, m);
    ghost var vh := SubM(vu, j.x, m);
    var hh := Mul(h, h, p, vh, vh, m);
    ghost var vhh := MulM(vh, vh, m);
    var h2 := Add(hh, hh, p, vhh, vhh, m);
    var i := Add(h2, h2, p, AddM(vhh, vhh, m), AddM(vhh, vhh, m), m);
    var d := Sub(s2, a.y, p, vs, j.y, m);
    var z3 := DoubleZ(a.z, h, zz, hh, p, j.z, vh, vzz, vhh, m);
    ghost var zh := AddM(j.z, vh, m);
    r := FinishPoint(a.x, a.y, h, i, d, z3, p, j.x, j.y, vh, AddM(AddM(vhh, vhh, m), AddM(vhh, vhh, m), m),
                     SubM(vs, j.y, m), SubM(SubM(MulM(zh, zh, m), vzz, m), vhh, m), m);
  }

  method AddPoints(a: JP, b: JP, p: Nat, ghost j: Jac, ghost k: Jac, ghost m: int) returns (r: JP)
    requires 0 < m && Modulus(p, m) && Holds(a, j, m) && Holds(b, k, m)
    ensures Holds(r, AddJ(j, k, m), m)
  {
    hide Elem;
    hide Modulus;
    hide MulM;
    hide AddM;
    hide SubM;
    hide Finish;
    hide Dbl;
    if a.Inf? { return b; }
    if b.Inf? { return a; }
    var z1 := Mul(a.z, a.z, p, j.z, j.z, m);
    var z2 := Mul(b.z, b.z, p, k.z, k.z, m);
    ghost var v1, v2 := MulM(j.z, j.z, m), MulM(k.z, k.z, m);
    var u1, s1 := Scaled(b.z, z2, a.x, a.y, p, k.z, v2, j.x, j.y, m);
    var u2, s2 := Scaled(a.z, z1, b.x, b.y, p, j.z, v1, k.x, k.y, m);
    ghost var vu1, vs1 := MulM(j.x, v2, m), MulM(j.y, MulM(k.z, v2, m), m);
    ghost var vu2, vs2 := MulM(k.x, v1, m), MulM(k.y, MulM(j.z, v1, m), m);
    var same := Equal(u1, u2, vu1, vu2, m);
    if same {
      same := Equal(s1, s2, vs1, vs2, m);
      if same {
        r := Double(a, p, j, m);
      } else {
        r := Inf;
      }
      return;
    }
    var e, ve := AddZ(a.z, b.z, z1, z2, p, j.z, k.z, v1, v2, m);
    r := Chord(u1, s1, u2, s2, e, p, vu1, vs1, vu2, vs2, ve, m);
  }

  /** (z1 + z2)^2 - z1^2 - z2^2. */
  method AddZ(a: Nat, b: Nat, z1: Nat, z2: Nat, p: Nat, ghost va: int, ghost vb: int, ghost v1: int, ghost v2: int, ghost m: int)
    returns (e: Nat, ghost ve: int)
    requires 0 < m && Modulus(p, m) && Elem(a, va, m) && Elem(b, vb, m) && Elem(z1, v1, m) && Elem(z2, v2, m)
    ensures var zs := AddM(va, vb, m); ve == SubM(SubM(MulM(zs, zs, m), v1, m), v2, m) && Elem(e, ve, m)
  {
    hide *;
    e := DoubleZ(a, b, z1, z2, p, va, vb, v1, v2, m);
    ghost var zs := AddM(va, vb, m);
    ve := SubM(SubM(MulM(zs, zs, m), v1, m), v2, m);
  }

  /** The addition of points with different abscissas. */
  method Chord(u1: Nat, s1: Nat, u2: Nat, s2: Nat, e: Nat, p: Nat,
               ghost vu1: int, ghost vs1: int, ghost vu2: int, ghost vs2: int, ghost ve: int, ghost m: int) returns (r: JP)
    requires 0 < m && Modulus(p, m) && Elem(u1, vu1, m) && Elem(s1, vs1, m) && Elem(u2, vu2, m) && Elem(s2, vs2, m)
    requires Elem(e, ve, m)
    ensures var vh := SubM(vu2, vu1, m); var hh := AddM(vh, vh, m);
      Holds(r, Finish(vu1, vs1, vh, MulM(hh, hh, m), SubM(vs2, vs1, m), MulM(ve, vh, m), m), m)
  {
    hide *;
    var h := Sub(u2, u1, p, vu2, vu1, m);
    ghost var vh := SubM(vu2, vu1, m);
    var hh := Add(h, h, p, vh, vh, m);
    ghost var vhh := AddM(vh, vh, m);
    var i := Mul(hh, hh, p, vhh, vhh, m);
    var d := Sub(s2, s1, p, vs2, vs1, m);
    var z3 := Mul(e, h, p, ve, vh, m);
    r := FinishPoint(u1, s1, h, i, d, z3, p, vu1, vs1, vh, MulM(vhh, vhh, m), SubM(vs2, vs1, m), MulM(ve, vh, m), m);
  }

  /** k P by scanning the bits of k from the top. */
  method Scalar(k: Nat, x: Nat, y: Nat, p: Nat, ghost vx: int, ghost vy: int, ghost m: int) returns (r: JP)
    requires 2 < m && Modulus(p, m) && k.Canon() && Elem(x, vx, m) && Elem(y, vy, m)
    ensures Holds(r, ScalarJ(k.Value(), vx, vy, m), m)
  {
    hide Elem;
    hide Modulus;
    hide Dbl;
    hide AddMixed;
    hide Holds;
    hide ScalarJ;
    hide Pow2;
    ghost var v := k.Value();
    var one := Small(m);
    r := Inf;
    var nb := NBits(k);
    ScalarStart(v, nb, vx, vy, m);
    var i := nb;
    while i > 0
      invariant 0 <= i <= nb && Elem(one, 1, m) && Holds(r, ScalarJ(Shr(v, i), vx, vy, m), m)
    {
      ScalarTurn(v, i, vx, vy, m);
      ghost var j := ScalarJ(Shr(v, i), vx, vy, m);
      r := Double(r, p, j, m);
      var bit := Bit(k, i - 1);
      if bit {
        r := AddMixedPoint(r, x, y, one, p, Dbl(j, m), vx, vy, m);
      }
      i := i - 1;
    }
  }

  lemma {:induction false} ScalarStart(v: nat, nb: nat, x: int, y: int, m: int)
    requires 0 < m && v < Pow2(nb)
    ensures Shr(v, 0) == v && ScalarJ(Shr(v, nb), x, y, m) == Infinity && Holds(Inf, Infinity, m)
  {
    ModUnique(v, 0, v, Pow2(nb));
    assert Pow2(0) == 1;
  }

  /** One bit more. */
  lemma {:induction false} ScalarTurn(v: nat, i: nat, x: int, y: int, m: int)
    requires 0 < m && 0 < i
    ensures var j := ScalarJ(Shr(v, i), x, y, m); var q := Shr(v, i - 1);
      ScalarJ(q, x, y, m) == if q % 2 == 1 then AddMixed(Dbl(j, m), x, y, m) else Dbl(j, m)
  {
    hide Pow2;
    HalfShift(v, i - 1);
  }

  lemma HalfShift(v: nat, i: nat)
    ensures Shr(v, i + 1) == Shr(v, i) / 2
  {
    DivDiv(v, Pow2(i), 2);
  }

  /** The number 1. */
  method Small(ghost m: int) returns (one: Nat)
    requires 1 < m
    ensures Elem(one, 1, m)
  {
    one := One(WORDS);
  }

  /** z^(m-2), the inverse of a coordinate. */
  method Invert(z: Nat, p: Nat, ghost v: int, ghost m: int) returns (r: Nat)
    requires 2 < m && Modulus(p, m) && Elem(z, v, m)
    ensures Elem(r, Inverse(v, m), m)
  {
    var two := One(WORDS);
    two.w[0] := 2;
    assert two.w[..1] == [2] && Num([2]) == 2;
    var e := Minus(p, two);
    r := PowMod(z, e, p);
  }

  /** X / Z^2 and Y / Z^3 with one exponentiation. */
  method AffineXY(a: JP, p: Nat, ghost j: Jac, ghost m: int) returns (ok: bool, x: Nat, y: Nat)
    requires 2 < m && Modulus(p, m) && Holds(a, j, m)
    ensures ok <==> ToAffine(j, m).At?
    ensures ok ==> fresh(x) && fresh(x.w) && Elem(x, ToAffine(j, m).x, m) && Elem(y, ToAffine(j, m).y, m)
  {
    hide Elem;
    hide Modulus;
    hide MulM;
    hide Inverse;
    if a.Inf? {
      var none := new Nat(WORDS);
      return false, none, none;
    }
    var zi := Invert(a.z, p, j.z, m);
    ghost var vi := Inverse(j.z, m);
    var zi2 := Mul(zi, zi, p, vi, vi, m);
    var zi3 := Mul(zi2, zi, p, MulM(vi, vi, m), vi, m);
    x := Mul(a.x, zi2, p, j.x, MulM(vi, vi, m), m);
    y := Mul(a.y, zi3, p, j.y, MulM(MulM(vi, vi, m), vi, m), m);
    ok := true;
  }
}
