/** Radix-2^16 signed limbs: the value of a limb array and how single updates move it. */
module Limbs {

  const R: int := 0x1_0000
  const TWO255: int := 0x8000000000000000_0000000000000000_0000000000000000_0000000000000000
  const TWO256: int := 2 * TWO255
  const P: int := TWO255 - 19

  /** A signed 64-bit integer: every store into an `i64` is a proof that nothing overflowed. */
  type i64 = x: int | -0x8000_0000_0000_0000 <= x <= 0x7fff_ffff_ffff_ffff

  function RPow(i: nat): (r: nat)
    ensures 0 < r
  {
    if i == 0 then 1 else R * RPow(i - 1)
  }

  lemma RPow16()
    ensures RPow(16) == TWO256 && RPow(15) * 0x8000 == TWO255
  {
    assert RPow(4) == 0x1_0000_0000_0000_0000;
    assert RPow(8) == R * R * R * R * RPow(4);
    assert RPow(12) == R * R * R * R * RPow(8);
    assert RPow(15) == R * R * R * RPow(12);
  }

  lemma {:induction false} RPowAdd(i: nat, j: nat)
    ensures RPow(i + j) == RPow(i) * RPow(j)
  {
    if i > 0 {
      RPowAdd(i - 1, j);
      assert RPow(i + j) == R * RPow(i - 1 + j);
    }
  }

  /** The integer a limb sequence stands for, limb `i` weighing 2^(16 i). */
  function Val(s: seq<int>): int
  {
    if s == [] then 0 else s[0] + R * Val(s[1..])
  }

  lemma {:induction false} ValUpdate(s: seq<int>, i: nat, d: int)
    requires i < |s|
    ensures Val(s[i := s[i] + d]) == Val(s) + d * RPow(i)
  {
    var t := s[i := s[i] + d];
    if i == 0 {
      assert t[1..] == s[1..];
    } else {
      ValUpdate(s[1..], i - 1, d);
      assert t[1..] == s[1..][i - 1 := s[1..][i - 1] + d];
      assert d * RPow(i) == R * (d * RPow(i - 1));
    }
  }

  lemma {:induction false} ValConcat(s: seq<int>, t: seq<int>)
    ensures Val(s + t) == Val(s) + RPow(|s|) * Val(t)
  {
    if s == [] {
      assert s + t == t;
    } else {
      ValConcat(s[1..], t);
      assert (s + t)[1..] == s[1..] + t;
      assert RPow(|s|) * Val(t) == R * (RPow(|s| - 1) * Val(t));
    }
  }

  lemma ValSnoc(s: seq<int>, i: nat)
    requires i < |s|
    ensures Val(s[..i + 1]) == Val(s[..i]) + RPow(i) * s[i]
  {
    assert s[..i + 1] == s[..i] + [s[i]];
    ValConcat(s[..i], [s[i]]);
    assert Val([s[i]]) == s[i];
  }

  /** Every limb is a 16-bit digit. */
  ghost predicate Digits(s: seq<int>)
  {
    forall i :: 0 <= i < |s| ==> 0 <= s[i] < R
  }

  ghost predicate Within(s: seq<int>, b: int)
  {
    forall i :: 0 <= i < |s| ==> -b <= s[i] <= b
  }

  lemma {:induction false} DigitsBound(s: seq<int>)
    requires Digits(s)
    ensures 0 <= Val(s) < RPow(|s|)
  {
    if s != [] {
      DigitsBound(s[1..]);
    }
  }

  /** A bound on all limbs bounds the value: |Val(s)| <= b (R^n - 1) / (R - 1). */
  lemma {:induction false} WithinBound(s: seq<int>, b: int)
    requires Within(s, b)
    ensures -b * (RPow(|s|) - 1) <= (R - 1) * Val(s) <= b * (RPow(|s|) - 1)
  {
    if s != [] {
      var t := s[1..];
      WithinBound(t, b);
      var q := RPow(|t|);
      assert b * (R * q - 1) == R * (b * (q - 1)) + (R - 1) * b;
      assert (R - 1) * Val(s) == (R - 1) * s[0] + R * ((R - 1) * Val(t));
      assert -(R - 1) * b <= (R - 1) * s[0] <= (R - 1) * b;
      assert R * ((R - 1) * Val(t)) <= R * (b * (q - 1));
      assert -b * (R * q - 1) == -(b * (R * q - 1));
      assert -b * (q - 1) == -(b * (q - 1));
      assert R * ((R - 1) * Val(t)) >= R * (-(b * (q - 1)));
    }
  }
}
