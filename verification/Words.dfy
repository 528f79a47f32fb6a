/** Little-endian radix-2^32 word strings and the naturals they denote. */
module Words {
  import opened Bits
  import opened ModArith

  const B: int := 0x1_0000_0000

  type u32 = x: int | 0 <= x < 0x1_0000_0000
  type u64 = x: int | 0 <= x < 0x1_0000_0000_0000_0000

  function BPow(i: nat): (r: nat)
    ensures 0 < r
  {
    if i == 0 then 1 else B * BPow(i - 1)
  }

  function Num(s: seq<u32>): nat
  {
    if s == [] then 0 else s[0] + B * Num(s[1..])
  }

  lemma {:induction false} NumConcat(s: seq<u32>, t: seq<u32>)
    ensures Num(s + t) == Num(s) + BPow(|s|) * Num(t)
  {
    if s == [] {
      assert s + t == t;
    } else {
      NumConcat(s[1..], t);
      assert (s + t)[1..] == s[1..] + t;
      assert BPow(|s|) * Num(t) == B * (BPow(|s| - 1) * Num(t));
    }
  }

  lemma {:induction false} NumAppend(s: seq<u32>, x: u32)
    ensures Num(s + [x]) == Num(s) + BPow(|s|) * x
  {
    NumConcat(s, [x]);
    assert Num([x]) == x;
  }

  lemma NumSnoc(s: seq<u32>, i: nat)
    requires i < |s|
    ensures Num(s[..i + 1]) == Num(s[..i]) + BPow(i) * s[i]
  {
    assert s[..i + 1] == s[..i] + [s[i]];
    NumAppend(s[..i], s[i]);
  }

  lemma {:induction false} NumBound(s: seq<u32>)
    ensures Num(s) < BPow(|s|)
  {
    if s != [] { NumBound(s[1..]); }
  }

  /** No word is lost above the top one. */
  ghost predicate Trimmed(s: seq<u32>)
  {
    s != [] ==> s[|s| - 1] != 0
  }

  lemma {:induction false} TopWord(s: seq<u32>)
    requires s != [] && Trimmed(s)
    ensures BPow(|s| - 1) <= Num(s) < BPow(|s|)
  {
    var k := |s| - 1;
    NumSnoc(s, k);
    assert s[..k + 1] == s;
    NumBound(s);
    MulMono(BPow(k), 1, s[k]);
  }

  lemma {:induction false} BPowMono(i: nat, j: nat)
    requires i <= j
    ensures BPow(i) <= BPow(j)
    decreases j
  {
    if i < j { BPowMono(i, j - 1); }
  }

  /** Fewer words, smaller number. */
  lemma {:induction false} ShorterIsLess(s: seq<u32>, t: seq<u32>)
    requires |s| < |t| && Trimmed(t)
    ensures Num(s) < Num(t)
  {
    NumBound(s);
    TopWord(t);
    BPowMono(|s|, |t| - 1);
  }

  lemma {:induction false} LengthMono(s: seq<u32>, t: seq<u32>)
    requires Trimmed(s) && Num(s) <= Num(t)
    ensures |s| <= |t|
  {
    if |s| > |t| { ShorterIsLess(t, s); }
  }

  /** Equal high words and a smaller word at `i` decide the order. */
  lemma {:induction false} FirstDifference(s: seq<u32>, t: seq<u32>, i: nat)
    requires |s| == |t| && i < |s| && s[i + 1..] == t[i + 1..] && s[i] < t[i]
    ensures Num(s) < Num(t)
  {
    NumSnoc(s, i);
    NumSnoc(t, i);
    NumBound(s[..i]);
    assert s == s[..i + 1] + s[i + 1..] && t == t[..i + 1] + t[i + 1..];
    NumConcat(s[..i + 1], s[i + 1..]);
    NumConcat(t[..i + 1], t[i + 1..]);
    HighDigitDecides(Num(s[..i]), Num(t[..i]), BPow(i), s[i], t[i]);
  }

  lemma HighDigitDecides(low: nat, other: nat, w: nat, x: nat, y: nat)
    requires low < w && x < y
    ensures low + w * x < other + w * y
  {
    assert w * (x + 1) <= w * y;
  }

  lemma {:induction false} NumOfZero(s: seq<u32>)
    requires Trimmed(s)
    ensures Num(s) == 0 <==> s == []
  {
    if s != [] { TopWord(s); }
  }

  lemma {:induction false} BPowIsPow2(i: nat)
    ensures BPow(i) == Pow2(32 * i)
  {
    if i > 0 {
      BPowIsPow2(i - 1);
      Pow2Add(32, 32 * (i - 1));
      Pow2At32();
    }
  }

  lemma Pow2At32()
    ensures Pow2(32) == B
  {
    assert Pow2(8) == 256;
    Pow2Add(8, 8);
    Pow2Add(16, 16);
  }

  /** Bit `i` of a number is bit `i % 32` of word `i / 32`. */
  lemma {:induction false} WordBit(s: seq<u32>, i: nat)
    ensures Num(s) / Pow2(i) % 2 == if i / 32 < |s| then s[i / 32] / Pow2(i % 32) % 2 else 0
  {
    if s == [] {
      ZeroOver(Pow2(i));
    } else if i < 32 {
      LowWordBit(s[0], Num(s[1..]), i);
    } else {
      WordBit(s[1..], i - 32);
      HighWordBit(s[0], Num(s[1..]), i);
      assert (i - 32) / 32 == i / 32 - 1 && (i - 32) % 32 == i % 32;
    }
  }

  lemma HighWordBit(x: u32, n: nat, i: nat)
    requires i >= 32
    ensures (x + B * n) / Pow2(i) == n / Pow2(i - 32)
  {
    Pow2Add(32, i - 32);
    Pow2At32();
    DivIs(x + B * n, B, n, x);
    DivDiv(x + B * n, B, Pow2(i - 32));
  }

  lemma ZeroOver(p: nat)
    requires 0 < p
    ensures 0 / p == 0
  {
  }

  lemma {:induction false} LowWordBit(x: u32, n: nat, i: nat)
    requires i < 32
    ensures (x + B * n) / Pow2(i) % 2 == x / Pow2(i) % 2
  {
    Pow2Add(i, 32 - i);
    Pow2At32();
    assert Pow2(32 - i) == 2 * Pow2(31 - i);
    LowBitArith(x, n, Pow2(i), Pow2(31 - i), B);
  }

  lemma {:induction false} NumUpdate(s: seq<u32>, k: nat, x: u32)
    requires k < |s|
    ensures Num(s[k := x]) == Num(s) + BPow(k) * (x - s[k])
  {
    var t := s[k := x];
    if k == 0 {
      assert t[1..] == s[1..];
    } else {
      NumUpdate(s[1..], k - 1, x);
      assert t[1..] == s[1..][k - 1 := x];
      assert B * (BPow(k - 1) * (x - s[k])) == BPow(k) * (x - s[k]);
    }
  }

  lemma {:induction false} NumZero(s: seq<u32>)
    requires forall i :: 0 <= i < |s| ==> s[i] == 0
    ensures Num(s) == 0
  {
    if s != [] { NumZero(s[1..]); }
  }

  /** Byte `k` of a number is byte `k % 4` of word `k / 4`. */
  lemma {:induction false} WordByte(s: seq<u32>, k: nat)
    ensures Num(s) / Pow2(8 * k) % 256 == if k / 4 < |s| then s[k / 4] / Pow2(8 * (k % 4)) % 256 else 0
  {
    if s == [] {
      ZeroOver(Pow2(8 * k));
    } else if k < 4 {
      LowWordByte(s[0], Num(s[1..]), k);
      assert k / 4 == 0 && k % 4 == k;
    } else {
      WordByte(s[1..], k - 4);
      HighWordBit(s[0], Num(s[1..]), 8 * k);
      assert 8 * k - 32 == 8 * (k - 4);
      assert (k - 4) / 4 == k / 4 - 1 && (k - 4) % 4 == k % 4;
    }
  }

  lemma {:induction false} LowWordByte(x: u32, n: nat, k: nat)
    requires k < 4
    ensures (x + B * n) / Pow2(8 * k) % 256 == x / Pow2(8 * k) % 256
  {
    var p, q := Pow2(8 * k), Pow2(24 - 8 * k);
    Pow2Add(8 * k, 24 - 8 * k);
    assert Pow2(8) == 256;
    Pow2Add(8, 16);
    Pow2Add(8, 8);
    LowByteArith(x, n, p, q);
  }

  lemma LowByteArith(x: nat, n: nat, p: nat, q: nat)
    requires 0 < p && p * q == 0x100_0000
    ensures (x + B * n) / p % 256 == x / p % 256
  {
    assert (p * q) * n == p * (q * n);
    DivIs(x + B * n, p, x / p + 256 * (q * n), x % p);
    ModShift(x / p, q * n, 256);
  }
}
