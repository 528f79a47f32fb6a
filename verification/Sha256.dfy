/** The streaming SHA-256 object; the compression function is a parameter. */
module Sha256 {
  import opened Bits
  import opened ModArith
  import opened Words

  type State = s: seq<u32> | |s| == 8 witness seq(8, _ => 0)
  type Block = s: Bytes | |s| == 64 witness seq(64, _ => 0)
  type Digest = s: Bytes | |s| == 32 witness seq(32, _ => 0)

  type Compression = (State, Block) -> State

  /** H(0) of section 5.3.3 of FIPS 180-4. */
  const IV: State := [0x6a09e667, 0xbb67ae85, 0x3c6ef372, 0xa54ff53a, 0x510e527f, 0x9b05688c, 0x1f83d9ab, 0x5be0cd19]

  const PRIMES: seq<nat> := [2, 3, 5, 7, 11, 13, 17, 19]
  const ROOTS: seq<nat> := [1, 1, 2, 2, 3, 3, 4, 4]

  /** The initial words are the first 32 bits of the fractional parts of the square roots of the first eight primes. */
  lemma InitialWords(i: nat)
    requires i < 8
    ensures var x := ROOTS[i] * 0x1_0000_0000 + IV[i];
      x * x <= PRIMES[i] * 0x1_0000_0000_0000_0000 < (x + 1) * (x + 1)
  {
  }

  /** The words most significant octet first. */
  function Octets(h: seq<u32>): (s: Bytes)
    ensures |s| == 4 * |h|
  {
    if h == [] then [] else Octets(h[..|h| - 1]) + ToBe(h[|h| - 1], 4)
  }

  /** The chaining value after the whole blocks of `s`. */
  function Fold(f: Compression, h: State, s: Bytes): State
    requires |s| % 64 == 0
    decreases |s|
  {
    if s == [] then h else Fold(f, f(h, s[..64]), s[64..])
  }

  lemma {:induction false} FoldConcat(f: Compression, h: State, s: Bytes, t: Bytes)
    requires |s| % 64 == 0 && |t| % 64 == 0
    ensures (|s| + |t|) % 64 == 0 && Fold(f, h, s + t) == Fold(f, Fold(f, h, s), t)
    decreases |s|
  {
    if s == [] {
      assert s + t == t;
    } else {
      FoldConcat(f, f(h, s[..64]), s[64..], t);
      assert (s + t)[..64] == s[..64] && (s + t)[64..] == s[64..] + t;
    }
  }

  function Zeros(n: nat): (s: Bytes)
    ensures |s| == n
  {
    seq(n, _ => 0)
  }

  /** The padding of section 5.1.1 of FIPS 180-4; the 64-bit length field wraps. */
  function Pad(s: Bytes): (p: Bytes)
    ensures |p| % 64 == 0
  {
    s + [0x80] + Zeros(PadZeros(|s|)) + ToBe(8 * |s|, 8)
  }

  /** The least number of zeros that leaves room for exactly the length field. */
  function PadZeros(n: nat): (k: nat)
    ensures k < 64 && (n + 1 + k + 8) % 64 == 0
  {
    (119 - n % 64) % 64
  }

  /** Below 2^61 octets the length field is the exact bit length. */
  lemma PadLengthField(s: Bytes)
    requires |s| < Pow2(61)
    ensures var p := Pad(s); Be(p[|p| - 8..]) == 8 * |s| && p[..|s|] == s && p[|s|] == 0x80
    ensures var p := Pad(s); |p| < |s| + 9 + 64 && forall i :: |s| < i < |p| - 8 ==> p[i] == 0
  {
    hide Be;
    hide ToBe;
    var p := Pad(s);
    Pow2Add(3, 61);
    assert Pow2(3) == 8;
    BeOfToBe(8 * |s|, 8);
    assert p[|p| - 8..] == ToBe(8 * |s|, 8);
  }

  function Hash(f: Compression, s: Bytes): Digest { Octets(Fold(f, IV, Pad(s))) }

  function Blocks(data: Bytes, n: nat): Bytes
    requires n <= |data|
  {
    data[..|data| - n]
  }

  function Tail(data: Bytes, n: nat): Bytes
    requires n <= |data|
  {
    data[|data| - n..]
  }

  class Hasher {
    const f: Compression
    var state: State
    var total: nat
    const buffer: array<Byte>
    var buffered: nat
    ghost var data: Bytes   // the octets absorbed since the last reset

    /** The state is the fold of the whole blocks and the buffer holds the rest. */
    ghost predicate Core()
      reads this, buffer
    {
      && buffer.Length == 64 && buffered <= 64 && buffered <= |data| && |Blocks(data, buffered)| % 64 == 0
      && state == Fold(f, IV, Blocks(data, buffered))
      && buffer[..buffered] == Tail(data, buffered)
    }

    ghost predicate Valid()
      reads this, buffer
    {
      Core() && buffered < 64 && total == |data| % Pow2(64)
    }

    constructor (f: Compression)
      ensures Valid() && data == [] && fresh(buffer) && this.f == f
    {
      this.f := f;
      state := IV;
      total := 0;
      buffer := new Byte[64](_ => 0);
      buffered := 0;
      data := [];
    }

    method Reset()
      requires buffer.Length == 64
      modifies this, buffer
      ensures Valid() && data == []
    {
      state := IV;
      total := 0;
      buffered := 0;
      data := [];
      for i := 0 to 64
        modifies buffer
      {
        buffer[i] := 0;
      }
    }

    /** memcpy behind the buffered octets. */
    method Append(piece: Bytes)
      requires Core() && buffered + |piece| <= 64
      modifies this`buffered, this`data, buffer
      ensures Core() && buffered == old(buffered) + |piece| && data == old(data) + piece
    {
      ghost var held := buffer[..buffered];
      for i := 0 to |piece|
        modifies buffer
        invariant buffer[..buffered + i] == held + piece[..i]
      {
        buffer[buffered + i] := piece[i];
      }
      assert piece[..|piece|] == piece;
      ghost var n := |data| - buffered;
      assert (data + piece)[..n] == data[..n] && (data + piece)[n..] == data[n..] + piece;
      buffered := buffered + |piece|;
      data := data + piece;
    }

    /** Feeds a full buffer to the compression function. */
    method Transform()
      requires Core() && buffered == 64
      modifies this`state, this`buffered
      ensures Core() && buffered == 0
    {
      ghost var n := |data| - 64;
      assert buffer[..] == buffer[..64] == data[n..];
      FoldConcat(f, IV, data[..n], data[n..]);
      OneBlock(f, state, data[n..]);
      assert data[..n] + data[n..] == data && data[..|data|] == data;
      state := f(state, buffer[..]);
      buffered := 0;
    }

    /** Absorbs `s` in whatever pieces fit the buffer. */
    method Update(s: Bytes)
      requires Valid()
      modifies this, buffer
      ensures Valid() && data == old(data) + s
    {
      WrapSum(|data|, |s|, Pow2(64));
      total := (total + |s|) % Pow2(64);
      AbsorbAll(s);
    }

    method AbsorbAll(s: Bytes)
      requires Core() && buffered < 64
      modifies this`state, this`buffered, this`data, buffer
      ensures Core() && buffered < 64 && data == old(data) + s
    {
      var off := 0;
      while off < |s|
        invariant off <= |s| && Core() && buffered < 64 && data == old(data) + s[..off]
      {
        var take := if 64 - buffered > |s| - off then |s| - off else 64 - buffered;
        Absorb(s[off..off + take]);
        assert s[..off + take] == s[..off] + s[off..off + take];
        off := off + take;
      }
      assert s[..off] == s;
    }

    method Absorb(piece: Bytes)
      requires Core() && buffered < 64 && buffered + |piece| <= 64
      modifies this`state, this`buffered, this`data, buffer
      ensures Core() && buffered < 64 && data == old(data) + piece
    {
      Append(piece);
      if buffered == 64 {
        Transform();
      }
    }

    /** buffer_[buffered_++] = 0 up to `n` octets. */
    method FillTo(n: nat)
      requires Core() && buffered <= n <= 64
      modifies this`buffered, this`data, buffer
      ensures Core() && buffered == n && data == old(data) + Zeros(n - old(buffered))
    {
      while buffered < n
        invariant Core() && old(buffered) <= buffered <= n && data == old(data) + Zeros(buffered - old(buffered))
      {
        Append([0]);
        assert Zeros(buffered - old(buffered)) == Zeros(buffered - 1 - old(buffered)) + [0];
      }
    }

    /** The copy a C++ assignment makes. */
    method Copy() returns (c: Hasher)
      requires Valid()
      ensures fresh(c) && fresh(c.buffer) && c.Valid() && c.data == data && c.f == f
    {
      var b, h, t, n := buffer[..], state, total, buffered;
      ghost var d := data;
      assert b[..n] == buffer[..n] == Tail(d, n);
      c := new Hasher(f);
      c.CopyBuffer(b);
      c.state, c.total, c.buffered, c.data := h, t, n, d;
      assert c.buffer[..n] == c.buffer[..][..n];
    }

    method CopyBuffer(b: Bytes)
      requires |b| == buffer.Length == 64
      modifies buffer
      ensures buffer[..] == b
    {
      for i := 0 to 64
        invariant buffer[..i] == b[..i]
      {
        buffer[i] := b[i];
      }
    }

    /** Pads and finishes; the object must be reset before it is used again. */
    method Final() returns (out: Digest)
      requires Valid()
      modifies this, buffer
      ensures out == Hash(f, old(data))
    {
      PadOut();
      Transform();
      assert data[..|data|] == data;
      out := Print(state);
    }

    /** What the two fills of the finishing code append. */
    lemma PadParts()
      requires Valid()
      ensures Core() && buffered < 64 && ToBe(total * 8 % Pow2(64), 8) == ToBe(8 * |data|, 8)
      ensures buffered < 56 ==> Pad(data) == data + [0x80] + Zeros(55 - buffered) + ToBe(8 * |data|, 8)
      ensures buffered >= 56 ==> Pad(data) == data + [0x80] + Zeros(63 - buffered) + Zeros(56) + ToBe(8 * |data|, 8)
    {
      PadIs(data, buffered);
      LengthField(|data|, total);
    }

    /** Appends the padding, leaving the last block in the buffer. */
    method PadOut()
      requires Valid()
      modifies this, buffer
      ensures Core() && buffered == 64 && data == Pad(old(data))
    {
      hide *;
      PadParts();
      var bits := total * 8 % Pow2(64);
      Append([0x80]);
      if buffered > 56 {
        FillTo(64);
        Transform();
      }
      FillTo(56);
      Append(ToBe(bits, 8));
    }
  }

  method Print(h: State) returns (out: Digest)
    ensures out == Octets(h)
  {
    var s: Bytes := [];
    for i := 0 to 8
      invariant s == Octets(h[..i])
    {
      assert h[..i + 1][..i] == h[..i];
      s := s + ToBe(h[i], 4);
    }
    assert h[..8] == h;
    out := s;
  }

  /** The two fills of the finishing code add up to the padding. */
  lemma {:induction false} PadIs(d: Bytes, b: nat)
    requires b < 64 && b <= |d| && (|d| - b) % 64 == 0
    ensures b + 1 <= 56 ==> Pad(d) == d + [0x80] + Zeros(55 - b) + ToBe(8 * |d|, 8)
    ensures b + 1 > 56 ==> Pad(d) == d + [0x80] + Zeros(63 - b) + Zeros(56) + ToBe(8 * |d|, 8)
  {
    assert |d| % 64 == b;
    if b + 1 <= 56 {
      assert PadZeros(|d|) == 55 - b;
    } else {
      assert PadZeros(|d|) == 119 - b;
      assert Zeros(63 - b) + Zeros(56) == Zeros(119 - b);
      assert d + [0x80] + Zeros(63 - b) + Zeros(56) == d + [0x80] + (Zeros(63 - b) + Zeros(56));
    }
  }

  lemma {:induction false} OneBlock(f: Compression, h: State, b: Bytes)
    requires |b| == 64
    ensures Fold(f, h, b) == f(h, b)
  {
    assert b[..64] == b && b[64..] == [];
  }

  lemma WrapSum(n: nat, k: nat, m: nat)
    requires 0 < m
    ensures (n % m + k) % m == (n + k) % m
  {
    ModAdd(n, k, m);
    ModAdd(n % m, k, m);
    ModMod(n, m);
  }

  lemma {:induction false} LengthField(n: nat, total: nat)
    requires total == n % Pow2(64)
    ensures ToBe(total * 8 % Pow2(64), 8) == ToBe(8 * n, 8)
  {
    var m := Pow2(64);
    ModMul(n, 8, m);
    ModMul(total, 8, m);
    ModMod(n, m);
    assert total * 8 % m == 8 * n % m;
    ToBeWraps(8 * n, 8);
  }

  // ---- the transcript ----

  class Transcript {
    const sha: Hasher

    ghost predicate Valid()
      reads this, sha, sha.buffer
    {
      sha.Valid()
    }

    constructor (f: Compression)
      ensures Valid() && sha.data == [] && fresh(sha) && fresh(sha.buffer) && sha.f == f
    {
      sha := new Hasher(f);
    }

    method Reset()
      requires sha.buffer.Length == 64
      modifies sha, sha.buffer
      ensures Valid() && sha.data == []
    {
      sha.Reset();
    }

    method Update(s: Bytes)
      requires Valid()
      modifies sha, sha.buffer
      ensures Valid() && sha.data == old(sha.data) + s
    {
      if |s| > 0 {
        sha.Update(s);
      }
    }

    /** Finishes a copy: the hash so far, with the running object untouched. */
    method Snapshot() returns (out: Digest)
      requires Valid()
      ensures out == Hash(sha.f, sha.data)
    {
      var copy := sha.Copy();
      out := copy.Final();
    }
  }
}
