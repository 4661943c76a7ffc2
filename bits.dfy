/** Bit-level arithmetic shared by both generations of the compressor: bytes,
    powers of two, the bits of a two's-complement integer and the MSB-first
    packing of bits into bytes. */
module Bits {

  /** A byte value as `std::istream::get()` returns it for a character read. */
  type byte = x: int | 0 <= x < 256

  function Pow2(n: nat): (r: nat)
    ensures r >= 1
  {
    if n == 0 then 1 else 2 * Pow2(n - 1)
  }

  /** Bit `i` (bit 0 least significant) of the two's-complement value `x`.
      Dafny's division rounds toward minus infinity, which is an arithmetic
      shift, so `Bit(x, 7)` is the test `x & 0X80` for negative `x` as well. */
  function Bit(x: int, i: nat): bool
    decreases i
  {
    if i == 0 then x % 2 == 1 else Bit(x / 2, i - 1)
  }

  /** The `n` low bits of `x`, most significant first. */
  function ToBits(x: int, n: nat): (r: seq<bool>)
    ensures |r| == n
    decreases n
  {
    if n == 0 then [] else ToBits(x / 2, n - 1) + [x % 2 == 1]
  }

  /** The value of a bit sequence read most significant bit first. */
  function FromBits(p: seq<bool>): (r: nat)
    ensures r < Pow2(|p|)
  {
    if p == [] then 0 else 2 * FromBits(p[..|p| - 1]) + (if p[|p| - 1] then 1 else 0)
  }

  /** The eight low bits of `x`, most significant first. */
  function ByteBits(x: int): (r: seq<bool>)
    ensures |r| == 8
  {
    seq(8, j requires 0 <= j < 8 => Bit(x, 7 - j))
  }

  /** The byte that a conversion to an 8-bit character keeps of `x`: its
      eight low bits, which for a negative `x` is `x + 256 * k` for some `k`. */
  function LowByte(x: int): byte
  {
    x % 256
  }

  /** A byte sequence as the bits of its bytes in order, each MSB first. */
  function BytesBits(s: seq<int>): (r: seq<bool>)
    ensures |r| == 8 * |s|
  {
    if s == [] then [] else ByteBits(s[0]) + BytesBits(s[1..])
  }

  function Ones(n: nat): (r: seq<bool>)
    ensures |r| == n
  {
    seq(n, _ => true)
  }

  function Zeros(n: nat): (r: seq<bool>)
    ensures |r| == n
  {
    seq(n, _ => false)
  }

  /** The bit a reader obtains from a stream whose remaining bits are `r`:
      once the stream is exhausted, `get()` yields EOF (-1), whose bits are
      all set. */
  function NextBit(r: seq<bool>): bool
  {
    if r == [] then true else r[0]
  }

  /** The bits left after one bit is read from `r`; reading from an empty
      stream loads EOF, of which seven set bits remain. */
  function Advance(r: seq<bool>): seq<bool>
  {
    if r == [] then Ones(7) else r[1..]
  }

  /** The bits left after `n` reads from `r`: once `r` is used up, every
      eight reads load one more EOF byte, so a number of set bits between 0
      and 7 remains. `AdvanceNStep` shows this is `n` times `Advance`. */
  function AdvanceN(r: seq<bool>, n: nat): (t: seq<bool>)
    ensures n <= |r| ==> t == r[n..]
  {
    if n <= |r| then r[n..] else Ones((|r| - n) % 8)
  }

  /** The `n` bits that `n` successive reads obtain from `r`: those of `r`,
      then set bits. `PeekSnoc` shows each is the `NextBit` of what remains. */
  function Peek(r: seq<bool>, n: nat): (p: seq<bool>)
    ensures |p| == n
    ensures n <= |r| ==> p == r[..n]
  {
    (r + Ones(n))[..n]
  }

  /** Number of `false` bits; reading past the end of a stream only ever
      yields `true` bits, so this bounds how many more 0-bits can come. */
  function CountZeros(p: seq<bool>): (r: nat)
    ensures r <= |p|
  {
    if p == [] then 0 else (if p[0] then 0 else 1) + CountZeros(p[1..])
  }

  lemma {:induction false} ToBitsAt(x: int, n: nat, j: nat)
    requires j < n
    ensures ToBits(x, n)[j] == Bit(x, n - 1 - j)
    decreases n
  {
    if j < n - 1 {
      ToBitsAt(x / 2, n - 1, j);
    }
  }

  lemma ByteBitsAt(x: int, j: nat)
    requires j < 8
    ensures ByteBits(x)[j] == Bit(x, 7 - j)
  {
  }

  lemma ByteBitsToBits(x: int)
    ensures ByteBits(x) == ToBits(x, 8)
  {
    forall j | 0 <= j < 8
      ensures ByteBits(x)[j] == ToBits(x, 8)[j]
    {
      ToBitsAt(x, 8, j);
    }
  }

  /** Shifting left by one moves every bit one place up. */
  lemma ShiftBit(x: int, i: nat)
    ensures Bit(2 * x, i + 1) == Bit(x, i)
  {
    assert (2 * x) / 2 == x;
  }

  /** Shifting left by `j` moves every bit `j` places up. */
  lemma {:induction false} ShiftBits(x: int, j: nat, i: nat)
    ensures Bit(x * Pow2(j), i + j) == Bit(x, i)
    decreases j
  {
    if j > 0 {
      assert x * Pow2(j) == 2 * (x * Pow2(j - 1));
      ShiftBit(x * Pow2(j - 1), i + j - 1);
      ShiftBits(x, j - 1, i);
    }
  }

  lemma {:induction false} ToFromBits(p: seq<bool>)
    ensures ToBits(FromBits(p), |p|) == p
  {
    if p != [] {
      var q := p[..|p| - 1];
      var v := FromBits(p);
      assert v / 2 == FromBits(q) && (v % 2 == 1) == p[|p| - 1];
      ToFromBits(q);
      assert p == q + [p[|p| - 1]];
    }
  }

  lemma {:induction false} FromToBits(x: int, n: nat)
    requires 0 <= x < Pow2(n)
    ensures FromBits(ToBits(x, n)) == x
    decreases n
  {
    if n > 0 {
      FromToBits(x / 2, n - 1);
      var p := ToBits(x, n);
      assert p[..|p| - 1] == ToBits(x / 2, n - 1);
    }
  }

  /** Every bit of a negative one is set: what is read past the end of a stream. */
  lemma {:induction false} MinusOneBits(n: nat)
    ensures ToBits(-1, n) == Ones(n)
  {
    if n > 0 {
      MinusOneBits(n - 1);
      assert Ones(n) == Ones(n - 1) + [true];
    }
  }

  /** One more read obtains the bit that follows the first `n`. */
  lemma PeekSnoc(r: seq<bool>, n: nat)
    ensures Peek(r, n + 1) == Peek(r, n) + [NextBit(AdvanceN(r, n))]
  {
    var p, q := Peek(r, n + 1), Peek(r, n) + [NextBit(AdvanceN(r, n))];
    forall j | 0 <= j <= n
      ensures p[j] == q[j]
    {
      if j == n && n < |r| {
        assert AdvanceN(r, n)[0] == r[n];
      }
    }
  }

  /** `AdvanceN` is `n` successive `Advance`s. */
  lemma AdvanceNStep(r: seq<bool>, n: nat)
    ensures AdvanceN(r, n + 1) == Advance(AdvanceN(r, n))
  {
    if n + 1 <= |r| {
      assert r[n..][1..] == r[n + 1..];
    } else if n > |r| && (|r| - n) % 8 > 0 {
      assert Ones((|r| - n) % 8)[1..] == Ones((|r| - n - 1) % 8);
    }
  }

  lemma AdvanceNZeros(r: seq<bool>, n: nat)
    ensures CountZeros(AdvanceN(r, n)) <= CountZeros(r)
  {
    if n <= |r| {
      assert r == r[..n] + r[n..];
      CountZerosAppend(r[..n], r[n..]);
    } else {
      CountZerosOnes((|r| - n) % 8);
    }
  }

  /** Setting the next lower bit of a partially filled, left-aligned buffer. */
  lemma AppendBitValue(p: seq<bool>, b: bool, m: nat)
    ensures FromBits(p) * Pow2(m + 1) + (if b then Pow2(m) else 0) == FromBits(p + [b]) * Pow2(m)
  {
    var v, e, d := FromBits(p), Pow2(m), if b then 1 else 0;
    assert (p + [b])[..|p|] == p;
    assert FromBits(p + [b]) == 2 * v + d;
    assert Pow2(m + 1) == 2 * e;
    ScaleSum(v, d, e);
  }

  lemma ScaleSum(v: int, d: int, e: int)
    ensures v * (2 * e) + d * e == (2 * v + d) * e
  {
    calc {
      (2 * v + d) * e;
      (2 * v) * e + d * e;
      v * (2 * e) + d * e;
    }
  }

  /** A byte written whole and the same value written bit by bit put the same
      eight bits on the stream. */
  lemma LowByteBits(x: int)
    ensures ByteBits(LowByte(x)) == ByteBits(x)
  {
    assert Pow2(8) == 256;
    forall j | 0 <= j < 8
      ensures ByteBits(LowByte(x))[j] == ByteBits(x)[j]
    {
      ByteBitsAt(x % 256, j);
      ByteBitsAt(x, j);
      BitMod(x, 8, 7 - j);
    }
  }

  lemma ModUnique(a: int, m: int, q: int, r: int)
    requires m >= 1 && a == q * m + r && 0 <= r < m
    ensures a % m == r
  {
    var d := a / m - q;
    assert d * m == r - a % m by {
      assert a == (a / m) * m + a % m;
      assert (a / m) * m - q * m == d * m;
    }
  }

  lemma ModHalf(x: int, m: nat)
    requires m >= 1
    ensures (x % (2 * m)) % 2 == x % 2 && (x % (2 * m)) / 2 == (x / 2) % m
  {
    var q, r := x / (2 * m), x % (2 * m);
    assert x == q * (2 * m) + r;
    assert q * (2 * m) == 2 * (q * m);
    assert x / 2 == q * m + r / 2;
    ModUnique(x / 2, m, q, r / 2);
  }

  /** Reducing modulo 2^n keeps the n low bits. */
  lemma {:induction false} BitMod(x: int, n: nat, i: nat)
    requires i < n
    ensures Bit(x % Pow2(n), i) == Bit(x, i)
    decreases i
  {
    ModHalf(x, Pow2(n - 1));
    if i > 0 {
      BitMod(x / 2, n - 1, i - 1);
    }
  }

  lemma {:induction false} BytesBitsAppend(s: seq<int>, t: seq<int>)
    ensures BytesBits(s + t) == BytesBits(s) + BytesBits(t)
  {
    if s != [] {
      assert (s + t)[1..] == s[1..] + t;
      BytesBitsAppend(s[1..], t);
    } else {
      assert s + t == t;
    }
  }

  lemma BytesBitsSnoc(s: seq<int>, b: int)
    ensures BytesBits(s + [b]) == BytesBits(s) + ByteBits(b)
  {
    BytesBitsAppend(s, [b]);
    assert BytesBits([b]) == ByteBits(b) + BytesBits([]);
  }

  /** The value of a buffer whose bits `p` were set one at a time from
      weight 2^7 downward, as the bitstreams accumulate a byte. */
  function Packed(p: seq<bool>): int
    requires |p| <= 8
  {
    if p == [] then 0 else Packed(p[..|p| - 1]) + (if p[|p| - 1] then Pow2(8 - |p|) else 0)
  }

  lemma {:induction false} PackedValue(p: seq<bool>)
    requires |p| <= 8
    ensures Packed(p) == FromBits(p) * Pow2(8 - |p|)
  {
    if p != [] {
      var q := p[..|p| - 1];
      PackedValue(q);
      AppendBitValue(q, p[|p| - 1], 8 - |p|);
      assert q + [p[|p| - 1]] == p;
    }
  }

  lemma PackedSnoc(p: seq<bool>, b: bool)
    requires |p| < 8
    ensures Packed(p + [b]) == Packed(p) + (if b then Pow2(7 - |p|) else 0)
  {
    assert (p + [b])[..|p|] == p;
  }

  /** Flushing a partly filled buffer appends its bits and zero padding. */
  lemma FlushPartial(out: seq<int>, p: seq<bool>)
    requires 0 < |p| < 8
    ensures BytesBits(out + [LowByte(Packed(p))]) == (BytesBits(out) + p) + Zeros(8 - |p|)
  {
    var c := Packed(p);
    assert ByteBits(c) == p + Zeros(8 - |p|) by {
      ByteBitsToBits(c);
      PackedValue(p);
      ShiftedBits(p, 8 - |p|);
    }
    LowByteBits(c);
    BytesBitsSnoc(out, LowByte(c));
  }

  /** Flushing a full buffer appends exactly its eight bits. */
  lemma FlushFull(out: seq<int>, p: seq<bool>)
    requires |p| == 8
    ensures BytesBits(out + [LowByte(Packed(p))]) == BytesBits(out) + p
  {
    var c := Packed(p);
    assert c == FromBits(p) by {
      PackedValue(p);
      assert Pow2(8 - |p|) == 1;
    }
    assert ByteBits(c) == p by {
      ByteBitsToBits(c);
      ToFromBits(p);
    }
    LowByteBits(c);
    BytesBitsSnoc(out, LowByte(c));
  }

  lemma {:induction false} CountZerosAppend(p: seq<bool>, q: seq<bool>)
    ensures CountZeros(p + q) == CountZeros(p) + CountZeros(q)
  {
    if p != [] {
      assert (p + q)[1..] == p[1..] + q;
      CountZerosAppend(p[1..], q);
    } else {
      assert p + q == q;
    }
  }

  lemma {:induction false} CountZerosOnes(n: nat)
    ensures CountZeros(Ones(n)) == 0
  {
    if n > 0 {
      CountZerosOnes(n - 1);
      assert Ones(n)[1..] == Ones(n - 1);
    }
  }

  /** Reading one bit never adds a 0-bit to what remains, and reading a 0-bit
      removes one. */
  lemma AdvanceZeros(r: seq<bool>)
    ensures CountZeros(Advance(r)) + (if NextBit(r) then 0 else 1) <= CountZeros(r)
  {
    if r == [] {
      CountZerosOnes(7);
    }
  }

  /** A partial byte whose bits `p` sit at the top of the buffer: its low bits
      are zero. */
  lemma {:induction false} ShiftedBits(p: seq<bool>, m: nat)
    ensures ToBits(FromBits(p) * Pow2(m), |p| + m) == p + Zeros(m)
  {
    if m == 0 {
      ToFromBits(p);
      assert p + Zeros(0) == p;
    } else {
      var y := FromBits(p) * Pow2(m - 1);
      assert FromBits(p) * Pow2(m) == 2 * y;
      assert (2 * y) / 2 == y && (2 * y) % 2 == 0;
      ShiftedBits(p, m - 1);
      assert Zeros(m) == Zeros(m - 1) + [false];
    }
  }
}
