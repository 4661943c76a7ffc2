/** The bit-buffered file stream of the current generation (`bitstream.h`):
    bits are read and written most significant bit first through a one-byte
    buffer and a fill counter. The underlying `std::fstream` is an in-memory
    file: the bytes a reader has not yet taken, and the bytes written so far. */
module Bitstream {
  import opened Bits
  import opened Wrappers

  datatype OpenMode = Read | Write | Append

  /** What `std::fstream::get()` returns at end of file. */
  const EOF: int := -1

  /** The value `getbyte` returns when the bits still to be read are `r`:
      EOF for an exhausted file, otherwise the next eight bits (set bits once
      the file runs out). */
  function ByteValue(r: seq<bool>): int
  {
    if r == [] then EOF else FromBits(Peek(r, 8))
  }

  /** What a reader can still observe of a read-mode stream: the bits
      still to come from buffer and file, and the file's eof flag. */
  datatype Reader = Reader(bits: seq<bool>, eof: bool)

  /** `getbit` on a reader: the eof flag is raised by the load that finds
      the file exhausted. */
  function ReadBit(s: Reader): (bool, Reader)
  {
    (NextBit(s.bits), Reader(Advance(s.bits), s.eof || s.bits == []))
  }

  /** `getbyte` on a reader. */
  function ReadByte(s: Reader): (int, Reader)
  {
    (ByteValue(s.bits), Reader(AdvanceN(s.bits, 8), s.eof || |s.bits| < 8))
  }

  class Bitstream {
    var mode: OpenMode
    var buffer: int
    var bufferCount: nat
    // the file behind `_stream`
    var input: seq<byte>
    var pos: nat
    var output: seq<byte>
    var eofBit: bool
    /** The bits held in `buffer`: in read mode the ones still to be read, in
        write mode the ones already written, in stream order. */
    ghost var pending: seq<bool>

    ghost predicate Valid()
      reads this
    {
      && pos <= |input|
      && (eofBit ==> pos == |input|)
      && |pending| == bufferCount
      && (mode == Read ==>
            && bufferCount <= 8
            && ReadBuffer(pending, buffer))
      && (mode != Read ==>
            && bufferCount < 8
            && buffer == Packed(pending))
    }

    /** The bits a reader has still to get before the file is exhausted. */
    ghost function Remaining(): seq<bool>
      reads this
      requires pos <= |input|
    {
      pending + BytesBits(input[pos..])
    }

    ghost function State(): Reader
      reads this
      requires pos <= |input|
    {
      Reader(Remaining(), eofBit)
    }

    /** The fields a read changes, taken together. */
    ghost function ReadFields(): (int, nat, nat, bool, seq<bool>)
      reads this
    {
      (buffer, bufferCount, pos, eofBit, pending)
    }

    /** Every bit a writer has put so far, flushed or still buffered. */
    ghost function Written(): seq<bool>
      reads this
    {
      BytesBits(output) + pending
    }

    /** Opens `file`: read mode reads it, write mode truncates it, append
        mode writes after its contents. */
    constructor (file: seq<byte>, m: OpenMode)
      ensures Valid() && mode == m && buffer == 0 && bufferCount == 0 && pos == 0 && !eofBit
      ensures input == (if m == Read then file else [])
      ensures output == (if m == Append then file else [])
      ensures m == Read ==> Remaining() == BytesBits(file)
      ensures m != Read ==> Written() == BytesBits(output)
    {
      mode := m;
      buffer := 0;
      bufferCount := 0;
      input := if m == Read then file else [];
      pos := 0;
      output := if m == Append then file else [];
      eofBit := false;
      pending := [];
    }

    /** `_stream.get()`: the next byte, or EOF (setting the eof flag) when the
        file is exhausted or not open for reading. */
    method Get() returns (c: int)
      requires Valid()
      modifies this`pos, this`eofBit
      ensures Valid()
      ensures old(pos) < |input| ==> c == input[old(pos)] && pos == old(pos) + 1 && eofBit == old(eofBit)
      ensures old(pos) == |input| ==> c == EOF && pos == old(pos) && eofBit
    {
      if pos < |input| {
        c := input[pos];
        pos := pos + 1;
      } else {
        c := EOF;
        eofBit := true;
      }
    }

    /** `_stream.put(c)`: the low byte of `c`; a stream not open for
        writing takes nothing. */
    method Put(c: int)
      modifies this`output
      ensures output == if mode == Read then old(output) else old(output) + [LowByte(c)]
    {
      if mode != Read {
        output := output + [LowByte(c)];
      }
    }

    /** `getbit()`: `None` stands for the `runtime_error` thrown in write or
        append mode. A byte is loaded only when the buffer is empty. */
    method GetBit() returns (r: Option<bool>)
      requires Valid()
      modifies this`buffer, this`bufferCount, this`pos, this`eofBit, this`pending
      ensures Valid()
      ensures mode != Read ==> r == None && buffer == old(buffer) && bufferCount == old(bufferCount)
      ensures mode != Read ==> pos == old(pos) && eofBit == old(eofBit) && pending == old(pending)
      ensures mode == Read ==> r == Some(NextBit(old(Remaining()))) && Remaining() == Advance(old(Remaining()))
      ensures mode == Read ==> eofBit == (old(eofBit) || old(Remaining()) == [])
    {
      if mode == Write || mode == Append {
        return None;
      }
      ghost var p0, b0, pos0 := pending, buffer, pos;
      if bufferCount == 0 {
        var c := Get();
        buffer := c;
        bufferCount := 8;
        pending := ByteBits(c);
      }
      var ans := Bit(buffer, 7);  // _buffer & 0X80
      buffer := buffer * 2;       // _buffer <<= 1
      bufferCount := bufferCount - 1;
      pending := pending[1..];
      r := Some(ans);
      ReadStep(input, p0, b0, pos0, pending, buffer, pos, ans);
    }

    /** `getbyte()`: the raw next byte of the file when the buffer is empty,
        otherwise the next eight bits assembled most significant first;
        `None` is the `runtime_error` of a bit read in write mode. */
    method GetByte() returns (r: Option<int>)
      requires Valid()
      modifies this`buffer, this`bufferCount, this`pos, this`eofBit, this`pending
      ensures Valid()
      ensures old(bufferCount) == 0 ==>
                && bufferCount == 0 && pending == [] && buffer == old(buffer)
                && (old(pos) < |input| ==> r == Some(input[old(pos)]) && pos == old(pos) + 1 && eofBit == old(eofBit))
                && (old(pos) == |input| ==> r == Some(EOF) && pos == old(pos) && eofBit)
      ensures old(bufferCount) > 0 && mode != Read ==>
                && r == None && buffer == old(buffer) && bufferCount == old(bufferCount)
                && pos == old(pos) && eofBit == old(eofBit) && pending == old(pending)
      ensures mode == Read ==>
                && r == Some(ByteValue(old(Remaining())))
                && Remaining() == AdvanceN(old(Remaining()), 8)
                && eofBit == (old(eofBit) || |old(Remaining())| < 8)
    {
      if bufferCount == 0 {
        ghost var r0, p0 := Remaining(), pos;
        var c := Get();
        r := Some(c);
        if p0 < |input| {
          AlignedRead(input, p0);
        } else {
          assert AdvanceN(r0, 8) == [];
        }
        return;
      }
      r := GetBufferedByte();
    }

    /** The bit-by-bit half of `getbyte`, taken when the buffer still holds
        bits: eight `getbit` calls, the i-th set bit adding `POW_ARR[i]`. */
    method GetBufferedByte() returns (r: Option<int>)
      requires Valid() && bufferCount > 0
      modifies this`buffer, this`bufferCount, this`pos, this`eofBit, this`pending
      ensures Valid()
      ensures mode != Read ==>
                && r == None && buffer == old(buffer) && bufferCount == old(bufferCount)
                && pos == old(pos) && eofBit == old(eofBit) && pending == old(pending)
      ensures mode == Read ==>
                && r == Some(FromBits(Peek(old(Remaining()), 8)))
                && Remaining() == AdvanceN(old(Remaining()), 8)
                && eofBit == (old(eofBit) || |old(Remaining())| < 8)
    {
      ghost var r0 := Remaining();
      var value := 0;
      var i := 7;
      ghost var k: nat := 0;
      while i >= 0
        invariant -1 <= i <= 7 && k == 7 - i
        invariant Valid()
        invariant mode != Read ==> k == 0 && ReadFields() == old(ReadFields())
        invariant mode == Read ==> value == Packed(Peek(r0, k)) && Remaining() == AdvanceN(r0, k)
        invariant mode == Read ==> eofBit == (old(eofBit) || |r0| < k)
      {
        var bit := GetBit();
        if bit.None? {
          return None;
        }
        ghost var v0 := value;
        if bit.value {
          value := value + Pow2(i);  // POW_ARR[i]
        }
        ByteStep(r0, k, i, bit.value, v0, value);
        k := k + 1;
        i := i - 1;
      }
      ByteDone(r0, value);
      r := Some(value);
    }

    /** `putbit(value)`: `false` stands for the `runtime_error` thrown in
        read mode. The k-th bit of a byte goes to weight 2^(8-k); the eighth
        bit flushes the byte and empties the buffer. */
    method PutBit(value: bool) returns (ok: bool)
      requires Valid()
      modifies this`buffer, this`bufferCount, this`output, this`pending
      ensures Valid()
      ensures ok == (mode != Read)
      ensures !ok ==> buffer == old(buffer) && bufferCount == old(bufferCount) && output == old(output) && pending == old(pending)
      ensures ok ==> Written() == old(Written()) + [value]
      ensures ok ==> bufferCount == if old(bufferCount) == 7 then 0 else old(bufferCount) + 1
      ensures ok && old(bufferCount) < 7 ==> output == old(output)
      ensures ok && old(bufferCount) == 7 ==> |output| == |old(output)| + 1 && buffer == 0
    {
      if mode == Read {
        return false;
      }
      ghost var o0, p0, b0 := output, pending, buffer;
      bufferCount := bufferCount + 1;
      if value {
        buffer := buffer + Pow2(8 - bufferCount);  // POW_ARR[BYTE - _buffercount]
      }
      pending := pending + [value];
      if bufferCount == 8 {
        Put(buffer);
        buffer := 0;
        bufferCount := 0;
        pending := [];
      }
      WriteStep(o0, p0, b0, value, output, pending, buffer);
      ok := true;
    }

    /** `putbyte(byte)`: written whole when the buffer is empty, otherwise
        bit by bit, most significant first; the two paths put the same eight
        bits on the stream. `false` is a `runtime_error` from `putbit`. */
    method PutByte(x: int) returns (ok: bool)
      requires Valid()
      modifies this`buffer, this`bufferCount, this`output, this`pending
      ensures Valid()
      ensures ok == (mode != Read || old(bufferCount) == 0)
      ensures mode != Read ==> Written() == old(Written()) + ByteBits(x) && bufferCount == old(bufferCount)
      ensures old(bufferCount) == 0 ==>
                output == (if mode == Read then old(output) else old(output) + [LowByte(x)]) && bufferCount == 0
      ensures mode == Read ==> output == old(output) && buffer == old(buffer) && bufferCount == old(bufferCount) && pending == old(pending)
    {
      if bufferCount == 0 {
        ghost var o0 := output;
        Put(x);
        if mode != Read {
          LowByteBits(x);
          BytesBitsSnoc(o0, LowByte(x));
        }
        return true;
      }
      var b := x;
      var i := 0;
      ByteBuffer(x);
      ghost var w0 := old(Written());
      ghost var rest := ByteBits(x);
      while i < 8
        invariant 0 <= i <= 8 && |rest| == 8 - i
        invariant Valid()
        invariant mode == Read ==> i == 0 && output == old(output) && buffer == old(buffer) && bufferCount == old(bufferCount)
        invariant mode == Read ==> pending == old(pending)
        invariant mode != Read ==> Written() + rest == w0 + ByteBits(x)
        invariant ReadBuffer(rest, b)
      {
        var v := Bit(b, 7);  // byte & 0X80
        b := b * 2;          // byte <<= 1
        ghost var w := Written();
        var put := PutBit(v);
        if !put {
          return false;
        }
        ConsStep(w, rest);
        rest := rest[1..];
        i := i + 1;
      }
      WrittenCount(old(output), old(pending), output, pending);
      ok := true;
    }

    /** `close()`: a partly filled buffer is written as a last byte whose
        unused low bits are zero. */
    method Close()
      requires Valid()
      modifies this`output
      ensures mode != Read ==> BytesBits(output) == old(Written()) + Zeros((8 - bufferCount) % 8)
      ensures mode == Read || bufferCount == 0 ==> output == old(output)
    {
      if bufferCount != 0 {
        if mode == Write || mode == Append {
          FlushPartial(output, pending);
          Put(buffer);
        }
      } else {
        assert Zeros(0) == [];
      }
    }

    /** `eof()`: the bit buffer is empty and the file has been read past its
        end. */
    predicate Eof()
      reads this
      requires Valid()
      ensures Eof() ==> bufferCount == 0 && pos == |input| && Remaining() == []
    {
      bufferCount == 0 && eofBit
    }

    /** `stdeof()`: the eof flag of the file alone. */
    predicate StdEof()
      reads this
    {
      eofBit
    }
  }

  lemma ConsStep(w: seq<bool>, r: seq<bool>)
    requires r != []
    ensures (w + [r[0]]) + r[1..] == w + r
  {
    assert [r[0]] + r[1..] == r;
  }

  /** Eight more bits written leave the buffer as full as before. */
  lemma WrittenCount(o0: seq<int>, p0: seq<bool>, o1: seq<int>, p1: seq<bool>)
    requires |p0| < 8 && |p1| < 8
    requires |BytesBits(o1) + p1| == |BytesBits(o0) + p0| + 8
    ensures |p1| == |p0|
  {
  }

  /** One `putbit` on the values of the fields: the bit joins the written
      bits, and the buffer keeps holding the packed value of its bits. */
  lemma WriteStep(o0: seq<int>, p0: seq<bool>, b0: int, v: bool, o1: seq<int>, p1: seq<bool>, b1: int)
    requires |p0| < 8 && b0 == Packed(p0)
    requires |p0| == 7 ==> o1 == o0 + [LowByte(b0 + (if v then 1 else 0))] && p1 == [] && b1 == 0
    requires |p0| < 7 ==> o1 == o0 && p1 == p0 + [v] && b1 == b0 + (if v then Pow2(7 - |p0|) else 0)
    ensures BytesBits(o1) + p1 == BytesBits(o0) + p0 + [v]
    ensures |p1| < 8 && b1 == Packed(p1)
  {
    var p := p0 + [v];
    PackedSnoc(p0, v);
    assert BytesBits(o0) + p0 + [v] == BytesBits(o0) + p;
    if |p0| == 7 {
      assert Pow2(0) == 1;
      assert o1 == o0 + [LowByte(Packed(p))];
      FlushFull(o0, p);
      assert BytesBits(o1) + p1 == BytesBits(o1);
    }
  }

  /** The bits `p` still to be read from a read buffer sit at its top:
      the first is bit 7, and the rest follow once the buffer is shifted
      left by one. */
  ghost predicate ReadBuffer(p: seq<bool>, buf: int)
  {
    p == [] || (p[0] == Bit(buf, 7) && ReadBuffer(p[1..], 2 * buf))
  }

  /** Bits that sit at positions 7, 6, ... of a buffer are its read bits. */
  lemma {:induction false} ReadBufferBits(p: seq<bool>, buf: int)
    requires |p| <= 8
    requires forall j :: 0 <= j < |p| ==> p[j] == Bit(buf, 7 - j)
    ensures ReadBuffer(p, buf)
    decreases |p|
  {
    if p != [] {
      forall j | 0 <= j < |p| - 1
        ensures p[1..][j] == Bit(2 * buf, 7 - j)
      {
        ShiftBit(buf, 6 - j);
      }
      ReadBufferBits(p[1..], 2 * buf);
    }
  }

  /** A byte just loaded into the buffer holds its own bits, top bit first. */
  lemma ByteBuffer(x: int)
    ensures ReadBuffer(ByteBits(x), x)
  {
    forall j | 0 <= j < 8
      ensures ByteBits(x)[j] == Bit(x, 7 - j)
    {
      ByteBitsAt(x, j);
    }
    ReadBufferBits(ByteBits(x), x);
  }

  /** A byte freshly loaded by `getbit` holds its eight bits; the bits of
      the file are the same, or the load hit the end and got EOF. */
  lemma LoadStep(input: seq<byte>, p0: nat, c: int)
    requires p0 <= |input|
    requires p0 < |input| ==> c == input[p0]
    requires p0 == |input| ==> c == EOF
    ensures ReadBuffer(ByteBits(c), c)
    ensures p0 < |input| ==> ByteBits(c) + BytesBits(input[p0 + 1..]) == BytesBits(input[p0..])
    ensures p0 == |input| ==> ByteBits(c) == Ones(8) && BytesBits(input[p0..]) == []
  {
    ByteBuffer(c);
    if p0 < |input| {
      assert input[p0..][1..] == input[p0 + 1..];
    } else {
      ByteBitsToBits(c);
      MinusOneBits(8);
    }
  }

  /** Reading from buffered bits followed by the file's bits. */
  lemma AdvanceAppend(p: seq<bool>, t: seq<bool>)
    requires |p| > 0
    ensures NextBit(p + t) == p[0] && Advance(p + t) == p[1..] + t
  {
  }

  /** One `getbit` in read mode on the values of the fields: the bit is the
      next one of the file, the remaining bits lose it, and the buffer keeps
      its bits at the top. */
  lemma ReadStep(input: seq<byte>, p0: seq<bool>, b0: int, pos0: nat,
                 p1: seq<bool>, b1: int, pos1: nat, ans: bool)
    requires pos0 <= |input| && |p0| <= 8 && ReadBuffer(p0, b0)
    requires |p0| > 0 ==> p1 == p0[1..] && b1 == 2 * b0 && pos1 == pos0 && ans == Bit(b0, 7)
    requires |p0| == 0 && pos0 < |input| ==>
               p1 == ByteBits(input[pos0])[1..] && b1 == 2 * (input[pos0] as int) && ans == Bit(input[pos0], 7) && pos1 == pos0 + 1
    requires |p0| == 0 && pos0 == |input| ==>
               p1 == ByteBits(EOF)[1..] && b1 == 2 * EOF && ans == Bit(EOF, 7) && pos1 == pos0
    ensures pos1 <= |input| && |p1| < 8 && ReadBuffer(p1, b1)
    ensures ans == NextBit(p0 + BytesBits(input[pos0..]))
    ensures p1 + BytesBits(input[pos1..]) == Advance(p0 + BytesBits(input[pos0..]))
  {
    var rest := BytesBits(input[pos1..]);
    if |p0| > 0 {
      AdvanceAppend(p0, rest);
    } else {
      var c := if pos0 < |input| then input[pos0] else EOF;
      LoadStep(input, pos0, c);
      AdvanceAppend(ByteBits(c), rest);
      OnesAdvance(p0 + BytesBits(input[pos0..]), ByteBits(c) + rest);
    }
  }

  /** Reading one bit from a stream at its end loads EOF. */
  lemma OnesAdvance(r0: seq<bool>, r1: seq<bool>)
    requires r1 == r0 || (r0 == [] && r1 == Ones(8))
    ensures NextBit(r1) == NextBit(r0) && Advance(r1) == Advance(r0)
  {
    if r1 != r0 {
      assert Ones(8)[1..] == Ones(7);
    }
  }

  /** A read from a file at a byte boundary takes the next whole byte. */
  lemma AlignedRead(input: seq<byte>, p0: nat)
    requires p0 < |input|
    ensures FromBits(Peek([] + BytesBits(input[p0..]), 8)) == input[p0]
    ensures AdvanceN([] + BytesBits(input[p0..]), 8) == [] + BytesBits(input[p0 + 1..])
  {
    var c := input[p0];
    LoadStep(input, p0, c);
    AlignedByte(c, BytesBits(input[p0 + 1..]));
    assert [] + BytesBits(input[p0..]) == ByteBits(c) + BytesBits(input[p0 + 1..]);
  }

  /** One more bit of `getbyte`'s loop: the value so far gains the next
      bit at weight `POW_ARR[7 - k]`. */
  lemma ByteDone(r: seq<bool>, v: int)
    requires v == Packed(Peek(r, 8))
    ensures v == FromBits(Peek(r, 8))
  {
    PackedValue(Peek(r, 8));
  }

  lemma ByteStep(r: seq<bool>, k: nat, i: int, b: bool, v0: int, v1: int)
    requires k < 8 && i == 7 - k
    requires b == NextBit(AdvanceN(r, k))
    requires v0 == Packed(Peek(r, k))
    requires v1 == if b then v0 + Pow2(i) else v0
    ensures v1 == Packed(Peek(r, k + 1))
    ensures AdvanceN(r, k + 1) == Advance(AdvanceN(r, k))
    ensures (AdvanceN(r, k) == []) == (k == |r|)
  {
    PeekSnoc(r, k);
    PackedSnoc(Peek(r, k), b);
    AdvanceNStep(r, k);
  }

  /** A whole byte read at a byte boundary is the same as eight bit reads. */
  lemma AlignedByte(c: byte, t: seq<bool>)
    ensures Peek(ByteBits(c) + t, 8) == ByteBits(c)
    ensures AdvanceN(ByteBits(c) + t, 8) == t
    ensures FromBits(ByteBits(c)) == c
  {
    assert (ByteBits(c) + t)[..8] == ByteBits(c);
    assert (ByteBits(c) + t)[8..] == t;
    assert Pow2(8) == 256;
    ByteBitsToBits(c);
    FromToBits(c, 8);
  }
}
