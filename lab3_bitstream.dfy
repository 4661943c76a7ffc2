/** The bit stream of the older generation (`Lab3_Huffmann/bitstream.h`):
    a one-byte buffer and an index into it over an in-memory file. In read
    mode `index` counts the bits still in the buffer; in write and append
    mode the next bit goes to position `index - 1`, and a full buffer is
    written out only when the next bit arrives. Reading shares the reader
    view of the current generation: once the file is exhausted each load
    brings EOF, eight set bits. */
module Lab3Stream {
  import opened Bits
  import Bitstream

  /** `read`, `write`, `app` and `none`. */
  datatype Mode = Read | Write | App | NoMode

  const BYTE: nat := 8

  /** `pow2(exp)`: the powers of two up to 2^7 from a table, -1 beyond. */
  function Pow2Table(exp: nat): (r: int)
    ensures r == if exp < BYTE then Pow2(exp) else -1
  {
    if exp == 0 then 1
    else if exp == 1 then 2
    else if exp == 2 then 4
    else if exp == 3 then 8
    else if exp == 4 then 16
    else if exp == 5 then 32
    else if exp == 6 then 64
    else if exp == 7 then 128
    else -1
  }

  /** `getchar()` on a reader: the next eight bits, most significant first;
      unlike the current generation it never answers EOF, so an exhausted
      file reads as 255. */
  function ReadChar(s: Bitstream.Reader): (int, Bitstream.Reader)
  {
    (FromBits(Peek(s.bits, 8)), Bitstream.Reader(AdvanceN(s.bits, 8), s.eof || |s.bits| < 8))
  }

  /** The bits `putbit(bit)` writes: one for 0 or 1, and the eight bits of a
      char for any other value. */
  function PutBits(bit: int): seq<bool>
  {
    if bit == 0 || bit == 1 then [bit == 1] else ByteBits(bit)
  }

  /** One bit of `getchar`'s loop: the value gains the bit at weight
      `pow2(i)` and the reader moves one bit on. */
  lemma CharStep(r0: seq<bool>, k: nat, i: int, e: bool, s0: Bitstream.Reader, bit: int,
                 s1: Bitstream.Reader, v0: int, v1: int)
    requires k < 8 && i == 7 - k
    requires s0 == Bitstream.Reader(AdvanceN(r0, k), e || |r0| < k)
    requires bit == (if Bitstream.ReadBit(s0).0 then 1 else 0) && s1 == Bitstream.ReadBit(s0).1
    requires v0 == Packed(Peek(r0, k)) && v1 == if bit != 0 then v0 + Pow2(i) else v0
    ensures v1 == Packed(Peek(r0, k + 1))
    ensures s1 == Bitstream.Reader(AdvanceN(r0, k + 1), e || |r0| < k + 1)
  {
    Bitstream.ByteStep(r0, k, i, bit == 1, v0, v1);
  }

  /** After eight rounds the loop has read `ReadChar`'s value and left its
      reader. */
  lemma CharDone(r0: seq<bool>, k: nat, e: bool, v: int)
    requires k == 8 && v == Packed(Peek(r0, k))
    ensures (v, Bitstream.Reader(AdvanceN(r0, k), e || |r0| < k)) == ReadChar(Bitstream.Reader(r0, e))
  {
    Bitstream.ByteDone(r0, v);
  }

  class BitStream {
    var mode: Mode
    var buffer: int
    var index: int
    // the file behind `stream`
    var isOpen: bool
    var input: seq<byte>
    var pos: nat
    var eofBit: bool
    var output: seq<byte>
    /** The bits held in `buffer`: in read mode the ones still to be read, in
        write mode the ones already written, in stream order. */
    ghost var pending: seq<bool>

    ghost predicate Valid()
      reads this
    {
      && pos <= |input|
      && (eofBit ==> pos == |input|)
      && (mode == Read ==>
            && 0 <= index <= BYTE && |pending| == index
            && Bitstream.ReadBuffer(pending, buffer))
      && (mode == Write || mode == App ==>
            && 0 <= index <= BYTE && |pending| == BYTE - index
            && buffer == Packed(pending) && !eofBit)
    }

    /** The bits a reader has still to get before the file is exhausted. */
    ghost function Remaining(): seq<bool>
      reads this
      requires pos <= |input|
    {
      pending + BytesBits(input[pos..])
    }

    ghost function State(): Bitstream.Reader
      reads this
      requires pos <= |input|
    {
      Bitstream.Reader(Remaining(), eofBit)
    }

    /** Every bit a writer has put so far, flushed or still buffered. */
    ghost function Written(): seq<bool>
      reads this
    {
      BytesBits(output) + pending
    }

    /** `BitStream()`: no file, mode `none`, an empty buffer. */
    constructor ()
      ensures Valid() && mode == NoMode && buffer == 0 && index == BYTE && !isOpen
    {
      mode := NoMode;
      buffer := 0;
      index := BYTE;
      isOpen := false;
      input := [];
      pos := 0;
      eofBit := false;
      output := [];
      pending := [];
    }

    /** `open(filename, mode)` on the file whose contents are `file`: read
        mode starts with an empty buffer, write mode truncates the file and
        append mode writes after it; mode `none` opens nothing and keeps the
        index. */
    method Open(file: seq<byte>, m: Mode)
      requires Valid() && !isOpen
      modifies this
      ensures Valid() && mode == m && buffer == 0
      ensures m == Read ==> isOpen && index == 0 && State() == Bitstream.Reader(BytesBits(file), false)
      ensures m == Write ==> isOpen && index == BYTE && output == [] && Written() == []
      ensures m == App ==> isOpen && index == BYTE && output == file && Written() == BytesBits(file)
      ensures m == NoMode ==> !isOpen && index == old(index)
    {
      mode := m;
      buffer := 0;
      pending := [];
      match m
      case Read =>
        input, pos, eofBit := file, 0, false;
        isOpen := true;
        index := 0;
      case Write =>
        output, eofBit := [], false;
        isOpen := true;
        index := BYTE;
      case App =>
        output, eofBit := file, false;
        isOpen := true;
        index := BYTE;
      case NoMode =>
    }

    /** `stream.get()`: the next byte, or EOF (setting the eof flag). */
    method Get() returns (c: int)
      requires Valid() && mode == Read
      modifies this`pos, this`eofBit
      ensures Valid()
      ensures old(pos) < |input| ==> c == input[old(pos)] && pos == old(pos) + 1 && eofBit == old(eofBit)
      ensures old(pos) == |input| ==> c == Bitstream.EOF && pos == old(pos) && eofBit
    {
      if pos < |input| {
        c := input[pos];
        pos := pos + 1;
      } else {
        c := Bitstream.EOF;
        eofBit := true;
      }
    }

    /** `stream.put(c)`: the low byte of `c`. */
    method Put(c: int)
      requires mode == Write || mode == App
      modifies this`output
      ensures output == old(output) + [LowByte(c)]
    {
      output := output + [LowByte(c)];
    }

    /** `getbit()`: -1 unless in read mode; otherwise the top bit of the
        buffer, which is shifted left. An empty buffer is first refilled
        with `stream.get()` and the read retried. */
    method GetBit() returns (bit: int)
      requires Valid()
      modifies this`buffer, this`index, this`pos, this`eofBit, this`pending
      ensures Valid()
      ensures mode != Read ==>
                && bit == -1 && buffer == old(buffer) && index == old(index)
                && pos == old(pos) && eofBit == old(eofBit) && pending == old(pending)
      ensures mode == Read ==>
                && bit == (if Bitstream.ReadBit(old(State())).0 then 1 else 0)
                && State() == Bitstream.ReadBit(old(State())).1
      decreases if index > 0 then 0 else 1
    {
      bit := -1;
      if mode != Read {
        return;
      }
      if index > 0 {
        ghost var p0, b0 := pending, buffer;
        bit := if Bit(buffer, 7) then 1 else 0;  // buffer & 0X80 ? 1 : 0
        buffer := buffer * 2;                    // buffer <<= 1
        index := index - 1;
        pending := pending[1..];
        Bitstream.ReadStep(input, p0, b0, pos, pending, buffer, pos, Bit(b0, 7));
      } else {
        Load();
        bit := GetBit();
      }
    }

    /** The refill of `getbit` on an empty buffer: `buffer = stream.get()`,
        `index = BYTE`. What the next read gives is unchanged. */
    method Load()
      requires Valid() && mode == Read && index == 0
      modifies this`buffer, this`index, this`pos, this`eofBit, this`pending
      ensures Valid() && mode == Read && index == BYTE
      ensures Bitstream.ReadBit(State()) == Bitstream.ReadBit(old(State()))
    {
      ghost var r0, pos0 := Remaining(), pos;
      var c := Get();
      buffer := c;
      index := BYTE;
      pending := ByteBits(c);
      Bitstream.LoadStep(input, pos0, c);
      Bitstream.OnesAdvance(r0, Remaining());
    }

    /** `getchar()`: -1 unless in read mode; otherwise eight `getbit`s, the
        i-th set bit adding `pow2(7 - i)`. */
    method GetChar() returns (ch: int)
      requires Valid()
      modifies this`buffer, this`index, this`pos, this`eofBit, this`pending
      ensures Valid()
      ensures mode != Read ==>
                && ch == -1 && buffer == old(buffer) && index == old(index)
                && pos == old(pos) && eofBit == old(eofBit) && pending == old(pending)
      ensures mode == Read ==> (ch, State()) == ReadChar(old(State()))
    {
      if mode != Read {
        return -1;
      }
      ghost var r0 := Remaining();
      ch := 0;
      var i := BYTE - 1;
      ghost var k: nat := 0;
      while i >= 0
        invariant -1 <= i <= 7 && k == 7 - i
        invariant Valid() && mode == Read
        invariant ch == Packed(Peek(r0, k))
        invariant State() == Bitstream.Reader(AdvanceN(r0, k), old(eofBit) || |r0| < k)
      {
        ch := CharBit(ch, i, r0, k, old(eofBit));
        k := k + 1;
        i := i - 1;
      }
      CharDone(r0, k, old(eofBit), ch);
    }

    /** One round of `getchar`'s loop: bit `i` read into `ch`. */
    method CharBit(ch: int, i: int, ghost r0: seq<bool>, ghost k: nat, ghost e: bool) returns (ch': int)
      requires Valid() && mode == Read && 0 <= i <= 7 && k == 7 - i
      requires ch == Packed(Peek(r0, k))
      requires State() == Bitstream.Reader(AdvanceN(r0, k), e || |r0| < k)
      modifies this`buffer, this`index, this`pos, this`eofBit, this`pending
      ensures Valid() && mode == Read
      ensures ch' == Packed(Peek(r0, k + 1))
      ensures State() == Bitstream.Reader(AdvanceN(r0, k + 1), e || |r0| < k + 1)
    {
      ghost var s0 := State();
      var bit := GetBit();
      ch' := if bit != 0 then ch + Pow2Table(i) else ch;
      CharStep(r0, k, i, e, s0, bit, State(), ch, ch');
    }

    /** `putbit(bit)`: nothing unless in write or append mode; a value other
        than 0 or 1 is written as a char. A bit goes to position `index - 1`;
        when the buffer is already full it is first written out and
        emptied. */
    method PutBit(bit: int)
      requires Valid()
      modifies this`buffer, this`index, this`output, this`pending
      ensures Valid()
      ensures mode == Write || mode == App ==> Written() == old(Written()) + PutBits(bit)
      ensures (mode == Write || mode == App) && (bit == 0 || bit == 1) ==>
                index == if old(index) == 0 then BYTE - 1 else old(index) - 1
      ensures mode != Write && mode != App ==>
                output == old(output) && buffer == old(buffer) && index == old(index) && pending == old(pending)
      decreases if bit == 0 || bit == 1 then 0 else 2, if index > 0 then 0 else 1
    {
      if mode != App && mode != Write {
        return;
      }
      if bit != 0 && bit != 1 {
        PutChar(bit);
      } else {
        ghost var o0, p0 := output, pending;
        index := index - 1;
        if index < 0 {
          Put(buffer);
          buffer := 0;
          index := BYTE;
          pending := [];
          FlushFull(o0, p0);
          assert Written() == old(Written());
          PutBit(bit);
        } else {
          if bit == 1 {
            buffer := buffer + Pow2Table(index);
          }
          pending := pending + [bit == 1];
          PackedSnoc(p0, bit == 1);
          assert Written() == BytesBits(o0) + p0 + [bit == 1];
        }
      }
    }

    /** `putchar(ch)`: nothing unless in write or append mode; otherwise
        the eight low bits of `ch`, most significant first. */
    method PutChar(ch: int)
      requires Valid()
      modifies this`buffer, this`index, this`output, this`pending
      ensures Valid()
      ensures mode == Write || mode == App ==> Written() == old(Written()) + ByteBits(ch)
      ensures mode != Write && mode != App ==>
                output == old(output) && buffer == old(buffer) && index == old(index) && pending == old(pending)
      decreases 1, 0
    {
      if mode != App && mode != Write {
        return;
      }
      var c := ch;
      var i := 0;
      Bitstream.ByteBuffer(ch);
      ghost var w0 := Written();
      ghost var rest := ByteBits(ch);
      while i < BYTE
        invariant 0 <= i <= BYTE && |rest| == BYTE - i
        invariant Valid() && (mode == Write || mode == App)
        invariant Written() + rest == w0 + ByteBits(ch)
        invariant Bitstream.ReadBuffer(rest, c)
      {
        var bit := if Bit(c, 7) then 1 else 0;  // ch & 0X80 ? 1 : 0
        c := c * 2;                              // ch <<= 1
        ghost var w := Written();
        PutBit(bit);
        Bitstream.ConsStep(w, rest);
        rest := rest[1..];
        i := i + 1;
      }
    }

    /** `eof()`: in read mode the buffer is empty and the file has been read
        past its end; in write and append mode the buffer is empty and the
        file's eof flag is set, which writing never does. */
    predicate Eof()
      reads this
      requires Valid()
      ensures mode == Read ==> (Eof() <==> State() == Bitstream.Reader([], true))
      ensures mode == Write || mode == App ==> !Eof()
    {
      if mode == Read then index == 0 && eofBit
      else if mode == NoMode then eofBit
      else index == BYTE && eofBit
    }

    /** `close()`: in write or append mode a partly or wholly filled buffer
        is topped up with set bits and written out; the file is closed in
        every mode. */
    method Close()
      requires Valid()
      modifies this`buffer, this`index, this`output, this`pending, this`isOpen
      ensures !isOpen
      ensures mode == Write || mode == App ==>
                BytesBits(output) == old(Written()) + Ones(old(index) % BYTE) && index == BYTE
      ensures mode != Write && mode != App ==>
                output == old(output) && buffer == old(buffer) && index == old(index) && pending == old(pending)
    {
      if index < BYTE {
        if mode == App || mode == Write {
          ghost var w0 := Written();
          while index > 0
            invariant Valid() && 0 <= index <= old(index)
            invariant Written() == w0 + Ones(old(index) - index)
          {
            ghost var w := Written();
            PutBit(1);
            assert Ones(old(index) - index) == Ones(old(index) - index - 1) + [true];
          }
          FlushFull(output, pending);
          Put(buffer);
          index := BYTE;
          pending := [];
        }
      } else if mode == App || mode == Write {
        assert Ones(0) == [];
      }
      isOpen := false;
    }
  }
}
