/** The frequency map of the older generation
    (`Lab3_Huffmann/frequencymap.h`): a map from `char` to count, filled
    by reading the input file to its end. The character read at the end,
    EOF converted to `char`, is counted too, under the same key as the
    byte 0xFF. */
module Lab3Frequency {
  import opened Bits
  import opened Huffman
  import Bitstream

  /** The `char` a value is converted to: its low eight bits read as a
      signed number. */
  function Char(x: int): (c: int)
    ensures -128 <= c < 128
    ensures (c - x) % 256 == 0
  {
    (x + 128) % 256 - 128
  }

  /** The characters `get()` yields for the bytes of a file. */
  function Chars(file: seq<byte>): (r: seq<int>)
    ensures |r| == |file|
  {
    seq(|file|, j requires 0 <= j < |file| => Char(file[j]))
  }

  /** The key EOF is counted under. */
  const EOF_CHAR: int := Char(Bitstream.EOF)

  /** What `initFrequencyMap` counts: every character of the file, then
      the EOF character. */
  function Counted(file: seq<byte>): seq<int>
  {
    Chars(file) + [EOF_CHAR]
  }

  /** `initFrequencyMap(in)`: an empty map for a file that is not open;
      otherwise each character read is inserted with count 1 or has its
      count incremented, and the loop stops only after the read that hits
      the end of the file has been counted. */
  method InitFrequencyMap(file: seq<byte>, isOpen: bool) returns (freq: map<int, nat>)
    ensures freq == if isOpen then Frequencies(Counted(file)) else map[]
  {
    if !isOpen {
      return map[];
    }
    freq := map[];
    var pos := 0;
    while true
      invariant 0 <= pos <= |file|
      invariant freq == Frequencies(Chars(file)[..pos])
      decreases |file| - pos
    {
      var c: int;
      var eof := false;
      if pos < |file| {  // ch = in.get()
        c := file[pos];
        pos := pos + 1;
      } else {
        c := Bitstream.EOF;
        eof := true;
      }
      var ch := Char(c);
      ghost var seen := Chars(file)[..pos - (if eof then 0 else 1)];
      FrequenciesSnoc(seen, ch);
      if ch !in freq {
        freq := freq[ch := 1];
      } else {
        freq := freq[ch := freq[ch] + 1];
      }
      if eof {
        assert seen == Chars(file);
        return;
      }
      assert Chars(file)[..pos] == seen + [ch];
    }
  }

  /** Every key of the map has been counted at least once, and the keys
      are the characters of the file together with EOF. */
  lemma CountsPositive(file: seq<byte>)
    ensures forall c | c in Frequencies(Counted(file)) :: Frequencies(Counted(file))[c] >= 1
    ensures Frequencies(Counted(file)).Keys == (set j | 0 <= j < |file| :: Char(file[j])) + {EOF_CHAR}
  {
    var s := Counted(file);
    forall c | c in Frequencies(s)
      ensures Frequencies(s)[c] >= 1
    {
      assert c in multiset(s);
    }
    forall c | c in Frequencies(s).Keys
      ensures c in (set j | 0 <= j < |file| :: Char(file[j])) + {EOF_CHAR}
    {
      var k :| 0 <= k < |s| && s[k] == c;
      if k < |file| {
        assert Char(file[k]) == c;
      }
    }
    forall j | 0 <= j < |file|
      ensures Char(file[j]) in Frequencies(s)
    {
      assert s[j] == Char(file[j]);
    }
    assert s[|file|] == EOF_CHAR;
  }

  /** The byte 0xFF and EOF share the key -1: its count is the number of
      0xFF bytes plus one. */
  lemma {:induction false} EofShared(file: seq<byte>)
    ensures EOF_CHAR == -1 && Char(0xFF) == -1
    ensures Frequencies(Counted(file))[-1] == multiset(file)[0xFF] + 1
  {
    assert EOF_CHAR == -1 by {
      assert Bitstream.EOF == -1;
    }
    ChopCount(file);
    assert multiset(Counted(file)) == multiset(Chars(file)) + multiset{-1};
  }

  lemma {:induction false} ChopCount(file: seq<byte>)
    ensures multiset(Chars(file))[-1] == multiset(file)[0xFF]
  {
    if file != [] {
      var n := |file| - 1;
      ChopCount(file[..n]);
      assert Chars(file) == Chars(file[..n]) + [Char(file[n])];
      assert file == file[..n] + [file[n]];
      assert Char(file[n]) == -1 <==> file[n] == 0xFF;
    }
  }

  /** A character converted back to a byte is the byte read. */
  lemma CharByte(b: byte)
    ensures LowByte(Char(b)) == b
  {
  }

  /** The bits `putchar` writes for a character read back as a `char`
      give the character again. */
  lemma ByteChar(c: int)
    requires -128 <= c < 128
    ensures Char(LowByte(c)) == c
  {
  }
}
