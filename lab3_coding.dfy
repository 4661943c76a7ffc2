/** The drivers of the older generation with continuation flags
    (`Lab3_Huffmann/coding.h`): the compressed file is the tree dump
    followed, for every input character, by a flag bit (1 when another
    character follows, 0 for the last) and the character's code. There is
    no length field: the decoder stops after the character whose flag is 0.
    The input `std::ifstream` is the byte sequence `file` read from its
    start (the rewind before encoding), the output `std::ofstream` of
    `decompress` the bytes it receives. */
module Lab3Coding {
  import opened Bits
  import opened Wrappers
  import Bitstream
  import opened Huffman
  import HuffmanCoder
  import opened Lab3Stream
  import opened Lab3Frequency
  import opened Lab3Tree

  // ---------------------------------------------------------------------
  // encodeData

  /** The bits `encodeData` writes for the characters `cs`: each character
      is announced by a flag, set when another character follows, and then
      its code from the list (empty when it has none). */
  function FlaggedBits(cs: seq<int>, hc: seq<Coded>): seq<bool>
  {
    if cs == [] then [] else [|cs| > 1] + Lookup(hc, cs[0]) + FlaggedBits(cs[1..], hc)
  }

  /** The `for (auto &j : code) out.putbit(j)` loops: each bit of a code in
      turn. */
  method PutCode(code: seq<bool>, out: BitStream)
    requires out.Valid()
    modifies out`buffer, out`index, out`output, out`pending
    ensures out.Valid()
    ensures out.mode == Write || out.mode == App ==> out.Written() == old(out.Written()) + code
    ensures out.mode != Write && out.mode != App ==> out.output == old(out.output)
  {
    var k := 0;
    while k < |code|
      invariant 0 <= k <= |code| && out.Valid()
      invariant out.mode == Write || out.mode == App ==> out.Written() == old(out.Written()) + code[..k]
      invariant out.mode != Write && out.mode != App ==> out.output == old(out.output)
    {
      out.PutBit(if code[k] then 1 else 0);
      assert code[..k + 1] == code[..k] + [code[k]];
      k := k + 1;
    }
    assert code[..k] == code;
  }

  /** `encodeData(in, codeMap, out)`: nothing when either stream is
      closed. */
  method EncodeData(file: seq<byte>, inOpen: bool, hc: seq<Coded>, out: BitStream)
    requires out.Valid()
    modifies out`buffer, out`index, out`output, out`pending
    ensures out.Valid()
    ensures !inOpen || !out.isOpen ==> unchanged(out)
    ensures inOpen && out.isOpen && (out.mode == Write || out.mode == App) ==>
              out.Written() == old(out.Written()) + FlaggedBits(Chars(file), hc)
    ensures out.mode != Write && out.mode != App ==> out.output == old(out.output)
  {
    if !inOpen || !out.isOpen {
      return;
    }
    EncodeChars(file, hc, out);
  }

  /** The loop of `encodeData`: the input is read one character ahead, so
      that the flag of each character can say whether the read after it
      met the end of the file. */
  method EncodeChars(file: seq<byte>, hc: seq<Coded>, out: BitStream)
    requires out.Valid()
    modifies out`buffer, out`index, out`output, out`pending
    ensures out.Valid()
    ensures out.mode == Write || out.mode == App ==> out.Written() == old(out.Written()) + FlaggedBits(Chars(file), hc)
    ensures out.mode != Write && out.mode != App ==> out.output == old(out.output)
  {
    ghost var cs := Chars(file);
    var pos := 0;
    var next: int;
    var eof := false;
    if pos < |file| {  // char next = in.get()
      next := Char(file[pos]);
      pos := pos + 1;
    } else {
      next := Char(Bitstream.EOF);
      eof := true;
    }
    ghost var rest := FlaggedBits(cs, hc);
    while !eof
      invariant out.Valid() && 0 <= pos <= |file|
      invariant !eof ==> 1 <= pos && next == cs[pos - 1] && rest == FlaggedBits(cs[pos - 1..], hc)
      invariant eof ==> rest == []
      invariant out.mode == Write || out.mode == App ==>
                  out.Written() + rest == old(out.Written()) + FlaggedBits(cs, hc)
      invariant out.mode != Write && out.mode != App ==> out.output == old(out.output)
      decreases |file| - pos + (if eof then 0 else 1)
    {
      ghost var i := pos - 1;
      var curr := next;
      if pos < |file| {  // next = in.get()
        next := Char(file[pos]);
        pos := pos + 1;
      } else {
        next := Char(Bitstream.EOF);
        eof := true;
      }
      var code := FindCode(hc, curr);
      ghost var w := out.Written();
      PutFlagged(if eof then 0 else 1, code, out);
      FlaggedStep(cs, hc, i);
      ghost var rest' := FlaggedBits(cs[i + 1..], hc);
      Regroup(w, [!eof], code, rest');
      rest := rest';
    }
  }

  /** Regrouping the written bits around one flagged code. */
  lemma Regroup(w: seq<bool>, f: seq<bool>, c: seq<bool>, r: seq<bool>)
    ensures w + f + c + r == w + (f + c + r)
  {
  }

  /** One round of `encodeData`'s loop: the flag, then the code. */
  method PutFlagged(flag: int, code: seq<bool>, out: BitStream)
    requires out.Valid() && (flag == 0 || flag == 1)
    modifies out`buffer, out`index, out`output, out`pending
    ensures out.Valid()
    ensures out.mode == Write || out.mode == App ==> out.Written() == old(out.Written()) + [flag == 1] + code
    ensures out.mode != Write && out.mode != App ==> out.output == old(out.output)
  {
    out.PutBit(flag);
    PutCode(code, out);
  }

  /** One character of `FlaggedBits`, taken from the front. */
  lemma FlaggedStep(cs: seq<int>, hc: seq<Coded>, i: nat)
    requires i < |cs|
    ensures FlaggedBits(cs[i..], hc) == [i + 1 < |cs|] + Lookup(hc, cs[i]) + FlaggedBits(cs[i + 1..], hc)
  {
    assert cs[i..][0] == cs[i] && cs[i..][1..] == cs[i + 1..];
  }

  // ---------------------------------------------------------------------
  // decodeData

  /** `r` with `w` written before it; a failed decoding stays failed. */
  function Prepend(w: seq<byte>, r: Option<seq<byte>>): Option<seq<byte>>
  {
    if r.None? then None else Some(w + r.value)
  }

  /** What `decodeData` writes from the reader `s`: a flag is read, then
      `nextVex` walks to a leaf whose character is written, and the loop
      stops after a clear flag. When `nextVex` answers null the program
      dereferences a null pointer: no result. Each round reads at least
      the flag, so it ends. */
  function DecodeFlags(t: Option<Tree>, open: bool, s: Bitstream.Reader): Option<seq<byte>>
    decreases Progress(s)
  {
    var (flag, s1) := Bitstream.ReadBit(s);
    var (node, s2) := NextLeaf(t, open, s1);
    if node.None? then None
    else if !flag then Some([LowByte(node.value.value)])
    else Prepend([LowByte(node.value.value)], DecodeFlags(t, open, s2))
  }

  /** `decodeData(in, Tree, out)` on a stream in read mode; `out` is `None`
      where the program dereferences the null node `nextVex` returns. */
  method DecodeData(input: BitStream, t: Option<Tree>) returns (out: Option<seq<byte>>)
    requires input.Valid() && input.mode == Read
    modifies input`buffer, input`index, input`pos, input`eofBit, input`pending
    ensures out == DecodeFlags(t, input.isOpen, old(input.State()))
  {
    var written: seq<byte> := [];
    PrependNil(DecodeFlags(t, input.isOpen, input.State()));
    while true
      invariant input.Valid() && input.mode == Read
      invariant Prepend(written, DecodeFlags(t, input.isOpen, input.State()))
                  == DecodeFlags(t, input.isOpen, old(input.State()))
      decreases Progress(input.State())
    {
      ghost var s0 := input.State();
      var ch := input.GetBit();
      ghost var s1 := input.State();
      var node := NextVex(input, t);
      DecodeFlagsStep(t, input.isOpen, s0, ch == 1, s1, node, input.State());
      if node.None? {
        return None;  // nextVex(in, Tree)->ch on a null node
      }
      PrependTwice(written, [LowByte(node.value.value)], DecodeFlags(t, input.isOpen, input.State()));
      written := written + [LowByte(node.value.value)];  // out.put(...)
      if ch == 0 {
        return Some(written);
      }
    }
  }

  /** One round of `DecodeFlags`. */
  lemma DecodeFlagsStep(t: Option<Tree>, open: bool, s0: Bitstream.Reader, flag: bool,
                        s1: Bitstream.Reader, node: Option<Tree>, s2: Bitstream.Reader)
    requires (flag, s1) == Bitstream.ReadBit(s0) && (node, s2) == NextLeaf(t, open, s1)
    ensures node.None? ==> DecodeFlags(t, open, s0) == None
    ensures node.Some? ==> Progress(s2) < Progress(s0)
    ensures node.Some? && !flag ==> DecodeFlags(t, open, s0) == Some([LowByte(node.value.value)])
    ensures node.Some? && flag ==> DecodeFlags(t, open, s0) == Prepend([LowByte(node.value.value)], DecodeFlags(t, open, s2))
  {
  }

  lemma PrependNil(r: Option<seq<byte>>)
    ensures Prepend([], r) == r
  {
    if r.Some? {
      assert [] + r.value == r.value;
    }
  }

  lemma PrependTwice(w: seq<byte>, v: seq<byte>, r: Option<seq<byte>>)
    ensures Prepend(w, Prepend(v, r)) == Prepend(w + v, r)
  {
    if r.Some? {
      assert w + (v + r.value) == w + v + r.value;
    }
  }

  // ---------------------------------------------------------------------
  // compress / decompress

  /** What `decompress` writes for the compressed bits `bits`: the tree is
      read back, then the flagged characters. */
  function Decode(bits: seq<bool>): Option<seq<byte>>
  {
    var (t, s) := ParseCharTree(Bitstream.Reader(bits, false));
    DecodeFlags(Some(t), true, s)
  }

  /** After `w` bits written from a fresh stream, `index` says how many
      set bits `close` adds. */
  lemma IndexPad(w: nat, o: nat, index: int)
    requires 0 <= index <= 8 && w == 8 * o + 8 - index
    ensures index % 8 == PadLength(w)
  {
    if index == 8 {
      ModUnique(w, 8, o, 0);
    } else if index == 0 {
      ModUnique(w, 8, o + 1, 0);
    } else {
      ModUnique(w, 8, o, 8 - index);
    }
  }

  /** A tree whose leaf values all fit a `char` has `char` leaves. */
  lemma {:induction false} CharLeavesValues(t: Tree)
    requires forall v | v in LeafValues(t) :: -128 <= v < 128
    ensures CharLeaves(t)
  {
    match t
    case Leaf(v, _) =>
      assert v in LeafValues(t);
    case Node(_, left, right) =>
      assert LeafValues(t) == LeafValues(left) + LeafValues(right);
      CharLeavesValues(left);
      CharLeavesValues(right);
  }

  /** The tree `compress` builds: its leaves are the counted characters,
      EOF included, with their counts. */
  lemma CountedTree(file: seq<byte>, q: seq<Tree>, t: Tree)
    requires |q| == |Frequencies(Counted(file)).Keys|
    requires forall j :: 0 <= j < |q| ==> q[j].Leaf? && q[j].value in Frequencies(Counted(file))
                                           && q[j].freq == Frequencies(Counted(file))[q[j].value]
    requires ForestValues(q) == Frequencies(Counted(file)).Keys
    requires forall v :: Occurrences(q)[v] == if v in Frequencies(Counted(file)) then Frequencies(Counted(file))[v] else 0
    requires Leaves(t) == ForestLeaves(q) && LeafValues(t) == ForestValues(q) && t.freq == SumFreq(q)
    requires |q| == 1 ==> t == q[0]
    requires |q| >= 2 ==> t.Node?
    ensures LeafValues(t) == Frequencies(Counted(file)).Keys
    ensures CharLeaves(t)
    ensures t.freq == |file| + 1
    ensures forall x | x in Leaves(t) :: x.Leaf? && x.freq == multiset(Counted(file))[x.value]
    ensures t.Node? <==> |Frequencies(Counted(file)).Keys| >= 2
  {
    CountedKeys(file);
    QueueTree(Counted(file), q, t);
    CharLeavesValues(t);
  }

  /** The counted characters include EOF and all fit a `char`. */
  lemma CountedKeys(file: seq<byte>)
    ensures EOF_CHAR in Frequencies(Counted(file))
    ensures forall v | v in Frequencies(Counted(file)) :: -128 <= v < 128
  {
    var s := Counted(file);
    assert s[|file|] == EOF_CHAR;
    forall v | v in Frequencies(s)
      ensures -128 <= v < 128
    {
      var k :| 0 <= k < |s| && s[k] == v;
    }
  }

  /** The compressed bits before padding: the tree dump, then the flagged
      codes. */
  function Payload(file: seq<byte>, t: Tree, hc: seq<Coded>): seq<bool>
  {
    TreeBits(t) + FlaggedBits(Chars(file), hc)
  }

  /** What `compress` builds for a file: a Huffman tree of the counted
      characters, that is, one the greedy merge makes of their counts, whose
      leaves are those characters with their counts, and a code list that
      holds the tree's codes sorted by length. */
  ghost predicate CompressedTree(file: seq<byte>, t: Tree, hc: seq<Coded>)
  {
    && GreedyFrom(Frequencies(Counted(file)), t)
    && Weighted(t)
    && LeafValues(t) == Frequencies(Counted(file)).Keys
    && CharLeaves(t)
    && t.freq == |file| + 1
    && (forall x | x in Leaves(t) :: x.Leaf? && x.freq == multiset(Counted(file))[x.value])
    && (t.Node? <==> |Frequencies(Counted(file)).Keys| >= 2)
    && multiset(hc) == multiset(CodeList(t, []))
    && SortedCodes(hc)
  }

  /** `compress(in, out)` with `out` a fresh file opened for writing and
      closed afterwards (by `main`): nothing is written when `in` is not
      open. Otherwise the tree dump and the flagged codes are written and
      `close` pads with set bits. The tree and the sorted list are returned
      as ghosts: ties in the queue and the map's order leave them open. */
  method Compress(file: seq<byte>, inOpen: bool) returns (out: seq<byte>, ghost tree: Option<Tree>, ghost hc: seq<Coded>)
    ensures !inOpen ==> out == [] && tree.None?
    ensures inOpen ==>
              && tree.Some?
              && BytesBits(out) == Payload(file, tree.value, hc) + Ones(PadLength(|Payload(file, tree.value, hc)|))
              && CompressedTree(file, tree.value, hc)
  {
    var output := new BitStream();
    output.Open([], Write);
    tree, hc := None, [];
    if !inOpen || !output.isOpen {
      output.Close();
      return output.output, tree, hc;
    }
    var built, sorted := BuildCodes(file);
    tree, hc := built, sorted;
    WriteCompressed(file, built.value, sorted, output);
    ghost var o, idx := output.output, output.index;
    output.Close();
    out := output.output;
    IndexPad(|Payload(file, built.value, sorted)|, |o|, idx);
  }

  /** The writing half of `compress` on open streams, given the tree and
      the sorted code list: the tree dump, then the flagged codes. */
  method WriteCompressed(file: seq<byte>, root: Tree, sorted: seq<Coded>, output: BitStream)
    requires output.Valid() && output.isOpen && output.mode == Write && output.Written() == []
    modifies output`buffer, output`index, output`output, output`pending
    ensures output.Valid() && output.isOpen && output.mode == Write
    ensures output.Written() == Payload(file, root, sorted)
  {
    StoreHuffmanTree(Some(root), output);
    assert output.Written() == TreeBits(root);
    EncodeData(file, true, sorted, output);
  }

  /** The frequency map fills the queue, the tree is built and its code
      list is sorted by code length. */
  method BuildCodes(file: seq<byte>) returns (tree: Option<Tree>, sorted: seq<Coded>)
    ensures tree.Some? && CompressedTree(file, tree.value, sorted)
  {
    var freq := InitFrequencyMap(file, true);
    var q := HuffmanCoder.FillQueue(freq);
    CountedKeys(file);
    tree := HuffmanCoder.BuildTree(q);
    CountedTree(file, q, tree.value);
    assert LeafQueue(freq, q);
    FromWeighted(freq, tree.value);
    var list := HuffmanCode(tree);   // initHuffmanCode(HT)
    sorted := SortCodes(list);       // HC.sort(HuffmanCodeCompare)
  }

  /** `decompress(in, out)` with `in` the compressed file opened for
      reading: nothing is written when `out` is not open; otherwise the
      tree is read back and the flagged characters are decoded. */
  method Decompress(file: seq<byte>, outOpen: bool) returns (out: Option<seq<byte>>)
    ensures out == if outOpen then Decode(BytesBits(file)) else Some([])
  {
    var input := new BitStream();
    input.Open(file, Read);
    if !input.isOpen || !outOpen {
      return Some([]);
    }
    var tree := GetHuffmanTree(input);
    out := DecodeData(input, Some(tree));
  }

  // ---------------------------------------------------------------------
  // Round trip

  /** Decoding the flagged codes of a non-empty character sequence, each of
      whose codes leads to its character's leaf, writes the characters'
      bytes; whatever follows is not read. */
  lemma {:induction false} DecodeFlagsBits(u: Tree, hc: seq<Coded>, cs: seq<int>, pad: seq<bool>)
    requires cs != []
    requires forall k :: 0 <= k < |cs| ==> Reaches(u, Lookup(hc, cs[k]), cs[k])
    ensures DecodeFlags(Some(u), true, Bitstream.Reader(FlaggedBits(cs, hc) + pad, false)) == Some(ToBytes(cs))
    decreases |cs|
  {
    var code := Lookup(hc, cs[0]);
    var more := FlaggedBits(cs[1..], hc) + pad;
    assert FlaggedBits(cs, hc) + pad == [|cs| > 1] + (code + more);
    ReadBitOf(|cs| > 1, code + more, false);
    assert Reaches(u, code, cs[0]);
    NextLeafFollows(u, code, more, Follow(u, code).value);
    if |cs| > 1 {
      forall k | 0 <= k < |cs[1..]|
        ensures Reaches(u, Lookup(hc, cs[1..][k]), cs[1..][k])
      {
        assert cs[1..][k] == cs[k + 1];
      }
      DecodeFlagsBits(u, hc, cs[1..], pad);
      ToBytesCons(cs);
    } else {
      assert ToBytes(cs) == [LowByte(cs[0])];
    }
  }

  /** The bytes of a non-empty sequence: the first value's, then the
      rest's. */
  lemma ToBytesCons(cs: seq<int>)
    requires cs != []
    ensures ToBytes(cs) == [LowByte(cs[0])] + ToBytes(cs[1..])
  {
    var r := [LowByte(cs[0])] + ToBytes(cs[1..]);
    forall j | 0 <= j < |cs|
      ensures ToBytes(cs)[j] == r[j]
    {
      if j > 0 {
        assert r[j] == ToBytes(cs[1..])[j - 1];
      }
    }
  }

  /** The bytes of a file's characters are the file. */
  lemma ToBytesChars(file: seq<byte>)
    ensures ToBytes(Chars(file)) == file
  {
    forall j | 0 <= j < |file|
      ensures ToBytes(Chars(file))[j] == file[j]
    {
      CharByte(file[j]);
    }
  }

  /** What `decompress` writes for the payload of a non-empty file is the
      file, whatever follows the payload, when the code list holds the
      entries of the tree's code list in any order and every character of
      the file is a leaf. */
  lemma RoundTripBits(file: seq<byte>, t: Tree, hc: seq<Coded>, pad: seq<bool>)
    requires file != [] && CharLeaves(t)
    requires multiset(hc) == multiset(CodeList(t, []))
    requires forall j :: 0 <= j < |file| ==> Char(file[j]) in LeafValues(t)
    ensures Decode(Payload(file, t, hc) + pad) == Some(file)
  {
    var cs := Chars(file);
    var rest := FlaggedBits(cs, hc) + pad;
    assert Payload(file, t, hc) + pad == TreeBits(t) + rest;
    ParseCharTreeBits(t, rest, false);
    var u := Unweighted(t);
    forall k | 0 <= k < |cs|
      ensures Reaches(u, Lookup(hc, cs[k]), cs[k])
    {
      LookupReaches(t, hc, cs[k]);
      FollowUnweighted(t, Lookup(hc, cs[k]), cs[k]);
    }
    DecodeFlagsBits(u, hc, cs, pad);
    ToBytesChars(file);
  }

  /** `decompress` of what `compress` wrote gives back any non-empty
      file. */
  method RoundTrip(file: seq<byte>) returns (back: Option<seq<byte>>)
    requires file != []
    ensures back == Some(file)
  {
    var packed, tree, hc := Compress(file, true);
    back := Decompress(packed, true);
    CompressedDecodes(file, tree.value, hc);
  }

  /** What `compress` writes for a non-empty file, padded, decodes to the
      file. */
  lemma CompressedDecodes(file: seq<byte>, t: Tree, hc: seq<Coded>)
    requires file != [] && CompressedTree(file, t, hc)
    ensures Decode(Payload(file, t, hc) + Ones(PadLength(|Payload(file, t, hc)|))) == Some(file)
  {
    forall j | 0 <= j < |file|
      ensures Char(file[j]) in LeafValues(t)
    {
      assert Counted(file)[j] == Char(file[j]);
    }
    RoundTripBits(file, t, hc, Ones(PadLength(|Payload(file, t, hc)|)));
  }

  /** A lone leaf is reached without reading a bit, so every set bit reads
      as a flag for one more character, until the read past the end
      raises the eof flag and `nextVex` answers null. */
  lemma {:induction false} LoneLeafOnes(v: int, f: nat, n: nat)
    ensures DecodeFlags(Some(Leaf(v, f)), true, Bitstream.Reader(Ones(n), false)) == None
  {
    if n > 0 {
      assert Ones(n) == [true] + Ones(n - 1);
      ReadBitOf(true, Ones(n - 1), false);
      LoneLeafOnes(v, f, n - 1);
    }
  }

  /** An empty file compresses to the dump of a lone EOF leaf, and its
      decompression dereferences a null node: there is no result. */
  method EmptyFile() returns (back: Option<seq<byte>>)
    ensures back == None
  {
    var packed, tree, hc := Compress([], true);
    back := Decompress(packed, true);
    EmptyTree(tree.value);
    LoneLeafPayload(tree.value, hc);
  }

  /** The tree built for an empty file is the lone EOF leaf. */
  lemma EmptyTree(t: Tree)
    requires LeafValues(t) == Frequencies(Counted([])).Keys
    requires t.Node? <==> |Frequencies(Counted([])).Keys| >= 2
    ensures t.Leaf? && t.value == EOF_CHAR
  {
    assert Counted([]) == [EOF_CHAR];
    assert Frequencies(Counted([])).Keys == {EOF_CHAR};
    assert t.value in LeafValues(t);
  }

  /** The dump of a lone leaf, padded, decodes to no result. */
  lemma LoneLeafPayload(t: Tree, hc: seq<Coded>)
    requires t.Leaf? && -128 <= t.value < 128
    ensures Decode(Payload([], t, hc) + Ones(PadLength(|Payload([], t, hc)|))) == None
  {
    var p := Payload([], t, hc);
    assert p == TreeBits(t) && |p| == 9;
    assert PadLength(9) == 7;
    ParseCharTreeBits(t, Ones(7), false);
    assert Unweighted(t) == Leaf(t.value, 1);
    LoneLeafOnes(t.value, 1, 7);
    assert Decode(p + Ones(7)) == DecodeFlags(Some(Leaf(t.value, 1)), true, Bitstream.Reader(Ones(7), false));
  }
}
