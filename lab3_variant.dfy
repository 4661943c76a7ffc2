/** The variant driver of the older generation
    (`Lab3_Huffmann/Lab3_Huffmann.cpp`): the compressed file starts with the
    number of leaves in one byte and a (`char`, frequency) byte pair per
    leaf, then the plain codes of the characters, with no flags. The
    decoder rebuilds the tree from the pairs and stops when `nextVex`
    answers null or a leaf of frequency 0. Also the name of the output
    file. */
module Lab3Variant {
  import opened Bits
  import opened Wrappers
  import Bitstream
  import opened Huffman
  import HuffmanCoder
  import opened Lab3Stream
  import opened Lab3Frequency
  import opened Lab3Tree
  import Lab3Coding

  // ---------------------------------------------------------------------
  // encodeData

  /** The bits `encodeData` writes for the characters `cs`: the code of the
      first list entry holding each, nothing when no entry does. */
  function PlainBits(cs: seq<int>, hc: seq<Coded>): seq<bool>
  {
    if cs == [] then [] else Lookup(hc, cs[0]) + PlainBits(cs[1..], hc)
  }

  /** `encodeData(in, codeMap, out)`: nothing when either stream is closed;
      otherwise each character up to the end of the file has its code
      written. */
  method EncodeData(file: seq<byte>, inOpen: bool, hc: seq<Coded>, out: BitStream)
    requires out.Valid()
    modifies out`buffer, out`index, out`output, out`pending
    ensures out.Valid()
    ensures !inOpen || !out.isOpen ==> unchanged(out)
    ensures inOpen && out.isOpen && (out.mode == Write || out.mode == App) ==>
              out.Written() == old(out.Written()) + PlainBits(Chars(file), hc)
    ensures out.mode != Write && out.mode != App ==> out.output == old(out.output)
  {
    if !inOpen || !out.isOpen {
      return;
    }
    ghost var cs := Chars(file);
    var pos := 0;
    while true
      invariant out.Valid() && 0 <= pos <= |file|
      invariant out.mode == Write || out.mode == App ==>
                  out.Written() + PlainBits(cs[pos..], hc) == old(out.Written()) + PlainBits(cs, hc)
      invariant out.mode != Write && out.mode != App ==> out.output == old(out.output)
      decreases |file| - pos
    {
      if pos == |file| {  // in.get() meets the end of the file
        assert cs[pos..] == [];
        return;
      }
      var ch := Char(file[pos]);
      pos := pos + 1;
      var code := FindCode(hc, ch);
      ghost var w := out.Written();
      Lab3Coding.PutCode(code, out);
      PlainStep(cs, hc, pos - 1);
      assert w + code + PlainBits(cs[pos..], hc) == w + (code + PlainBits(cs[pos..], hc));
    }
  }

  /** One character of `PlainBits`, taken from the front. */
  lemma PlainStep(cs: seq<int>, hc: seq<Coded>, i: nat)
    requires i < |cs|
    ensures PlainBits(cs[i..], hc) == Lookup(hc, cs[i]) + PlainBits(cs[i + 1..], hc)
  {
    assert cs[i..][0] == cs[i] && cs[i..][1..] == cs[i + 1..];
  }

  // ---------------------------------------------------------------------
  // decodeData

  /** The case where `decodeData` never returns: on an open stream whose
      file is not exhausted, a tree that is a lone leaf of non-zero
      frequency is answered by `nextVex` without a bit being read. */
  predicate Spins(t: Option<Tree>, open: bool, s: Bitstream.Reader)
  {
    open && !s.eof && t.Some? && t.value.Leaf? && t.value.freq != 0
  }

  /** What `decodeData` writes from the reader `s`: the character of each
      leaf `nextVex` reaches, until it answers null or a leaf of frequency
      0; `None` where the loop never ends. */
  function DecodeUntil(t: Option<Tree>, open: bool, s: Bitstream.Reader): Option<seq<byte>>
    decreases Progress(s)
  {
    if Spins(t, open, s) then None
    else
      var (node, s1) := NextLeaf(t, open, s);
      if node.None? || node.value.freq == 0 then Some([])
      else Lab3Coding.Prepend([LowByte(node.value.value)], DecodeUntil(t, open, s1))
  }

  /** In the spinning case each round of the loop finds the same leaf with
      the reader unmoved, so it writes the leaf's character again and
      again. */
  lemma SpinsForever(t: Option<Tree>, open: bool, s: Bitstream.Reader)
    requires Spins(t, open, s)
    ensures NextLeaf(t, open, s) == (t, s) && t.value.freq != 0
    ensures DecodeUntil(t, open, s).None?
  {
  }

  /** `decodeData(in, Tree, out)` on a stream in read mode, outside the case
      where it never returns. */
  method DecodeData(input: BitStream, t: Option<Tree>) returns (out: seq<byte>)
    requires input.Valid() && input.mode == Read
    requires !Spins(t, input.isOpen, input.State())
    modifies input`buffer, input`index, input`pos, input`eofBit, input`pending
    ensures Some(out) == DecodeUntil(t, input.isOpen, old(input.State()))
  {
    out := [];
    Lab3Coding.PrependNil(DecodeUntil(t, input.isOpen, input.State()));
    while true
      invariant input.Valid() && input.mode == Read
      invariant !Spins(t, input.isOpen, input.State())
      invariant Lab3Coding.Prepend(out, DecodeUntil(t, input.isOpen, input.State()))
                  == DecodeUntil(t, input.isOpen, old(input.State()))
      decreases Progress(input.State())
    {
      ghost var s0 := input.State();
      var node := NextVex(input, t);
      if node.None? || node.value.freq == 0 {
        assert out + [] == out;
        return;
      }
      UntilStep(t, input.isOpen, s0, node, input.State());
      Lab3Coding.PrependTwice(out, [LowByte(node.value.value)], DecodeUntil(t, input.isOpen, input.State()));
      out := out + [LowByte(node.value.value)];  // out.put(node->ch)
    }
  }

  /** One round of `DecodeUntil` that writes a character: the tree is not a
      lone leaf, the reader moves on, and the loop cannot start spinning. */
  lemma UntilStep(t: Option<Tree>, open: bool, s0: Bitstream.Reader, node: Option<Tree>, s1: Bitstream.Reader)
    requires !Spins(t, open, s0) && (node, s1) == NextLeaf(t, open, s0)
    requires node.Some? && node.value.freq != 0
    ensures t.Some? && t.value.Node? && Progress(s1) < Progress(s0) && !Spins(t, open, s1)
    ensures DecodeUntil(t, open, s0) == Lab3Coding.Prepend([LowByte(node.value.value)], DecodeUntil(t, open, s1))
  {
  }

  /** The plain codes of characters, each leading in the tree to its leaf
      of non-zero frequency, decode to the characters' bytes, followed by
      whatever the bits after them decode to. */
  lemma {:induction false} PlainDecodes(u: Tree, hc: seq<Coded>, cs: seq<int>, rest: seq<bool>)
    requires forall k :: 0 <= k < |cs| ==>
               Reaches(u, Lookup(hc, cs[k]), cs[k]) && Follow(u, Lookup(hc, cs[k])).value.freq != 0
    ensures DecodeUntil(Some(u), true, Bitstream.Reader(PlainBits(cs, hc) + rest, false))
              == Lab3Coding.Prepend(ToBytes(cs), DecodeUntil(Some(u), true, Bitstream.Reader(rest, false)))
    decreases |cs|
  {
    var s := Bitstream.Reader(PlainBits(cs, hc) + rest, false);
    if cs == [] {
      assert PlainBits(cs, hc) + rest == rest;
      Lab3Coding.PrependNil(DecodeUntil(Some(u), true, s));
      return;
    }
    var code := Lookup(hc, cs[0]);
    var leaf := Follow(u, code).value;
    if u.Leaf? {
      // a lone leaf is reached by the empty code only: the loop spins
      assert code == [];
      assert Spins(Some(u), true, s);
      return;
    }
    var more := PlainBits(cs[1..], hc) + rest;
    assert PlainBits(cs, hc) + rest == code + more;
    NextLeafFollows(u, code, more, leaf);
    forall k | 0 <= k < |cs[1..]|
      ensures Reaches(u, Lookup(hc, cs[1..][k]), cs[1..][k]) && Follow(u, Lookup(hc, cs[1..][k])).value.freq != 0
    {
      assert cs[1..][k] == cs[k + 1];
    }
    PlainDecodes(u, hc, cs[1..], rest);
    assert ToBytes(cs) == [LowByte(cs[0])] + ToBytes(cs[1..]);
    Lab3Coding.PrependTwice([LowByte(cs[0])], ToBytes(cs[1..]), DecodeUntil(Some(u), true, Bitstream.Reader(rest, false)));
  }

  // ---------------------------------------------------------------------
  // The header: leaf count and (char, frequency) pairs

  /** The leaves `storeHuffmanLeaf` dumps, as `decompress` reads them back:
      left to right, each frequency cut to its eight low bits. */
  function HeaderLeaves(t: Tree): seq<Tree>
  {
    match t
    case Leaf(v, f) => [Leaf(v, LowByte(f))]
    case Node(_, left, right) => HeaderLeaves(left) + HeaderLeaves(right)
  }

  /** One round of `decompress`'s header loop: a `char`, then a frequency,
      read with `getchar`, make a leaf. */
  function ReadPair(s: Bitstream.Reader): (r: (Tree, Bitstream.Reader))
    ensures r.0.Leaf? && -128 <= r.0.value < 128 && r.0.freq < 256
  {
    var ch := ReadChar(s);
    var f := ReadChar(ch.1);
    (Leaf(Char(ch.0), f.0 as nat), f.1)
  }

  /** `n` successive reads with `rd`, the values in order: `n` rounds of
      the header loop when `rd` is `ReadPair`. */
  function Repeat<T>(rd: Bitstream.Reader -> (T, Bitstream.Reader), s: Bitstream.Reader, n: nat): (r: (seq<T>, Bitstream.Reader))
    ensures |r.0| == n
    decreases n
  {
    if n == 0 then ([], s)
    else
      var p := rd(s);
      var r := Repeat(rd, p.1, n - 1);
      ([p.0] + r.0, r.1)
  }

  /** What `decompress` reads before the payload: the leaf count `numb`,
      then `numb` pairs. */
  function Header(s: Bitstream.Reader): (seq<Tree>, Bitstream.Reader)
  {
    var numb := ReadChar(s);
    Repeat(ReadPair, numb.1, numb.0 as nat)
  }

  /** Reading in two runs reads the same as in one. */
  lemma {:induction false} RepeatSplit<T>(rd: Bitstream.Reader -> (T, Bitstream.Reader), s: Bitstream.Reader, a: nat, b: nat)
    ensures Repeat(rd, s, a + b)
              == (Repeat(rd, s, a).0 + Repeat(rd, Repeat(rd, s, a).1, b).0, Repeat(rd, Repeat(rd, s, a).1, b).1)
    decreases a
  {
    if a == 0 {
      assert [] + Repeat(rd, s, b).0 == Repeat(rd, s, b).0;
    } else {
      var x := rd(s);
      RepeatSplit(rd, x.1, a - 1, b);
      var p := Repeat(rd, x.1, a - 1);
      var r := Repeat(rd, p.1, b);
      assert Repeat(rd, s, a) == ([x.0] + p.0, p.1);
      assert a + b - 1 == (a - 1) + b;
      assert [x.0] + p.0 + r.0 == [x.0] + (p.0 + r.0);
    }
  }

  /** Two runs read one after the other make one run. */
  lemma RepeatConcat<T>(rd: Bitstream.Reader -> (T, Bitstream.Reader), s: Bitstream.Reader, a: nat, b: nat,
                        x: seq<T>, s1: Bitstream.Reader, y: seq<T>, s2: Bitstream.Reader)
    requires Repeat(rd, s, a) == (x, s1) && Repeat(rd, s1, b) == (y, s2)
    ensures Repeat(rd, s, a + b) == (x + y, s2)
  {
    RepeatSplit(rd, s, a, b);
  }

  /** Two runs over bits `bl` and `br` written one after the other make
      one run over both. */
  lemma RepeatAppend<T>(rd: Bitstream.Reader -> (T, Bitstream.Reader), bl: seq<bool>, br: seq<bool>, rest: seq<bool>, e: bool,
                        a: nat, b: nat, x: seq<T>, y: seq<T>, bits: seq<bool>, n: nat, xs: seq<T>)
    requires Repeat(rd, Bitstream.Reader(bl + (br + rest), e), a) == (x, Bitstream.Reader(br + rest, e))
    requires Repeat(rd, Bitstream.Reader(br + rest, e), b) == (y, Bitstream.Reader(rest, e))
    requires bits == bl + br + rest && n == a + b && xs == x + y
    ensures Repeat(rd, Bitstream.Reader(bits, e), n) == (xs, Bitstream.Reader(rest, e))
  {
    assert bl + br + rest == bl + (br + rest);
    RepeatConcat(rd, Bitstream.Reader(bl + (br + rest), e), a, b, x, Bitstream.Reader(br + rest, e), y, Bitstream.Reader(rest, e));
  }

  /** The pair `storeHuffmanLeaf` writes for a leaf with a `char` value
      reads back as the leaf with its frequency cut to eight bits. */
  lemma ReadPairOf(v: int, f: int, rest: seq<bool>, e: bool)
    requires -128 <= v < 128
    ensures ReadPair(Bitstream.Reader(ByteBits(v) + ByteBits(f) + rest, e)) == (Leaf(v, LowByte(f)), Bitstream.Reader(rest, e))
  {
    assert ByteBits(v) + ByteBits(f) + rest == ByteBits(v) + (ByteBits(f) + rest);
    ReadCharOf(v, ByteBits(f) + rest, e);
    ReadCharOf(f, rest, e);
    ByteChar(v);
  }

  lemma ReadLeafPair(v: int, f: int, rest: seq<bool>, e: bool)
    requires -128 <= v < 128
    ensures Repeat(ReadPair, Bitstream.Reader(ByteBits(v) + ByteBits(f) + rest, e), 1) == ([Leaf(v, LowByte(f))], Bitstream.Reader(rest, e))
  {
    ReadPairOf(v, f, rest, e);
    assert [Leaf(v, LowByte(f))] + [] == [Leaf(v, LowByte(f))];
  }

  /** The pairs `storeHuffmanLeaf` writes for a tree with `char` leaves read
      back, one per leaf, as the header leaves. */
  lemma {:induction false} LeafPairsRead(t: Tree, rest: seq<bool>, e: bool)
    requires CharLeaves(t)
    ensures Repeat(ReadPair, Bitstream.Reader(LeafPairBits(t) + rest, e), LeafCount(t)) == (HeaderLeaves(t), Bitstream.Reader(rest, e))
  {
    match t
    case Leaf(v, f) =>
      ReadLeafPair(v, f, rest, e);
    case Node(f, left, right) =>
      LeafPairsRead(left, LeafPairBits(right) + rest, e);
      LeafPairsRead(right, rest, e);
      LeafPairsJoin(f, left, right, rest, e);
  }

  /** The pairs of an inner node's two subtrees read one after the other. */
  lemma LeafPairsJoin(f: nat, left: Tree, right: Tree, rest: seq<bool>, e: bool)
    requires Repeat(ReadPair, Bitstream.Reader(LeafPairBits(left) + (LeafPairBits(right) + rest), e), LeafCount(left))
               == (HeaderLeaves(left), Bitstream.Reader(LeafPairBits(right) + rest, e))
    requires Repeat(ReadPair, Bitstream.Reader(LeafPairBits(right) + rest, e), LeafCount(right))
               == (HeaderLeaves(right), Bitstream.Reader(rest, e))
    ensures var t := Node(f, left, right);
            Repeat(ReadPair, Bitstream.Reader(LeafPairBits(t) + rest, e), LeafCount(t)) == (HeaderLeaves(t), Bitstream.Reader(rest, e))
  {
    var t := Node(f, left, right);
    RepeatAppend(ReadPair, LeafPairBits(left), LeafPairBits(right), rest, e, LeafCount(left), LeafCount(right),
                 HeaderLeaves(left), HeaderLeaves(right), LeafPairBits(t) + rest, LeafCount(t), HeaderLeaves(t));
  }



  /** The header `compress` writes for a code list of one entry per leaf:
      below 256 leaves it reads back as the leaves with their frequencies
      cut to eight bits; with 256 leaves the count byte reads as 0 and no
      pair is read. */
  lemma HeaderRead(t: Tree, hc: seq<Coded>, rest: seq<bool>)
    requires CharLeaves(t) && |hc| == LeafCount(t)
    ensures |hc| < 256 ==> Header(Bitstream.Reader(ByteBits(|hc|) + LeafPairBits(t) + rest, false)) == (HeaderLeaves(t), Bitstream.Reader(rest, false))
    ensures |hc| == 256 ==> Header(Bitstream.Reader(ByteBits(|hc|) + LeafPairBits(t) + rest, false)).0 == []
  {
    var bits := ByteBits(|hc|) + LeafPairBits(t) + rest;
    var s := Bitstream.Reader(LeafPairBits(t) + rest, false);
    assert bits == ByteBits(|hc|) + (LeafPairBits(t) + rest);
    ReadCharOf(|hc|, LeafPairBits(t) + rest, false);
    assert Header(Bitstream.Reader(bits, false)) == Repeat(ReadPair, s, LowByte(|hc|));
    if |hc| < 256 {
      ModUnique(|hc|, 256, 0, |hc|);
      LeafPairsRead(t, rest, false);
    } else if |hc| == 256 {
      ModUnique(|hc|, 256, 1, 0);
    }
  }

  // ---------------------------------------------------------------------
  // compress

  /** The list `compress` keeps once the loop over it has removed the first
      entry of frequency 0, with that entry if there was one. */
  function RemoveFirstZero(hc: seq<Coded>): (seq<Coded>, Option<Coded>)
  {
    if hc == [] then ([], None)
    else if hc[0].freq == 0 then (hc[1..], Some(hc[0]))
    else
      var (rest, z) := RemoveFirstZero(hc[1..]);
      ([hc[0]] + rest, z)
  }

  /** Removing the first zero-frequency entry at `k`: the entries before
      and after it stay, in order. */
  lemma {:induction false} RemoveFirstZeroAt(hc: seq<Coded>, k: nat)
    requires k < |hc| && hc[k].freq == 0 && forall j :: 0 <= j < k ==> hc[j].freq != 0
    ensures RemoveFirstZero(hc) == (hc[..k] + hc[k + 1..], Some(hc[k]))
    decreases k
  {
    if k == 0 {
      assert hc[..0] + hc[1..] == hc[1..];
    } else {
      RemoveFirstZeroAt(hc[1..], k - 1);
      assert hc[..k] + hc[k + 1..] == [hc[0]] + (hc[1..][..k - 1] + hc[1..][k..]);
    }
  }

  /** Without a zero-frequency entry the list stays as it is. */
  lemma {:induction false} RemoveNoZero(hc: seq<Coded>)
    requires forall j :: 0 <= j < |hc| ==> hc[j].freq != 0
    ensures RemoveFirstZero(hc) == (hc, None)
  {
    if hc != [] {
      RemoveNoZero(hc[1..]);
      assert [hc[0]] + hc[1..] == hc;
    }
  }

  /** The `for (auto& i : HC)` loop of `compress` that detaches the first
      entry of frequency 0 into `tmp`. */
  method DetachZero(hc: seq<Coded>) returns (rest: seq<Coded>, tmp: Option<Coded>)
    ensures (rest, tmp) == RemoveFirstZero(hc)
  {
    var k := 0;
    while k < |hc|
      invariant 0 <= k <= |hc|
      invariant forall j :: 0 <= j < k ==> hc[j].freq != 0
    {
      if hc[k].freq == 0 {
        RemoveFirstZeroAt(hc, k);
        return hc[..k] + hc[k + 1..], Some(hc[k]);  // tmp = i; HC.remove(i)
      }
      k := k + 1;
    }
    RemoveNoZero(hc);
    return hc, None;
  }

  /** The code written after the payload for a detached entry. */
  function TailCode(z: Option<Coded>): seq<bool>
  {
    if z.None? then [] else z.value.code
  }

  /** The bits `compress` writes before the padding: the leaf count, the
      pairs, the plain codes with the list left by the detaching loop, and
      the detached entry's code. */
  function VariantBits(file: seq<byte>, t: Tree, hc: seq<Coded>): seq<bool>
  {
    ByteBits(|hc|) + LeafPairBits(t) + PlainBits(Chars(file), RemoveFirstZero(hc).0) + TailCode(RemoveFirstZero(hc).1)
  }

  /** Every entry of a code list is one of the tree's leaves. */
  lemma {:induction false} CodeListLeaves(t: Tree, code: seq<bool>)
    ensures forall k :: 0 <= k < |CodeList(t, code)| ==> Leaf(CodeList(t, code)[k].ch, CodeList(t, code)[k].freq) in Leaves(t)
  {
    match t
    case Leaf(_, _) =>
    case Node(_, left, right) =>
      CodeListLeaves(left, code + [false]);
      CodeListLeaves(right, code + [true]);
      var a, b := CodeList(left, code + [false]), CodeList(right, code + [true]);
      var r: seq<Coded> := a + b;
      forall k | 0 <= k < |r|
        ensures Leaf(r[k].ch, r[k].freq) in Leaves(t)
      {
        if k >= |a| {
          assert r[k] == b[k - |a|];
        }
      }
  }

  /** Every character `compress` counts has been seen at least once, so
      the detaching loop finds nothing and no code follows the payload. */
  lemma NoZeroEntry(file: seq<byte>, t: Tree, hc: seq<Coded>)
    requires Lab3Coding.CompressedTree(file, t, hc)
    ensures RemoveFirstZero(hc) == (hc, None)
    ensures VariantBits(file, t, hc) == ByteBits(|hc|) + LeafPairBits(t) + PlainBits(Chars(file), hc)
  {
    CountedCodes(file, t, hc);
    RemoveNoZero(hc);
  }

  /** Every entry of the code list `compress` builds has a frequency of at
      least one: it is the count of a character that was read. */
  lemma CountedCodes(file: seq<byte>, t: Tree, hc: seq<Coded>)
    requires Lab3Coding.CompressedTree(file, t, hc)
    ensures forall j :: 0 <= j < |hc| ==> hc[j].freq != 0
  {
    CodeListLeaves(t, []);
    forall j | 0 <= j < |hc|
      ensures hc[j].freq != 0
    {
      assert hc[j] in multiset(CodeList(t, []));
      var k :| 0 <= k < |CodeList(t, []) | && CodeList(t, [])[k] == hc[j];
      CountedLeaf(file, t, hc, Leaf(hc[j].ch, hc[j].freq));
    }
  }

  /** A leaf of the tree `compress` builds holds a positive count. */
  lemma CountedLeaf(file: seq<byte>, t: Tree, hc: seq<Coded>, x: Tree)
    requires Lab3Coding.CompressedTree(file, t, hc) && x.Leaf? && x in Leaves(t)
    ensures x.freq != 0
  {
    LeavesValues(t);
    assert x.value in Counted(file);
  }

  /** `compress(in, out)` with `out` a fresh file opened for writing and
      closed afterwards (by `main`): nothing is written when `in` is not
      open. Otherwise the tree and the sorted code list are built as by the
      flagged driver, the header and the codes are written and `close`
      pads with set bits. */
  method Compress(file: seq<byte>, inOpen: bool) returns (out: seq<byte>, ghost tree: Option<Tree>, ghost hc: seq<Coded>)
    ensures !inOpen ==> out == [] && tree.None?
    ensures inOpen ==>
              && tree.Some?
              && Lab3Coding.CompressedTree(file, tree.value, hc)
              && BytesBits(out) == VariantBits(file, tree.value, hc) + Ones(PadLength(|VariantBits(file, tree.value, hc)|))
  {
    var output := new BitStream();
    output.Open([], Write);
    tree, hc := None, [];
    if !inOpen || !output.isOpen {
      output.Close();
      return output.output, tree, hc;
    }
    var built, sorted := Lab3Coding.BuildCodes(file);
    tree, hc := built, sorted;
    WriteVariant(file, built.value, sorted, output);
    ghost var o, idx := output.output, output.index;
    output.Close();
    out := output.output;
    Lab3Coding.IndexPad(|VariantBits(file, built.value, sorted)|, |o|, idx);
  }

  /** The writing half of `compress` on open streams, given the tree and
      the sorted code list: the header, then the payload. */
  method WriteVariant(file: seq<byte>, root: Tree, sorted: seq<Coded>, output: BitStream)
    requires output.Valid() && output.isOpen && output.mode == Write && output.Written() == []
    modifies output`buffer, output`index, output`output, output`pending
    ensures output.Valid() && output.isOpen && output.mode == Write
    ensures output.Written() == VariantBits(file, root, sorted)
  {
    WriteHeader(root, |sorted|, output);
    assert output.Written() == ByteBits(|sorted|) + LeafPairBits(root);
    WritePayload(file, sorted, output);
  }

  /** The header: the count byte, then the pairs of the leaves. */
  method WriteHeader(root: Tree, count: nat, output: BitStream)
    requires output.Valid() && output.isOpen && output.mode == Write
    modifies output`buffer, output`index, output`output, output`pending
    ensures output.Valid()
    ensures output.Written() == old(output.Written()) + ByteBits(count) + LeafPairBits(root)
  {
    output.PutChar(count);                // out.putchar(HC.size())
    StoreHuffmanLeaf(Some(root), output);
  }

  /** The payload: the plain codes of the characters, then the code
      taken out of the list, if any. */
  method WritePayload(file: seq<byte>, sorted: seq<Coded>, output: BitStream)
    requires output.Valid() && output.isOpen && output.mode == Write
    modifies output`buffer, output`index, output`output, output`pending
    ensures output.Valid()
    ensures output.Written() == old(output.Written()) + PlainBits(Chars(file), RemoveFirstZero(sorted).0)
                                + TailCode(RemoveFirstZero(sorted).1)
  {
    var list, tmp := DetachZero(sorted);
    EncodeData(file, true, list, output);
    if tmp.Some? {
      Lab3Coding.PutCode(tmp.value.code, output);
    }
  }

  // ---------------------------------------------------------------------
  // decompress

  /** What `initHuffmanTree` answers for the queue `q`, whatever order the
      ties are popped in: a tree the greedy merge makes of `q`. */
  ghost predicate BuiltFrom(t: Option<Tree>, q: seq<Tree>)
  {
    && (t.None? <==> q == [])
    && (t.Some? ==> GreedyBuild(q, t.value))
    && (|q| == 1 ==> t == Some(q[0]))
    && (|q| >= 2 ==> t.Some? && t.value.Node?)
    && (t.Some? ==> Leaves(t.value) == ForestLeaves(q) && t.value.freq == SumFreq(q))
  }

  /** `decompress(in, out)` with `in` the compressed file opened for
      reading: nothing is written when `out` is not open. Otherwise the
      header is read, the tree rebuilt from its pairs, and the payload
      decoded; `None` is the case where `decodeData` never returns. */
  method Decompress(file: seq<byte>, outOpen: bool) returns (out: Option<seq<byte>>, ghost tree: Option<Tree>)
    ensures !outOpen ==> out == Some([])
    ensures outOpen ==>
              && BuiltFrom(tree, Header(Bitstream.Reader(BytesBits(file), false)).0)
              && out == DecodeUntil(tree, true, Header(Bitstream.Reader(BytesBits(file), false)).1)
  {
    var input := new BitStream();
    input.Open(file, Read);
    tree := None;
    if !input.isOpen || !outOpen {
      return Some([]), tree;
    }
    var q := ReadHeader(input);
    var t := HuffmanCoder.BuildTree(q);
    tree := t;
    if !input.eofBit && t.Some? && t.value.Leaf? && t.value.freq != 0 {
      SpinsForever(t, true, input.State());
      return None, tree;  // decodeData(in, HT, out) does not return
    }
    var data := DecodeData(input, t);
    out := Some(data);
  }

  /** `int numb = in.getchar()` and the loop reading `numb` pairs into the
      queue. */
  method ReadHeader(input: BitStream) returns (q: seq<Tree>)
    requires input.Valid() && input.mode == Read && input.isOpen
    modifies input`buffer, input`index, input`pos, input`eofBit, input`pending
    ensures input.Valid() && input.mode == Read && input.isOpen
    ensures (q, input.State()) == Header(old(input.State()))
  {
    var numb := input.GetChar();
    q := ReadPairs(input, numb);
  }

  /** The loop reading `numb` pairs into the queue. */
  method ReadPairs(input: BitStream, numb: nat) returns (q: seq<Tree>)
    requires input.Valid() && input.mode == Read && input.isOpen
    modifies input`buffer, input`index, input`pos, input`eofBit, input`pending
    ensures input.Valid() && input.mode == Read && input.isOpen
    ensures (q, input.State()) == Repeat(ReadPair, old(input.State()), numb)
  {
    ghost var target := Repeat(ReadPair, input.State(), numb);
    q := [];
    var i := 0;
    assert [] + target.0 == target.0;
    while i < numb
      invariant 0 <= i <= numb
      invariant input.Valid() && input.mode == Read && input.isOpen
      invariant (q + Repeat(ReadPair, input.State(), numb - i).0, Repeat(ReadPair, input.State(), numb - i).1) == target
    {
      q := PushPair(input, q, numb - i, target);
      i := i + 1;
    }
    assert q + [] == q;
  }

  /** One round of the loop: a pair read and its leaf pushed. */
  method PushPair(input: BitStream, q: seq<Tree>, ghost n: nat, ghost target: (seq<Tree>, Bitstream.Reader))
      returns (q': seq<Tree>)
    requires input.Valid() && input.mode == Read && input.isOpen && n > 0
    requires (q + Repeat(ReadPair, input.State(), n).0, Repeat(ReadPair, input.State(), n).1) == target
    modifies input`buffer, input`index, input`pos, input`eofBit, input`pending
    ensures input.Valid() && input.mode == Read && input.isOpen
    ensures (q' + Repeat(ReadPair, input.State(), n - 1).0, Repeat(ReadPair, input.State(), n - 1).1) == target
  {
    ghost var s0 := input.State();
    var leaf := GetPair(input);
    q' := q + [leaf];  // p_queue.push(HuffmanNode(ch, freq))
    RepeatStep(ReadPair, s0, n, q, leaf, input.State(), q', n - 1, target);
  }

  /** `char ch = in.getchar(); int freq = in.getchar();` and the leaf they
      make. */
  method GetPair(input: BitStream) returns (leaf: Tree)
    requires input.Valid() && input.mode == Read
    modifies input`buffer, input`index, input`pos, input`eofBit, input`pending
    ensures input.Valid() && input.mode == Read
    ensures (leaf, input.State()) == ReadPair(old(input.State()))
  {
    var ch := input.GetChar();
    var freq := input.GetChar();
    leaf := Leaf(Char(ch), freq as nat);
  }

  /** One read taken off the front of a run. */
  lemma RepeatStep<T>(rd: Bitstream.Reader -> (T, Bitstream.Reader), s0: Bitstream.Reader, n: nat, q: seq<T>,
                      x: T, s1: Bitstream.Reader, q': seq<T>, n': nat, target: (seq<T>, Bitstream.Reader))
    requires n > 0 && (x, s1) == rd(s0) && q' == q + [x] && n' == n - 1
    requires (q + Repeat(rd, s0, n).0, Repeat(rd, s0, n).1) == target
    ensures (q' + Repeat(rd, s1, n').0, Repeat(rd, s1, n').1) == target
  {
    assert q + [x] + Repeat(rd, s1, n - 1).0 == q + ([x] + Repeat(rd, s1, n - 1).0);
  }

  // ---------------------------------------------------------------------
  // outputfileName

  /** The position of the first '.' of a name that has one. */
  function FirstDot(name: string): (i: nat)
    requires '.' in name
    ensures i < |name| && name[i] == '.' && '.' !in name[..i]
  {
    if name[0] == '.' then 0
    else
      var j := FirstDot(name[1..]);
      assert name[..j + 1] == [name[0]] + name[1..][..j];
      j + 1
  }

  /** The position of the last '.' of a name that has one. */
  function LastDot(name: string): (i: nat)
    requires '.' in name
    ensures i < |name| && name[i] == '.' && '.' !in name[i + 1..]
  {
    var n := |name| - 1;
    if name[n] == '.' then n
    else
      assert '.' in name[..n] by {
        var k :| 0 <= k < |name| && name[k] == '.';
        assert name[..n][k] == '.';
      }
      var j := LastDot(name[..n]);
      assert name[j + 1..] == name[..n][j + 1..] + [name[n]];
      j
  }

  /** `outputfileName(inputfile)`: `None` for a name without '.', where the
      insertion at `npos` throws; otherwise the name cut at its last '.',
      with "out" inserted before its first '.'. */
  function OutputName(name: string): (r: Option<string>)
    ensures r.Some? <==> '.' in name
  {
    if '.' !in name then None
    else
      var f, l := FirstDot(name), LastDot(name);
      Some(name[..f] + "out" + name[f..l])
  }

  /** The name returned is fixed by where the first and the last '.' are,
      and it is never empty, so `"empty"` is never returned. */
  lemma OutputNameShape(name: string, f: nat, l: nat)
    requires f <= l < |name| && name[f] == '.' && name[l] == '.'
    requires '.' !in name[..f] && '.' !in name[l + 1..]
    ensures OutputName(name) == Some(name[..f] + "out" + name[f..l])
    ensures OutputName(name).value != [] && |OutputName(name).value| == l + 3
  {
  }

  /** `outputfileName(inputfile)`: "out" is inserted at the first '.', then
      characters are popped from the end up to and including the last
      '.'. */
  method OutputFileName(inputfile: string) returns (r: Option<string>)
    ensures r == OutputName(inputfile)
  {
    if '.' !in inputfile {
      return None;  // insert at npos throws out_of_range
    }
    var f := FirstDot(inputfile);
    var s := inputfile[..f] + "out" + inputfile[f..];
    ghost var t := s;
    ghost var l := LastDot(inputfile) + 3;
    InsertedDots(inputfile, f, LastDot(inputfile));
    while s != [] && s[|s| - 1] != '.'
      invariant l < |s| <= |t| && s == t[..|s|]
      decreases |s|
    {
      assert |s| - 1 != l;
      s := s[..|s| - 1];  // pop_back
    }
    s := s[..|s| - 1];  // pop_back of the '.'
    r := Some(if s == [] then "empty" else s);
    assert s == t[..l];
  }

  /** Where the dots are once "out" is inserted at the first one. */
  lemma InsertedDots(name: string, f: nat, l: nat)
    requires '.' in name && f == FirstDot(name) && l == LastDot(name)
    ensures f <= l
    ensures var t := name[..f] + "out" + name[f..];
            && l + 3 < |t| && t[l + 3] == '.' && '.' !in t[l + 4..]
            && t[..l + 3] == name[..f] + "out" + name[f..l]
  {
    var t := name[..f] + "out" + name[f..];
    assert t[l + 4..] == name[l + 1..];
    assert t[..l + 3] == name[..f] + "out" + name[f..l];
  }
}
