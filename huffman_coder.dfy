/** The static operations of class `huffman` (`huffman.h`), over the
    `Bitstream` class: building the code tree with a priority queue, dumping
    and rebuilding it, the length field, the code map, and the two drivers
    `compress` and `decompress` on in-memory files. */
module HuffmanCoder {
  import opened Bits
  import opened Wrappers
  import opened Bitstream
  import opened Huffman

  /** Number of nodes of a tree, the measure of the recursive walks. */
  function Size(t: Option<Tree>): nat
  {
    if t.None? then 0 else LeafCount(t.value) + InnerCount(t.value)
  }

  // ---------------------------------------------------------------------
  // buildtree

  /** `top()` then `pop()`: some node of least frequency leaves the queue.
      Which of several such nodes is taken is up to the heap, so any may
      be. */
  method PopTop(q: seq<Tree>) returns (top: Tree, rest: seq<Tree>)
    requires q != []
    ensures LeastSplit(q, top, rest)
    ensures ForestLeaves(q) == ForestLeaves(rest) + Leaves(top)
    ensures ForestValues(q) == ForestValues(rest) + LeafValues(top)
    ensures SumFreq(q) == SumFreq(rest) + top.freq
  {
    TopExists(q);
    var k :| IsTop(q, k);
    top := q[k];
    rest := Remove(q, k);
    ForestRemove(q, k);
    RemoveTop(q, k);
  }

  /** `buildtree`: null for an empty queue, the only node of a one-node
      queue, otherwise the two least frequent nodes are joined under a
      parent whose frequency is their sum and the queue is built again.
      The result is a tree the greedy merge can make of the queue, and it
      holds exactly the leaves of the queue and the sum of its
      frequencies. */
  method BuildTree(q: seq<Tree>) returns (t: Option<Tree>)
    ensures t.None? <==> q == []
    ensures t.Some? ==> GreedyBuild(q, t.value)
    ensures |q| == 1 ==> t == Some(q[0])
    ensures |q| >= 2 ==> t.Some? && t.value.Node?
    ensures t.Some? ==> Leaves(t.value) == ForestLeaves(q)
    ensures t.Some? ==> LeafValues(t.value) == ForestValues(q)
    ensures t.Some? ==> t.value.freq == SumFreq(q)
    decreases |q|
  {
    if q == [] {
      return None;
    }
    var node1, q1 := PopTop(q);
    if q1 == [] {
      LastTop(q, node1);
      return Some(node1);
    }
    var q', node2, q2 := PushParent(q, node1, q1);
    t := BuildTree(q');
    assert |q'| == 1 ==> t == Some(q'[|q'| - 1]);
    assert GreedyBuild(q, t.value) by {
      assert LeastSplit(q, node1, q1) && LeastSplit(q1, node2, q2);
    }
  }

  /** The top of a queue with nothing left behind it was the only tree. */
  lemma LastTop(q: seq<Tree>, top: Tree)
    requires multiset(q) == multiset{top}
    ensures q == [top]
    ensures ForestLeaves(q) == Leaves(top) && ForestValues(q) == LeafValues(top) && SumFreq(q) == top.freq
  {
    assert |q| == |multiset(q)| == 1;
    assert q[0] in multiset(q);
    assert q == [q[0]];
    ForestSnoc([], top);
  }

  /** The second pop of `buildtree` and the push of the parent of both
      nodes: the parent of `node1` and a least node `node2` of `q1` takes
      `node2`'s place, with the sum of their frequencies; the queue loses
      one tree and keeps its leaves and total. */
  method PushParent(q: seq<Tree>, node1: Tree, q1: seq<Tree>) returns (q': seq<Tree>, ghost node2: Tree, ghost q2: seq<Tree>)
    requires q1 != []
    requires ForestLeaves(q) == ForestLeaves(q1) + Leaves(node1)
    requires ForestValues(q) == ForestValues(q1) + LeafValues(node1)
    requires SumFreq(q) == SumFreq(q1) + node1.freq
    ensures LeastSplit(q1, node2, q2) && q' == q2 + [Node(node1.freq + node2.freq, node1, node2)]
    ensures |q'| == |q1| && q'[|q'| - 1].Node?
    ensures ForestLeaves(q') == ForestLeaves(q) && ForestValues(q') == ForestValues(q) && SumFreq(q') == SumFreq(q)
  {
    var second, rest := PopTop(q1);
    node2, q2 := second, rest;
    JoinLeaves(q, node1, q1, node2, q2);
    JoinValues(q, node1, q1, node2, q2);
    JoinFreq(q, node1, q1, node2, q2);
    q' := rest + [Node(node1.freq + second.freq, node1, second)];  // p_queue.push(new node('\0', node1->freq + node2->freq, node1, node2))
  }

  /** Joining the two popped nodes under a parent keeps the leaves of the
      queue. */
  lemma JoinLeaves(q: seq<Tree>, node1: Tree, q1: seq<Tree>, node2: Tree, q2: seq<Tree>)
    requires ForestLeaves(q) == ForestLeaves(q1) + Leaves(node1)
    requires ForestLeaves(q1) == ForestLeaves(q2) + Leaves(node2)
    ensures ForestLeaves(q2 + [Node(node1.freq + node2.freq, node1, node2)]) == ForestLeaves(q)
  {
    var parent := Node(node1.freq + node2.freq, node1, node2);
    ForestSnoc(q2, parent);
    var a, b1, b2 := ForestLeaves(q2), Leaves(node1), Leaves(node2);
    assert Leaves(parent) == b1 + b2;
    MultisetShuffle(a, b1, b2);
  }

  /** ... its leaf values ... */
  lemma JoinValues(q: seq<Tree>, node1: Tree, q1: seq<Tree>, node2: Tree, q2: seq<Tree>)
    requires ForestValues(q) == ForestValues(q1) + LeafValues(node1)
    requires ForestValues(q1) == ForestValues(q2) + LeafValues(node2)
    ensures ForestValues(q2 + [Node(node1.freq + node2.freq, node1, node2)]) == ForestValues(q)
  {
    var parent := Node(node1.freq + node2.freq, node1, node2);
    ForestSnoc(q2, parent);
    var a, b1, b2 := ForestValues(q2), LeafValues(node1), LeafValues(node2);
    assert LeafValues(parent) == b1 + b2;
    SetShuffle(a, b1, b2);
  }

  /** Regrouping the multiset of the queue's leaves. */
  lemma MultisetShuffle<T>(a: multiset<T>, b1: multiset<T>, b2: multiset<T>)
    ensures a + (b1 + b2) == (a + b2) + b1
  {
  }

  /** Regrouping the set of the queue's leaf values. */
  lemma SetShuffle<T>(a: set<T>, b1: set<T>, b2: set<T>)
    ensures a + (b1 + b2) == (a + b2) + b1
  {
  }

  /** ... and its total frequency. */
  lemma JoinFreq(q: seq<Tree>, node1: Tree, q1: seq<Tree>, node2: Tree, q2: seq<Tree>)
    requires SumFreq(q) == SumFreq(q1) + node1.freq
    requires SumFreq(q1) == SumFreq(q2) + node2.freq
    ensures SumFreq(q2 + [Node(node1.freq + node2.freq, node1, node2)]) == SumFreq(q)
  {
    ForestSnoc(q2, Node(node1.freq + node2.freq, node1, node2));
  }

  // ---------------------------------------------------------------------
  // storetree / retrievetree

  /** `storetree`: nothing for a null tree; a leaf as bit 1 then its value
      as a byte; an inner node as bit 0 then both subtrees. */
  method StoreTree(root: Option<Tree>, out: Bitstream)
    requires out.Valid() && out.mode != Read
    modifies out`buffer, out`bufferCount, out`output, out`pending
    ensures out.Valid()
    ensures out.Written() == old(out.Written()) + StoreBits(root)
    decreases Size(root)
  {
    if root.None? {
      return;
    }
    match root.value
    case Leaf(v, _) =>
      PutLeaf(v, out);
    case Node(_, l, r) =>
      PutFlag(false, out);
      StoreTree(Some(l), out);
      StoreTree(Some(r), out);
  }

  /** `putbit` on a stream being written. */
  method PutFlag(b: bool, out: Bitstream)
    requires out.Valid() && out.mode != Read
    modifies out`buffer, out`bufferCount, out`output, out`pending
    ensures out.Valid()
    ensures out.Written() == old(out.Written()) + [b]
  {
    var _ := out.PutBit(b);
  }

  /** A leaf of the dump: a set bit, then the value's byte. */
  method PutLeaf(v: int, out: Bitstream)
    requires out.Valid() && out.mode != Read
    modifies out`buffer, out`bufferCount, out`output, out`pending
    ensures out.Valid()
    ensures out.Written() == old(out.Written()) + ([true] + ByteBits(v))
  {
    PutFlag(true, out);
    var _ := out.PutByte(v);
  }

  /** `retrievetree`: bit 1 gives a leaf holding the next byte, bit 0 an
      inner node whose subtrees follow; every node has frequency 1. */
  method RetrieveTree(input: Bitstream) returns (t: Tree)
    requires input.Valid() && input.mode == Read
    modifies input`buffer, input`bufferCount, input`pos, input`eofBit, input`pending
    ensures input.Valid()
    ensures (t, input.State()) == ParseTree(old(input.State()))
    decreases CountZeros(input.Remaining())
  {
    ghost var r0 := input.Remaining();
    AdvanceZeros(r0);
    var bit := input.GetBit();
    if bit.value {
      var b := input.GetByte();
      t := Leaf(b.value, 1);
    } else {
      var left := RetrieveTree(input);
      var right := RetrieveTree(input);
      t := Node(1, left, right);
    }
  }

  // ---------------------------------------------------------------------
  // writesize / retrievesize

  /** `writesize`: the four low bytes of `size`, least significant first. */
  method WriteSize(size: nat, out: Bitstream)
    requires out.Valid() && out.mode != Read
    modifies out`buffer, out`bufferCount, out`output, out`pending
    ensures out.Valid()
    ensures out.Written() == old(out.Written()) + BytesBits(SizeBytes(size, 4))
  {
    var s := size;
    var i := 0;
    while i < 4
      invariant 0 <= i <= 4 && out.Valid() && out.mode != Read
      invariant out.Written() + BytesBits(SizeBytes(s, 4 - i)) == old(out.Written()) + BytesBits(SizeBytes(size, 4))
    {
      ghost var w := out.Written();
      SizeBytesCons(s, 4 - i);
      var _ := out.PutByte(s % 256);  // size & 0XFF
      s := s / 256;                   // size >>= BYTE
      i := i + 1;
    }
  }

  /** `retrievesize`: four bytes read, each converted to `size_t`, shifted
      to its place and or-ed into the result. */
  method RetrieveSize(input: Bitstream) returns (size: nat)
    requires input.Valid() && input.mode == Read
    modifies input`buffer, input`bufferCount, input`pos, input`eofBit, input`pending
    ensures input.Valid()
    ensures (size, input.State()) == ReadSize(old(input.State()))
  {
    size := 0;
    var i := 0;
    ghost var bs: seq<int> := [];
    while i < 4
      invariant 0 <= i <= 4 && |bs| == i && input.Valid() && input.mode == Read
      invariant ReadBytes(old(input.State()), i) == (bs, input.State())
      invariant size == Assemble(bs)
    {
      ghost var s1 := input.State();
      var b := input.GetByte();
      var value := SizeT(b.value);         // size_t value = in.getbyte()
      value := SizeT(ShiftBytes(value, i)); // value <<= i * BYTE
      size := Or(size, value);             // size |= value
      assert ReadByte(s1) == (b.value, input.State());
      ReadBytesSnoc(old(input.State()), i + 1, bs, s1, b.value, input.State(), bs + [b.value]);
      assert (bs + [b.value])[..i] == bs;
      bs := bs + [b.value];
      i := i + 1;
    }
  }

  // ---------------------------------------------------------------------
  // initcodemap

  /** `initcodemap`: stores for each leaf the current `code`, extended by a
      0 before the left subtree and a 1 before the right one and cut back
      after each. `code` is a reference in the source: the method returns
      it, back as it came. */
  method InitCodeMap(root: Option<Tree>, codeMap: map<int, seq<bool>>, code: seq<bool>)
    returns (codeMap': map<int, seq<bool>>, code': seq<bool>)
    ensures code' == code
    ensures codeMap' == codeMap + CodeMap(root, code)
    decreases Size(root)
  {
    if root.None? {
      return codeMap, code;
    }
    match root.value
    case Leaf(v, _) =>
      return codeMap[v := code], code;
    case Node(_, l, r) =>
      code' := code + [false];                                   // code.push_back(0)
      codeMap', code' := InitCodeMap(Some(l), codeMap, code');
      code' := code'[..|code'| - 1];                             // code.pop_back()
      code' := code' + [true];                                   // code.push_back(1)
      codeMap', code' := InitCodeMap(Some(r), codeMap', code');
      code' := code'[..|code'| - 1];                             // code.pop_back()
  }

  // ---------------------------------------------------------------------
  // compress

  /** The reading loop of `compress`: bytes are taken with `getbyte` until
      `eof()`; each is kept and counted in the frequency map. */
  method CountBytes(input: Bitstream) returns (contents: seq<int>, freq: map<int, nat>)
    requires input.Valid() && input.mode == Read && input.bufferCount == 0 && !input.eofBit
    modifies input`buffer, input`bufferCount, input`pos, input`eofBit, input`pending
    ensures input.Valid()
    ensures contents == old(input.input[input.pos..])
    ensures freq == Frequencies(contents)
  {
    contents, freq := [], map[];
    while true
      invariant input.Valid() && input.mode == Read && input.bufferCount == 0 && !input.eofBit
      invariant old(input.pos) <= input.pos && contents == input.input[old(input.pos)..input.pos]
      invariant freq == Frequencies(contents)
      decreases |input.input| - input.pos
    {
      var b, eof := NextByte(input);
      if eof {
        break;
      }
      FrequenciesSnoc(contents, b);
      assert input.input[old(input.pos)..input.pos] == contents + [b];
      contents := contents + [b];
      freq := freq[b := (if b in freq then freq[b] else 0) + 1];  // _freq_map[byte]++
    }
  }

  /** `getbyte` then `eof()` on a stream with an empty buffer: the next
      byte of the file, or the end. */
  method NextByte(input: Bitstream) returns (b: int, eof: bool)
    requires input.Valid() && input.mode == Read && input.bufferCount == 0 && !input.eofBit
    modifies input`buffer, input`bufferCount, input`pos, input`eofBit, input`pending
    ensures input.Valid() && input.mode == Read && input.bufferCount == 0
    ensures eof <==> old(input.pos) == |input.input|
    ensures eof ==> input.pos == old(input.pos)
    ensures !eof ==> b == input.input[old(input.pos)] && input.pos == old(input.pos) + 1 && !input.eofBit
  {
    var r := input.GetByte();
    eof := input.Eof();
    b := r.value;
  }

  /** The loop of `compress` that pushes a leaf for each entry of the
      frequency map, in the map's own (unspecified) order. */
  method FillQueue(freq: map<int, nat>) returns (q: seq<Tree>)
    ensures |q| == |freq.Keys|
    ensures forall j :: 0 <= j < |q| ==> q[j].Leaf? && q[j].value in freq && q[j].freq == freq[q[j].value]
    ensures ForestValues(q) == freq.Keys
    ensures forall v :: Occurrences(q)[v] == if v in freq then freq[v] else 0
  {
    q := [];
    var keys := freq.Keys;
    while keys != {}
      invariant Filled(freq, q, keys)
      decreases |keys|
    {
      Pick(keys);
      var k :| k in keys;
      ghost var q0, keys0 := q, keys;
      q := q + [Leaf(k, freq[k])];  // p_queue.push(new node(e.first, e.second))
      keys := keys - {k};
      FillStep(freq, q0, keys0, k, q, keys);
    }
  }

  /** The inner loop of `compress`'s encoding: each bit of one code is
      put in turn. */
  method PutCode(code: seq<bool>, out: Bitstream)
    requires out.Valid() && out.mode != Read
    modifies out`buffer, out`bufferCount, out`output, out`pending
    ensures out.Valid()
    ensures out.Written() == old(out.Written()) + code
  {
    var k := 0;
    while k < |code|
      invariant 0 <= k <= |code| && out.Valid() && out.mode != Read
      invariant out.Written() == old(out.Written()) + code[..k]
    {
      var _ := out.PutBit(code[k]);
      assert code[..k + 1] == code[..k] + [code[k]];
      k := k + 1;
    }
    assert code[..k] == code;
  }

  /** The encoding loop of `compress`: the code of each input byte, bit by
      bit, where `_code_map[e]` of a byte without an entry is empty. */
  method EncodeContents(contents: seq<int>, codeMap: map<int, seq<bool>>, out: Bitstream)
    requires out.Valid() && out.mode != Read
    modifies out`buffer, out`bufferCount, out`output, out`pending
    ensures out.Valid()
    ensures out.Written() == old(out.Written()) + EncodeBits(contents, codeMap)
  {
    var j := 0;
    while j < |contents|
      invariant 0 <= j <= |contents| && out.Valid() && out.mode != Read
      invariant out.Written() == old(out.Written()) + EncodeBits(contents[..j], codeMap)
    {
      var code := if contents[j] in codeMap then codeMap[contents[j]] else [];
      ghost var w := out.Written();
      PutCode(code, out);
      EncodePrefixStep(contents, j, codeMap, old(out.Written()), w, code, out.Written());
      j := j + 1;
    }
    assert contents[..j] == contents;
  }

  /** One more byte's code after the codes of the first `j` bytes. */
  lemma EncodePrefixStep(contents: seq<int>, j: nat, codeMap: map<int, seq<bool>>,
                         w0: seq<bool>, w: seq<bool>, code: seq<bool>, w1: seq<bool>)
    requires j < |contents| && w == w0 + EncodeBits(contents[..j], codeMap) && w1 == w + code
    requires code == if contents[j] in codeMap then codeMap[contents[j]] else []
    ensures w1 == w0 + EncodeBits(contents[..j + 1], codeMap)
  {
    EncodeBitsSnoc(contents[..j], contents[j], codeMap);
    assert contents[..j + 1] == contents[..j] + [contents[j]];
  }

  /** `compress` of the file `file`: the output file holds the tree dump,
      the length field and the codes of the input, zero-padded to a whole
      byte. The code tree, which the output does not fix because of ties
      in the queue and the map's order, is returned as a ghost: its leaves
      are the distinct input bytes with their counts, its frequency the
      input length, and it has inner nodes exactly when the input holds two
      distinct bytes. */
  method Compress(file: seq<byte>) returns (out: seq<byte>, ghost tree: Option<Tree>)
    ensures BytesBits(out) == CompressedBits(file, tree) + Zeros(PadLength(|CompressedBits(file, tree)|))
    ensures tree.None? <==> file == []
    ensures tree.Some? ==>
              && LeafValues(tree.value) == Frequencies(file).Keys
              && ByteLeaves(tree.value)
              && tree.value.freq == |file|
              && (forall x | x in Leaves(tree.value) :: x.Leaf? && x.freq == multiset(file)[x.value])
              && (tree.value.Node? <==> |Frequencies(file).Keys| >= 2)
    ensures tree.Some? ==> GreedyFrom(Frequencies(file), tree.value) && Weighted(tree.value)
  {
    var input := new Bitstream(file, Read);
    var contents, freq := CountBytes(input);
    assert contents == file;
    var q := FillQueue(freq);
    var root := BuildTree(q);
    tree := root;
    out := WriteCompressed(root, contents);
    if root.Some? {
      QueueTree(file, q, root.value);
      FileKeys(file);
      ByteLeavesValues(root.value);
      assert LeafQueue(freq, q);
      FromWeighted(freq, root.value);
    }
  }

  /** The writing half of `compress`: the tree dump, the length field and
      the codes of `contents` go to a fresh output file, which is closed. */
  method WriteCompressed(root: Option<Tree>, contents: seq<int>) returns (out: seq<byte>)
    ensures BytesBits(out) == CompressedBits(contents, root) + Zeros(PadLength(|CompressedBits(contents, root)|))
  {
    var output := new Bitstream([], Write);
    WriteHeader(root, |contents|, output);
    var codeMap, _ := InitCodeMap(root, map[], []);
    assert codeMap == CodeMap(root, []);
    EncodeContents(contents, codeMap, output);
    ghost var bits := CompressedBits(contents, root);
    assert output.Written() == bits;
    out := Finish(output, bits);
  }

  /** The destructor's `close()` of the output file: the written bits
      padded with clear bits to a whole byte. */
  method Finish(output: Bitstream, ghost bits: seq<bool>) returns (out: seq<byte>)
    requires output.Valid() && output.mode == Write && output.Written() == bits
    modifies output`output
    ensures BytesBits(out) == bits + Zeros(PadLength(|bits|))
  {
    ghost var o, p := output.output, output.pending;
    output.Close();
    out := output.output;
    CloseBits(o, p, bits, out);
  }

  /** The tree dump and the length field `n`, written to a fresh file. */
  method WriteHeader(root: Option<Tree>, n: nat, output: Bitstream)
    requires output.Valid() && output.mode == Write && output.Written() == []
    modifies output`buffer, output`bufferCount, output`output, output`pending
    ensures output.Valid()
    ensures output.Written() == StoreBits(root) + BytesBits(SizeBytes(n, 4))
  {
    StoreTree(root, output);
    assert output.Written() == StoreBits(root);
    WriteSize(n, output);
  }

  /** `decompress` of what `compress` wrote gives back an input of fewer
      than 2^32 bytes that holds at least two distinct byte values. */
  method RoundTrip(data: seq<byte>) returns (back: seq<byte>)
    requires |data| < 0x1_0000_0000
    requires exists j, k :: 0 <= j < k < |data| && data[j] != data[k]
    ensures back == data
  {
    var packed, tree := Compress(data);
    back := Decompress(packed);
    var j, k :| 0 <= j < k < |data| && data[j] != data[k];
    DistinctKeys(data, j, k);
    PackedRoundTrip(data, tree.value, packed);
  }

  /** The file `compress` writes for data with two distinct bytes decodes
      to the data. */
  lemma PackedRoundTrip(data: seq<byte>, tree: Tree, packed: seq<byte>)
    requires |data| < 0x1_0000_0000 && |Frequencies(data).Keys| >= 2
    requires BytesBits(packed) == CompressedBits(data, Some(tree)) + Zeros(PadLength(|CompressedBits(data, Some(tree))|))
    requires LeafValues(tree) == Frequencies(data).Keys && ByteLeaves(tree)
    requires tree.Node? <==> |Frequencies(data).Keys| >= 2
    ensures ToBytes(Decode(BytesBits(packed))) == data
  {
    CompressedRoundTrip(data, tree, Zeros(PadLength(|CompressedBits(data, Some(tree))|)));
    ToBytesOfBytes(data);
  }

  // ---------------------------------------------------------------------
  // decompress

  /** One round of `decompress`'s loop: at a leaf its byte is written and
      the walk restarts at the root; then one bit moves it to a child. */
  method DecodeRound(tree: Tree, root: Option<Tree>, i: nat, size: nat, input: Bitstream, output: Bitstream)
    returns (root': Option<Tree>, i': nat)
    requires i < size && root.Some? && !input.eofBit && input != output
    requires input.Valid() && input.mode == Read
    requires output.Valid() && output.mode == Write && output.bufferCount == 0
    modifies input`buffer, input`bufferCount, input`pos, input`eofBit, input`pending
    modifies output`buffer, output`bufferCount, output`output, output`pending
    ensures input.Valid() && output.Valid() && output.bufferCount == 0
    ensures var leaf := root.value.Leaf?;
            var at := if leaf then tree else root.value;
            && output.output == old(output.output) + (if leaf then [LowByte(root.value.value)] else [])
            && i' == (if leaf then i + 1 else i)
            && (root', input.State()) == (Child(at, ReadBit(old(input.State())).0), ReadBit(old(input.State())).1)
    ensures output.output + ToBytes(DecodeLoop(tree, root', i', size, input.State()))
              == old(output.output) + ToBytes(DecodeLoop(tree, root, i, size, old(input.State())))
  {
    ghost var s0, o0 := input.State(), output.output;
    var at := root.value;
    i' := i;
    if root.value.Leaf? {
      var _ := output.PutByte(root.value.value);  // out.putbyte(root->value)
      at := tree;                                 // root = tree
      i' := i + 1;
    }
    var bit := input.GetBit();
    root' := Child(at, bit.value);
    DecodeAdvance(tree, root, i, size, s0, o0, output.output, root', i', input.State());
  }

  /** `decompress` of the file `file`: the tree and the length field are
      read back, then the decoding loop writes one byte per leaf reached. */
  method Decompress(file: seq<byte>) returns (out: seq<byte>)
    ensures out == ToBytes(Decode(BytesBits(file)))
  {
    var input := new Bitstream(file, Read);
    var tree := RetrieveTree(input);
    var size := RetrieveSize(input);
    out := DecodeBody(tree, size, input);
  }

  /** The decoding loop of `decompress`, writing to a fresh output file:
      while bytes are still due, the walk has not fallen off the tree and
      the input's eof flag is clear, it runs one round. */
  method DecodeBody(tree: Tree, size: nat, input: Bitstream) returns (out: seq<byte>)
    requires input.Valid() && input.mode == Read
    modifies input`buffer, input`bufferCount, input`pos, input`eofBit, input`pending
    ensures out == ToBytes(DecodeLoop(tree, Some(tree), 0, size, old(input.State())))
  {
    var root: Option<Tree> := Some(tree);
    var i: nat := 0;
    var output := new Bitstream([], Write);
    while i < size && root.Some? && !input.StdEof()
      invariant input.Valid() && input.mode == Read
      invariant output.Valid() && output.mode == Write && output.bufferCount == 0
      invariant output.output + ToBytes(DecodeLoop(tree, root, i, size, input.State()))
                  == ToBytes(DecodeLoop(tree, Some(tree), 0, size, old(input.State())))
      decreases if input.eofBit then 0 else |input.Remaining()| + 1
    {
      root, i := DecodeRound(tree, root, i, size, input, output);
    }
    assert DecodeLoop(tree, root, i, size, input.State()) == [];
    output.Close();  // by the destructor
    out := output.output;
  }
}
