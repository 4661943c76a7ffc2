/** The tree tools of the older generation (`Lab3_Huffmann/Huffman_Tree.h`)
    over the `BitStream` class of `Lab3Stream`. A `HuffmanNode` is the
    `Tree` of `Huffman`: a leaf holds its `char` as the value, an inner
    node only its frequency. `initHuffmanTree` is the queue fold
    `HuffmanCoder.BuildTree` and `operator<` is `Huffman.FreqComparison`.
    The code list `initHuffmanCode` returns is a sequence of leaves paired
    with the code field it set on them. */
module Lab3Tree {
  import opened Bits
  import opened Wrappers
  import Bitstream
  import opened Huffman
  import HuffmanCoder
  import opened Lab3Stream
  import opened Lab3Frequency

  /** A list entry of `HuffmanCode`: the `ch`, `freq` and `code` fields
      of a leaf. */
  datatype Coded = Coded(ch: int, freq: nat, code: seq<bool>)

  // ---------------------------------------------------------------------
  // initHuffmanCode

  /** `initHuffmanCode(T)` for a node whose code field is `code`: each child
      gets the parent's code followed by 0 (left) or 1 (right), and the
      leaves come back from left to right. */
  function CodeList(t: Tree, code: seq<bool>): (r: seq<Coded>)
    ensures |r| == LeafCount(t)
  {
    match t
    case Leaf(v, f) => [Coded(v, f, code)]
    case Node(_, left, right) => CodeList(left, code + [false]) + CodeList(right, code + [true])
  }

  /** `initHuffmanCode(T)` from the root, whose code field is empty: an
      empty list for a null tree. */
  function HuffmanCode(t: Option<Tree>): seq<Coded>
  {
    if t.None? then [] else CodeList(t.value, [])
  }

  /** The entry `e` is a leaf of `t` and its code is `code` followed by the
      path from `t` to it. */
  predicate OnPath(t: Tree, code: seq<bool>, e: Coded)
  {
    code <= e.code && Follow(t, e.code[|code|..]) == Some(Leaf(e.ch, e.freq))
  }

  /** The characters that have an entry in a code list. */
  function Entries(hc: seq<Coded>): set<int>
  {
    set k | 0 <= k < |hc| :: hc[k].ch
  }

  /** Every code `initHuffmanCode` sets is the root path of its leaf. */
  lemma {:induction false} CodeListPaths(t: Tree, code: seq<bool>)
    ensures forall k :: 0 <= k < |CodeList(t, code)| ==> OnPath(t, code, CodeList(t, code)[k])
  {
    var r := CodeList(t, code);
    match t
    case Leaf(_, _) =>
      assert r[0].code[|code|..] == [];
    case Node(_, left, right) =>
      var a, b := CodeList(left, code + [false]), CodeList(right, code + [true]);
      CodeListPaths(left, code + [false]);
      CodeListPaths(right, code + [true]);
      forall k | 0 <= k < |r|
        ensures OnPath(t, code, r[k])
      {
        var side, sub, e := k >= |a|, if k >= |a| then right else left, r[k];
        var c := code + [side];
        assert OnPath(sub, c, e) by {
          if side { assert e == b[k - |a|]; } else { assert e == a[k]; }
        }
        assert e.code[|code|..] == [side] + e.code[|c|..] by {
          assert e.code[..|c|] == c;
        }
        assert Child(t, side) == Some(sub);
      }
  }

  /** The characters with an entry are the leaf values of the tree. */
  lemma {:induction false} CodeListEntries(t: Tree, code: seq<bool>)
    ensures Entries(CodeList(t, code)) == LeafValues(t)
  {
    match t
    case Leaf(_, _) =>
      assert CodeList(t, code)[0].ch == t.value;
    case Node(_, left, right) =>
      var a, b := CodeList(left, code + [false]), CodeList(right, code + [true]);
      CodeListEntries(left, code + [false]);
      CodeListEntries(right, code + [true]);
      var r := a + b;
      forall v | v in LeafValues(t)
        ensures v in Entries(r)
      {
        if v in Entries(a) {
          var k :| 0 <= k < |a| && a[k].ch == v;
          assert r[k] == a[k];
        } else {
          var k :| 0 <= k < |b| && b[k].ch == v;
          assert r[|a| + k] == b[k];
        }
      }
      forall v | v in Entries(r)
        ensures v in LeafValues(t)
      {
        var k :| 0 <= k < |r| && r[k].ch == v;
        if k < |a| {
          assert a[k] == r[k];
        } else {
          assert b[k - |a|] == r[k];
        }
      }
  }

  /** No code of the list begins the code of another entry. */
  predicate PrefixFree(hc: seq<Coded>)
  {
    forall j, k :: 0 <= j < |hc| && 0 <= k < |hc| && j != k ==> !(hc[j].code <= hc[k].code)
  }

  /** No code of the list begins another entry's code: each leaf sits at
      its own position, so the codes are distinct and prefix-free. */
  lemma {:induction false} CodeListPrefixFree(t: Tree, code: seq<bool>)
    ensures PrefixFree(CodeList(t, code))
  {
    match t
    case Leaf(_, _) =>
    case Node(_, left, right) =>
      var a, b := CodeList(left, code + [false]), CodeList(right, code + [true]);
      CodeListPrefixFree(left, code + [false]);
      CodeListPrefixFree(right, code + [true]);
      CodeListPaths(left, code + [false]);
      CodeListPaths(right, code + [true]);
      PrefixFreeJoin(a, b, code);
  }

  /** Two prefix-free lists whose codes continue `code` with 0 and with 1
      make one prefix-free list. */
  lemma PrefixFreeJoin(a: seq<Coded>, b: seq<Coded>, code: seq<bool>)
    requires PrefixFree(a) && PrefixFree(b)
    requires forall j :: 0 <= j < |a| ==> code + [false] <= a[j].code
    requires forall j :: 0 <= j < |b| ==> code + [true] <= b[j].code
    ensures PrefixFree(a + b)
  {
    var r := a + b;
    var n := |code|;
    forall j, k | 0 <= j < |r| && 0 <= k < |r| && j != k
      ensures !(r[j].code <= r[k].code)
    {
      if j < |a| && k < |a| {
        assert r[j] == a[j] && r[k] == a[k];
      } else if j >= |a| && k >= |a| {
        assert r[j] == b[j - |a|] && r[k] == b[k - |a|];
      } else {
        // one code continues `code` with 0, the other with 1
        var cj := if j < |a| then a[j].code else b[j - |a|].code;
        var ck := if k < |a| then a[k].code else b[k - |a|].code;
        assert r[j].code == cj && r[k].code == ck;
        assert cj[n] == (j >= |a|) by {
          assert (code + [j >= |a|])[n] == (j >= |a|);
        }
        assert ck[n] == (k >= |a|) by {
          assert (code + [k >= |a|])[n] == (k >= |a|);
        }
      }
    }
  }

  // ---------------------------------------------------------------------
  // Looking a character up in the code list

  /** The code of the first entry whose leaf holds `c`; empty when there is
      none. */
  function Lookup(hc: seq<Coded>, c: int): seq<bool>
  {
    if hc == [] then []
    else if hc[0].ch == c then hc[0].code
    else Lookup(hc[1..], c)
  }

  /** `Lookup` answers the code of an entry holding `c` when there is one,
      and the empty code otherwise. */
  lemma {:induction false} LookupEntry(hc: seq<Coded>, c: int)
    ensures c !in Entries(hc) ==> Lookup(hc, c) == []
    ensures c in Entries(hc) ==>
              exists k :: 0 <= k < |hc| && hc[k].ch == c && Lookup(hc, c) == hc[k].code
  {
    if hc != [] {
      LookupEntry(hc[1..], c);
      if hc[0].ch != c {
        assert Entries(hc) == {hc[0].ch} + Entries(hc[1..]) by {
          forall v | v in Entries(hc)
            ensures v in {hc[0].ch} + Entries(hc[1..])
          {
            var k :| 0 <= k < |hc| && hc[k].ch == v;
            if k > 0 {
              assert hc[1..][k - 1] == hc[k];
            }
          }
          forall v | v in Entries(hc[1..])
            ensures v in Entries(hc)
          {
            var k :| 0 <= k < |hc[1..]| && hc[1..][k].ch == v;
            assert hc[k + 1] == hc[1..][k];
          }
        }
        if c in Entries(hc) {
          var k :| 0 <= k < |hc[1..]| && hc[1..][k].ch == c && Lookup(hc[1..], c) == hc[1..][k].code;
          assert hc[k + 1] == hc[1..][k];
        }
      }
    }
  }

  /** The search loop of `encodeData`: the entries are tried in list order
      and the first whose character is `c` gives its code; without one the
      code stays empty. */
  method FindCode(hc: seq<Coded>, c: int) returns (code: seq<bool>)
    ensures code == Lookup(hc, c)
  {
    code := [];
    var k := 0;
    while k < |hc|
      invariant 0 <= k <= |hc| && Lookup(hc, c) == Lookup(hc[k..], c)
    {
      assert hc[k..][0] == hc[k] && hc[k..][1..] == hc[k + 1..];
      if hc[k].ch == c {
        code := hc[k].code;
        break;
      }
      k := k + 1;
    }
  }

  /** In a list that holds the entries of `CodeList(t, [])` in any order,
      the code found for a leaf value leads from the root to a leaf holding
      it. */
  lemma LookupReaches(t: Tree, hc: seq<Coded>, c: int)
    requires multiset(hc) == multiset(CodeList(t, []))
    requires c in LeafValues(t)
    ensures Reaches(t, Lookup(hc, c), c)
  {
    var r := CodeList(t, []);
    CodeListEntries(t, []);
    var i :| 0 <= i < |r| && r[i].ch == c;
    assert r[i] in multiset(hc);
    var j :| 0 <= j < |hc| && hc[j] == r[i];
    LookupEntry(hc, c);
    var k :| 0 <= k < |hc| && hc[k].ch == c && Lookup(hc, c) == hc[k].code;
    assert hc[k] in multiset(r);
    var m :| 0 <= m < |r| && r[m] == hc[k];
    CodeListPaths(t, []);
    assert OnPath(t, [], r[m]);
    assert r[m].code[0..] == r[m].code;
  }

  // ---------------------------------------------------------------------
  // HC.sort(HuffmanCodeCompare)

  /** `HuffmanCodeCompare`: an entry comes first when its code is shorter. */
  predicate CodeCompare(a: Coded, b: Coded)
  {
    |a.code| < |b.code|
  }

  /** No entry comes after one it compares before. */
  predicate SortedCodes(s: seq<Coded>)
  {
    forall j, k :: 0 <= j < k < |s| ==> !CodeCompare(s[k], s[j])
  }

  /** One insertion of the list sort: `x` goes after every entry it does not
      compare before. */
  method InsertCode(s: seq<Coded>, x: Coded) returns (r: seq<Coded>)
    requires SortedCodes(s)
    ensures SortedCodes(r)
    ensures multiset(r) == multiset(s) + multiset{x}
  {
    var j := 0;
    while j < |s| && !CodeCompare(x, s[j])
      invariant 0 <= j <= |s|
      invariant forall i :: 0 <= i < j ==> !CodeCompare(x, s[i])
    {
      j := j + 1;
    }
    r := s[..j] + [x] + s[j..];
    assert s == s[..j] + s[j..];
    forall a, b | 0 <= a < b < |r|
      ensures !CodeCompare(r[b], r[a])
    {
      if b < j || a > j {
        // both entries come from `s`, in the same order
      } else if a == j {
        assert r[b] == s[b - 1] && CodeCompare(x, s[j]);
      }
    }
  }

  /** `HC.sort(HuffmanCodeCompare)`: the list ordered by code length, a
      permutation of its entries. */
  method SortCodes(hc: seq<Coded>) returns (sorted: seq<Coded>)
    ensures SortedCodes(sorted)
    ensures multiset(sorted) == multiset(hc)
  {
    sorted := [];
    var i := 0;
    while i < |hc|
      invariant 0 <= i <= |hc|
      invariant SortedCodes(sorted) && multiset(sorted) == multiset(hc[..i])
    {
      sorted := InsertCode(sorted, hc[i]);
      assert hc[..i + 1] == hc[..i] + [hc[i]];
      i := i + 1;
    }
    assert hc[..i] == hc;
  }

  // ---------------------------------------------------------------------
  // storeHuffmanTree / getHuffmanTree

  /** Leaf characters fit a `char`. */
  predicate CharLeaves(t: Tree)
  {
    match t
    case Leaf(v, _) => -128 <= v < 128
    case Node(_, left, right) => CharLeaves(left) && CharLeaves(right)
  }

  /** `storeHuffmanTree`: nothing for a null tree; a leaf as bit 1 and its
      `char`, an inner node as bit 0 and both subtrees, in pre-order: the
      layout of the current generation's dump. */
  method StoreHuffmanTree(t: Option<Tree>, out: BitStream)
    requires out.Valid()
    modifies out`buffer, out`index, out`output, out`pending
    ensures out.Valid()
    ensures out.mode == Write || out.mode == App ==> out.Written() == old(out.Written()) + StoreBits(t)
    ensures out.mode != Write && out.mode != App ==> out.output == old(out.output)
    decreases HuffmanCoder.Size(t)
  {
    if t.None? {
      return;
    }
    match t.value
    case Leaf(v, _) =>
      PutLeaf(v, out);
    case Node(_, left, right) =>
      out.PutBit(0);
      StoreHuffmanTree(Some(left), out);
      StoreHuffmanTree(Some(right), out);
  }

  /** A leaf of the dump: `putbit(1)`, then `putchar(ch)`. */
  method PutLeaf(v: int, out: BitStream)
    requires out.Valid()
    modifies out`buffer, out`index, out`output, out`pending
    ensures out.Valid()
    ensures out.mode == Write || out.mode == App ==> out.Written() == old(out.Written()) + ([true] + ByteBits(v))
    ensures out.mode != Write && out.mode != App ==> out.output == old(out.output)
  {
    out.PutBit(1);
    out.PutChar(v);
  }

  /** What `getHuffmanTree` reads: after a 1 bit a leaf whose `char` is
      the next eight bits; after any other bit an inner node and its two
      subtrees. Every node gets frequency 1. */
  function ParseCharTree(s: Bitstream.Reader): (r: (Tree, Bitstream.Reader))
    ensures CountZeros(r.1.bits) <= CountZeros(s.bits)
    decreases CountZeros(s.bits)
  {
    AdvanceZeros(s.bits);
    var (b, s1) := Bitstream.ReadBit(s);
    if b then
      AdvanceNZeros(s1.bits, 8);
      var (v, s2) := ReadChar(s1);
      (Leaf(Char(v), 1), s2)
    else
      var (left, s2) := ParseCharTree(s1);
      var (right, s3) := ParseCharTree(s2);
      (Node(1, left, right), s3)
  }

  /** `getHuffmanTree(in)` on a stream in read mode (in any other mode
      `getbit` answers -1 and the recursion never ends). */
  method GetHuffmanTree(input: BitStream) returns (t: Tree)
    requires input.Valid() && input.mode == Read
    modifies input`buffer, input`index, input`pos, input`eofBit, input`pending
    ensures input.Valid()
    ensures (t, input.State()) == ParseCharTree(old(input.State()))
    decreases CountZeros(input.Remaining())
  {
    AdvanceZeros(input.Remaining());
    var bit := input.GetBit();
    if bit == 1 {
      var ch := input.GetChar();
      t := Leaf(Char(ch), 1);
    } else {
      var left := GetHuffmanTree(input);
      var right := GetHuffmanTree(input);
      t := Node(1, left, right);
    }
  }

  /** The eight bits `putchar` writes for a value read back as its low
      byte. */
  lemma ReadCharOf(v: int, t: seq<bool>, e: bool)
    ensures ReadChar(Bitstream.Reader(ByteBits(v) + t, e)) == (LowByte(v), Bitstream.Reader(t, e))
  {
    LowByteBits(v);
    Bitstream.AlignedByte(LowByte(v), t);
  }

  /** `getHuffmanTree` inverts `storeHuffmanTree`: a tree with `char` leaves
      comes back with its shape and characters, every frequency 1, and the
      rest of the file is left. */
  lemma {:induction false} ParseCharTreeBits(t: Tree, rest: seq<bool>, e: bool)
    requires CharLeaves(t)
    ensures ParseCharTree(Bitstream.Reader(TreeBits(t) + rest, e)) == (Unweighted(t), Bitstream.Reader(rest, e))
  {
    match t
    case Leaf(v, _) =>
      assert TreeBits(t) + rest == [true] + (ByteBits(v) + rest);
      ReadBitOf(true, ByteBits(v) + rest, e);
      ReadCharOf(v, rest, e);
      ByteChar(v);
    case Node(_, left, right) =>
      assert TreeBits(t) + rest == [false] + (TreeBits(left) + (TreeBits(right) + rest));
      ReadBitOf(false, TreeBits(left) + (TreeBits(right) + rest), e);
      ParseCharTreeBits(left, TreeBits(right) + rest, e);
      ParseCharTreeBits(right, rest, e);
  }

  // ---------------------------------------------------------------------
  // storeHuffmanLeaf

  /** The leaves of a tree from left to right, the order of a pre-order
      walk. */
  function LeafList(t: Tree): (r: seq<Tree>)
    ensures |r| == LeafCount(t)
    ensures multiset(r) == Leaves(t)
  {
    match t
    case Leaf(_, _) => [t]
    case Node(_, left, right) => LeafList(left) + LeafList(right)
  }

  /** The bits `storeHuffmanLeaf` writes: for each leaf from left to right
      its `char` and the eight low bits of its frequency. */
  function LeafPairBits(t: Tree): seq<bool>
  {
    match t
    case Leaf(v, f) => ByteBits(v) + ByteBits(f)
    case Node(_, left, right) => LeafPairBits(left) + LeafPairBits(right)
  }

  /** `storeHuffmanLeaf`: nothing for a null tree or a closed stream;
      otherwise a (`char`, frequency) pair per leaf, in pre-order. */
  method StoreHuffmanLeaf(t: Option<Tree>, out: BitStream)
    requires out.Valid()
    modifies out`buffer, out`index, out`output, out`pending
    ensures out.Valid()
    ensures t.None? || !out.isOpen ==> out.output == old(out.output) && out.pending == old(out.pending)
    ensures out.isOpen && (out.mode == Write || out.mode == App) && t.Some? ==>
              out.Written() == old(out.Written()) + LeafPairBits(t.value)
    ensures out.mode != Write && out.mode != App ==> out.output == old(out.output)
    decreases HuffmanCoder.Size(t)
  {
    if t.None? || !out.isOpen {
      return;
    }
    match t.value
    case Leaf(v, f) =>
      PutPair(v, f, out);
    case Node(_, left, right) =>
      ghost var w := out.Written();
      StoreHuffmanLeaf(Some(left), out);
      StoreHuffmanLeaf(Some(right), out);
      assert out.mode == Write || out.mode == App ==>
               out.Written() == w + (LeafPairBits(left) + LeafPairBits(right));
  }

  /** The pair of one leaf: `putchar(ch)`, then `putchar(freq)`. */
  method PutPair(v: int, f: int, out: BitStream)
    requires out.Valid()
    modifies out`buffer, out`index, out`output, out`pending
    ensures out.Valid()
    ensures out.mode == Write || out.mode == App ==> out.Written() == old(out.Written()) + (ByteBits(v) + ByteBits(f))
    ensures out.mode != Write && out.mode != App ==> out.output == old(out.output)
  {
    out.PutChar(v);
    out.PutChar(f);
    assert out.mode == Write || out.mode == App ==>
             out.Written() == old(out.Written()) + ByteBits(v) + ByteBits(f);
  }

  // ---------------------------------------------------------------------
  // nextVex

  /** How far a reader is from raising its eof flag: the bits still there,
      plus one for the read that raises it. */
  function Progress(s: Bitstream.Reader): nat
  {
    if s.eof then 0 else |s.bits| + 1
  }

  /** What `nextVex` answers from the node `t` when the stream's open flag
      is `open`: null for a closed stream, a raised eof flag or a null
      node; the node itself at a leaf; otherwise one bit, 0 to the left and
      anything else to the right. */
  function NextLeaf(t: Option<Tree>, open: bool, s: Bitstream.Reader): (r: (Option<Tree>, Bitstream.Reader))
    ensures r.0.Some? ==> r.0.value.Leaf?
    ensures Progress(r.1) <= Progress(s)
    ensures t.Some? && t.value.Node? && r.0.Some? ==> Progress(r.1) < Progress(s)
    decreases HuffmanCoder.Size(t)
  {
    if !open || s.eof || t.None? then (None, s)
    else if t.value.Leaf? then (t, s)
    else
      var (b, s1) := Bitstream.ReadBit(s);
      NextLeaf(Child(t.value, b), open, s1)
  }

  /** `nextVex(in, Tree)`. The eof test is on the file under the bit
      stream. */
  method NextVex(input: BitStream, t: Option<Tree>) returns (node: Option<Tree>)
    requires input.Valid() && input.mode == Read
    modifies input`buffer, input`index, input`pos, input`eofBit, input`pending
    ensures input.Valid()
    ensures (node, input.State()) == NextLeaf(t, input.isOpen, old(input.State()))
    decreases HuffmanCoder.Size(t)
  {
    if !input.isOpen || input.eofBit || t.None? {
      return None;
    }
    if t.value.Leaf? {
      return t;
    }
    var bit := input.GetBit();
    if bit == 0 {
      node := NextVex(input, Some(t.value.left));
    } else {
      node := NextVex(input, Some(t.value.right));
    }
  }

  /** Following a leaf's code on an open stream whose bits are there,
      `nextVex` reaches the leaf and consumes exactly the code. */
  lemma {:induction false} NextLeafFollows(t: Tree, c: seq<bool>, rest: seq<bool>, leaf: Tree)
    requires Follow(t, c) == Some(leaf) && leaf.Leaf?
    ensures NextLeaf(Some(t), true, Bitstream.Reader(c + rest, false)) == (Some(leaf), Bitstream.Reader(rest, false))
    decreases |c|
  {
    if c == [] {
      assert c + rest == rest;
    } else {
      assert t.Node?;
      assert c + rest == [c[0]] + (c[1..] + rest);
      ReadBitOf(c[0], c[1..] + rest, false);
      NextLeafFollows(Child(t, c[0]).value, c[1..], rest, leaf);
    }
  }

  /** A tree with frequencies forgotten is walked the same way: the same
      paths end at leaves holding the same characters. */
  lemma {:induction false} FollowUnweighted(t: Tree, c: seq<bool>, v: int)
    requires Reaches(t, c, v)
    ensures Reaches(Unweighted(t), c, v)
    decreases |c|
  {
    if c != [] {
      FollowUnweighted(Child(t, c[0]).value, c[1..], v);
    }
  }
}
