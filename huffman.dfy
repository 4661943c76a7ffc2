/** The Huffman coder of the current generation (`huffman.h`). A compressed
    file is the pre-order dump of the code tree, the input length in four
    bytes least significant first, and the codes of the input bytes, packed
    by a `Bitstream`. */
module Huffman {
  import opened Bits
  import opened Wrappers
  import opened Bitstream

  /** `node`: a leaf carries a byte value, an inner node (whose value is
      `'\0'`) two children. Every node built by the coder has either two
      children or none, so a null child stands only below a leaf. */
  datatype Tree = Leaf(value: int, freq: nat) | Node(freq: nat, left: Tree, right: Tree)

  /** `node::freq_comparison`: in the priority queue, `n1` ranks below `n2`
      when its frequency is larger. */
  predicate FreqComparison(n1: Tree, n2: Tree)
  {
    n1.freq > n2.freq
  }

  function LeafCount(t: Tree): nat
  {
    match t
    case Leaf(_, _) => 1
    case Node(_, l, r) => LeafCount(l) + LeafCount(r)
  }

  function InnerCount(t: Tree): nat
  {
    match t
    case Leaf(_, _) => 0
    case Node(_, l, r) => 1 + InnerCount(l) + InnerCount(r)
  }

  /** The leaves of `t`, frequencies included. */
  function Leaves(t: Tree): multiset<Tree>
  {
    match t
    case Leaf(_, _) => multiset{t}
    case Node(_, l, r) => Leaves(l) + Leaves(r)
  }

  function LeafValues(t: Tree): set<int>
  {
    match t
    case Leaf(v, _) => {v}
    case Node(_, l, r) => LeafValues(l) + LeafValues(r)
  }

  /** Every leaf holds a byte value. */
  predicate ByteLeaves(t: Tree)
  {
    match t
    case Leaf(v, _) => 0 <= v < 256
    case Node(_, l, r) => ByteLeaves(l) && ByteLeaves(r)
  }

  /** Every inner node's frequency is the sum of its children's. */
  predicate Weighted(t: Tree)
  {
    match t
    case Leaf(_, _) => true
    case Node(f, l, r) => f == l.freq + r.freq && Weighted(l) && Weighted(r)
  }

  /** The tree `retrievetree` rebuilds from `t`: the same shape and leaf
      values, with every frequency 1. */
  function Unweighted(t: Tree): Tree
  {
    match t
    case Leaf(v, _) => Leaf(v, 1)
    case Node(_, l, r) => Node(1, Unweighted(l), Unweighted(r))
  }

  // ---------------------------------------------------------------------
  // The priority queue of buildtree, as the sequence of its nodes

  function ForestLeaves(q: seq<Tree>): multiset<Tree>
  {
    if q == [] then multiset{} else Leaves(q[0]) + ForestLeaves(q[1..])
  }

  function ForestValues(q: seq<Tree>): set<int>
  {
    if q == [] then {} else LeafValues(q[0]) + ForestValues(q[1..])
  }

  function SumFreq(q: seq<Tree>): nat
  {
    if q == [] then 0 else q[0].freq + SumFreq(q[1..])
  }

  /** `q[k]` is a node `top()` may return: no node of the queue ranks above
      it under `freq_comparison`, so its frequency is the least. */
  predicate IsTop(q: seq<Tree>, k: int)
  {
    0 <= k < |q| && forall j :: 0 <= j < |q| ==> !FreqComparison(q[k], q[j])
  }

  /** `freq_comparison` is a strict weak order, as `std::priority_queue`
      requires of its comparator: irreflexive, transitive, and two nodes
      are unordered exactly when their frequencies are equal. */
  lemma FreqComparisonOrder(a: Tree, b: Tree, c: Tree)
    ensures !FreqComparison(a, a)
    ensures FreqComparison(a, b) && FreqComparison(b, c) ==> FreqComparison(a, c)
    ensures !FreqComparison(a, b) && !FreqComparison(b, a) <==> a.freq == b.freq
  {
  }

  /** Under the reversed comparison the top of the queue is a node of
      least frequency, and every node of least frequency may be it. */
  lemma TopLeast(q: seq<Tree>, k: int)
    ensures IsTop(q, k) <==> 0 <= k < |q| && forall j :: 0 <= j < |q| ==> q[k].freq <= q[j].freq
  {
  }

  /** The queue after `pop()` of its `k`-th node. */
  function Remove(q: seq<Tree>, k: nat): seq<Tree>
    requires k < |q|
  {
    q[..k] + q[k + 1..]
  }

  lemma {:induction false} ForestAppend(a: seq<Tree>, b: seq<Tree>)
    ensures ForestLeaves(a + b) == ForestLeaves(a) + ForestLeaves(b)
    ensures ForestValues(a + b) == ForestValues(a) + ForestValues(b)
    ensures SumFreq(a + b) == SumFreq(a) + SumFreq(b)
  {
    if a == [] {
      assert a + b == b;
    } else {
      assert (a + b)[1..] == a[1..] + b;
      ForestAppend(a[1..], b);
    }
  }

  /** Pushing a node adds its leaves, values and frequency to the queue. */
  lemma ForestSnoc(q: seq<Tree>, x: Tree)
    ensures ForestLeaves(q + [x]) == ForestLeaves(q) + Leaves(x)
    ensures ForestValues(q + [x]) == ForestValues(q) + LeafValues(x)
    ensures SumFreq(q + [x]) == SumFreq(q) + x.freq
  {
    ForestAppend(q, [x]);
    ForestSingle(x);
  }

  /** Popping a node takes exactly its leaves, values and frequency out of
      the queue. */
  lemma ForestRemove(q: seq<Tree>, k: nat)
    requires k < |q|
    ensures ForestLeaves(q) == ForestLeaves(Remove(q, k)) + Leaves(q[k])
    ensures ForestValues(q) == ForestValues(Remove(q, k)) + LeafValues(q[k])
    ensures SumFreq(q) == SumFreq(Remove(q, k)) + q[k].freq
  {
    var a, x, b := q[..k], q[k], q[k + 1..];
    assert q == a + ([x] + b);
    assert Remove(q, k) == a + b;
    ForestAppend(a, [x] + b);
    ForestAppend(a, b);
    assert ForestLeaves([x] + b) == Leaves(x) + ForestLeaves(b) by {
      ForestAppend([x], b);
      ForestSingle(x);
    }
    assert ForestValues([x] + b) == LeafValues(x) + ForestValues(b) by {
      ForestAppend([x], b);
      ForestSingle(x);
    }
    assert SumFreq([x] + b) == x.freq + SumFreq(b) by {
      ForestAppend([x], b);
      ForestSingle(x);
    }
  }

  lemma ForestSingle(x: Tree)
    ensures ForestLeaves([x]) == Leaves(x) && ForestValues([x]) == LeafValues(x) && SumFreq([x]) == x.freq
  {
    assert [x][1..] == [];
  }

  /** Popping the top leaves the other nodes, none of which ranks above
      it. */
  lemma RemoveTop(q: seq<Tree>, k: nat)
    requires IsTop(q, k)
    ensures multiset(q) == multiset(Remove(q, k)) + multiset{q[k]}
    ensures forall j :: 0 <= j < |Remove(q, k)| ==> !FreqComparison(q[k], Remove(q, k)[j])
  {
    var rest := Remove(q, k);
    assert q == q[..k] + [q[k]] + q[k + 1..];
    assert forall j :: 0 <= j < |rest| ==> rest[j] == q[if j < k then j else j + 1];
  }

  /** A non-empty queue has a top. */
  lemma {:induction false} TopExists(q: seq<Tree>)
    requires q != []
    ensures exists k :: IsTop(q, k)
  {
    if |q| > 1 {
      var p := q[..|q| - 1];
      TopExists(p);
      var k :| IsTop(p, k);
      if q[|q| - 1].freq < q[k].freq {
        assert IsTop(q, |q| - 1);
      } else {
        assert IsTop(q, k);
      }
    } else {
      assert IsTop(q, 0);
    }
  }

  // ---------------------------------------------------------------------
  // The trees buildtree can make

  /** `x` is a node `top()` may return from `q` and `rest` is the queue
      `pop()` leaves: no node left behind ranks above `x`. */
  ghost predicate LeastSplit(q: seq<Tree>, x: Tree, rest: seq<Tree>)
  {
    && multiset(q) == multiset(rest) + multiset{x}
    && |rest| == |q| - 1
    && forall j :: 0 <= j < |rest| ==> !FreqComparison(x, rest[j])
  }

  /** `t` is a tree `buildtree` can make of the queue `q`: the only node of
      a one-node queue; otherwise the two nodes popped first are of least
      frequency, they are joined under a parent whose frequency is the sum
      of theirs, and the queue with that parent pushed is built. Ties in
      frequency leave the choice to the heap, so several trees may do. */
  ghost predicate GreedyBuild(q: seq<Tree>, t: Tree)
    decreases |q|
  {
    if |q| <= 1 then q == [t]
    else exists n1, r1, n2, r2 ::
      && LeastSplit(q, n1, r1)
      && LeastSplit(r1, n2, r2)
      && GreedyBuild(r2 + [Node(n1.freq + n2.freq, n1, n2)], t)
  }

  /** The queue `compress` fills from the counts `freq`: one leaf per
      counted value, carrying its count, in any order. */
  ghost predicate LeafQueue(freq: map<int, nat>, q: seq<Tree>)
  {
    && |q| == |freq.Keys|
    && (forall j :: 0 <= j < |q| ==> q[j].Leaf? && q[j].value in freq && q[j].freq == freq[q[j].value])
    && ForestValues(q) == freq.Keys
  }

  /** `t` is a Huffman tree of the counts `freq`: `buildtree` makes it of
      some queue filled from them. */
  ghost predicate GreedyFrom(freq: map<int, nat>, t: Tree)
  {
    exists q :: LeafQueue(freq, q) && GreedyBuild(q, t)
  }

  /** Popping a node keeps every tree of the queue. */
  lemma SplitWeighted(q: seq<Tree>, x: Tree, rest: seq<Tree>)
    requires LeastSplit(q, x, rest)
    requires forall j :: 0 <= j < |q| ==> Weighted(q[j])
    ensures Weighted(x) && forall j :: 0 <= j < |rest| ==> Weighted(rest[j])
  {
    assert x in multiset(q);
    forall j | 0 <= j < |rest|
      ensures Weighted(rest[j])
    {
      assert rest[j] in multiset(rest);
      assert rest[j] in multiset(q);
    }
  }

  /** Built of weighted trees, a tree `buildtree` makes is weighted: each
      parent's frequency is the sum of its children's. */
  lemma {:induction false} GreedyWeighted(q: seq<Tree>, t: Tree)
    requires GreedyBuild(q, t)
    requires forall j :: 0 <= j < |q| ==> Weighted(q[j])
    ensures Weighted(t)
    decreases |q|
  {
    if |q| <= 1 {
      assert t == q[0];
    } else {
      var n1, r1, n2, r2 :|
        && LeastSplit(q, n1, r1)
        && LeastSplit(r1, n2, r2)
        && GreedyBuild(r2 + [Node(n1.freq + n2.freq, n1, n2)], t);
      SplitWeighted(q, n1, r1);
      SplitWeighted(r1, n2, r2);
      var q' := r2 + [Node(n1.freq + n2.freq, n1, n2)];
      PushWeighted(r2, n1, n2, q');
      GreedyWeighted(q', t);
    }
  }

  /** Pushing the parent of two weighted nodes keeps the queue weighted. */
  lemma PushWeighted(r: seq<Tree>, n1: Tree, n2: Tree, q': seq<Tree>)
    requires Weighted(n1) && Weighted(n2) && forall j :: 0 <= j < |r| ==> Weighted(r[j])
    requires q' == r + [Node(n1.freq + n2.freq, n1, n2)]
    ensures forall j :: 0 <= j < |q'| ==> Weighted(q'[j])
  {
  }

  /** A Huffman tree of byte counts is weighted. */
  lemma FromWeighted(freq: map<int, nat>, t: Tree)
    requires GreedyFrom(freq, t)
    ensures Weighted(t)
  {
    var q :| LeafQueue(freq, q) && GreedyBuild(q, t);
    GreedyWeighted(q, t);
  }

  // ---------------------------------------------------------------------
  // Byte counts: the frequency map of compress and the queue built from it

  /** `_freq_map` after counting `s`: each byte of `s` mapped to the number
      of its occurrences. */
  function Frequencies(s: seq<int>): map<int, nat>
  {
    map b | b in s :: multiset(s)[b]
  }

  /** `_freq_map[b]++`: a missing key starts at zero. */
  lemma FrequenciesSnoc(s: seq<int>, b: int)
    ensures Frequencies(s + [b]) == Frequencies(s)[b := (if b in Frequencies(s) then Frequencies(s)[b] else 0) + 1]
  {
    var m, m' := Frequencies(s), Frequencies(s + [b]);
    assert multiset(s + [b]) == multiset(s) + multiset{b};
    assert m'.Keys == m.Keys + {b};
  }

  /** The bytes a leaf stands for: its value, as often as its frequency
      says. */
  function Repeat(x: Tree): multiset<int>
  {
    if x.Leaf? then multiset{}[x.value := x.freq] else multiset{}
  }

  /** The bytes the leaves of a queue stand for. */
  function Occurrences(q: seq<Tree>): multiset<int>
  {
    if q == [] then multiset{} else Repeat(q[0]) + Occurrences(q[1..])
  }

  lemma {:induction false} RepeatCard(x: Tree)
    ensures x.Leaf? ==> |Repeat(x)| == x.freq
    decreases x.freq
  {
    if x.Leaf? && x.freq > 0 {
      var y := Leaf(x.value, x.freq - 1);
      RepeatCard(y);
      assert Repeat(x) == Repeat(y) + multiset{x.value};
    }
  }

  lemma {:induction false} OccurrencesSnoc(q: seq<Tree>, x: Tree)
    ensures Occurrences(q + [x]) == Occurrences(q) + Repeat(x)
  {
    if q == [] {
      assert [x][1..] == [];
    } else {
      assert (q + [x])[1..] == q[1..] + [x];
      OccurrencesSnoc(q[1..], x);
    }
  }

  /** For a queue of leaves, the bytes stood for are as many as the
      frequencies add up to. */
  lemma {:induction false} OccurrencesSum(q: seq<Tree>)
    requires forall j :: 0 <= j < |q| ==> q[j].Leaf?
    ensures |Occurrences(q)| == SumFreq(q)
  {
    if q != [] {
      OccurrencesSum(q[1..]);
      RepeatCard(q[0]);
    }
  }

  /** A queue of leaves holds the leaves it is made of. */
  lemma {:induction false} ForestOfLeaves(q: seq<Tree>)
    requires forall j :: 0 <= j < |q| ==> q[j].Leaf?
    ensures ForestLeaves(q) == multiset(q)
  {
    if q != [] {
      ForestOfLeaves(q[1..]);
      assert q == [q[0]] + q[1..];
    }
  }

  /** Every leaf of a tree is a `Leaf` holding one of its values. */
  lemma {:induction false} LeavesValues(t: Tree)
    ensures forall x | x in Leaves(t) :: x.Leaf? && x.value in LeafValues(t)
  {
    match t
    case Leaf(_, _) =>
    case Node(_, l, r) =>
      LeavesValues(l);
      LeavesValues(r);
  }

  /** A tree whose values are all bytes holds only bytes. */
  lemma {:induction false} ByteLeavesValues(t: Tree)
    requires forall v | v in LeafValues(t) :: 0 <= v < 256
    ensures ByteLeaves(t)
  {
    match t
    case Leaf(v, _) =>
      assert v in LeafValues(t);
    case Node(_, l, r) =>
      assert LeafValues(t) == LeafValues(l) + LeafValues(r);
      ByteLeavesValues(l);
      ByteLeavesValues(r);
  }

  /** A set is empty or has a member. */
  lemma Pick(s: set<int>)
    ensures s == {} || exists k :: k in s
  {
    if forall k :: k !in s {
      assert s == {};
    }
  }

  /** The queue after the entries of `freq` outside `keys` have each been
      pushed as a leaf, once. */
  ghost predicate Filled(freq: map<int, nat>, q: seq<Tree>, keys: set<int>)
  {
    && keys <= freq.Keys && |q| + |keys| == |freq.Keys|
    && (forall j :: 0 <= j < |q| ==> q[j].Leaf? && q[j].value in freq && q[j].freq == freq[q[j].value])
    && ForestValues(q) == freq.Keys - keys
    && (forall v :: Occurrences(q)[v] == if v in freq && v !in keys then freq[v] else 0)
  }

  /** Pushing the leaf of one more map entry onto the queue. */
  lemma FillStep(freq: map<int, nat>, q: seq<Tree>, keys: set<int>, k: int, q': seq<Tree>, keys': set<int>)
    requires Filled(freq, q, keys) && k in keys
    requires q' == q + [Leaf(k, freq[k])] && keys' == keys - {k}
    ensures Filled(freq, q', keys')
  {
    FillValues(freq, q, keys, k, q', keys');
    FillCounts(freq, q, keys, k, q', keys');
    FillEntries(freq, q, k, q');
    FillSize(keys, k, keys');
  }

  lemma FillSize(keys: set<int>, k: int, keys': set<int>)
    requires k in keys && keys' == keys - {k}
    ensures |keys'| == |keys| - 1 && keys' <= keys
  {
    assert keys == keys' + {k} && k !in keys';
  }

  lemma FillValues(freq: map<int, nat>, q: seq<Tree>, keys: set<int>, k: int, q': seq<Tree>, keys': set<int>)
    requires ForestValues(q) == freq.Keys - keys && k in keys && keys <= freq.Keys
    requires q' == q + [Leaf(k, freq[k])] && keys' == keys - {k}
    ensures ForestValues(q') == freq.Keys - keys'
  {
    ForestSnoc(q, Leaf(k, freq[k]));
  }

  lemma FillCounts(freq: map<int, nat>, q: seq<Tree>, keys: set<int>, k: int, q': seq<Tree>, keys': set<int>)
    requires forall v :: Occurrences(q)[v] == if v in freq && v !in keys then freq[v] else 0
    requires k in keys && keys <= freq.Keys
    requires q' == q + [Leaf(k, freq[k])] && keys' == keys - {k}
    ensures forall v :: Occurrences(q')[v] == if v in freq && v !in keys' then freq[v] else 0
  {
    var leaf := Leaf(k, freq[k]);
    OccurrencesSnoc(q, leaf);
    var m := Occurrences(q);
    forall v
      ensures (m + Repeat(leaf))[v] == if v in freq && v !in keys' then freq[v] else 0
    {
      assert Repeat(leaf)[v] == if v == k then freq[k] else 0;
    }
  }

  lemma FillEntries(freq: map<int, nat>, q: seq<Tree>, k: int, q': seq<Tree>)
    requires forall j :: 0 <= j < |q| ==> q[j].Leaf? && q[j].value in freq && q[j].freq == freq[q[j].value]
    requires k in freq && q' == q + [Leaf(k, freq[k])]
    ensures forall j :: 0 <= j < |q'| ==> q'[j].Leaf? && q'[j].value in freq && q'[j].freq == freq[q'[j].value]
  {
    forall j | 0 <= j < |q'|
      ensures q'[j].Leaf? && q'[j].value in freq && q'[j].freq == freq[q'[j].value]
    {
      if j < |q| {
        assert q'[j] == q[j];
      }
    }
  }

  // ---------------------------------------------------------------------
  // Tree dump: storetree / retrievetree

  /** The bits `storetree` writes for a tree: pre-order, a set bit and the
      eight bits of the value for a leaf, a clear bit for an inner node. */
  function TreeBits(t: Tree): seq<bool>
  {
    match t
    case Leaf(v, _) => [true] + ByteBits(v)
    case Node(_, l, r) => [false] + TreeBits(l) + TreeBits(r)
  }

  /** `storetree` of a possibly null tree: nothing for null. */
  function StoreBits(t: Option<Tree>): seq<bool>
  {
    if t.None? then [] else TreeBits(t.value)
  }

  lemma {:induction false} TreeBitsLength(t: Tree)
    ensures |TreeBits(t)| == 9 * LeafCount(t) + InnerCount(t)
  {
    match t
    case Leaf(_, _) =>
    case Node(_, l, r) =>
      TreeBitsLength(l);
      TreeBitsLength(r);
  }

  /** What `retrievetree` reads from a reader: a set bit announces a leaf
      whose value is the next byte, a clear bit an inner node whose children
      follow. It never fails: past the end of the file only set bits come,
      so every clear bit read brings the end of the tree closer. */
  function ParseTree(s: Reader): (r: (Tree, Reader))
    ensures CountZeros(r.1.bits) <= CountZeros(s.bits)
    decreases CountZeros(s.bits)
  {
    AdvanceZeros(s.bits);
    var (b, s1) := ReadBit(s);
    if b then
      AdvanceNZeros(s1.bits, 8);
      var (v, s2) := ReadByte(s1);
      (Leaf(v, 1), s2)
    else
      var (l, s2) := ParseTree(s1);
      var (r, s3) := ParseTree(s2);
      (Node(1, l, r), s3)
  }

  /** Reading a bit from bits that are there: no end of file is met. */
  lemma ReadBitOf(b: bool, t: seq<bool>, e: bool)
    ensures ReadBit(Reader([b] + t, e)) == (b, Reader(t, e))
  {
    assert ([b] + t)[1..] == t;
  }

  /** Reading the eight bits of a byte that are there returns it. */
  lemma ReadByteOf(v: byte, t: seq<bool>, e: bool)
    ensures ReadByte(Reader(ByteBits(v) + t, e)) == (v, Reader(t, e))
  {
    AlignedByte(v, t);
  }

  /** `retrievetree` inverts `storetree`: reading a tree dump back gives
      the tree's shape and leaf values, and leaves the rest of the file. */
  lemma {:induction false} ParseTreeBits(t: Tree, rest: seq<bool>, e: bool)
    requires ByteLeaves(t)
    ensures ParseTree(Reader(TreeBits(t) + rest, e)) == (Unweighted(t), Reader(rest, e))
  {
    match t
    case Leaf(v, _) =>
      assert TreeBits(t) + rest == [true] + (ByteBits(v) + rest);
      ReadBitOf(true, ByteBits(v) + rest, e);
      ReadByteOf(v, rest, e);
    case Node(_, l, r) =>
      assert TreeBits(t) + rest == [false] + (TreeBits(l) + (TreeBits(r) + rest));
      ReadBitOf(false, TreeBits(l) + (TreeBits(r) + rest), e);
      ParseTreeBits(l, TreeBits(r) + rest, e);
      ParseTreeBits(r, rest, e);
  }

  // ---------------------------------------------------------------------
  // Codes: initcodemap

  /** The entries `initcodemap(t, map, code)` stores: each leaf value maps
      to `code` followed by the path to the leaf (0 = left, 1 = right). A
      value on two leaves keeps the path of the later one in pre-order. */
  function Codes(t: Tree, code: seq<bool>): map<int, seq<bool>>
  {
    match t
    case Leaf(v, _) => map[v := code]
    case Node(_, l, r) => Codes(l, code + [false]) + Codes(r, code + [true])
  }

  /** The entries `initcodemap(root, map, code)` stores: none for a null
      tree. */
  function CodeMap(t: Option<Tree>, code: seq<bool>): map<int, seq<bool>>
  {
    if t.None? then map[] else Codes(t.value, code)
  }

  /** The node that follows `n` along one bit; null below a leaf. */
  function Child(n: Tree, b: bool): Option<Tree>
  {
    if n.Leaf? then None else Some(if b then n.right else n.left)
  }

  /** The node reached from `n` along the path `c`, if any. */
  function Follow(n: Tree, c: seq<bool>): Option<Tree>
    decreases |c|
  {
    if c == [] then Some(n)
    else match Child(n, c[0])
      case None => None
      case Some(m) => Follow(m, c[1..])
  }

  /** The path `c` leads from `n` to a leaf holding `v`. */
  predicate Reaches(n: Tree, c: seq<bool>, v: int)
  {
    Follow(n, c).Some? && Follow(n, c).value.Leaf? && Follow(n, c).value.value == v
  }

  lemma {:induction false} FollowAppend(n: Tree, c: seq<bool>, d: seq<bool>)
    ensures Follow(n, c + d) == if Follow(n, c).None? then None else Follow(Follow(n, c).value, d)
    decreases |c|
  {
    if c == [] {
      assert c + d == d;
    } else {
      assert (c + d)[0] == c[0] && (c + d)[1..] == c[1..] + d;
      match Child(n, c[0])
      case None =>
      case Some(m) => FollowAppend(m, c[1..], d);
    }
  }

  /** The path to the last leaf in pre-order that holds `v`. */
  function PathTo(t: Tree, v: int): seq<bool>
  {
    match t
    case Leaf(_, _) => []
    case Node(_, l, r) => if v in LeafValues(r) then [true] + PathTo(r, v) else [false] + PathTo(l, v)
  }

  lemma {:induction false} CodesKeys(t: Tree, code: seq<bool>)
    ensures Codes(t, code).Keys == LeafValues(t)
  {
    match t
    case Leaf(_, _) =>
    case Node(_, l, r) =>
      CodesKeys(l, code + [false]);
      CodesKeys(r, code + [true]);
  }

  /** `initcodemap` stores for each leaf value `code` followed by the path
      from the root to (the last) leaf holding it. */
  lemma {:induction false} CodesPath(t: Tree, code: seq<bool>, v: int)
    requires v in LeafValues(t)
    ensures v in Codes(t, code) && Codes(t, code)[v] == code + PathTo(t, v)
  {
    match t
    case Leaf(_, _) =>
    case Node(_, l, r) =>
      CodesKeys(r, code + [true]);
      if v in LeafValues(r) {
        CodesPath(r, code + [true], v);
      } else {
        CodesPath(l, code + [false], v);
      }
  }

  /** The path to a leaf value leads to a leaf holding it. */
  lemma {:induction false} PathReaches(t: Tree, v: int)
    requires v in LeafValues(t)
    ensures Reaches(t, PathTo(t, v), v)
  {
    match t
    case Leaf(_, _) =>
    case Node(_, l, r) =>
      var sub := if v in LeafValues(r) then r else l;
      PathReaches(sub, v);
      assert PathTo(t, v)[1..] == PathTo(sub, v);
  }

  /** Each code of the map `compress` builds leads from the root to a leaf
      holding its value. */
  lemma CodeReaches(t: Tree, v: int)
    requires v in Codes(t, [])
    ensures Reaches(t, Codes(t, [])[v], v)
  {
    CodesKeys(t, []);
    CodesPath(t, [], v);
    PathReaches(t, v);
    assert [] + PathTo(t, v) == PathTo(t, v);
  }

  /** A leaf reached by a path ends it: no longer path passes through it. */
  lemma LeafEndsPath(n: Tree, c: seq<bool>, d: seq<bool>, v: int)
    requires Reaches(n, c, v) && d != []
    ensures Follow(n, c + d).None?
  {
    FollowAppend(n, c, d);
  }

  /** The codes of `compress`'s code map are prefix-free: no code of one
      value begins the code of another. */
  lemma CodesPrefixFree(t: Tree, a: int, b: int)
    requires a in Codes(t, []) && b in Codes(t, []) && a != b
    ensures !(Codes(t, [])[a] <= Codes(t, [])[b])
  {
    CodeReaches(t, a);
    CodeReaches(t, b);
    var ca, cb := Codes(t, [])[a], Codes(t, [])[b];
    assert ca != cb;
    if ca <= cb {
      var d := cb[|ca|..];
      assert cb == ca + d;
      if d != [] {
        LeafEndsPath(t, ca, d, a);
      }
    }
  }

  /** A tree with inner nodes gives every value a non-empty code; a lone
      leaf gets the empty code. */
  lemma CodesLength(t: Tree)
    ensures t.Node? ==> forall v | v in Codes(t, []) :: Codes(t, [])[v] != []
    ensures t.Leaf? ==> Codes(t, []) == map[t.value := []]
  {
    if t.Node? {
      forall v | v in Codes(t, [])
        ensures Codes(t, [])[v] != []
      {
        CodeReaches(t, v);
      }
    }
  }

  /** The bits the encoding loop of `compress` writes: each byte's code in
      turn, where `_code_map[e]` of a byte without a code is empty. */
  function EncodeBits(d: seq<int>, codes: map<int, seq<bool>>): seq<bool>
  {
    if d == [] then [] else (if d[0] in codes then codes[d[0]] else []) + EncodeBits(d[1..], codes)
  }

  lemma {:induction false} EncodeBitsSnoc(d: seq<int>, x: int, codes: map<int, seq<bool>>)
    ensures EncodeBits(d + [x], codes) == EncodeBits(d, codes) + (if x in codes then codes[x] else [])
  {
    if d == [] {
      assert [x][1..] == [];
    } else {
      assert (d + [x])[1..] == d[1..] + [x];
      EncodeBitsSnoc(d[1..], x, codes);
    }
  }

  /** The bits of a compressed file before `close` pads them: the tree
      dump, the length field and the codes of the input. */
  function CompressedBits(d: seq<int>, tree: Option<Tree>): seq<bool>
  {
    StoreBits(tree) + BytesBits(SizeBytes(|d|, 4)) + EncodeBits(d, CodeMap(tree, []))
  }

  /** The bits `close` adds after `n` bits to fill the last byte. */
  function PadLength(n: nat): nat
  {
    (8 - n % 8) % 8
  }

  /** The bytes `putbyte` writes for the values `s`. */
  function ToBytes(s: seq<int>): (r: seq<byte>)
  {
    seq(|s|, j requires 0 <= j < |s| => LowByte(s[j]))
  }

  // ---------------------------------------------------------------------
  // Length field: writesize / retrievesize

  /** `size_t`, 64 bits wide. */
  const SIZE_T_MOD: nat := 0x1_0000_0000_0000_0000

  /** An `int` converted to `size_t`. */
  function SizeT(x: int): nat
  {
    x % SIZE_T_MOD
  }

  /** 256^k. */
  function Pow256(k: nat): (r: nat)
    ensures r >= 1
  {
    if k == 0 then 1 else 256 * Pow256(k - 1)
  }

  /** `v << (k * BYTE)` before truncation to the width of `size_t`. */
  function ShiftBytes(v: int, k: nat): int
  {
    if k == 0 then v else 256 * ShiftBytes(v, k - 1)
  }

  /** `|` on unsigned values. */
  function Or(a: nat, b: nat): nat
    decreases a + b
  {
    if a == 0 then b
    else if b == 0 then a
    else 2 * Or(a / 2, b / 2) + (if a % 2 == 1 || b % 2 == 1 then 1 else 0)
  }

  /** The `k` bytes `writesize` puts for `n`: its low byte first. */
  function SizeBytes(n: nat, k: nat): seq<int>
  {
    if k == 0 then [] else [n % 256] + SizeBytes(n / 256, k - 1)
  }

  /** The first `k` bytes read from `s`, and the reader after them. */
  function ReadBytes(s: Reader, k: nat): (seq<int>, Reader)
  {
    if k == 0 then ([], s)
    else
      var (bs, s1) := ReadBytes(s, k - 1);
      var (b, s2) := ReadByte(s1);
      (bs + [b], s2)
  }

  /** The value `retrievesize` assembles from the bytes it has read: the
      `i`-th byte, converted to `size_t`, is shifted left by `i` bytes,
      truncated to `size_t` and or-ed in. */
  function Assemble(bs: seq<int>): nat
  {
    if bs == [] then 0
    else
      var i := |bs| - 1;
      Or(Assemble(bs[..i]), SizeT(ShiftBytes(SizeT(bs[i]), i)))
  }

  /** One step of `writesize`: the low byte, then the rest of the value. */
  lemma SizeBytesCons(n: nat, k: nat)
    requires k > 0
    ensures BytesBits(SizeBytes(n, k)) == ByteBits(n % 256) + BytesBits(SizeBytes(n / 256, k - 1))
  {
    var bs := SizeBytes(n, k);
    assert bs[0] == n % 256 && bs[1..] == SizeBytes(n / 256, k - 1);
  }

  /** `retrievesize`: four bytes read and assembled. */
  function ReadSize(s: Reader): (nat, Reader)
  {
    var (bs, s1) := ReadBytes(s, 4);
    (Assemble(bs), s1)
  }

  // ---------------------------------------------------------------------
  // Decoding loop of decompress

  /** The bytes `decompress`'s loop emits from the state `root`, `i` and the
      reader `s`: while `i < size`, `root` is not null and the eof flag is
      clear, a leaf's value is emitted (and the walk restarts at the root),
      then one bit moves `root` to a child. Each round reads a bit, so the
      bits left shrink until the eof flag is raised. */
  function DecodeLoop(tree: Tree, root: Option<Tree>, i: nat, size: nat, s: Reader): seq<int>
    decreases if s.eof then 0 else |s.bits| + 1
  {
    if i < size && root.Some? && !s.eof then
      var leaf := root.value.Leaf?;
      var emitted := if leaf then [root.value.value] else [];
      var at := if leaf then tree else root.value;
      var (b, s1) := ReadBit(s);
      emitted + DecodeLoop(tree, Child(at, b), if leaf then i + 1 else i, size, s1)
    else []
  }

  lemma {:induction false} CodesUnweighted(t: Tree, code: seq<bool>)
    ensures Codes(Unweighted(t), code) == Codes(t, code)
    ensures LeafValues(Unweighted(t)) == LeafValues(t)
  {
    match t
    case Leaf(_, _) =>
    case Node(_, l, r) =>
      CodesUnweighted(l, code + [false]);
      CodesUnweighted(r, code + [true]);
  }

  /** `v << n` for single bits. */
  function ShiftBits(v: nat, n: nat): nat
  {
    if n == 0 then v else 2 * ShiftBits(v, n - 1)
  }

  /** `|` of a value below 2^n with a value shifted left by n adds them. */
  lemma {:induction false} OrShift(a: nat, c: nat, n: nat)
    requires a < Pow2(n)
    ensures Or(a, ShiftBits(c, n)) == a + ShiftBits(c, n)
  {
    if n > 0 && a != 0 && ShiftBits(c, n) != 0 {
      OrShift(a / 2, c, n - 1);
    }
  }

  lemma {:induction false} ShiftBytesBits(v: nat, k: nat)
    ensures ShiftBytes(v, k) == ShiftBits(v, 8 * k)
    ensures Pow256(k) == Pow2(8 * k)
  {
    if k > 0 {
      ShiftBytesBits(v, k - 1);
      var n := 8 * (k - 1);
      assert ShiftBits(v, n + 8) == 256 * ShiftBits(v, n) by {
        assert ShiftBits(v, n + 8) == 2 * ShiftBits(v, n + 7);
        assert ShiftBits(v, n + 7) == 2 * ShiftBits(v, n + 6);
        assert ShiftBits(v, n + 6) == 2 * ShiftBits(v, n + 5);
        assert ShiftBits(v, n + 5) == 2 * ShiftBits(v, n + 4);
        assert ShiftBits(v, n + 4) == 2 * ShiftBits(v, n + 3);
        assert ShiftBits(v, n + 3) == 2 * ShiftBits(v, n + 2);
        assert ShiftBits(v, n + 2) == 2 * ShiftBits(v, n + 1);
      }
      assert Pow2(n + 8) == 256 * Pow2(n) by {
        assert Pow2(n + 8) == 2 * Pow2(n + 7);
        assert Pow2(n + 7) == 2 * Pow2(n + 6);
        assert Pow2(n + 6) == 2 * Pow2(n + 5);
        assert Pow2(n + 5) == 2 * Pow2(n + 4);
        assert Pow2(n + 4) == 2 * Pow2(n + 3);
        assert Pow2(n + 3) == 2 * Pow2(n + 2);
        assert Pow2(n + 2) == 2 * Pow2(n + 1);
      }
    }
  }

  /** A byte shifted to place k stays below 256^(k+1). */
  lemma {:induction false} ShiftBytesBound(b: nat, k: nat)
    requires b < 256
    ensures 0 <= ShiftBytes(b, k) <= 255 * Pow256(k)
  {
    if k > 0 {
      ShiftBytesBound(b, k - 1);
    }
  }

  lemma {:induction false} PowMono(i: nat, j: nat)
    requires i <= j
    ensures Pow256(i) <= Pow256(j)
    decreases j
  {
    if i < j {
      PowMono(i, j - 1);
    }
  }

  /** A byte shifted to one of the four places of the length field fits
      in `size_t`, and or-ing it into the lower places adds it. */
  lemma PlaceByte(b: nat, i: nat, acc: nat)
    requires b < 256 && i < 4 && acc < Pow256(i)
    ensures SizeT(ShiftBytes(SizeT(b), i)) == ShiftBytes(b, i)
    ensures Or(acc, ShiftBytes(b, i)) == acc + ShiftBytes(b, i) < Pow256(i + 1)
  {
    var x := ShiftBytes(b, i);
    ShiftBytesBound(b, i);
    PowMono(i, 3);
    assert Pow256(3) == 0x100_0000;
    ModUnique(b, SIZE_T_MOD, 0, b);
    ModUnique(x, SIZE_T_MOD, 0, x);
    ShiftBytesBits(b, i);
    OrShift(acc, b, 8 * i);
  }

  /** The low `k + 1` bytes of `m`: its low byte, then the low `k` bytes of
      the rest. */
  lemma ModPlace(m: nat, k: nat)
    ensures m % Pow256(k + 1) == m % 256 + 256 * ((m / 256) % Pow256(k))
  {
    var q := Pow256(k);
    var x := (m / 256) / q;
    var y := (m / 256) % q;
    assert m / 256 == x * q + y;
    assert m == 256 * (m / 256) + m % 256;
    assert m == x * (256 * q) + (256 * y + m % 256);
    ModUnique(m, 256 * q, x, 256 * y + m % 256);
  }

  /** The little-endian value of the bytes `bs`. */
  function Value(bs: seq<int>): int
  {
    if bs == [] then 0
    else
      var i := |bs| - 1;
      Value(bs[..i]) + ShiftBytes(bs[i], i)
  }

  predicate IsBytes(bs: seq<int>)
  {
    forall j :: 0 <= j < |bs| ==> 0 <= bs[j] < 256
  }

  /** Reading `k` bytes of a stream that starts with the bytes `bs` gives
      back the first `k` of them. */
  lemma {:induction false} ReadBytesOf(bs: seq<int>, k: nat, rest: seq<bool>, e: bool)
    requires IsBytes(bs) && k <= |bs|
    ensures ReadBytes(Reader(BytesBits(bs) + rest, e), k) == (bs[..k], Reader(BytesBits(bs[k..]) + rest, e))
  {
    if k == 0 {
      assert bs[..0] == [] && bs[0..] == bs;
    } else {
      var s := Reader(BytesBits(bs) + rest, e);
      var t := BytesBits(bs[k..]) + rest;
      ReadBytesOf(bs, k - 1, rest, e);
      assert BytesBits(bs[k - 1..]) == ByteBits(bs[k - 1]) + BytesBits(bs[k..]) by {
        assert bs[k - 1..][1..] == bs[k..];
      }
      assert BytesBits(bs[k - 1..]) + rest == ByteBits(bs[k - 1]) + t;
      var s1 := Reader(ByteBits(bs[k - 1]) + t, e);
      ReadByteOf(bs[k - 1], t, e);
      assert bs[..k - 1] + [bs[k - 1]] == bs[..k];
      ReadBytesSnoc(s, k, bs[..k - 1], s1, bs[k - 1], Reader(t, e), bs[..k]);
    }
  }

  /** One more byte read after the first `k - 1`. */
  lemma ReadBytesSnoc(s: Reader, k: nat, x: seq<int>, s1: Reader, b: int, s2: Reader, y: seq<int>)
    requires k > 0 && ReadBytes(s, k - 1) == (x, s1) && ReadByte(s1) == (b, s2) && y == x + [b]
    ensures ReadBytes(s, k) == (y, s2)
  {
  }

  /** `retrievesize`'s or-ing adds up bytes that cannot overlap. */
  lemma {:induction false} AssembleValue(bs: seq<int>)
    requires IsBytes(bs) && |bs| <= 4
    ensures Assemble(bs) == Value(bs) < Pow256(|bs|)
  {
    if bs != [] {
      var i := |bs| - 1;
      AssembleValue(bs[..i]);
      PlaceByte(bs[i], i, Value(bs[..i]));
    }
  }

  /** `Value` taken from the low end. */
  lemma {:induction false} ValueCons(x: int, t: seq<int>)
    requires 0 <= x
    ensures Value([x] + t) == x + 256 * Value(t)
  {
    if t == [] {
      assert ([x] + t)[..0] == [];
    } else {
      var i := |t| - 1;
      ValueCons(x, t[..i]);
      assert ([x] + t)[..i + 1] == [x] + t[..i];
    }
  }

  /** The value of the low `k` bytes of `m`, split as `writesize` splits
      them. */
  function LowBytes(m: nat, k: nat): nat
  {
    if k == 0 then 0 else m % 256 + 256 * LowBytes(m / 256, k - 1)
  }

  lemma {:induction false} LowBytesMod(m: nat, k: nat)
    ensures LowBytes(m, k) == m % Pow256(k)
  {
    if k == 0 {
      ModUnique(m, 1, m, 0);
    } else {
      LowBytesMod(m / 256, k - 1);
      ModPlace(m, k - 1);
    }
  }

  lemma {:induction false} SizeBytesValue(m: nat, k: nat)
    ensures IsBytes(SizeBytes(m, k)) && |SizeBytes(m, k)| == k
    ensures Value(SizeBytes(m, k)) == LowBytes(m, k)
  {
    if k > 0 {
      SizeBytesValue(m / 256, k - 1);
      ValueCons(m % 256, SizeBytes(m / 256, k - 1));
    }
  }

  /** `retrievesize(writesize(n)) == n mod 2^32`. */
  lemma SizeRoundTrip(n: nat, rest: seq<bool>, e: bool)
    ensures ReadSize(Reader(BytesBits(SizeBytes(n, 4)) + rest, e)) == (n % 0x1_0000_0000, Reader(rest, e))
  {
    var bs := SizeBytes(n, 4);
    SizeBytesValue(n, 4);
    ReadBytesOf(bs, 4, rest, e);
    assert bs[..4] == bs;
    assert bs[4..] == [];
    assert BytesBits(bs[4..]) + rest == rest;
    assert ReadBytes(Reader(BytesBits(bs) + rest, e), 4) == (bs, Reader(rest, e));
    AssembleValue(bs);
    LowBytesMod(n, 4);
    assert Pow256(4) == 0x1_0000_0000;
  }

  // ---------------------------------------------------------------------
  // Round trip

  /** What `decompress` writes, byte by byte, for the file bits `bits`:
      the tree, the length field, then the decoding loop from the root. */
  function Decode(bits: seq<bool>): seq<int>
  {
    var (t, s1) := ParseTree(Reader(bits, false));
    var (n, s2) := ReadSize(s1);
    DecodeLoop(t, Some(t), 0, n, s2)
  }

  /** The decoding loop emits at most the values the length field has
      still to give. */
  lemma {:induction false} DecodeLoopBound(tree: Tree, root: Option<Tree>, i: nat, size: nat, s: Reader)
    requires i <= size
    ensures |DecodeLoop(tree, root, i, size, s)| <= size - i
    decreases if s.eof then 0 else |s.bits| + 1
  {
    if i < size && root.Some? && !s.eof {
      var leaf := root.value.Leaf?;
      var at := if leaf then tree else root.value;
      var (b, s1) := ReadBit(s);
      DecodeLoopBound(tree, Child(at, b), if leaf then i + 1 else i, size, s1);
    }
  }

  /** `decompress` writes no more bytes than the length field names. */
  lemma DecodeBound(bits: seq<bool>)
    ensures |Decode(bits)| <= ReadSize(ParseTree(Reader(bits, false)).1).0
  {
    var (t, s1) := ParseTree(Reader(bits, false));
    var (n, s2) := ReadSize(s1);
    DecodeLoopBound(t, Some(t), 0, n, s2);
  }

  /** The decoding loop walks a path bit by bit without emitting until it
      reaches the leaf at its end. */
  lemma {:induction false} DecodeWalk(tree: Tree, n: Tree, c: seq<bool>, i: nat, size: nat, rest: seq<bool>)
    requires Follow(n, c).Some? && Follow(n, c).value.Leaf? && i < size
    ensures DecodeLoop(tree, Some(n), i, size, Reader(c + rest, false))
              == DecodeLoop(tree, Follow(n, c), i, size, Reader(rest, false))
    decreases |c|
  {
    if c != [] {
      assert n.Node?;
      var t := c[1..] + rest;
      assert c + rest == [c[0]] + t;
      ReadBitOf(c[0], t, false);
      var m := Child(n, c[0]).value;
      DecodeWalk(tree, m, c[1..], i, size, rest);
    } else {
      assert c + rest == rest;
    }
  }

  lemma SplitFirst<T>(s: seq<T>, t: seq<T>)
    requires s != []
    ensures s + t == [s[0]] + (s[1..] + t)
  {
  }

  /** Once the walk has reached the leaf of `d[j]`, the loop emits
      `d[j..]`: each further code leads from the root to its byte's leaf. */
  lemma {:induction false} DecodeFrom(tree: Tree, d: seq<int>, j: nat, lf: Tree, pad: seq<bool>)
    requires tree.Node? && j < |d| && lf.Leaf? && lf.value == d[j]
    requires forall k :: 0 <= k < |d| ==> d[k] in Codes(tree, [])
    ensures DecodeLoop(tree, Some(lf), j, |d|, Reader(EncodeBits(d[j + 1..], Codes(tree, [])) + pad, false)) == d[j..]
    decreases |d| - j
  {
    var codes := Codes(tree, []);
    var bits := EncodeBits(d[j + 1..], codes) + pad;
    if j + 1 == |d| {
      assert bits == pad;
    } else {
      var c := codes[d[j + 1]];
      var more := EncodeBits(d[j + 2..], codes) + pad;
      assert d[j + 1..][1..] == d[j + 2..];
      assert bits == c + more;
      CodesLength(tree);
      CodeReaches(tree, d[j + 1]);
      var t := c[1..] + more;
      SplitFirst(c, more);
      ReadBitOf(c[0], t, false);
      var m := Child(tree, c[0]).value;
      assert DecodeLoop(tree, Some(lf), j, |d|, Reader(bits, false))
          == [d[j]] + DecodeLoop(tree, Some(m), j + 1, |d|, Reader(t, false));
      DecodeWalk(tree, m, c[1..], j + 1, |d|, more);
      assert Follow(m, c[1..]) == Follow(tree, c);
      DecodeFrom(tree, d, j + 1, Follow(tree, c).value, pad);
      SplitFirst(d[j..], []);
      assert d[j..][1..] == d[j + 1..];
    }
  }

  /** The decoding loop started at the root recovers every byte whose code
      was written. */
  lemma DecodeAll(tree: Tree, d: seq<int>, pad: seq<bool>)
    requires tree.Node?
    requires forall k :: 0 <= k < |d| ==> d[k] in Codes(tree, [])
    ensures DecodeLoop(tree, Some(tree), 0, |d|, Reader(EncodeBits(d, Codes(tree, [])) + pad, false)) == d
  {
    if d != [] {
      var codes := Codes(tree, []);
      var c := codes[d[0]];
      var more := EncodeBits(d[1..], codes) + pad;
      EncodeBitsCons(d, codes, pad);
      DecodeFirst(tree, d, c, more, pad);
    }
  }

  lemma EncodeBitsCons(d: seq<int>, codes: map<int, seq<bool>>, pad: seq<bool>)
    requires d != [] && d[0] in codes
    ensures EncodeBits(d, codes) + pad == codes[d[0]] + (EncodeBits(d[1..], codes) + pad)
  {
  }

  /** The first code walks from the root to the first byte's leaf, and the
      rest decodes from there. */
  lemma DecodeFirst(tree: Tree, d: seq<int>, c: seq<bool>, more: seq<bool>, pad: seq<bool>)
    requires tree.Node? && d != []
    requires forall k :: 0 <= k < |d| ==> d[k] in Codes(tree, [])
    requires c == Codes(tree, [])[d[0]] && more == EncodeBits(d[1..], Codes(tree, [])) + pad
    ensures DecodeLoop(tree, Some(tree), 0, |d|, Reader(c + more, false)) == d
  {
    CodeReaches(tree, d[0]);
    var lf := Follow(tree, c).value;
    assert DecodeLoop(tree, Some(tree), 0, |d|, Reader(c + more, false))
        == DecodeLoop(tree, Some(lf), 0, |d|, Reader(more, false)) by {
      DecodeWalk(tree, tree, c, 0, |d|, more);
    }
    DecodeFrom(tree, d, 0, lf, pad);
    assert d[0..] == d;
  }

  /** Regrouping the four parts of a compressed file. */
  lemma Associate(a: seq<bool>, b: seq<bool>, c: seq<bool>, d: seq<bool>)
    ensures a + b + c + d == a + (b + (c + d))
  {
  }

  /** What `decompress` writes for what `compress` wrote is the input, when
      the tree has inner nodes (at least two distinct bytes), every byte
      has a leaf and the length fits the 32-bit field. `pad` is whatever
      follows the codes in the file. */
  lemma RoundTripBits(tree: Tree, d: seq<int>, pad: seq<bool>)
    requires tree.Node? && ByteLeaves(tree)
    requires forall k :: 0 <= k < |d| ==> d[k] in LeafValues(tree)
    requires |d| < 0x1_0000_0000
    ensures Decode(TreeBits(tree) + BytesBits(SizeBytes(|d|, 4)) + EncodeBits(d, Codes(tree, [])) + pad) == d
  {
    var codes := Codes(tree, []);
    var rest := EncodeBits(d, codes) + pad;
    var afterTree := BytesBits(SizeBytes(|d|, 4)) + rest;
    var bits := TreeBits(tree) + BytesBits(SizeBytes(|d|, 4)) + EncodeBits(d, codes) + pad;
    Associate(TreeBits(tree), BytesBits(SizeBytes(|d|, 4)), EncodeBits(d, codes), pad);
    var u := Unweighted(tree);
    assert ParseTree(Reader(bits, false)) == (u, Reader(afterTree, false)) by {
      ParseTreeBits(tree, afterTree, false);
    }
    assert ReadSize(Reader(afterTree, false)) == (|d|, Reader(rest, false)) by {
      SizeRoundTrip(|d|, rest, false);
      ModUnique(|d|, 0x1_0000_0000, 0, |d|);
    }
    assert Decode(bits) == DecodeLoop(u, Some(u), 0, |d|, Reader(rest, false));
    CodesUnweighted(tree, []);
    CodesKeys(tree, []);
    DecodeAll(u, d, pad);
  }

  /** What `compress` writes for an input holding at least two distinct
      bytes decodes, whatever padding follows, to that input. */
  lemma CompressedRoundTrip(d: seq<int>, t: Tree, pad: seq<bool>)
    requires t.Node? && ByteLeaves(t)
    requires forall k :: 0 <= k < |d| ==> d[k] in LeafValues(t)
    requires |d| < 0x1_0000_0000
    ensures Decode(CompressedBits(d, Some(t)) + pad) == d
  {
    RoundTripBits(t, d, pad);
  }

  /** An input made of one byte value, repeated: the tree is a lone leaf,
      whose code is empty, and the decoder emits its byte once and then
      falls off the tree, so only one byte comes back. */
  lemma LoneLeafDecode(d: seq<int>, t: Tree, pad: seq<bool>)
    requires t.Leaf? && 0 <= t.value < 256
    requires d != [] && |d| < 0x1_0000_0000
    requires forall k :: 0 <= k < |d| ==> d[k] == t.value
    ensures Decode(CompressedBits(d, Some(t)) + pad) == [t.value]
  {
    var rest := pad;
    assert EncodeBits(d, CodeMap(Some(t), [])) == [] by {
      LoneLeafCodes(d, t);
    }
    var afterTree := BytesBits(SizeBytes(|d|, 4)) + rest;
    var bits := CompressedBits(d, Some(t)) + pad;
    assert bits == TreeBits(t) + afterTree;
    var u := Unweighted(t);
    assert ParseTree(Reader(bits, false)) == (u, Reader(afterTree, false)) by {
      ParseTreeBits(t, afterTree, false);
    }
    assert ReadSize(Reader(afterTree, false)) == (|d|, Reader(rest, false)) by {
      SizeRoundTrip(|d|, rest, false);
      ModUnique(|d|, 0x1_0000_0000, 0, |d|);
    }
    var s1 := ReadBit(Reader(rest, false)).1;
    assert DecodeLoop(u, Some(u), 0, |d|, Reader(rest, false))
             == [t.value] + DecodeLoop(u, None, 1, |d|, s1);
  }

  lemma {:induction false} LoneLeafCodes(d: seq<int>, t: Tree)
    requires t.Leaf?
    requires forall k :: 0 <= k < |d| ==> d[k] == t.value
    ensures EncodeBits(d, CodeMap(Some(t), [])) == []
  {
    if d != [] {
      LoneLeafCodes(d[1..], t);
    }
  }

  /** An empty input: `compress` writes no tree and a zero length field,
      and the decoder, reading a tree from zero bits, runs into the end of
      the file and emits nothing. */
  lemma EmptyDecode(pad: nat)
    ensures Decode(CompressedBits([], None) + Zeros(pad)) == []
  {
    var field := BytesBits(SizeBytes(0, 4));
    var bits := CompressedBits([], None) + Zeros(pad);
    assert bits == field + Zeros(pad);
    assert SizeBytes(0, 4) == [0, 0, 0, 0];
    forall j | 0 <= j < |bits|
      ensures !bits[j]
    {
      if j < |field| {
        ZeroBytesBits(SizeBytes(0, 4), j);
      }
    }
    ParseZeros(bits, false);
    ReadBytesEof(ParseTree(Reader(bits, false)).1, 4);
  }

  lemma ZeroBytesBits(bs: seq<int>, j: nat)
    requires forall k :: 0 <= k < |bs| ==> bs[k] == 0
    requires j < |BytesBits(bs)|
    ensures !BytesBits(bs)[j]
  {
    if j >= 8 {
      ZeroBytesBits(bs[1..], j - 8);
    } else {
      BitZero(7 - j);
    }
  }

  lemma {:induction false} BitZero(i: nat)
    ensures !Bit(0, i)
  {
    if i > 0 {
      BitZero(i - 1);
    }
  }

  /** A tree read from zero bits ends beyond the end of the file. */
  lemma {:induction false} ParseZeros(p: seq<bool>, e: bool)
    requires forall j :: 0 <= j < |p| ==> !p[j]
    ensures ParseTree(Reader(p, e)).1.eof
    decreases |p|
  {
    if p != [] {
      var s1 := Reader(p[1..], e);
      assert ReadBit(Reader(p, e)) == (false, s1);
      ParseZeros(p[1..], e);
      ParseEof(ParseTree(s1).1);
    }
  }

  /** Once the end of the file is met, the eof flag stays raised. */
  lemma {:induction false} ParseEof(s: Reader)
    requires s.eof
    ensures ParseTree(s).1.eof
    decreases CountZeros(s.bits)
  {
    AdvanceZeros(s.bits);
    var (b, s1) := ReadBit(s);
    if !b {
      ParseEof(s1);
      ParseEof(ParseTree(s1).1);
    }
  }

  lemma {:induction false} ReadBytesEof(s: Reader, k: nat)
    requires s.eof
    ensures ReadBytes(s, k).1.eof
  {
    if k > 0 {
      ReadBytesEof(s, k - 1);
    }
  }

  /** Two distinct bytes of an input are two keys of its frequency map. */
  lemma DistinctKeys(d: seq<int>, j: nat, k: nat)
    requires j < |d| && k < |d| && d[j] != d[k]
    ensures |Frequencies(d).Keys| >= 2
  {
    var keys := Frequencies(d).Keys;
    assert d[j] in keys && d[k] in keys;
    assert |keys - {d[j]}| >= 1 by {
      assert d[k] in keys - {d[j]};
    }
  }

  /** Bytes written by `putbyte` come back unchanged. */
  lemma ToBytesOfBytes(d: seq<byte>)
    ensures ToBytes(d) == d
  {
  }

  // ---------------------------------------------------------------------
  // Glue for the drivers

  lemma ToBytesAppend(a: seq<int>, b: seq<int>)
    ensures ToBytes(a + b) == ToBytes(a) + ToBytes(b)
  {
  }

  /** One round of `decompress`'s loop: a leaf's byte is written, then one
      bit moves the walk on. */
  lemma DecodeStep(tree: Tree, root: Option<Tree>, i: nat, size: nat, s: Reader)
    requires i < size && root.Some? && !s.eof
    ensures var leaf := root.value.Leaf?;
            var at := if leaf then tree else root.value;
            ToBytes(DecodeLoop(tree, root, i, size, s))
              == (if leaf then [LowByte(root.value.value)] else [])
                 + ToBytes(DecodeLoop(tree, Child(at, ReadBit(s).0), if leaf then i + 1 else i, size, ReadBit(s).1))
  {
    var leaf := root.value.Leaf?;
    var at := if leaf then tree else root.value;
    var emitted := if leaf then [root.value.value] else [];
    var rest := DecodeLoop(tree, Child(at, ReadBit(s).0), if leaf then i + 1 else i, size, ReadBit(s).1);
    assert DecodeLoop(tree, root, i, size, s) == emitted + rest;
    ToBytesAppend(emitted, rest);
  }

  /** The state after one round of `decompress`'s loop, with the bytes
      written so far, still leads to the same output. */
  lemma DecodeAdvance(tree: Tree, root: Option<Tree>, i: nat, size: nat, s: Reader,
                      o0: seq<byte>, o1: seq<byte>, root1: Option<Tree>, i1: nat, s1: Reader)
    requires i < size && root.Some? && !s.eof
    requires var leaf := root.value.Leaf?;
             var at := if leaf then tree else root.value;
             && o1 == o0 + (if leaf then [LowByte(root.value.value)] else [])
             && i1 == (if leaf then i + 1 else i)
             && root1 == Child(at, ReadBit(s).0) && s1 == ReadBit(s).1
    ensures o1 + ToBytes(DecodeLoop(tree, root1, i1, size, s1)) == o0 + ToBytes(DecodeLoop(tree, root, i, size, s))
  {
    DecodeStep(tree, root, i, size, s);
  }

  /** `close` pads the bits written so far to a whole byte. */
  lemma ClosePad(o: seq<int>, p: seq<bool>)
    requires |p| < 8
    ensures PadLength(|BytesBits(o) + p|) == (8 - |p|) % 8
  {
    ModUnique(|BytesBits(o) + p|, 8, |o|, |p|);
  }

  /** Closing a file whose bits so far are `bits` pads them to a whole
      byte. */
  lemma CloseBits(o: seq<int>, p: seq<bool>, bits: seq<bool>, out: seq<int>)
    requires |p| < 8 && BytesBits(o) + p == bits
    requires BytesBits(out) == bits + Zeros((8 - |p|) % 8)
    ensures BytesBits(out) == bits + Zeros(PadLength(|bits|))
  {
    ClosePad(o, p);
  }

  /** The tree `buildtree` makes of the queue `compress` fills: its leaves
      are the distinct input values with their counts. */
  lemma QueueTree(file: seq<int>, q: seq<Tree>, t: Tree)
    requires q != [] && |q| == |Frequencies(file).Keys|
    requires forall j :: 0 <= j < |q| ==> q[j].Leaf? && q[j].value in Frequencies(file) && q[j].freq == Frequencies(file)[q[j].value]
    requires ForestValues(q) == Frequencies(file).Keys
    requires forall v :: Occurrences(q)[v] == if v in Frequencies(file) then Frequencies(file)[v] else 0
    requires Leaves(t) == ForestLeaves(q) && LeafValues(t) == ForestValues(q) && t.freq == SumFreq(q)
    requires |q| == 1 ==> t == q[0]
    requires |q| >= 2 ==> t.Node?
    ensures LeafValues(t) == Frequencies(file).Keys
    ensures t.freq == |file|
    ensures forall x | x in Leaves(t) :: x.Leaf? && x.freq == multiset(file)[x.value]
    ensures t.Node? <==> |Frequencies(file).Keys| >= 2
  {
    QueueOccurrences(file, q);
    OccurrencesSum(q);
    ForestOfLeaves(q);
    LeavesValues(t);
  }

  lemma FileKeys(file: seq<int>)
    requires forall j :: 0 <= j < |file| ==> 0 <= file[j] < 256
    ensures forall v | v in Frequencies(file).Keys :: 0 <= v < 256
  {
  }

  lemma QueueOccurrences(file: seq<int>, q: seq<Tree>)
    requires forall v :: Occurrences(q)[v] == if v in Frequencies(file) then Frequencies(file)[v] else 0
    ensures Occurrences(q) == multiset(file)
  {
    forall v
      ensures Occurrences(q)[v] == multiset(file)[v]
    {
    }
  }
}
