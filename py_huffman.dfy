/** XML_GUI.py: the Huffman coder of `compress` and `decompress`. The tree is
    built by merging the two lightest trees of a heap, the codes are the
    paths to the leaves (`0` left, `1` right), the encoded data is a string
    of `'0'`s and `'1'`s padded up to whole bytes, the padding length is
    written first and stripped again by `decompress`, and the bits are
    decoded by walking the tree from the root. */
module PyHuffman {
  import opened Base
  import Huffman
  import BitPack

  type CharFrequency = Huffman.CharFrequency

  /** `HuffmanNode`: a leaf holds a character of the frequency map; a merged
      node has `char` None and two children. */
  datatype PyTree = Leaf(ch: char, freq: int) | Merge(freq: int, left: PyTree, right: PyTree)

  /** The map entries at the leaves, left to right. */
  function Leaves(t: PyTree): seq<CharFrequency>
  {
    match t
    case Leaf(c, f) => [Huffman.CharFrequency(c, f)]
    case Merge(_, l, r) => Leaves(l) + Leaves(r)
  }

  function LeafChars(t: PyTree): set<char>
  {
    match t
    case Leaf(c, _) => {c}
    case Merge(_, l, r) => LeafChars(l) + LeafChars(r)
  }

  /** `node.freq`. */
  function Weight(t: PyTree): int
  {
    match t
    case Leaf(_, f) => f
    case Merge(f, _, _) => f
  }

  /** The shape `build_huffman_tree` gives: every merged node weighs as
      much as its two children, the first one popped (the lighter) on the
      left. */
  predicate Built(t: PyTree)
  {
    match t
    case Leaf(_, _) => true
    case Merge(f, l, r) => f == Weight(l) + Weight(r) && Weight(l) <= Weight(r) && Built(l) && Built(r)
  }

  lemma {:induction false} LeafCharsOf(t: PyTree)
    ensures forall k :: 0 <= k < |Leaves(t)| ==> Leaves(t)[k].ch in LeafChars(t)
    ensures |Leaves(t)| >= 1 && (t.Merge? ==> |Leaves(t)| >= 2)
  {
    match t
    case Leaf(_, _) =>
    case Merge(_, l, r) =>
      LeafCharsOf(l);
      LeafCharsOf(r);
      var a: seq<CharFrequency>, b: seq<CharFrequency> := Leaves(l), Leaves(r);
      forall k | 0 <= k < |a + b|
        ensures (a + b)[k].ch in LeafChars(t)
      {
        if k < |a| {
          assert (a + b)[k] == a[k];
        } else {
          assert (a + b)[k] == b[k - |a|];
        }
      }
  }

  // ---------------------------------------------------------------------
  // build_huffman_tree

  /** The leaves of the trees of a heap, in heap order. */
  function HeapLeaves(h: seq<PyTree>): seq<CharFrequency>
  {
    if h == [] then [] else HeapLeaves(h[..|h| - 1]) + Leaves(Last(h))
  }

  function HeapWeight(h: seq<PyTree>): int
  {
    if h == [] then 0 else HeapWeight(h[..|h| - 1]) + Weight(Last(h))
  }

  lemma {:induction false} HeapAppend(a: seq<PyTree>, b: seq<PyTree>)
    ensures HeapLeaves(a + b) == HeapLeaves(a) + HeapLeaves(b)
    ensures HeapWeight(a + b) == HeapWeight(a) + HeapWeight(b)
    decreases |b|
  {
    if b == [] {
      assert a + b == a;
    } else {
      var b' := b[..|b| - 1];
      assert (a + b)[..|a + b| - 1] == a + b';
      HeapAppend(a, b');
      ConcatAssoc(HeapLeaves(a), HeapLeaves(b'), Leaves(Last(b)));
    }
  }

  lemma HeapSingle(t: PyTree)
    ensures HeapLeaves([t]) == Leaves(t) && HeapWeight([t]) == Weight(t)
  {
    assert [t][..0] == [];
  }

  /** Taking the tree at `m` out of the heap takes out its leaves and its
      weight. */
  lemma HeapRemove(h: seq<PyTree>, m: nat)
    requires m < |h|
    ensures multiset(HeapLeaves(h)) == multiset(HeapLeaves(h[..m] + h[m + 1..])) + multiset(Leaves(h[m]))
    ensures HeapWeight(h) == HeapWeight(h[..m] + h[m + 1..]) + Weight(h[m])
  {
    SplitAt(h, m);
    HeapAppend(h[..m] + [h[m]], h[m + 1..]);
    HeapAppend(h[..m], [h[m]]);
    HeapAppend(h[..m], h[m + 1..]);
    HeapSingle(h[m]);
  }

  /** `heapq.heappop(heap)`. */
  method HeapPop(heap: seq<PyTree>) returns (t: PyTree, rest: seq<PyTree>)
    requires heap != []
    ensures |rest| == |heap| - 1 && multiset(heap) == multiset(rest) + multiset{t}
    ensures forall x :: x in heap ==> Weight(t) <= Weight(x)
    ensures multiset(HeapLeaves(heap)) == multiset(HeapLeaves(rest)) + multiset(Leaves(t))
    ensures HeapWeight(heap) == HeapWeight(rest) + Weight(t)
  {
    var m := ArgMinBy(heap, Weight);
    t := heap[m];
    rest := heap[..m] + heap[m + 1..];
    HeapRemove(heap, m);
    SplitAt(heap, m);
    assert multiset(heap) == multiset(heap[..m]) + multiset{t} + multiset(heap[m + 1..]);
    forall j | 0 <= j < |rest|
      ensures Weight(t) <= Weight(rest[j]) && rest[j] in heap
    {
      if j < m {
        assert rest[j] == heap[j];
      } else {
        assert rest[j] == heap[j + 1];
      }
    }
  }

  /** `heap'` is `heap` after one round: its last tree is a merged node
      over two trees of `heap` weighing their sum, the left child a
      lightest tree of `heap`, the right child a lightest tree of what is
      left once the left child is popped, and the trees before it are the
      rest of `heap`. */
  predicate LightestMerge(heap: seq<PyTree>, heap': seq<PyTree>)
  {
    heap' != [] && Last(heap').Merge?
    && var n, rest := Last(heap'), heap'[..|heap'| - 1];
    n.freq == Weight(n.left) + Weight(n.right)
    && multiset(heap) == multiset(rest) + multiset{n.left, n.right}
    && (forall x :: x in heap ==> Weight(n.left) <= Weight(x))
    && (forall x :: x in rest ==> Weight(n.right) <= Weight(x))
  }

  /** The rest of a heap and a merged node over a lightest pair popped from
      it make one round. */
  lemma PairMerged(heap: seq<PyTree>, rest: seq<PyTree>, left: PyTree, right: PyTree)
    requires multiset(heap) == multiset(rest) + multiset{left, right}
    requires forall x :: x in heap ==> Weight(left) <= Weight(x)
    requires forall x :: x in rest ==> Weight(right) <= Weight(x)
    ensures LightestMerge(heap, rest + [Merge(Weight(left) + Weight(right), left, right)])
  {
    var h' := rest + [Merge(Weight(left) + Weight(right), left, right)];
    assert Last(h').left == left && Last(h').right == right;
    assert h'[..|h'| - 1] == rest;
  }

  /** A run of heaps, each one round after the one before. */
  predicate GreedyRun(heaps: seq<seq<PyTree>>)
  {
    forall k :: 0 <= k < |heaps| - 1 ==> LightestMerge(heaps[k], heaps[k + 1])
  }

  lemma GreedyRunSnoc(heaps: seq<seq<PyTree>>, h: seq<PyTree>)
    requires heaps != [] && GreedyRun(heaps) && LightestMerge(Last(heaps), h)
    ensures GreedyRun(heaps + [h]) && Last(heaps + [h]) == h
  {
    var hs := heaps + [h];
    forall k | 0 <= k < |hs| - 1
      ensures LightestMerge(hs[k], hs[k + 1])
    {
      if k < |heaps| - 1 {
        assert hs[k] == heaps[k] && hs[k + 1] == heaps[k + 1];
      } else {
        assert hs[k] == Last(heaps) && hs[k + 1] == h;
      }
    }
  }

  /** One round of the `while` loop: the two lightest trees popped and
      pushed back as the children of a merged node. */
  method MergeLightest(heap: seq<PyTree>) returns (heap': seq<PyTree>)
    requires |heap| > 1 && forall x :: x in heap ==> Built(x)
    ensures LightestMerge(heap, heap')
    ensures |heap'| == |heap| - 1 && forall x :: x in heap' ==> Built(x)
    ensures multiset(HeapLeaves(heap')) == multiset(HeapLeaves(heap))
    ensures HeapWeight(heap') == HeapWeight(heap)
  {
    var left, right, rest' := PopTwo(heap);
    var merged := Merge(Weight(left) + Weight(right), left, right);
    heap' := rest' + [merged];
    PairMerged(heap, rest', left, right);
    assert Built(merged);
    PushBuilt(rest', merged);
    MergedHeap(rest', left, right);
  }

  /** The two pops of a round: the lightest tree, then the lightest of the
      rest. */
  method PopTwo(heap: seq<PyTree>) returns (left: PyTree, right: PyTree, rest': seq<PyTree>)
    requires |heap| > 1 && forall x :: x in heap ==> Built(x)
    ensures |rest'| == |heap| - 2 && Built(left) && Built(right) && Weight(left) <= Weight(right)
    ensures multiset(heap) == multiset(rest') + multiset{left, right}
    ensures forall x :: x in heap ==> Weight(left) <= Weight(x)
    ensures forall x :: x in rest' ==> Weight(right) <= Weight(x) && Built(x)
    ensures multiset(HeapLeaves(heap)) == multiset(HeapLeaves(rest')) + multiset(Leaves(left)) + multiset(Leaves(right))
    ensures HeapWeight(heap) == HeapWeight(rest') + Weight(left) + Weight(right)
  {
    var rest;
    left, rest := HeapPop(heap);
    right, rest' := HeapPop(rest);
    TwoPops(heap, rest, rest', left, right);
    Huffman.PopsAdd(multiset(HeapLeaves(heap)), multiset(HeapLeaves(rest)), multiset(HeapLeaves(rest')), multiset(Leaves(left)), multiset(Leaves(right)));
  }

  /** What the two pops of a round leave, from what each pop leaves. */
  lemma TwoPops(heap: seq<PyTree>, rest: seq<PyTree>, rest': seq<PyTree>, left: PyTree, right: PyTree)
    requires forall x :: x in heap ==> Built(x)
    requires multiset(heap) == multiset(rest) + multiset{left} && multiset(rest) == multiset(rest') + multiset{right}
    requires forall x :: x in heap ==> Weight(left) <= Weight(x)
    requires forall x :: x in rest ==> Weight(right) <= Weight(x)
    ensures Built(left) && Built(right) && Weight(left) <= Weight(right)
    ensures multiset(heap) == multiset(rest') + multiset{left, right}
    ensures forall x :: x in rest' ==> Weight(right) <= Weight(x) && Built(x)
  {
    MultisetPlusOne(heap, rest, left);
    MultisetPlusOne(rest, rest', right);
    Huffman.PopsAdd(multiset(heap), multiset(rest), multiset(rest'), multiset{left}, multiset{right});
    assert multiset{left, right} == multiset{left} + multiset{right};
  }

  lemma PushBuilt(h: seq<PyTree>, t: PyTree)
    requires (forall x :: x in h ==> Built(x)) && Built(t)
    ensures forall x :: x in h + [t] ==> Built(x)
  {
  }

  /** Pushing the merged node adds the leaves and the weights of both
      children. */
  lemma MergedHeap(rest: seq<PyTree>, left: PyTree, right: PyTree)
    ensures multiset(HeapLeaves(rest + [Merge(Weight(left) + Weight(right), left, right)]))
      == multiset(HeapLeaves(rest)) + multiset(Leaves(left)) + multiset(Leaves(right))
    ensures HeapWeight(rest + [Merge(Weight(left) + Weight(right), left, right)]) == HeapWeight(rest) + Weight(left) + Weight(right)
  {
    var merged := Merge(Weight(left) + Weight(right), left, right);
    HeapAppend(rest, [merged]);
    HeapSingle(merged);
    assert Leaves(merged) == Leaves(left) + Leaves(right);
    ConcatAssoc(HeapLeaves(rest), Leaves(left), Leaves(right));
  }

  /** `[HuffmanNode(char, freq) for char, freq in freq_map.items()]`: one
      leaf per entry, in the map's order. */
  function InitialHeap(fs: seq<CharFrequency>): (h: seq<PyTree>)
    ensures |h| == |fs| && forall i :: 0 <= i < |fs| ==> h[i] == Leaf(fs[i].ch, fs[i].freq)
  {
    seq(|fs|, i requires 0 <= i < |fs| => Leaf(fs[i].ch, fs[i].freq))
  }

  /** The leaves of the initial heap are the map's entries. */
  lemma {:induction false} InitialHeapLeaves(fs: seq<CharFrequency>)
    ensures HeapLeaves(InitialHeap(fs)) == fs && HeapWeight(InitialHeap(fs)) == Huffman.SumFreq(fs)
    ensures forall x :: x in InitialHeap(fs) ==> Built(x)
    decreases |fs|
  {
    if fs != [] {
      var init := fs[..|fs| - 1];
      InitialHeapLeaves(init);
      InitialHeapSnoc(fs, init);
    }
  }

  /** The initial heap of a longer map: one more leaf at the back. */
  lemma InitialHeapSnoc(fs: seq<CharFrequency>, init: seq<CharFrequency>)
    requires fs != [] && init == fs[..|fs| - 1]
    ensures HeapLeaves(InitialHeap(fs)) == HeapLeaves(InitialHeap(init)) + [Last(fs)]
    ensures HeapWeight(InitialHeap(fs)) == HeapWeight(InitialHeap(init)) + Last(fs).freq
    ensures Huffman.SumFreq(fs) == Huffman.SumFreq(init) + Last(fs).freq
    ensures fs == init + [Last(fs)]
  {
    var h := InitialHeap(fs);
    var t := Leaf(Last(fs).ch, Last(fs).freq);
    assert h[..|h| - 1] == InitialHeap(init);
    assert Last(h) == t;
    assert Leaves(t) == [Last(fs)];
  }

  /** `build_huffman_tree`: the entries of the map merged two lightest at a
      time into a single tree, whose root weighs as much as all the counts
      and whose leaves are exactly the map's entries. An empty map leaves
      an empty heap, and `heap[0]` raises `IndexError`: None. */
  method BuildHuffmanTree(freqMap: seq<CharFrequency>) returns (root: Option<PyTree>, ghost heaps: seq<seq<PyTree>>)
    ensures root.None? <==> freqMap == []
    ensures root.Some? ==> |heaps| == |freqMap| && heaps[0] == InitialHeap(freqMap)
    ensures root.Some? ==> GreedyRun(heaps) && Last(heaps) == [root.value]
    ensures root.Some? ==> Built(root.value)
    ensures root.Some? ==> multiset(Leaves(root.value)) == multiset(freqMap)
    ensures root.Some? ==> Weight(root.value) == Huffman.SumFreq(freqMap)
  {
    var heap := InitialHeap(freqMap);
    InitialHeapLeaves(freqMap);
    heaps := [heap];
    if heap == [] {
      return None, heaps;
    }
    var t;
    t, heaps := MergeAll(heap);
    root := Some(t);
  }

  /** The `while len(heap) > 1` loop: rounds until one tree is left. The
      run of heaps it passes through starts at `heap` and takes one round
      per step. */
  method MergeAll(heap0: seq<PyTree>) returns (t: PyTree, ghost heaps: seq<seq<PyTree>>)
    requires heap0 != [] && forall x :: x in heap0 ==> Built(x)
    ensures |heaps| == |heap0| && heaps[0] == heap0 && GreedyRun(heaps) && Last(heaps) == [t]
    ensures Built(t) && multiset(Leaves(t)) == multiset(HeapLeaves(heap0)) && Weight(t) == HeapWeight(heap0)
  {
    var heap := heap0;
    heaps := [heap];
    while |heap| > 1
      invariant heaps != [] && |heaps| + |heap| == |heap0| + 1 && heaps[0] == heap0
      invariant Last(heaps) == heap && GreedyRun(heaps)
      invariant heap != [] && forall x :: x in heap ==> Built(x)
      invariant multiset(HeapLeaves(heap)) == multiset(HeapLeaves(heap0))
      invariant HeapWeight(heap) == HeapWeight(heap0)
      decreases |heap|
    {
      var next := MergeLightest(heap);
      GreedyRunSnoc(heaps, next);
      heaps, heap := heaps + [next], next;
    }
    assert heap == [heap[0]];
    HeapSingle(heap[0]);
    t := heap[0];
  }

  // ---------------------------------------------------------------------
  // generate_codes

  /** `generate_codes(node, current_code)`: every leaf's character mapped
      to `current_code` followed by its path, `0` left and `1` right. */
  function GenerateCodes(t: PyTree, current: string): (r: map<char, string>)
    ensures forall c :: c in r ==> IsPrefix(current, r[c])
  {
    match t
    case Leaf(c, _) => map[c := current]
    case Merge(_, l, r) => GenerateCodes(l, current + "0") + GenerateCodes(r, current + "1")
  }

  /** The node a path of bits leads to; None once it goes below a leaf. */
  function Walk(t: PyTree, path: string): Option<PyTree>
    decreases |path|
  {
    if path == [] then Some(t)
    else match t
      case Leaf(_, _) => None
      case Merge(_, l, r) => Walk(if path[0] == '1' then r else l, path[1..])
  }

  predicate LeafAt(t: PyTree, path: string, c: char)
  {
    Walk(t, path).Some? && Walk(t, path).value.Leaf? && Walk(t, path).value.ch == c
  }

  /** `code` extends `p` by a path of `0`s and `1`s that leads to a leaf
      holding `c`, and that path is not empty below a merged node. */
  predicate CodeOfLeaf(t: PyTree, p: string, code: string, c: char)
  {
    IsPrefix(p, code) && Huffman.Binary(code[|p|..]) && LeafAt(t, code[|p|..], c) && (t.Merge? ==> |code| > |p|)
  }

  predicate IsPrefix(a: string, b: string)
  {
    |a| <= |b| && b[..|a|] == a
  }

  lemma CodeBelow(t: PyTree, p: string, b: char, code: string, c: char)
    requires t.Merge? && (b == '0' || b == '1')
    requires CodeOfLeaf(if b == '1' then t.right else t.left, p + [b], code, c)
    ensures CodeOfLeaf(t, p, code, c)
  {
    var q := code[|p|..];
    assert code[..|p| + 1] == p + [b];
    assert code[..|p|] == code[..|p| + 1][..|p|];
    assert q == [b] + code[|p| + 1..];
    assert q[1..] == code[|p| + 1..];
  }

  /** Every character `generate_codes` maps is a leaf's character, and its
      code is the path to that leaf. */
  lemma {:induction false} CodesWalk(t: PyTree, p: string)
    ensures GenerateCodes(t, p).Keys == LeafChars(t)
    ensures forall c :: c in GenerateCodes(t, p) ==> CodeOfLeaf(t, p, GenerateCodes(t, p)[c], c)
  {
    match t
    case Leaf(c, _) =>
      assert p[|p|..] == [];
    case Merge(_, l, r) =>
      var gl, gr := GenerateCodes(l, p + "0"), GenerateCodes(r, p + "1");
      CodesWalk(l, p + "0");
      CodesWalk(r, p + "1");
      forall c | c in gl + gr
        ensures CodeOfLeaf(t, p, (gl + gr)[c], c)
      {
        if c in gr {
          CodeBelow(t, p, '1', gr[c], c);
        } else {
          CodeBelow(t, p, '0', gl[c], c);
        }
      }
  }

  lemma {:induction false} WalkAppend(t: PyTree, q: string, r: string)
    ensures Walk(t, q + r) == if Walk(t, q).Some? then Walk(Walk(t, q).value, r) else None
    decreases |q|
  {
    if q == [] {
      assert q + r == r;
    } else if t.Merge? {
      assert (q + r)[0] == q[0] && (q + r)[1..] == q[1..] + r;
      WalkAppend(if q[0] == '1' then t.right else t.left, q[1..], r);
    }
  }

  /** The codes are prefix-free: no character's code starts another's. */
  lemma CodesPrefixFree(t: PyTree)
    ensures forall a, b :: a in GenerateCodes(t, "") && b in GenerateCodes(t, "") && a != b ==>
      !IsPrefix(GenerateCodes(t, "")[a], GenerateCodes(t, "")[b])
  {
    var g := GenerateCodes(t, "");
    CodesWalk(t, "");
    forall a, b | a in g && b in g && a != b
      ensures !IsPrefix(g[a], g[b])
    {
      var qa, qb := g[a], g[b];
      assert qa[0..] == qa && qb[0..] == qb;
      if IsPrefix(qa, qb) {
        var rest := qb[|qa|..];
        assert qb == qa + rest;
        WalkAppend(t, qa, rest);
        assert false;
      }
    }
  }

  // ---------------------------------------------------------------------
  // The bit string of compress

  /** `"".join(code_map[char] for char in data)`; a character without a
      code would raise `KeyError`, which `compress` never meets because its
      codes come from the same data. */
  function Encode(data: string, codes: map<char, string>): (r: string)
    requires forall k :: 0 <= k < |data| ==> data[k] in codes
    ensures (forall k :: 0 <= k < |data| ==> codes[data[k]] == "") ==> r == ""
    ensures (forall k :: 0 <= k < |data| ==> codes[data[k]] != "") ==> |r| >= |data|
    decreases |data|
  {
    if data == [] then "" else codes[data[0]] + Encode(data[1..], codes)
  }

  lemma {:induction false} EncodeBinary(data: string, codes: map<char, string>)
    requires forall k :: 0 <= k < |data| ==> data[k] in codes
    requires forall c :: c in codes ==> Huffman.Binary(codes[c])
    ensures Huffman.Binary(Encode(data, codes))
    decreases |data|
  {
    if data != [] {
      EncodeBinary(data[1..], codes);
      var a, b := codes[data[0]], Encode(data[1..], codes);
      forall k | 0 <= k < |a + b|
        ensures (a + b)[k] == '0' || (a + b)[k] == '1'
      {
        if k < |a| {
          assert (a + b)[k] == a[k];
        } else {
          assert (a + b)[k] == b[k - |a|];
        }
      }
    }
  }

  /** `padding = 8 - (len(encoded_data) % 8)`: always one to eight zeros,
      never none, and the padded length is a whole number of bytes. */
  function Padding(n: nat): (p: nat)
    ensures 1 <= p <= 8 && (n + p) % 8 == 0
  {
    8 - n % 8
  }

  /** `"0" * n`. */
  function ZeroChars(n: nat): (z: string)
    ensures |z| == n && Huffman.Binary(z)
  {
    if n == 0 then "" else ZeroChars(n - 1) + "0"
  }

  /** `int(s, 2)`. */
  function BinValue(s: string): nat
  {
    if s == [] then 0 else 2 * BinValue(s[..|s| - 1]) + (if Last(s) == '1' then 1 else 0)
  }

  lemma {:induction false} BinValueBound(s: string)
    ensures BinValue(s) < BitPack.Pow2(|s|)
    decreases |s|
  {
    if s != [] {
      BinValueBound(s[..|s| - 1]);
    }
  }

  /** A group of at most eight bits fits the byte `to_bytes(1, "big")`
      writes. */
  function GroupByte(s: string): BitPack.Byte
    requires |s| <= 8
  {
    BinValueBound(s);
    BitPack.Pow2Mono(|s|, 8);
    assert BitPack.Pow2(8) == 256;
    BinValue(s)
  }

  /** The bytes `compress` writes after the padding length: the bit string
      cut into groups of eight, the last one possibly shorter. */
  function Packed(bits: string): (r: seq<BitPack.Byte>)
    ensures |r| == (|bits| + 7) / 8
    decreases |bits|
  {
    if bits == [] then []
    else if |bits| <= 8 then [GroupByte(bits)]
    else [GroupByte(bits[..8])] + Packed(bits[8..])
  }

  /** The `for i in range(0, len(encoded_data), 8)` loop of `compress`. */
  method PackBits(encoded: string) returns (bytes: seq<BitPack.Byte>)
    ensures bytes == Packed(encoded)
  {
    bytes := [];
    var i := 0;
    while i < |encoded|
      invariant i <= |encoded| ==> bytes + Packed(encoded[i..]) == Packed(encoded)
      invariant i > |encoded| ==> bytes == Packed(encoded)
      decreases |encoded| - i
    {
      var j := if i + 8 <= |encoded| then i + 8 else |encoded|;
      var group := encoded[i..j];
      var rest := encoded[i..];
      if |rest| <= 8 {
        assert group == rest;
        assert Packed(rest) == [GroupByte(group)];
      } else {
        assert group == rest[..8] && rest[8..] == encoded[j..];
        assert Packed(rest) == [GroupByte(group)] + Packed(encoded[j..]);
      }
      var byte := GroupByte(group);
      ConcatAssoc(bytes, [byte], Packed(encoded[j..]));
      bytes := bytes + [byte];
      i := i + 8;
      if i == |encoded| {
        assert encoded[i..] == [];
      }
    }
    if i == |encoded| {
      assert encoded[i..] == [];
    }
  }

  /** `f"{x:08b}"`-style digits: the lowest `n` bits of `x`, most
      significant first. */
  function Digits(x: nat, n: nat): (r: string)
    ensures |r| == n && Huffman.Binary(r)
  {
    if n == 0 then "" else Digits(x / 2, n - 1) + [if x % 2 == 1 then '1' else '0']
  }

  /** The bit string `decompress` reads back: each byte as eight digits. */
  function Unpacked(bytes: seq<BitPack.Byte>): (r: string)
    ensures |r| == 8 * |bytes|
  {
    if bytes == [] then "" else Digits(bytes[0], 8) + Unpacked(bytes[1..])
  }

  /** The `while byte:` loop of `decompress`. */
  method UnpackBytes(bytes: seq<BitPack.Byte>) returns (encoded: string)
    ensures encoded == Unpacked(bytes)
  {
    encoded := "";
    for i := 0 to |bytes|
      invariant encoded + Unpacked(bytes[i..]) == Unpacked(bytes)
    {
      assert bytes[i..][1..] == bytes[i + 1..];
      ConcatAssoc(encoded, Digits(bytes[i], 8), Unpacked(bytes[i + 1..]));
      encoded := encoded + Digits(bytes[i], 8);
    }
    assert bytes[|bytes|..] == [];
  }

  /** Spelling out the value of a bit string gives it back. */
  lemma {:induction false} DigitsOfValue(s: string)
    requires Huffman.Binary(s)
    ensures Digits(BinValue(s), |s|) == s
    decreases |s|
  {
    if s != [] {
      var init := s[..|s| - 1];
      DigitsOfValue(init);
      var v := BinValue(s);
      assert v / 2 == BinValue(init) && v % 2 == (if Last(s) == '1' then 1 else 0);
      assert init + [Last(s)] == s;
    }
  }

  /** Whole bytes read back as written. */
  lemma {:induction false} UnpackPacked(bits: string)
    requires Huffman.Binary(bits) && |bits| % 8 == 0
    ensures Unpacked(Packed(bits)) == bits
    decreases |bits|
  {
    if bits != [] {
      var group, rest := bits[..8], bits[8..];
      DigitsOfValue(group);
      if |bits| > 8 {
        BitPack.ModEight(|bits|);
        UnpackPacked(rest);
      }
      var p := Packed(bits);
      if |bits| == 8 {
        assert group == bits && rest == [];
      }
      assert p[0] == GroupByte(group);
      assert p[1..] == Packed(rest);
      assert bits == group + rest;
    }
  }

  /** `encoded_data[:-padding]`: Python's slice drops the last `padding`
      characters, and gives the empty string when `padding` is zero or at
      least the length. */
  function DropPadding(s: string, padding: nat): string
  {
    if padding == 0 || padding > |s| then "" else s[..|s| - padding]
  }

  /** What `compress` writes after the frequency map: the padding length,
      then the padded bit string packed into bytes. */
  function Payload(bits: string): (r: seq<BitPack.Byte>)
    ensures 2 <= |r| && 1 <= r[0] <= 8 && |r| == 1 + (|bits| + r[0]) / 8
  {
    var padding := Padding(|bits|);
    [padding] + Packed(bits + ZeroChars(padding))
  }

  /** The bit string `decompress` decodes from those bytes; a missing
      padding byte reads as zero. */
  function ReadPayload(bytes: seq<BitPack.Byte>): (r: string)
    ensures bytes == [] ==> r == ""
    ensures bytes != [] && 1 <= bytes[0] <= 8 * (|bytes| - 1) ==> |r| == 8 * (|bytes| - 1) - bytes[0]
    ensures bytes != [] && (bytes[0] == 0 || bytes[0] > 8 * (|bytes| - 1)) ==> r == ""
  {
    var padding := if bytes == [] then 0 else bytes[0];
    DropPadding(Unpacked(if bytes == [] then [] else bytes[1..]), padding)
  }

  /** The padding is stored and stripped: every bit string comes back
      exactly. */
  lemma PayloadRoundTrip(bits: string)
    requires Huffman.Binary(bits)
    ensures ReadPayload(Payload(bits)) == bits
  {
    var padding := Padding(|bits|);
    var padded := bits + ZeroChars(padding);
    assert Huffman.Binary(padded) by {
      var z := ZeroChars(padding);
      forall k | 0 <= k < |padded|
        ensures padded[k] == '0' || padded[k] == '1'
      {
        if k < |bits| {
          assert padded[k] == bits[k];
        } else {
          assert padded[k] == z[k - |bits|];
        }
      }
    }
    UnpackPacked(padded);
    var bytes := Payload(bits);
    assert bytes[0] == padding && bytes[1..] == Packed(padded);
    assert padded[..|padded| - padding] == bits;
  }

  // ---------------------------------------------------------------------
  // The decoding loop of decompress

  /** The decoding loop from the node `current` on: a `"1"` moves right and
      anything else left; reaching a leaf emits its character and goes back
      to the root. A bit read at a leaf root moves to None, and
      `current.char` raises `AttributeError`: None. */
  function DecodeFrom(root: PyTree, current: PyTree, bits: string): (r: Option<string>)
    ensures r.Some? ==> |r.value| <= |bits|
    decreases |bits|
  {
    if bits == [] then Some("")
    else match current
      case Leaf(_, _) => None
      case Merge(_, l, r) =>
        var next := if bits[0] == '1' then r else l;
        if next.Leaf? then Huffman.Prepend(next.ch, DecodeFrom(root, root, bits[1..]))
        else DecodeFrom(root, next, bits[1..])
  }

  /** The `for bit in encoded_data` loop. */
  method DecodeBits(root: PyTree, encoded: string) returns (r: Option<string>)
    ensures r == DecodeFrom(root, root, encoded)
  {
    var decoded := "";
    var current := root;
    assert encoded[0..] == encoded;
    assert Huffman.Glue(decoded, DecodeFrom(root, root, encoded)) == DecodeFrom(root, root, encoded) by {
      var d := DecodeFrom(root, root, encoded);
      if d.Some? {
        assert "" + d.value == d.value;
      }
    }
    for i := 0 to |encoded|
      invariant Huffman.Glue(decoded, DecodeFrom(root, current, encoded[i..])) == DecodeFrom(root, root, encoded)
    {
      var rest := encoded[i..];
      assert rest[0] == encoded[i] && rest[1..] == encoded[i + 1..];
      if current.Leaf? {
        return None;
      }
      current := if encoded[i] == '1' then current.right else current.left;
      if current.Leaf? {
        Huffman.GluePrepend(decoded, current.ch, DecodeFrom(root, root, encoded[i + 1..]));
        decoded := decoded + [current.ch];
        current := root;
      }
    }
    assert encoded[|encoded|..] == [];
    assert decoded + "" == decoded;
    r := Some(decoded);
  }

  /** Following the path to a leaf emits the leaf's character and goes back
      to the root. */
  lemma {:induction false} WalkDecode(root: PyTree, current: PyTree, q: string, rest: string, c: char)
    requires q != [] && LeafAt(current, q, c)
    ensures DecodeFrom(root, current, q + rest) == Huffman.Prepend(c, DecodeFrom(root, root, rest))
    decreases |q|
  {
    var bits := q + rest;
    assert bits[0] == q[0] && bits[1..] == q[1..] + rest;
    assert current.Merge?;
    var next := if q[0] == '1' then current.right else current.left;
    assert Walk(current, q) == Walk(next, q[1..]);
    if |q| == 1 {
      assert q[1..] == [] && [] + rest == rest;
    } else {
      WalkDecode(root, next, q[1..], rest, c);
    }
  }

  /** With a tree of two leaves or more, decoding inverts encoding. */
  lemma {:induction false} DecodeEncode(t: PyTree, s: string)
    requires t.Merge? && forall k :: 0 <= k < |s| ==> s[k] in LeafChars(t)
    ensures forall k :: 0 <= k < |s| ==> s[k] in GenerateCodes(t, "")
    ensures DecodeFrom(t, t, Encode(s, GenerateCodes(t, ""))) == Some(s)
    decreases |s|
  {
    var codes := GenerateCodes(t, "");
    CodesWalk(t, "");
    if s != [] {
      DecodeEncode(t, s[1..]);
      var code := codes[s[0]];
      assert code[0..] == code;
      DecodeEncodeCons(t, s, codes);
    }
  }

  /** Decoding the first character's code walks to its leaf and goes on with
      the rest. */
  lemma DecodeEncodeCons(t: PyTree, s: string, codes: map<char, string>)
    requires s != [] && forall k :: 0 <= k < |s| ==> s[k] in codes
    requires codes[s[0]] != [] && LeafAt(t, codes[s[0]], s[0])
    requires DecodeFrom(t, t, Encode(s[1..], codes)) == Some(s[1..])
    ensures DecodeFrom(t, t, Encode(s, codes)) == Some(s)
  {
    WalkDecode(t, t, codes[s[0]], Encode(s[1..], codes), s[0]);
    assert [s[0]] + s[1..] == s;
  }

  /** Every character of the text is a leaf of a tree built from its
      frequency map. */
  lemma TextInTree(s: string, t: PyTree)
    requires multiset(Leaves(t)) == multiset(Huffman.Frequencies(s))
    ensures forall k :: 0 <= k < |s| ==> s[k] in LeafChars(t)
  {
    var fs := Huffman.Frequencies(s);
    Huffman.FrequenciesTable(s);
    LeafCharsOf(t);
    forall k | 0 <= k < |s|
      ensures s[k] in LeafChars(t)
    {
      FindSome(s, s[k], 0, k);
      Huffman.CountFind(s, s[k]);
      var j := Huffman.IndexOf(fs, s[k]);
      assert fs[j] in multiset(Leaves(t));
      var i :| 0 <= i < |Leaves(t)| && Leaves(t)[i] == fs[j];
    }
  }

  /** What `decompress` writes for `data`, when `t` is the tree both sides
      build from its frequency map. */
  function Decompressed(data: string, t: PyTree): Option<string>
    requires forall k :: 0 <= k < |data| ==> data[k] in GenerateCodes(t, "")
  {
    DecodeFrom(t, t, ReadPayload(Payload(Encode(data, GenerateCodes(t, "")))))
  }

  /** `decompress` inverts `compress` for every text with two distinct
      characters or more: the padding is stripped, so no padding bit is
      decoded as data. */
  lemma PyRoundTrip(data: string, t: PyTree)
    requires Built(t) && multiset(Leaves(t)) == multiset(Huffman.Frequencies(data))
    requires |Huffman.Frequencies(data)| >= 2
    ensures forall k :: 0 <= k < |data| ==> data[k] in GenerateCodes(t, "")
    ensures Decompressed(data, t) == Some(data)
  {
    assert |Leaves(t)| == |multiset(Leaves(t))| >= 2;
    assert t.Merge?;
    TextInTree(data, t);
    DecodeEncode(t, data);
    var codes := GenerateCodes(t, "");
    CodesWalk(t, "");
    forall c | c in codes
      ensures Huffman.Binary(codes[c])
    {
      assert codes[c][0..] == codes[c];
    }
    EncodeBinary(data, codes);
    PayloadRoundTrip(Encode(data, codes));
  }

  // ---------------------------------------------------------------------
  // A text with a single distinct character is lost

  /** With one distinct character the tree is a lone leaf, its code is
      empty, the bit string is empty, one zero byte is written with padding
      eight, and `decompress` writes an empty text. */
  lemma SingleSymbolLost(data: string, t: PyTree)
    requires data != [] && |Huffman.Frequencies(data)| == 1
    requires Built(t) && multiset(Leaves(t)) == multiset(Huffman.Frequencies(data))
    ensures forall k :: 0 <= k < |data| ==> data[k] in GenerateCodes(t, "")
    ensures Payload(Encode(data, GenerateCodes(t, ""))) == [8, 0]
    ensures Decompressed(data, t) == Some("")
  {
    assert |Leaves(t)| == 1;
    LeafCharsOf(t);
    TextInTree(data, t);
    OneCode(data, t.ch, "");
    EmptyPayload();
  }

  /** The empty bit string is written as padding eight and one zero byte,
      and read back empty. */
  lemma EmptyPayload()
    ensures Payload("") == [8, 0] && ReadPayload([8, 0]) == ""
  {
    var z := ZeroChars(8);
    ValueOfZeros(8);
    DigitsOfZero(8);
    assert "" + z == z;
    assert Packed(z) == [GroupByte(z)];
    assert [8, 0][1..] == [0];
    assert Unpacked([0]) == Digits(0, 8) + Unpacked([]);
  }

  lemma {:induction false} ValueOfZeros(n: nat)
    ensures BinValue(ZeroChars(n)) == 0
  {
    if n > 0 {
      ValueOfZeros(n - 1);
      var z := ZeroChars(n);
      assert z[..n - 1] == ZeroChars(n - 1) && Last(z) == '0';
    }
  }

  lemma {:induction false} DigitsOfZero(n: nat)
    ensures Digits(0, n) == ZeroChars(n)
  {
    if n > 0 {
      DigitsOfZero(n - 1);
    }
  }

  lemma {:induction false} OneCode(s: string, c: char, code: string)
    requires forall k :: 0 <= k < |s| ==> s[k] == c
    ensures Encode(s, map[c := code]) == RepeatStr(code, |s|)
    decreases |s|
  {
    if s != [] {
      OneCode(s[1..], c, code);
    }
  }

  /** `n` copies of `w`. */
  function RepeatStr(w: string, n: nat): (r: string)
    ensures |r| == n * |w|
  {
    if n == 0 then "" else w + RepeatStr(w, n - 1)
  }

  /** Corrected codes: a lone leaf gets the one-bit code `0`. */
  function GenerateCodesFixed(t: PyTree): map<char, string>
  {
    if t.Leaf? then map[t.ch := "0"] else GenerateCodes(t, "")
  }

  /** Corrected decoding: under a lone leaf every bit stands for its
      character. */
  function DecodeFixed(t: PyTree, bits: string): Option<string>
  {
    if t.Leaf? then Some(RepeatStr([t.ch], |bits|)) else DecodeFrom(t, t, bits)
  }

  /** With the corrected codes and decoding, every non-empty text comes
      back, one distinct character or many. */
  lemma FixedPyRoundTrip(data: string, t: PyTree)
    requires data != []
    requires Built(t) && multiset(Leaves(t)) == multiset(Huffman.Frequencies(data))
    ensures forall k :: 0 <= k < |data| ==> data[k] in GenerateCodesFixed(t)
    ensures DecodeFixed(t, ReadPayload(Payload(Encode(data, GenerateCodesFixed(t))))) == Some(data)
  {
    TextInTree(data, t);
    if t.Leaf? {
      OneCode(data, t.ch, "0");
      var bits := RepeatStr("0", |data|);
      ZerosBinary(|data|);
      PayloadRoundTrip(bits);
      RepeatChar(data, t.ch);
    } else {
      assert Leaves(t) != [] by {
        LeafCharsOf(t);
      }
      assert |Huffman.Frequencies(data)| >= 2 by {
        LeafCharsOf(t);
        assert |Leaves(t)| == |multiset(Leaves(t))|;
      }
      PyRoundTrip(data, t);
    }
  }

  lemma {:induction false} ZerosBinary(n: nat)
    ensures Huffman.Binary(RepeatStr("0", n))
  {
    if n > 0 {
      ZerosBinary(n - 1);
      var r := RepeatStr("0", n);
      assert r == "0" + RepeatStr("0", n - 1);
      forall k | 0 <= k < |r|
        ensures r[k] == '0' || r[k] == '1'
      {
        if k > 0 {
          assert r[k] == RepeatStr("0", n - 1)[k - 1];
        }
      }
    }
  }

  lemma {:induction false} RepeatChar(s: string, c: char)
    requires forall k :: 0 <= k < |s| ==> s[k] == c
    ensures RepeatStr([c], |s|) == s
    decreases |s|
  {
    if s != [] {
      RepeatChar(s[1..], c);
      assert s == [s[0]] + s[1..];
    }
  }
}
