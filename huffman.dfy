/** compression.cpp: the Huffman coder. A frequency table is counted in order
    of first occurrence, a tree is built by merging the two lightest trees,
    codes are read off the paths to the leaves (`0` left, `1` right), and the
    bits are decoded by walking the tree from the root. */
module Huffman {
  import opened Base

  datatype CharFrequency = CharFrequency(ch: char, freq: int)
  datatype CharCode = CharCode(ch: char, code: string)

  /** `HuffmanNode*`: `Nil` is the null pointer. A leaf has two null
      children; `buildHuffmanTree` gives merged nodes the character `'\0'`. */
  datatype HuffTree = Nil | Node(ch: char, freq: int, left: HuffTree, right: HuffTree)

  // ---------------------------------------------------------------------
  // The frequency table

  /** The `find_if` of `compress`: the first entry for `c`, or -1. */
  function IndexOf(fs: seq<CharFrequency>, c: char): (k: int)
    ensures -1 <= k < |fs|
    ensures k >= 0 ==> fs[k].ch == c
    decreases |fs|
  {
    if fs == [] then -1
    else if fs[0].ch == c then 0
    else var k := IndexOf(fs[1..], c); if k == -1 then -1 else k + 1
  }

  /** `IndexOf` finds the first entry, and finds one whenever there is one. */
  lemma {:induction false} IndexOfFirst(fs: seq<CharFrequency>, c: char)
    ensures IndexOf(fs, c) >= 0 ==> forall j :: 0 <= j < IndexOf(fs, c) ==> fs[j].ch != c
    ensures IndexOf(fs, c) == -1 ==> forall j :: 0 <= j < |fs| ==> fs[j].ch != c
    decreases |fs|
  {
    if fs != [] && fs[0].ch != c {
      IndexOfFirst(fs[1..], c);
    }
  }

  /** One character counted into the table. */
  function Tally(fs: seq<CharFrequency>, c: char): seq<CharFrequency>
  {
    var k := IndexOf(fs, c);
    if k == -1 then fs + [CharFrequency(c, 1)] else fs[k := fs[k].(freq := fs[k].freq + 1)]
  }

  /** The table `compress` builds from its input: no more entries than
      characters, each for a character of the input with a positive count. */
  function Frequencies(s: string): (r: seq<CharFrequency>)
    ensures |r| <= |s|
    ensures forall j :: 0 <= j < |r| ==> r[j].ch in s && r[j].freq >= 1
  {
    if s == [] then [] else Tally(Frequencies(s[..|s| - 1]), Last(s))
  }

  /** The `find_if` loop over the table. */
  method FindEntry(fs: seq<CharFrequency>, c: char) returns (k: int)
    ensures k == IndexOf(fs, c)
  {
    k := 0;
    while k < |fs|
      invariant 0 <= k <= |fs| && IndexOf(fs, c) == (var r := IndexOf(fs[k..], c); if r == -1 then -1 else r + k)
      decreases |fs| - k
    {
      if fs[k].ch == c {
        return;
      }
      assert fs[k..][1..] == fs[k + 1..];
      k := k + 1;
    }
    k := -1;
  }

  /** The counting loop of `compress`. */
  method CountFrequencies(input: string) returns (frequencies: seq<CharFrequency>)
    ensures frequencies == Frequencies(input)
  {
    frequencies := [];
    for i := 0 to |input|
      invariant frequencies == Frequencies(input[..i])
    {
      assert input[..i + 1][..i] == input[..i];
      var ch := input[i];
      var k := FindEntry(frequencies, ch);
      if k != -1 {
        frequencies := frequencies[k := frequencies[k].(freq := frequencies[k].freq + 1)];
      } else {
        frequencies := frequencies + [CharFrequency(ch, 1)];
      }
    }
    assert input[..|input|] == input;
  }

  function SumFreq(fs: seq<CharFrequency>): int
  {
    if fs == [] then 0 else SumFreq(fs[..|fs| - 1]) + Last(fs).freq
  }

  lemma {:induction false} SumFreqUpdate(fs: seq<CharFrequency>, k: nat, d: int)
    requires k < |fs|
    ensures SumFreq(fs[k := fs[k].(freq := fs[k].freq + d)]) == SumFreq(fs) + d
    decreases |fs|
  {
    var fs' := fs[k := fs[k].(freq := fs[k].freq + d)];
    assert fs'[..|fs'| - 1] == if k == |fs| - 1 then fs[..|fs| - 1] else fs[..|fs| - 1][k := fs[k].(freq := fs[k].freq + d)];
    if k < |fs| - 1 {
      SumFreqUpdate(fs[..|fs| - 1], k, d);
    }
  }

  /** No character has two entries. */
  predicate DistinctChars(fs: seq<CharFrequency>)
  {
    forall a, b :: 0 <= a < b < |fs| ==> fs[a].ch != fs[b].ch
  }

  lemma {:induction false} FindAppend(s: string, c: char, x: char, j: nat)
    requires j <= |s|
    ensures Find(s + [c], x, j) == if Find(s, x, j).Some? then Find(s, x, j) else if x == c then Some(|s|) else None
    decreases |s| - j
  {
    if j < |s| {
      assert (s + [c])[j] == s[j];
      FindAppend(s, c, x, j + 1);
    }
  }

  lemma {:induction false} CountFind(s: string, x: char)
    ensures Count(s, x) > 0 <==> Find(s, x, 0).Some?
    decreases |s|
  {
    if s != [] {
      var s' := s[..|s| - 1];
      assert s' + [Last(s)] == s;
      CountFind(s', x);
      FindAppend(s', Last(s), x, 0);
    }
  }

  /** Each entry holds its character's count. */
  predicate CountsOf(fs: seq<CharFrequency>, s: string)
  {
    forall k :: 0 <= k < |fs| ==> fs[k].freq == Count(s, fs[k].ch)
  }

  /** The characters with an entry are those of the input. */
  predicate MembersOf(fs: seq<CharFrequency>, s: string)
  {
    forall c :: IndexOf(fs, c) >= 0 <==> Count(s, c) > 0
  }

  /** The entries come in order of first occurrence. */
  predicate FirstSeenOrder(fs: seq<CharFrequency>, s: string)
  {
    forall a, b :: 0 <= a < b < |fs| ==> FindPos(s, fs[a].ch, 0) < FindPos(s, fs[b].ch, 0)
  }

  /** What the table says about its input: one entry per distinct
      character, each holding that character's count, the entries in order
      of first occurrence, and the counts adding up to the length. */
  predicate TableOf(fs: seq<CharFrequency>, s: string)
  {
    DistinctChars(fs) && CountsOf(fs, s) && MembersOf(fs, s) && FirstSeenOrder(fs, s) && SumFreq(fs) == |s|
  }

  lemma TallyDistinct(fs: seq<CharFrequency>, c: char)
    requires DistinctChars(fs)
    ensures DistinctChars(Tally(fs, c))
  {
    IndexOfFirst(fs, c);
  }

  lemma TallyCounts(fs: seq<CharFrequency>, s: string, c: char)
    requires DistinctChars(fs) && CountsOf(fs, s) && MembersOf(fs, s)
    ensures CountsOf(Tally(fs, c), s + [c])
  {
    var s2 := s + [c];
    var t := Tally(fs, c);
    assert s2[..|s2| - 1] == s;
    IndexOfFirst(fs, c);
    forall x
      ensures Count(s2, x) == Count(s, x) + (if x == c then 1 else 0)
    {
    }
    if IndexOf(fs, c) == -1 {
      assert Count(s, c) == 0;
      assert t[|fs|] == CharFrequency(c, 1);
    }
  }

  lemma TallyMembers(fs: seq<CharFrequency>, s: string, c: char)
    requires MembersOf(fs, s)
    ensures MembersOf(Tally(fs, c), s + [c])
  {
    var t := Tally(fs, c);
    var s2 := s + [c];
    assert s2[..|s2| - 1] == s;
    forall x
      ensures IndexOf(t, x) >= 0 <==> Count(s2, x) > 0
    {
      IndexOfFirst(fs, x);
      IndexOfFirst(t, x);
      if IndexOf(fs, x) >= 0 {
        assert t[IndexOf(fs, x)].ch == x;
      }
      if x == c && IndexOf(fs, c) == -1 {
        assert t[|fs|].ch == x;
      }
    }
  }

  /** A character with an entry already occurred, so its first occurrence
      does not move. */
  lemma FirstSeenKept(fs: seq<CharFrequency>, s: string, c: char, j: nat)
    requires MembersOf(fs, s) && j < |fs|
    ensures FindPos(s + [c], fs[j].ch, 0) == FindPos(s, fs[j].ch, 0) < |s|
  {
    IndexOfFirst(fs, fs[j].ch);
    assert IndexOf(fs, fs[j].ch) >= 0;
    FindAppend(s, c, fs[j].ch, 0);
    CountFind(s, fs[j].ch);
  }

  lemma TallyOrder(fs: seq<CharFrequency>, s: string, c: char)
    requires MembersOf(fs, s) && FirstSeenOrder(fs, s)
    ensures FirstSeenOrder(Tally(fs, c), s + [c])
  {
    var t := Tally(fs, c);
    forall j | 0 <= j < |fs|
      ensures FindPos(s + [c], t[j].ch, 0) == FindPos(s, t[j].ch, 0) < |s|
    {
      FirstSeenKept(fs, s, c, j);
    }
    if IndexOf(fs, c) == -1 {
      CountFind(s, c);
      FindAppend(s, c, c, 0);
      assert FindPos(s + [c], t[|fs|].ch, 0) == |s|;
    }
  }

  lemma TallySum(fs: seq<CharFrequency>, c: char)
    ensures SumFreq(Tally(fs, c)) == SumFreq(fs) + 1
  {
    var t := Tally(fs, c);
    if IndexOf(fs, c) == -1 {
      assert t[..|t| - 1] == fs;
    } else {
      SumFreqUpdate(fs, IndexOf(fs, c), 1);
    }
  }

  /** `compress` counts a table with the promised properties. */
  lemma {:induction false} FrequenciesTable(s: string)
    ensures TableOf(Frequencies(s), s)
    decreases |s|
  {
    if s != [] {
      var s' := s[..|s| - 1];
      FrequenciesTable(s');
      assert s' + [Last(s)] == s;
      var fs', c := Frequencies(s'), Last(s);
      TallyDistinct(fs', c);
      TallyCounts(fs', s', c);
      TallyMembers(fs', s', c);
      TallyOrder(fs', s', c);
      TallySum(fs', c);
    }
  }

  // ---------------------------------------------------------------------
  // The tree

  function Weight(t: HuffTree): int
  {
    if t.Nil? then 0 else t.freq
  }

  predicate IsLeaf(t: HuffTree)
  {
    t.Node? && t.left.Nil? && t.right.Nil?
  }

  /** The table entries at the leaves, left to right. */
  function Leaves(t: HuffTree): seq<CharFrequency>
  {
    match t
    case Nil => []
    case Node(c, f, l, r) => if l.Nil? && r.Nil? then [CharFrequency(c, f)] else Leaves(l) + Leaves(r)
  }

  /** The shape `buildHuffmanTree` gives: a leaf, or a `'\0'` node over two
      trees of that shape whose weights add up, the lighter on the left. */
  predicate Merged(t: HuffTree)
  {
    match t
    case Nil => false
    case Node(c, f, l, r) =>
      (l.Nil? && r.Nil?)
      || (l.Node? && r.Node? && c == '\0' && f == l.freq + r.freq && l.freq <= r.freq && Merged(l) && Merged(r))
  }

  /** The leaves of the trees of a heap, in heap order. */
  function HeapLeaves(h: seq<HuffTree>): seq<CharFrequency>
  {
    if h == [] then [] else HeapLeaves(h[..|h| - 1]) + Leaves(Last(h))
  }

  function HeapWeight(h: seq<HuffTree>): int
  {
    if h == [] then 0 else HeapWeight(h[..|h| - 1]) + Weight(Last(h))
  }

  lemma {:induction false} HeapAppend(a: seq<HuffTree>, b: seq<HuffTree>)
    ensures HeapLeaves(a + b) == HeapLeaves(a) + HeapLeaves(b)
    ensures HeapWeight(a + b) == HeapWeight(a) + HeapWeight(b)
    decreases |b|
  {
    if b == [] {
      assert a + b == a;
    } else {
      var b' := b[..|b| - 1];
      assert (a + b)[..|a + b| - 1] == a + b';
      HeapAppend(a, b');
      ConcatAssoc(HeapLeaves(a), HeapLeaves(b'), Leaves(Last(b)));
    }
  }

  /** Taking the tree at `m` out of the heap takes out its leaves and its
      weight. */
  lemma HeapRemove(h: seq<HuffTree>, m: nat)
    requires m < |h|
    ensures multiset(HeapLeaves(h)) == multiset(HeapLeaves(h[..m] + h[m + 1..])) + multiset(Leaves(h[m]))
    ensures HeapWeight(h) == HeapWeight(h[..m] + h[m + 1..]) + Weight(h[m])
  {
    SplitAt(h, m);
    HeapAppend(h[..m] + [h[m]], h[m + 1..]);
    HeapAppend(h[..m], [h[m]]);
    HeapAppend(h[..m], h[m + 1..]);
    HeapSingle(h[m]);
  }

  lemma HeapSingle(t: HuffTree)
    ensures HeapLeaves([t]) == Leaves(t) && HeapWeight([t]) == Weight(t)
  {
    assert [t][..0] == [];
  }

  /** `minHeap.top(); minHeap.pop();` */
  method PopMin(heap: seq<HuffTree>) returns (t: HuffTree, rest: seq<HuffTree>)
    requires heap != []
    ensures |rest| == |heap| - 1 && multiset(heap) == multiset(rest) + multiset{t}
    ensures forall x :: x in heap ==> Weight(t) <= Weight(x)
    ensures multiset(HeapLeaves(heap)) == multiset(HeapLeaves(rest)) + multiset(Leaves(t))
    ensures HeapWeight(heap) == HeapWeight(rest) + Weight(t)
  {
    var m := ArgMinBy(heap, Weight);
    t := heap[m];
    rest := heap[..m] + heap[m + 1..];
    HeapRemove(heap, m);
    SplitAt(heap, m);
    assert multiset(heap) == multiset(heap[..m]) + multiset{t} + multiset(heap[m + 1..]);
    forall j | 0 <= j < |rest|
      ensures Weight(t) <= Weight(rest[j]) && rest[j] in heap
    {
      if j < m {
        assert rest[j] == heap[j];
      } else {
        assert rest[j] == heap[j + 1];
      }
    }
  }

  /** `heap'` is `heap` after one lightest-pair merge: its last tree is a
      new `'\0'` node over two trees of `heap` weighing their sum, the left
      child a lightest tree of `heap`, the right child a lightest tree of
      what is left once the left child is taken out, and the trees before it
      are the rest of `heap`. */
  predicate LightestMerge(heap: seq<HuffTree>, heap': seq<HuffTree>)
  {
    heap' != [] && Last(heap').Node?
    && var n, rest := Last(heap'), heap'[..|heap'| - 1];
    n == Node('\0', Weight(n.left) + Weight(n.right), n.left, n.right)
    && multiset(heap) == multiset(rest) + multiset{n.left, n.right}
    && (forall x :: x in heap ==> Weight(n.left) <= Weight(x))
    && (forall x :: x in rest ==> Weight(n.right) <= Weight(x))
  }

  /** The rest of a heap and a new node over a lightest pair taken from it
      make one lightest-pair merge. */
  lemma PairMerged(heap: seq<HuffTree>, rest: seq<HuffTree>, left: HuffTree, right: HuffTree)
    requires multiset(heap) == multiset(rest) + multiset{left, right}
    requires forall x :: x in heap ==> Weight(left) <= Weight(x)
    requires forall x :: x in rest ==> Weight(right) <= Weight(x)
    ensures LightestMerge(heap, rest + [Node('\0', Weight(left) + Weight(right), left, right)])
  {
    var h' := rest + [Node('\0', Weight(left) + Weight(right), left, right)];
    assert Last(h').left == left && Last(h').right == right;
    assert h'[..|h'| - 1] == rest;
  }

  /** A run of heaps, each one lightest-pair merge after the one before. */
  predicate GreedyRun(heaps: seq<seq<HuffTree>>)
  {
    forall k :: 0 <= k < |heaps| - 1 ==> LightestMerge(heaps[k], heaps[k + 1])
  }

  lemma GreedyRunSnoc(heaps: seq<seq<HuffTree>>, h: seq<HuffTree>)
    requires heaps != [] && GreedyRun(heaps) && LightestMerge(Last(heaps), h)
    ensures GreedyRun(heaps + [h]) && Last(heaps + [h]) == h
  {
    var hs := heaps + [h];
    forall k | 0 <= k < |hs| - 1
      ensures LightestMerge(hs[k], hs[k + 1])
    {
      if k < |heaps| - 1 {
        assert hs[k] == heaps[k] && hs[k + 1] == heaps[k + 1];
      } else {
        assert hs[k] == Last(heaps) && hs[k + 1] == h;
      }
    }
  }

  /** One round of the `while` loop: the two lightest trees taken out and
      put back as the children of a new node. */
  method MergeLightest(heap: seq<HuffTree>) returns (heap': seq<HuffTree>)
    requires |heap| > 1 && forall x :: x in heap ==> Merged(x)
    ensures LightestMerge(heap, heap')
    ensures |heap'| == |heap| - 1 && forall x :: x in heap' ==> Merged(x)
    ensures multiset(HeapLeaves(heap')) == multiset(HeapLeaves(heap))
    ensures HeapWeight(heap') == HeapWeight(heap)
  {
    var left, right, rest' := PopTwo(heap);
    var newNode := Node('\0', Weight(left) + Weight(right), left, right);
    heap' := rest' + [newNode];
    PairMerged(heap, rest', left, right);
    assert Merged(newNode);
    PushMerged(rest', newNode);
    NewNodeHeap(rest', left, right);
  }

  /** The two pops of a round: the lightest tree, then the lightest of the
      rest. */
  method PopTwo(heap: seq<HuffTree>) returns (left: HuffTree, right: HuffTree, rest': seq<HuffTree>)
    requires |heap| > 1 && forall x :: x in heap ==> Merged(x)
    ensures |rest'| == |heap| - 2 && Merged(left) && Merged(right) && Weight(left) <= Weight(right)
    ensures multiset(heap) == multiset(rest') + multiset{left, right}
    ensures forall x :: x in heap ==> Weight(left) <= Weight(x)
    ensures forall x :: x in rest' ==> Weight(right) <= Weight(x) && Merged(x)
    ensures multiset(HeapLeaves(heap)) == multiset(HeapLeaves(rest')) + multiset(Leaves(left)) + multiset(Leaves(right))
    ensures HeapWeight(heap) == HeapWeight(rest') + Weight(left) + Weight(right)
  {
    var rest;
    left, rest := PopMin(heap);
    right, rest' := PopMin(rest);
    TwoPops(heap, rest, rest', left, right);
    PopsAdd(multiset(HeapLeaves(heap)), multiset(HeapLeaves(rest)), multiset(HeapLeaves(rest')), multiset(Leaves(left)), multiset(Leaves(right)));
  }

  /** What the two pops of a round leave, from what each pop leaves. */
  lemma TwoPops(heap: seq<HuffTree>, rest: seq<HuffTree>, rest': seq<HuffTree>, left: HuffTree, right: HuffTree)
    requires forall x :: x in heap ==> Merged(x)
    requires multiset(heap) == multiset(rest) + multiset{left} && multiset(rest) == multiset(rest') + multiset{right}
    requires forall x :: x in heap ==> Weight(left) <= Weight(x)
    requires forall x :: x in rest ==> Weight(right) <= Weight(x)
    ensures Merged(left) && Merged(right) && Weight(left) <= Weight(right)
    ensures multiset(heap) == multiset(rest') + multiset{left, right}
    ensures forall x :: x in rest' ==> Weight(right) <= Weight(x) && Merged(x)
  {
    MultisetPlusOne(heap, rest, left);
    MultisetPlusOne(rest, rest', right);
    PopsAdd(multiset(heap), multiset(rest), multiset(rest'), multiset{left}, multiset{right});
    assert multiset{left, right} == multiset{left} + multiset{right};
  }

  lemma PopsAdd<T>(a: multiset<T>, b: multiset<T>, c: multiset<T>, l: multiset<T>, r: multiset<T>)
    requires a == b + l && b == c + r
    ensures a == c + l + r
  {
  }

  lemma PushMerged(h: seq<HuffTree>, t: HuffTree)
    requires (forall x :: x in h ==> Merged(x)) && Merged(t)
    ensures forall x :: x in h + [t] ==> Merged(x)
  {
  }

  /** Pushing the new node adds the leaves and the weights of both
      children. */
  lemma NewNodeHeap(rest: seq<HuffTree>, left: HuffTree, right: HuffTree)
    requires left.Node? && right.Node?
    ensures multiset(HeapLeaves(rest + [Node('\0', Weight(left) + Weight(right), left, right)]))
      == multiset(HeapLeaves(rest)) + multiset(Leaves(left)) + multiset(Leaves(right))
    ensures HeapWeight(rest + [Node('\0', Weight(left) + Weight(right), left, right)]) == HeapWeight(rest) + Weight(left) + Weight(right)
  {
    var newNode := Node('\0', Weight(left) + Weight(right), left, right);
    HeapAppend(rest, [newNode]);
    HeapSingle(newNode);
    assert Leaves(newNode) == Leaves(left) + Leaves(right);
    ConcatAssoc(HeapLeaves(rest), Leaves(left), Leaves(right));
  }

  /** `buildHuffmanTree`: the table's leaves merged two lightest at a
      time into a single tree. Its root weighs as much as all the counts, and its
      leaves are exactly the table's entries. */
  method BuildHuffmanTree(frequencies: seq<CharFrequency>) returns (root: HuffTree, ghost heaps: seq<seq<HuffTree>>)
    requires frequencies != []
    ensures |heaps| == |frequencies| && |heaps[0]| == |frequencies|
    ensures forall j :: 0 <= j < |frequencies| ==> heaps[0][j] == Node(frequencies[j].ch, frequencies[j].freq, Nil, Nil)
    ensures GreedyRun(heaps) && Last(heaps) == [root]
    ensures Merged(root)
    ensures multiset(Leaves(root)) == multiset(frequencies)
    ensures Weight(root) == SumFreq(frequencies)
  {
    var minHeap := PushLeaves(frequencies);
    root, heaps := MergeAll(minHeap);
  }

  /** The `for` loop: one leaf pushed per table entry, in order. */
  method PushLeaves(frequencies: seq<CharFrequency>) returns (minHeap: seq<HuffTree>)
    ensures |minHeap| == |frequencies| && forall x :: x in minHeap ==> Merged(x)
    ensures forall j :: 0 <= j < |frequencies| ==> minHeap[j] == Node(frequencies[j].ch, frequencies[j].freq, Nil, Nil)
    ensures HeapLeaves(minHeap) == frequencies && HeapWeight(minHeap) == SumFreq(frequencies)
  {
    minHeap := [];
    for i := 0 to |frequencies|
      invariant |minHeap| == i && (forall j :: 0 <= j < i ==> Merged(minHeap[j]))
      invariant forall j :: 0 <= j < i ==> minHeap[j] == Node(frequencies[j].ch, frequencies[j].freq, Nil, Nil)
      invariant HeapLeaves(minHeap) == frequencies[..i] && HeapWeight(minHeap) == SumFreq(frequencies[..i])
    {
      var cf := frequencies[i];
      var leaf := Node(cf.ch, cf.freq, Nil, Nil);
      PushLeaf(minHeap, frequencies, i);
      minHeap := minHeap + [leaf];
    }
    assert frequencies[..|frequencies|] == frequencies;
  }

  /** Pushing the leaf of the next entry adds that entry and its count. */
  lemma PushLeaf(h: seq<HuffTree>, fs: seq<CharFrequency>, i: nat)
    requires i < |fs| && HeapLeaves(h) == fs[..i] && HeapWeight(h) == SumFreq(fs[..i])
    ensures HeapLeaves(h + [Node(fs[i].ch, fs[i].freq, Nil, Nil)]) == fs[..i + 1]
    ensures HeapWeight(h + [Node(fs[i].ch, fs[i].freq, Nil, Nil)]) == SumFreq(fs[..i + 1])
  {
    var h' := h + [Node(fs[i].ch, fs[i].freq, Nil, Nil)];
    assert h'[..|h'| - 1] == h;
    assert fs[..i + 1][..i] == fs[..i];
    assert Leaves(Last(h')) == [fs[i]];
  }

  /** The `while` loop: rounds until one tree is left. The run of heaps it
      passes through starts at `heap0` and takes one lightest-pair merge
      per step. */
  method MergeAll(heap0: seq<HuffTree>) returns (root: HuffTree, ghost heaps: seq<seq<HuffTree>>)
    requires heap0 != [] && forall x :: x in heap0 ==> Merged(x)
    ensures |heaps| == |heap0| && heaps[0] == heap0 && GreedyRun(heaps) && Last(heaps) == [root]
    ensures Merged(root) && multiset(Leaves(root)) == multiset(HeapLeaves(heap0)) && Weight(root) == HeapWeight(heap0)
  {
    var minHeap := heap0;
    heaps := [minHeap];
    while |minHeap| > 1
      invariant heaps != [] && |heaps| + |minHeap| == |heap0| + 1 && heaps[0] == heap0
      invariant Last(heaps) == minHeap && GreedyRun(heaps)
      invariant minHeap != [] && forall x :: x in minHeap ==> Merged(x)
      invariant multiset(HeapLeaves(minHeap)) == multiset(HeapLeaves(heap0))
      invariant HeapWeight(minHeap) == HeapWeight(heap0)
      decreases |minHeap|
    {
      var next := MergeLightest(minHeap);
      GreedyRunSnoc(heaps, next);
      heaps, minHeap := heaps + [next], next;
    }
    root := minHeap[0];
    assert minHeap == [root];
    HeapSingle(root);
  }

  /** A merged tree with two leaves or more is not a leaf. */
  lemma MergedLeafCount(t: HuffTree)
    requires Merged(t)
    ensures IsLeaf(t) <==> |Leaves(t)| == 1
    ensures !IsLeaf(t) ==> |Leaves(t)| >= 2
  {
    if !IsLeaf(t) {
      MergedLeavesNonEmpty(t.left);
      MergedLeavesNonEmpty(t.right);
    }
  }

  lemma MergedLeavesNonEmpty(t: HuffTree)
    requires Merged(t)
    ensures |Leaves(t)| >= 1
  {
  }

  /** A merged tree whose leaves carry no `'\0'`, so that `decode` can tell
      leaves from merged nodes. */
  predicate Shaped(t: HuffTree)
  {
    Merged(t) && forall k :: 0 <= k < |Leaves(t)| ==> Leaves(t)[k].ch != '\0'
  }

  lemma ShapedChildren(t: HuffTree)
    requires Shaped(t) && !IsLeaf(t)
    ensures Shaped(t.left) && Shaped(t.right) && t.ch == '\0'
  {
    var l, r := Leaves(t.left), Leaves(t.right);
    assert Leaves(t) == l + r;
    forall k | 0 <= k < |l|
      ensures l[k].ch != '\0'
    {
      assert l[k] == Leaves(t)[k];
    }
    forall k | 0 <= k < |r|
      ensures r[k].ch != '\0'
    {
      assert r[k] == Leaves(t)[|l| + k];
    }
  }

  // ---------------------------------------------------------------------
  // Codes

  /** `generateCodes`: a code for every node whose character is not `'\0'`,
      the path to it appended to `prefix`, in pre-order. */
  function Codes(t: HuffTree, prefix: string): (r: seq<CharCode>)
    ensures forall k :: 0 <= k < |r| ==> r[k].ch != '\0' && IsPrefix(prefix, r[k].code)
  {
    match t
    case Nil => []
    case Node(c, _, l, r) => (if c != '\0' then [CharCode(c, prefix)] else []) + Codes(l, prefix + "0") + Codes(r, prefix + "1")
  }

  /** The node a path of `0`s and `1`s leads to. */
  function Reach(t: HuffTree, path: string): HuffTree
  {
    if t.Nil? || path == [] then t
    else Reach(if path[0] == '1' then t.right else t.left, path[1..])
  }

  predicate Binary(s: string)
  {
    forall k :: 0 <= k < |s| ==> s[k] == '0' || s[k] == '1'
  }

  predicate IsPrefix(a: string, b: string)
  {
    |a| <= |b| && b[..|a|] == a
  }

  /** `e`'s code extends `p` by a path of `0`s and `1`s that leads to a
      leaf of `t` holding `e`'s character. */
  predicate LeadsTo(t: HuffTree, p: string, e: CharCode)
  {
    IsPrefix(p, e.code) && Binary(e.code[|p|..]) && IsLeaf(Reach(t, e.code[|p|..])) && Reach(t, e.code[|p|..]).ch == e.ch
  }

  /** Every code of a shaped tree extends the prefix by a path of `0`s and
      `1`s that leads to a leaf holding the code's character; below a merged
      node the path is not empty and starts with the side it goes to. */
  lemma {:induction false} CodesReach(t: HuffTree, p: string)
    requires Shaped(t)
    ensures forall k :: 0 <= k < |Codes(t, p)| ==> LeadsTo(t, p, Codes(t, p)[k])
    ensures !IsLeaf(t) ==> forall k :: 0 <= k < |Codes(t, p)| ==> |Codes(t, p)[k].code| > |p|
    decreases t
  {
    if IsLeaf(t) {
      assert Codes(t, p) == [CharCode(t.ch, p)] by {
        assert Leaves(t)[0].ch == t.ch;
      }
      assert p[|p|..] == [];
    } else {
      ShapedChildren(t);
      var p0, p1 := p + "0", p + "1";
      CodesReach(t.left, p0);
      CodesReach(t.right, p1);
      var cl: seq<CharCode>, cr: seq<CharCode> := Codes(t.left, p0), Codes(t.right, p1);
      assert Codes(t, p) == cl + cr;
      forall k | 0 <= k < |cl| + |cr|
        ensures LeadsTo(t, p, (cl + cr)[k]) && |(cl + cr)[k].code| > |p|
      {
        var e: CharCode := (cl + cr)[k];
        var q := if k < |cl| then p0 else p1;
        assert IsPrefix(q, e.code);
        assert e.code[..|p|] == q[..|p|] == p;
        var path := e.code[|p|..];
        assert path[0] == q[|p|] && path[1..] == e.code[|q|..];
        assert Reach(t, path) == Reach(if k < |cl| then t.left else t.right, e.code[|q|..]);
      }
    }
  }

  /** No code is a prefix of another: the codes of a shaped tree can be
      read back one after the other. */
  lemma {:induction false} CodesPrefixFree(t: HuffTree, p: string)
    requires Shaped(t)
    ensures forall a, b :: 0 <= a < |Codes(t, p)| && 0 <= b < |Codes(t, p)| && a != b ==> !IsPrefix(Codes(t, p)[a].code, Codes(t, p)[b].code)
    decreases t
  {
    if !IsLeaf(t) {
      ShapedChildren(t);
      var p0, p1 := p + "0", p + "1";
      CodesPrefixFree(t.left, p0);
      CodesPrefixFree(t.right, p1);
      CodesReach(t.left, p0);
      CodesReach(t.right, p1);
      var cl: seq<CharCode>, cr: seq<CharCode> := Codes(t.left, p0), Codes(t.right, p1);
      assert Codes(t, p) == cl + cr;
      forall a, b | 0 <= a < |cl| + |cr| && 0 <= b < |cl| + |cr| && a != b
        ensures !IsPrefix((cl + cr)[a].code, (cl + cr)[b].code)
      {
        var x, y := (cl + cr)[a].code, (cl + cr)[b].code;
        if (a < |cl|) != (b < |cl|) {
          var qx := if a < |cl| then p0 else p1;
          var qy := if b < |cl| then p0 else p1;
          assert IsPrefix(qx, x) && IsPrefix(qy, y);
          assert x[|p|] == qx[|p|] != qy[|p|] == y[|p|];
        } else if a < |cl| {
          assert x == cl[a].code && y == cl[b].code;
        } else {
          assert x == cr[a - |cl|].code && y == cr[b - |cl|].code;
        }
      }
    } else {
      assert Codes(t, p) == [CharCode(t.ch, p)] by {
        assert Leaves(t)[0].ch == t.ch;
      }
    }
  }

  // ---------------------------------------------------------------------
  // Encoding

  /** The code of the first entry for `c`, as the inner loop of `encode`
      finds it, or none. */
  function CodeOf(codes: seq<CharCode>, c: char): Option<string>
  {
    if codes == [] then None
    else if codes[0].ch == c then Some(codes[0].code)
    else CodeOf(codes[1..], c)
  }

  /** A code as bits: `bit == '1'`. */
  function Bits(code: string): (b: seq<bool>)
    ensures |b| == |code| && forall k :: 0 <= k < |code| ==> b[k] == (code[k] == '1')
  {
    seq(|code|, k requires 0 <= k < |code| => code[k] == '1')
  }

  /** The bits `encode` appends for one character: none for a character
      without a code. */
  function CharBits(codes: seq<CharCode>, c: char): seq<bool>
  {
    match CodeOf(codes, c)
    case None => []
    case Some(code) => Bits(code)
  }

  /** `encode`'s bits: none for a text whose characters have no code or
      the empty code, and at least one per character when every character
      has a code that is not empty. */
  function Encode(s: string, codes: seq<CharCode>): (r: seq<bool>)
    ensures (forall k :: 0 <= k < |s| ==> CodeOf(codes, s[k]) == None || CodeOf(codes, s[k]) == Some("")) ==> r == []
    ensures (forall k :: 0 <= k < |s| ==> CodeOf(codes, s[k]).Some? && CodeOf(codes, s[k]).value != "") ==> |r| >= |s|
  {
    if s == [] then [] else CharBits(codes, s[0]) + Encode(s[1..], codes)
  }

  /** The characters of `s` that have a code, which are those that survive
      a round trip. */
  function Coded(s: string, codes: seq<CharCode>): (r: string)
    ensures |r| <= |s|
  {
    if s == [] then [] else (if CodeOf(codes, s[0]).Some? then [s[0]] else []) + Coded(s[1..], codes)
  }

  /** One character of `encode`: the search through the codes, then the
      bits of the first match. */
  method AppendCode(result: seq<bool>, codes: seq<CharCode>, ch: char) returns (r: seq<bool>)
    ensures r == result + CharBits(codes, ch)
  {
    r := result;
    var j := 0;
    while j < |codes|
      invariant 0 <= j <= |codes| && CodeOf(codes, ch) == CodeOf(codes[j..], ch)
      decreases |codes| - j
    {
      if codes[j].ch == ch {
        var code := codes[j].code;
        for k := 0 to |code|
          invariant r == result + Bits(code[..k])
        {
          assert Bits(code[..k + 1]) == Bits(code[..k]) + [code[k] == '1'];
          r := r + [code[k] == '1'];
        }
        assert code[..|code|] == code;
        return;
      }
      assert codes[j..][1..] == codes[j + 1..];
      j := j + 1;
    }
  }

  /** `encode`. */
  method EncodeData(input: string, codes: seq<CharCode>) returns (result: seq<bool>)
    ensures result == Encode(input, codes)
  {
    result := [];
    for i := 0 to |input|
      invariant Encode(input, codes) == result + Encode(input[i..], codes)
    {
      assert input[i..][1..] == input[i + 1..];
      ConcatAssoc(result, CharBits(codes, input[i]), Encode(input[i + 1..], codes));
      result := AppendCode(result, codes, input[i]);
    }
    assert input[|input|..] == [] && result + [] == result;
  }

  // ---------------------------------------------------------------------
  // Decoding

  function Prepend(c: char, r: Option<string>): Option<string>
  {
    match r
    case None => None
    case Some(s) => Some([c] + s)
  }

  /** `decode` from the node `cur` on: each bit moves to a child; reaching a
      node whose character is not `'\0'` emits it and goes back to the
      root. Stepping to or from a null pointer, which the C++ code
      dereferences, gives `None`. */
  function DecodeFrom(root: HuffTree, cur: HuffTree, bits: seq<bool>): (r: Option<string>)
    ensures r.Some? ==> |r.value| <= |bits| && forall k :: 0 <= k < |r.value| ==> r.value[k] != '\0'
    decreases |bits|
  {
    if bits == [] then Some("")
    else if cur.Nil? then None
    else
      var next := if bits[0] then cur.right else cur.left;
      if next.Nil? then None
      else if next.ch != '\0' then Prepend(next.ch, DecodeFrom(root, root, bits[1..]))
      else DecodeFrom(root, next, bits[1..])
  }

  /** `decode`: `None` where the C++ loop dereferences a null pointer. */
  method DecodeData(input: seq<bool>, root: HuffTree) returns (r: Option<string>)
    ensures r == DecodeFrom(root, root, input)
  {
    var result := "";
    var current := root;
    assert input[0..] == input;
    assert Glue("", DecodeFrom(root, root, input)) == DecodeFrom(root, root, input) by {
      if DecodeFrom(root, root, input).Some? {
        assert "" + DecodeFrom(root, root, input).value == DecodeFrom(root, root, input).value;
      }
    }
    for i := 0 to |input|
      invariant DecodeFrom(root, root, input) == Glue(result, DecodeFrom(root, current, input[i..]))
    {
      assert input[i..][1..] == input[i + 1..];
      if current.Nil? {
        assert DecodeFrom(root, current, input[i..]) == None;
        return None;
      }
      current := if input[i] then current.right else current.left;
      if current.Nil? {
        return None;
      }
      if current.ch != '\0' {
        GluePrepend(result, current.ch, DecodeFrom(root, root, input[i + 1..]));
        result := result + [current.ch];
        current := root;
      }
    }
    assert input[|input|..] == [] && result + "" == result;
    r := Some(result);
  }

  function Glue(pre: string, r: Option<string>): Option<string>
  {
    match r
    case None => None
    case Some(s) => Some(pre + s)
  }

  lemma GluePrepend(pre: string, c: char, r: Option<string>)
    ensures Glue(pre, Prepend(c, r)) == Glue(pre + [c], r)
  {
    if r.Some? {
      ConcatAssoc(pre, [c], r.value);
    }
  }

  /** From a leaf, every step leads to the null pointer. */
  lemma ReachFromLeaf(t: HuffTree, q: string)
    requires IsLeaf(t)
    ensures IsLeaf(Reach(t, q)) ==> q == []
  {
    if q != [] {
      assert Reach(t, q) == Reach(Nil, q[1..]) == Nil;
    }
  }

  /** The bits of a path to a leaf, read from a merged node `u`, emit the
      leaf's character and return to the root. */
  lemma {:induction false} WalkToLeaf(root: HuffTree, u: HuffTree, q: string, rest: seq<bool>)
    requires Shaped(u) && !IsLeaf(u) && Binary(q) && IsLeaf(Reach(u, q))
    ensures DecodeFrom(root, u, Bits(q) + rest) == Prepend(Reach(u, q).ch, DecodeFrom(root, root, rest))
    decreases |q|
  {
    ShapedChildren(u);
    assert q != [];
    var bits := Bits(q) + rest;
    assert bits[0] == (q[0] == '1') && bits[1..] == Bits(q[1..]) + rest;
    var next := if q[0] == '1' then u.right else u.left;
    assert Reach(u, q) == Reach(next, q[1..]);
    if IsLeaf(next) {
      ReachFromLeaf(next, q[1..]);
      assert q[1..] == [] && bits[1..] == rest;
      assert Leaves(next)[0].ch == next.ch;
    } else {
      WalkToLeaf(root, next, q[1..], rest);
    }
  }

  /** Decoding the encoding of `s` gives back the characters of `s` that
      have a code, for a shaped tree with two leaves or more. */
  lemma {:induction false} DecodeEncode(t: HuffTree, s: string)
    requires Shaped(t) && !IsLeaf(t)
    ensures DecodeFrom(t, t, Encode(s, Codes(t, ""))) == Some(Coded(s, Codes(t, "")))
    decreases |s|
  {
    var codes := Codes(t, "");
    if s != [] {
      DecodeEncode(t, s[1..]);
      var c := s[0];
      match CodeOf(codes, c)
      case None =>
        assert Encode(s, codes) == Encode(s[1..], codes);
        assert Coded(s, codes) == Coded(s[1..], codes);
      case Some(code) =>
        var k := CodeOfEntry(codes, c);
        CodesReach(t, "");
        assert LeadsTo(t, "", codes[k]) && code[0..] == code;
        WalkToLeaf(t, t, code, Encode(s[1..], codes));
    }
  }

  /** `CodeOf` reads the code of an entry of the list. */
  lemma {:induction false} CodeOfEntry(codes: seq<CharCode>, c: char) returns (k: nat)
    requires CodeOf(codes, c).Some?
    ensures k < |codes| && codes[k] == CharCode(c, CodeOf(codes, c).value)
    decreases |codes|
  {
    if codes[0].ch == c {
      k := 0;
    } else {
      var j := CodeOfEntry(codes[1..], c);
      k := j + 1;
    }
  }

  lemma {:induction false} CodeOfAppend(a: seq<CharCode>, b: seq<CharCode>, c: char)
    ensures CodeOf(a + b, c) == if CodeOf(a, c).Some? then CodeOf(a, c) else CodeOf(b, c)
    decreases |a|
  {
    if a == [] {
      assert a + b == b;
    } else {
      assert (a + b)[0] == a[0] && (a + b)[1..] == a[1..] + b;
      CodeOfAppend(a[1..], b, c);
    }
  }

  /** Every leaf of a shaped tree gets a code. */
  lemma {:induction false} LeafHasCode(t: HuffTree, p: string, e: CharFrequency)
    requires Shaped(t) && e in Leaves(t)
    ensures CodeOf(Codes(t, p), e.ch).Some?
    decreases t
  {
    if IsLeaf(t) {
      assert Leaves(t)[0].ch == t.ch;
      assert Codes(t, p) == [CharCode(t.ch, p)];
    } else {
      ShapedChildren(t);
      var cl, cr := Codes(t.left, p + "0"), Codes(t.right, p + "1");
      assert Codes(t, p) == cl + cr;
      CodeOfAppend(cl, cr, e.ch);
      if e in Leaves(t.left) {
        LeafHasCode(t.left, p + "0", e);
      } else {
        LeafHasCode(t.right, p + "1", e);
      }
    }
  }

  lemma {:induction false} CodedAll(s: string, codes: seq<CharCode>)
    requires forall k :: 0 <= k < |s| ==> CodeOf(codes, s[k]).Some?
    ensures Coded(s, codes) == s
    decreases |s|
  {
    if s != [] {
      assert forall k :: 0 <= k < |s[1..]| ==> s[1..][k] == s[k + 1];
      CodedAll(s[1..], codes);
    }
  }

  /** The tree `buildHuffmanTree` makes from the table of `s`, when `s` holds
      no `'\0'` and two distinct characters or more, is shaped and has a code
      for every character of `s`. */
  lemma BuiltTreeCodesAll(s: string, t: HuffTree)
    requires Merged(t) && multiset(Leaves(t)) == multiset(Frequencies(s))
    requires forall k :: 0 <= k < |s| ==> s[k] != '\0'
    ensures Shaped(t)
    ensures forall k :: 0 <= k < |s| ==> CodeOf(Codes(t, ""), s[k]).Some?
  {
    var fs := Frequencies(s);
    FrequenciesTable(s);
    forall k | 0 <= k < |Leaves(t)|
      ensures Leaves(t)[k].ch != '\0'
    {
      var e := Leaves(t)[k];
      assert e in multiset(fs);
      var i :| 0 <= i < |fs| && fs[i] == e;
      IndexOfFirst(fs, e.ch);
      CountFind(s, e.ch);
    }
    forall k | 0 <= k < |s|
      ensures CodeOf(Codes(t, ""), s[k]).Some?
    {
      var c := s[k];
      FindSome(s, c, 0, k);
      CountFind(s, c);
      var i := IndexOf(fs, c);
      assert fs[i] in multiset(Leaves(t));
      LeafHasCode(t, "", fs[i]);
    }
  }

  /** The round trip of `compress` and `decompress`, before bit packing:
      for an input with no `'\0'` and two distinct characters or more,
      decoding its encoding with the tree built from its table gives the
      input back. */
  lemma CompressRoundTrip(s: string, t: HuffTree)
    requires Merged(t) && multiset(Leaves(t)) == multiset(Frequencies(s))
    requires forall k :: 0 <= k < |s| ==> s[k] != '\0'
    requires |Frequencies(s)| >= 2
    ensures DecodeFrom(t, t, Encode(s, Codes(t, ""))) == Some(s)
  {
    BuiltTreeCodesAll(s, t);
    assert |Leaves(t)| == |multiset(Leaves(t))| == |Frequencies(s)|;
    MergedLeafCount(t);
    DecodeEncode(t, s);
    CodedAll(s, Codes(t, ""));
  }

  /** In a shaped tree the merged nodes are exactly the nodes holding
      `'\0'`. */
  lemma ShapedLeafChar(t: HuffTree)
    requires Shaped(t)
    ensures IsLeaf(t) <==> t.ch != '\0'
  {
    if IsLeaf(t) {
      assert Leaves(t)[0].ch == t.ch;
    }
  }

  /** Decoding from a merged node of a shaped tree never meets a null
      pointer. */
  lemma {:induction false} DecodeTotal(root: HuffTree, cur: HuffTree, bits: seq<bool>)
    requires Shaped(root) && !IsLeaf(root) && Shaped(cur) && !IsLeaf(cur)
    ensures DecodeFrom(root, cur, bits).Some?
    decreases |bits|
  {
    if bits != [] {
      ShapedChildren(cur);
      var next := if bits[0] then cur.right else cur.left;
      ShapedLeafChar(next);
      if next.ch != '\0' {
        DecodeTotal(root, root, bits[1..]);
      } else {
        DecodeTotal(root, next, bits[1..]);
      }
    }
  }

  /** Bits appended after the end can only add characters: what the first
      bits decode to is kept, as a prefix. */
  lemma {:induction false} DecodeExtends(root: HuffTree, cur: HuffTree, b: seq<bool>, z: seq<bool>)
    requires Shaped(root) && !IsLeaf(root) && Shaped(cur) && !IsLeaf(cur)
    ensures DecodeFrom(root, cur, b).Some? && DecodeFrom(root, cur, b + z).Some?
    ensures IsPrefix(DecodeFrom(root, cur, b).value, DecodeFrom(root, cur, b + z).value)
    decreases |b|
  {
    DecodeTotal(root, cur, b);
    DecodeTotal(root, cur, b + z);
    if b == [] {
      assert b + z == z;
    } else {
      ShapedChildren(cur);
      assert (b + z)[0] == b[0] && (b + z)[1..] == b[1..] + z;
      var next := if b[0] then cur.right else cur.left;
      ShapedLeafChar(next);
      if next.ch != '\0' {
        DecodeExtends(root, root, b[1..], z);
      } else {
        DecodeExtends(root, next, b[1..], z);
      }
    }
  }
}
