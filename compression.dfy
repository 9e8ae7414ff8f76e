/** compression.cpp: `compress` followed by `decompress`, seen end to end:
    the table, the tree rebuilt from the same table, the codes, the packed
    bytes and the decoding of every bit read back. */
module Compression {
  import opened Base
  import opened Huffman
  import opened BitPack

  /** The bits `decompress` decodes for an input `s`, when `t` is the tree
      both sides build from the table of `s`. */
  function RoundTripBits(s: string, t: HuffTree): seq<bool>
  {
    Unpack(Pack(Encode(s, Codes(t, ""))))
  }

  /** What `decompress` writes for an input `s`: no `'\0'`, and no more
      characters than bits read back. */
  function Decompressed(s: string, t: HuffTree): (r: Option<string>)
    ensures r.Some? ==> |r.value| <= |RoundTripBits(s, t)| && forall k :: 0 <= k < |r.value| ==> r.value[k] != '\0'
  {
    DecodeFrom(t, t, RoundTripBits(s, t))
  }

  /** As written, the decompressed text starts with the input: for an input
      with no `'\\0'` and two distinct characters or more, the packed bytes
      decode to the input followed by whatever the padding bits spell. */
  lemma DecompressedStartsWithInput(s: string, t: HuffTree)
    requires Merged(t) && multiset(Leaves(t)) == multiset(Frequencies(s))
    requires forall k :: 0 <= k < |s| ==> s[k] != '\0'
    requires |Frequencies(s)| >= 2
    ensures Decompressed(s, t).Some? && IsPrefix(s, Decompressed(s, t).value)
  {
    var bits := Encode(s, Codes(t, ""));
    CompressRoundTrip(s, t);
    BuiltTreeCodesAll(s, t);
    assert |Leaves(t)| == |multiset(Leaves(t))| == |Frequencies(s)|;
    MergedLeafCount(t);
    UnpackPack(bits);
    DecodeExtends(t, t, bits, Zeros(PadLength(|bits|)));
  }

  // ---------------------------------------------------------------------
  // The padding is decoded as data

  const AabTree := Node('\0', 3, Node('b', 1, Nil, Nil), Node('a', 2, Nil, Nil))

  lemma AabTable()
    ensures Frequencies("aab") == [CharFrequency('a', 2), CharFrequency('b', 1)]
  {
    assert "aab"[..2] == "aa" && "aa"[..1] == "a" && "a"[..0] == "";
    assert Frequencies("a") == [CharFrequency('a', 1)];
    assert Frequencies("aa") == [CharFrequency('a', 2)];
    assert IndexOf([CharFrequency('a', 2)], 'b') == -1;
  }

  /** `buildHuffmanTree` can only build one tree for `"aab"`: the lighter
      `b` on the left. */
  lemma AabTreeUnique(t: HuffTree)
    requires Merged(t) && multiset(Leaves(t)) == multiset(Frequencies("aab"))
    ensures t == AabTree
  {
    AabTable();
    var a, b := CharFrequency('a', 2), CharFrequency('b', 1);
    assert multiset(Leaves(t)) == multiset{a, b};
    var x, y := TwoLeafTree(t);
    LighterFirst(x, y, a, b);
  }

  /** A merged tree with two leaves is a node over two leaves, the left one
      no heavier. */
  lemma TwoLeafTree(t: HuffTree) returns (x: CharFrequency, y: CharFrequency)
    requires Merged(t) && |Leaves(t)| == 2
    ensures t == Node('\0', x.freq + y.freq, Node(x.ch, x.freq, Nil, Nil), Node(y.ch, y.freq, Nil, Nil))
    ensures Leaves(t) == [x, y] && x.freq <= y.freq
  {
    MergedLeafCount(t);
    MergedLeavesNonEmpty(t.left);
    MergedLeavesNonEmpty(t.right);
    assert Leaves(t) == Leaves(t.left) + Leaves(t.right);
    MergedLeafCount(t.left);
    MergedLeafCount(t.right);
    x, y := CharFrequency(t.left.ch, t.left.freq), CharFrequency(t.right.ch, t.right.freq);
    assert Leaves(t) == [x, y];
  }

  /** Of two entries whose counts differ, the lighter one comes first in an
      ordered pair. */
  lemma LighterFirst(x: CharFrequency, y: CharFrequency, a: CharFrequency, b: CharFrequency)
    requires multiset([x, y]) == multiset{a, b} && x.freq <= y.freq && b.freq < a.freq
    ensures x == b && y == a
  {
    assert x in multiset([x, y]) && y in multiset([x, y]);
    assert x in multiset{a, b} && y in multiset{a, b};
  }

  lemma AabBits()
    ensures Encode("aab", Codes(AabTree, "")) == [true, true, false]
  {
    var codes := Codes(AabTree, "");
    assert "" + "0" == "0" && "" + "1" == "1";
    assert Codes(Node('b', 1, Nil, Nil), "0") == [CharCode('b', "0")];
    assert Codes(Node('a', 2, Nil, Nil), "1") == [CharCode('a', "1")];
    assert codes == [CharCode('b', "0"), CharCode('a', "1")];
    assert CodeOf(codes, 'a') == Some("1");
    assert Bits("1") == [true] && Bits("0") == [false];
    assert CharBits(codes, 'a') == [true];
    assert CharBits(codes, 'b') == [false];
    assert "aab"[1..] == "ab" && "ab"[1..] == "b" && "b"[1..] == "";
    assert Encode("b", codes) == [false];
    assert Encode("ab", codes) == [true, false];
  }

  lemma AabUnpacked()
    ensures RoundTripBits("aab", AabTree) == [true, true, false, false, false, false, false, false]
  {
    AabBits();
    UnpackPack([true, true, false]);
    assert PadLength(3) == 5;
    assert [true, true, false] + Zeros(5) == [true, true, false, false, false, false, false, false];
  }

  lemma DecodeAabStep(x: seq<bool>, bit: bool)
    ensures DecodeFrom(AabTree, AabTree, [bit] + x) == Prepend(if bit then 'a' else 'b', DecodeFrom(AabTree, AabTree, x))
  {
    assert ([bit] + x)[0] == bit && ([bit] + x)[1..] == x;
  }

  /** `n` copies of `c`. */
  function Repeat(c: char, n: nat): (r: string)
    ensures |r| == n && forall k :: 0 <= k < n ==> r[k] == c
  {
    if n == 0 then "" else [c] + Repeat(c, n - 1)
  }

  /** Zero bits all decode to `b`, the left leaf. */
  lemma {:induction false} AabZeros(n: nat)
    ensures DecodeFrom(AabTree, AabTree, Zeros(n)) == Some(Repeat('b', n))
  {
    if n > 0 {
      AabZeros(n - 1);
      assert Zeros(n) == [false] + Zeros(n - 1);
      DecodeAabStep(Zeros(n - 1), false);
    }
  }

  lemma AabDecoded()
    ensures DecodeFrom(AabTree, AabTree, [true, true, false, false, false, false, false, false]) == Some("aabbbbbb")
  {
    var t := AabTree;
    var z6 := Zeros(6);
    AabZeros(6);
    assert Repeat('b', 6) == "bbbbbb";
    DecodeAabStep(z6, true);
    DecodeAabStep([true] + z6, true);
    assert ['a'] + "bbbbbb" == "abbbbbb" && ['a'] + "abbbbbb" == "aabbbbbb";
    assert [true] + ([true] + z6) == [true, true, false, false, false, false, false, false];
  }

  /** `"aab"` comes back as `"aabbbbbb"`: the five padding bits of the last
      byte are decoded as five more `b`s. */
  lemma PaddingDecodedAsData(t: HuffTree)
    requires Merged(t) && multiset(Leaves(t)) == multiset(Frequencies("aab"))
    ensures Decompressed("aab", t) == Some("aabbbbbb")
  {
    AabTreeUnique(t);
    AabUnpacked();
    AabDecoded();
  }

  /** A corrected `decompress` that is told how many bits were encoded (one
      more header field) and decodes only those. */
  function DecompressCounted(bytes: seq<Byte>, bitCount: nat, t: HuffTree): Option<string>
  {
    var bits := Unpack(bytes);
    DecodeFrom(t, t, if bitCount <= |bits| then bits[..bitCount] else bits)
  }

  /** With the bit count stored, every input with no `'\\0'` and two distinct
      characters or more comes back exactly. */
  lemma CountedRoundTrip(s: string, t: HuffTree)
    requires Merged(t) && multiset(Leaves(t)) == multiset(Frequencies(s))
    requires forall k :: 0 <= k < |s| ==> s[k] != '\0'
    requires |Frequencies(s)| >= 2
    ensures var bits := Encode(s, Codes(t, "")); DecompressCounted(Pack(bits), |bits|, t) == Some(s)
  {
    var bits := Encode(s, Codes(t, ""));
    UnpackPack(bits);
    assert (bits + Zeros(PadLength(|bits|)))[..|bits|] == bits;
    CompressRoundTrip(s, t);
  }

  // ---------------------------------------------------------------------
  // An input with a single distinct character is lost

  /** When the input has one distinct character the tree is a single leaf,
      its code is empty, no bit is written and `decompress` writes an empty
      text. */
  lemma SingleSymbolLost(s: string, t: HuffTree)
    requires s != [] && |Frequencies(s)| == 1
    requires Merged(t) && multiset(Leaves(t)) == multiset(Frequencies(s))
    ensures Encode(s, Codes(t, "")) == [] && Decompressed(s, t) == Some("")
    ensures Decompressed(s, t) != Some(s)
  {
    assert |Leaves(t)| == 1;
    MergedLeafCount(t);
    assert Codes(t, "") == (if t.ch != '\0' then [CharCode(t.ch, "")] else []);
    EncodeEmptyCode(s, Codes(t, ""), t.ch);
  }

  lemma {:induction false} EncodeEmptyCode(s: string, codes: seq<CharCode>, c: char)
    requires codes == [CharCode(c, "")] || codes == []
    ensures Encode(s, codes) == []
    decreases |s|
  {
    if s != [] {
      EncodeEmptyCode(s[1..], codes, c);
      assert Bits("") == [];
      if codes != [] {
        assert codes[1..] == [];
        assert CodeOf(codes, s[0]) == if c == s[0] then Some("") else None;
      }
      assert CharBits(codes, s[0]) == [];
    }
  }

  /** Corrected codes: a lone leaf gets the one-bit code `0`. */
  function CodesFixed(t: HuffTree): seq<CharCode>
  {
    if IsLeaf(t) then [CharCode(t.ch, "0")] else Codes(t, "")
  }

  /** Corrected decoding: under a lone leaf every bit stands for its
      character. */
  function DecodeFixed(t: HuffTree, bits: seq<bool>): Option<string>
  {
    if IsLeaf(t) then Some(Repeat(t.ch, |bits|)) else DecodeFrom(t, t, bits)
  }

  /** Every character of an input with a one-entry table is that entry's. */
  lemma OneEntry(s: string, t: HuffTree)
    requires |Frequencies(s)| == 1 && Merged(t) && multiset(Leaves(t)) == multiset(Frequencies(s))
    ensures IsLeaf(t) && forall k :: 0 <= k < |s| ==> s[k] == t.ch
  {
    var fs := Frequencies(s);
    assert |Leaves(t)| == 1;
    MergedLeafCount(t);
    assert multiset(Leaves(t)) == multiset{CharFrequency(t.ch, t.freq)};
    assert fs[0] in multiset(Leaves(t));
    FrequenciesTable(s);
    forall k | 0 <= k < |s|
      ensures s[k] == t.ch
    {
      FindSome(s, s[k], 0, k);
      CountFind(s, s[k]);
      assert IndexOf(fs, s[k]) == 0;
    }
  }

  lemma {:induction false} EncodeOneCode(s: string, c: char)
    requires forall k :: 0 <= k < |s| ==> s[k] == c
    ensures Encode(s, [CharCode(c, "0")]) == Zeros(|s|)
    decreases |s|
  {
    if s != [] {
      EncodeOneCode(s[1..], c);
      assert CharBits([CharCode(c, "0")], s[0]) == [false];
      assert [false] + Zeros(|s| - 1) == Zeros(|s|);
    }
  }

  /** With the corrected codes and decoding, every non-empty input with no
      `'\\0'` comes back, one distinct character or many. */
  lemma FixedRoundTrip(s: string, t: HuffTree)
    requires s != []
    requires Merged(t) && multiset(Leaves(t)) == multiset(Frequencies(s))
    requires forall k :: 0 <= k < |s| ==> s[k] != '\0'
    ensures DecodeFixed(t, Encode(s, CodesFixed(t))) == Some(s)
  {
    FrequenciesTable(s);
    if |Frequencies(s)| == 1 {
      OneEntry(s, t);
      EncodeOneCode(s, t.ch);
      assert Repeat(t.ch, |s|) == s;
    } else {
      assert Frequencies(s) != [] by {
        assert IndexOf(Frequencies(s), s[0]) >= 0 by {
          FindSome(s, s[0], 0, 0);
          CountFind(s, s[0]);
        }
      }
      assert |Leaves(t)| == |multiset(Leaves(t))| == |Frequencies(s)|;
      MergedLeafCount(t);
      CompressRoundTrip(s, t);
    }
  }
}
