/** The repaired corrector against the source's: wherever
    `correctMismatchedTags` of XML_Consistency.cpp succeeds, the repaired
    second phase gives the same string, and the two inputs on which the
    source fails or succeeds are worked through. */
module CorrectorAgreement {
  import opened Base
  import opened TagScan
  import opened XmlConsistency
  import opened Nesting
  import opened XmlCorrector
  import opened XmlCorrectorFixed

  /** Where the source's sweep succeeds, the repaired one yields the same
      string, entries and inserted length. */
  ghost predicate SweepMatches(xml: string, contents: seq<string>, index: seq<int>, i: nat, len: int)
    requires |contents| == |index| && i <= |contents|
  {
    Sweep(xml, contents, index, i, len).Ok? ==>
      SweepFixed(xml, contents, index, i, len) == Sweep(xml, contents, index, i, len).value
  }

  /** Just past the `>` found from entry `i`'s recorded offset. */
  ghost function SweepAfter(xml: string, index: seq<int>, i: nat, len: int): int
    requires i < |index|
  {
    FindPos(xml, '>', index[i] + len) + 1
  }

  /** Entry `i` stays: a `<` follows that `>`. */
  ghost predicate SweepStays(xml: string, index: seq<int>, i: nat, len: int)
    requires i < |index|
  {
    var cp := SweepAfter(xml, index, i, len);
    cp < |xml| && xml[cp] == '<'
  }

  /** The state after entry `i` is closed in front of the next `<` and
      erased. */
  ghost function SweepErased(xml: string, contents: seq<string>, index: seq<int>, i: nat, len: int)
    : (r: (string, seq<string>, seq<int>, int))
    requires |contents| == |index| && i < |contents|
    requires !SweepStays(xml, index, i, len) && FindPos(xml, '<', SweepAfter(xml, index, i, len)) >= 0
    ensures |r.1| == |r.2| == |contents| - 1
  {
    var tag := "</" + contents[i] + ">";
    (InsertAt(xml, FindPos(xml, '<', SweepAfter(xml, index, i, len)), tag),
     Remove(contents, i), Remove(index, i), len + |tag|)
  }

  lemma {:induction false} SweepAgrees(xml: string, contents: seq<string>, index: seq<int>, i: nat, len: int)
    requires |contents| == |index| && i <= |contents|
    ensures SweepMatches(xml, contents, index, i, len)
    decreases |contents| - i
  {
    if i < |contents| {
      if SweepStays(xml, index, i, len) {
        SweepAgrees(xml, contents, index, i + 1, len);
        SweepStaysCarries(xml, contents, index, i, len);
      } else if FindPos(xml, '<', SweepAfter(xml, index, i, len)) >= 0 {
        var n := SweepErased(xml, contents, index, i, len);
        SweepAgrees(n.0, n.1, n.2, i, n.3);
        SweepErasedCarries(xml, contents, index, i, len);
      } else {
        SweepFails(xml, contents, index, i, len);
      }
    }
  }

  /** A kept entry carries the agreement back. */
  lemma SweepStaysCarries(xml: string, contents: seq<string>, index: seq<int>, i: nat, len: int)
    requires |contents| == |index| && i < |contents| && SweepStays(xml, index, i, len)
    requires SweepMatches(xml, contents, index, i + 1, len)
    ensures SweepMatches(xml, contents, index, i, len)
  {
    SweepKeeps(xml, contents, index, i, len);
    SweepFixedKeeps(xml, contents, index, i, len);
  }

  /** An erased entry carries the agreement back. */
  lemma SweepErasedCarries(xml: string, contents: seq<string>, index: seq<int>, i: nat, len: int)
    requires |contents| == |index| && i < |contents|
    requires !SweepStays(xml, index, i, len) && FindPos(xml, '<', SweepAfter(xml, index, i, len)) >= 0
    requires var n := SweepErased(xml, contents, index, i, len); SweepMatches(n.0, n.1, n.2, i, n.3)
    ensures SweepMatches(xml, contents, index, i, len)
  {
    var q := FindPos(xml, '<', SweepAfter(xml, index, i, len));
    var tag := "</" + contents[i] + ">";
    var n := SweepErased(xml, contents, index, i, len);
    assert n.0 == InsertAt(xml, q, tag) && n.1 == Remove(contents, i);
    assert n.2 == Remove(index, i) && n.3 == len + |tag|;
    SweepErases(xml, contents, index, i, len, q);
    assert Sweep(xml, contents, index, i, len) == Sweep(n.0, n.1, n.2, i, n.3);
    SweepFixedErases(xml, contents, index, i, len, q, n.0, n.1, n.2, n.3);
  }

  /** Where the source's final unwinding succeeds, the repaired one yields
      the same document. */
  ghost predicate UnwindMatches(xml: string, contents: seq<string>, index: seq<int>, len: int)
    requires |contents| == |index|
  {
    Unwind(xml, contents, index, len).Ok? ==>
      UnwindFixed(xml, contents, index, len) == Unwind(xml, contents, index, len).value
  }

  /** Where the source inserts the last entry's closing tag. */
  ghost function UnwindPos(xml: string, contents: seq<string>, index: seq<int>, len: int): int
    requires |contents| == |index| && contents != []
  {
    CorrectIndexOf(xml, FindPos(xml, '>', Last(index) + len) + 1)
  }

  /** The unwinding goes on past this entry: the position is inside the
      string and entries are left. */
  ghost predicate UnwindContinues(xml: string, contents: seq<string>, index: seq<int>, len: int)
    requires |contents| == |index| && contents != []
  {
    0 <= UnwindPos(xml, contents, index, len) <= |xml| && |contents| > 1
  }

  /** The state after one step that inserts and leaves entries. */
  ghost function UnwindNext(xml: string, contents: seq<string>, index: seq<int>, len: int)
    : (r: (string, seq<string>, seq<int>, int))
    requires |contents| == |index| && contents != [] && UnwindContinues(xml, contents, index, len)
    ensures |r.1| == |r.2| == |contents| - 1
  {
    var tag := "</" + Last(contents) + ">";
    (InsertAt(xml, UnwindPos(xml, contents, index, len), tag),
     contents[..|contents| - 1], index[..|index| - 1], len + |tag|)
  }

  lemma {:induction false} UnwindAgrees(xml: string, contents: seq<string>, index: seq<int>, len: int)
    requires |contents| == |index|
    ensures UnwindMatches(xml, contents, index, len)
    decreases |contents|
  {
    if contents != [] {
      if UnwindContinues(xml, contents, index, len) {
        var n := UnwindNext(xml, contents, index, len);
        UnwindAgrees(n.0, n.1, n.2, n.3);
        UnwindMore(xml, contents, index, len);
      } else {
        UnwindEnds(xml, contents, index, len);
      }
    }
  }

  /** A step that inserts and leaves entries carries the agreement back. */
  lemma UnwindMore(xml: string, contents: seq<string>, index: seq<int>, len: int)
    requires |contents| == |index| && contents != [] && UnwindContinues(xml, contents, index, len)
    requires var n := UnwindNext(xml, contents, index, len); UnwindMatches(n.0, n.1, n.2, n.3)
    ensures UnwindMatches(xml, contents, index, len)
  {
    CorrectIndexRange(xml, FindPos(xml, '>', Last(index) + len) + 1);
  }

  /** The last entry, or a step with no position: nothing is left to
      compare. */
  lemma UnwindEnds(xml: string, contents: seq<string>, index: seq<int>, len: int)
    requires |contents| == |index| && contents != [] && !UnwindContinues(xml, contents, index, len)
    ensures UnwindMatches(xml, contents, index, len)
  {
    CorrectIndexRange(xml, FindPos(xml, '>', Last(index) + len) + 1);
  }

  /** The repair changes nothing where `correctMismatchedTags` already
      succeeds. */
  lemma CorrectAgrees(orig: string)
    ensures Correct(orig).Ok? ==> CorrectFixed(orig) == Correct(orig)
  {
    MismatchedAreTagStarts(orig);
    var p1 := Phase1(orig, Mismatched(orig));
    if p1.Ok? {
      var (x, cs, ix) := p1.value;
      if cs != [] {
        SweepAgrees(x, cs, ix, 0, 0);
        var s := Sweep(x, cs, ix, 0, 0);
        if s.Ok? {
          UnwindAgrees(s.value.0, s.value.1, s.value.2, s.value.3);
        }
      }
    }
  }

  /** Finding: once the sweep has closed every pending entry, the source
      reads the last of an empty vector (the model's `BackOfEmpty`); the
      repaired corrector returns the balanced document. */
  lemma NoneLeftAfterSweep()
    ensures Correct("<a><b>x</a>") == Err(BackOfEmpty)
    ensures CorrectFixed("<a><b>x</a>") == Ok("<a><b>x</b></a>")
    ensures Balanced(Scan("<a><b>x</b></a>", 0))
  {
    MismatchedNoneLeft();
    Phase1NoneLeft();
    SweepNoneLeft();
    SweepAgrees("<a><b>x</a>", ["b"], [3], 0, 0);
    InsertNoneLeft();
    ScanFixedNoneLeft();
    BalancedFixedNoneLeft();
  }

  /** A closing tag that closes nothing open is replaced by the closing tag
      of the last opening tag reported before it. */
  lemma WrongCloserRewritten()
    ensures Correct("<a>text</b>") == Ok("<a>text</a>")
    ensures CorrectFixed("<a>text</b>") == Ok("<a>text</a>")
  {
    MismatchedWrongCloser();
    Phase1WrongCloser();
    CorrectAgrees("<a>text</b>");
  }
}
