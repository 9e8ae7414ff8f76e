/** The second phase of `correctMismatchedTags` with its two failures
    repaired: a closing tag with no `<` after it goes at the end of the string
    rather than at offset -1, and the last-entry step is skipped once the
    first round has closed every pending entry rather than reading the last
    of an empty vector. Everything else is as in `XmlCorrector`. */
module XmlCorrectorFixed {
  import opened Base
  import opened TagScan
  import opened XmlConsistency
  import opened Nesting
  import opened XmlCorrector

  /** Total length of the closing tags `</c>` of the given contents. */
  function ClosersLength(cs: seq<string>): nat
    decreases |cs|
  {
    if cs == [] then 0 else ClosersLength(cs[..|cs| - 1]) + |Last(cs)| + 3
  }

  lemma {:induction false} ClosersLengthAppend(a: seq<string>, b: seq<string>)
    ensures ClosersLength(a + b) == ClosersLength(a) + ClosersLength(b)
    decreases |b|
  {
    if b == [] {
      assert a + b == a;
    } else {
      assert (a + b)[..|a + b| - 1] == a + b[..|b| - 1];
      ClosersLengthAppend(a, b[..|b| - 1]);
    }
  }

  /** Dropping one entry drops the length of its closing tag. */
  lemma ClosersLengthRemove(cs: seq<string>, i: nat)
    requires i < |cs|
    ensures ClosersLength(Remove(cs, i)) + |cs[i]| + 3 == ClosersLength(cs)
  {
    assert cs == cs[..i] + [cs[i]] + cs[i + 1..];
    ClosersLengthAppend(cs[..i] + [cs[i]], cs[i + 1..]);
    ClosersLengthAppend(cs[..i], [cs[i]]);
    ClosersLengthAppend(cs[..i], cs[i + 1..]);
    assert ClosersLength([cs[i]]) == |cs[i]| + 3 by {
      assert [cs[i]][..0] == [];
    }
  }

  /** The first round's sweep, inserting at the end where the source's
      `find('<', closePos)` finds nothing. Every erased entry's closing tag
      goes into the string. */
  function SweepFixed(xml: string, contents: seq<string>, index: seq<int>, i: nat, len: int)
    : (r: (string, seq<string>, seq<int>, int))
    requires |contents| == |index| && i <= |contents|
    ensures |r.1| == |r.2| && |r.1| <= |contents|
    ensures |r.0| + ClosersLength(r.1) == |xml| + ClosersLength(contents)
    ensures r.3 - len == |r.0| - |xml|
    decreases |contents| - i
  {
    if i == |contents| then (xml, contents, index, len)
    else
      var tag := "</" + contents[i] + ">";
      var cp := FindPos(xml, '>', index[i] + len) + 1;
      if cp < |xml| && xml[cp] == '<' then SweepFixed(xml, contents, index, i + 1, len)
      else
        var found := FindPos(xml, '<', cp);
        var q := if found < 0 then |xml| else found;
        ClosersLengthRemove(contents, i);
        SweepFixed(InsertAt(xml, q, tag), Remove(contents, i), Remove(index, i), i, len + |tag|)
  }

  /** The last-entry steps, inserting at the end where `correctindex` finds
      no violation. Every entry's closing tag goes into the string, and every
      `<` keeps a `>` after it. */
  function UnwindFixed(xml: string, contents: seq<string>, index: seq<int>, len: int): (r: string)
    requires |contents| == |index|
    ensures |r| == |xml| + ClosersLength(contents)
    ensures Terminated(xml) ==> Terminated(r)
    decreases |contents|
  {
    if contents == [] then xml
    else
      var tag := "</" + Last(contents) + ">";
      var cp := FindPos(xml, '>', Last(index) + len) + 1;
      var found := CorrectIndexOf(xml, cp);
      CorrectIndexRange(xml, cp);
      var q := if found < 0 then |xml| else found;
      InsertKeepsTerminated(xml, q, tag);
      UnwindFixed(InsertAt(xml, q, tag), contents[..|contents| - 1], index[..|index| - 1], len + |tag|)
  }

  /** The repaired second phase: it cannot fail, and it puts exactly one
      closing tag into the string for each entry left pending by the first
      phase. */
  function Phase2Fixed(xml: string, contents: seq<string>, index: seq<int>): (r: string)
    requires |contents| == |index|
    ensures |r| == |xml| + ClosersLength(contents)
  {
    var (x, cs, ix, len) := SweepFixed(xml, contents, index, 0, 0);
    UnwindFixed(x, cs, ix, len)
  }

  /** Every `<` of the sweep's string still has a `>` after it. */
  lemma {:induction false} SweepFixedTerminated(xml: string, contents: seq<string>, index: seq<int>, i: nat, len: int)
    requires |contents| == |index| && i <= |contents| && Terminated(xml)
    ensures Terminated(SweepFixed(xml, contents, index, i, len).0)
    decreases |contents| - i
  {
    if i < |contents| {
      var tag := "</" + contents[i] + ">";
      var cp := FindPos(xml, '>', index[i] + len) + 1;
      if cp < |xml| && xml[cp] == '<' {
        SweepFixedTerminated(xml, contents, index, i + 1, len);
      } else {
        var found := FindPos(xml, '<', cp);
        var q := if found < 0 then |xml| else found;
        InsertKeepsTerminated(xml, q, tag);
        SweepFixedTerminated(InsertAt(xml, q, tag), Remove(contents, i), Remove(index, i), i, len + |tag|);
      }
    }
  }

  /** One step of the repaired unwinding inserts the last entry's closing
      tag at some position inside the string. */
  lemma UnwindFixedStep(xml: string, contents: seq<string>, index: seq<int>, len: int) returns (q: nat)
    requires |contents| == |index| && contents != []
    ensures q <= |xml|
    ensures UnwindFixed(xml, contents, index, len)
      == UnwindFixed(InsertAt(xml, q, "</" + Last(contents) + ">"),
                     contents[..|contents| - 1], index[..|index| - 1], len + |"</" + Last(contents) + ">"|)
  {
    var cp := FindPos(xml, '>', Last(index) + len) + 1;
    var found := CorrectIndexOf(xml, cp);
    CorrectIndexRange(xml, cp);
    q := if found < 0 then |xml| else found;
  }

  /** The repaired second phase leaves no `<` without a `>` after it. */
  lemma Phase2FixedTerminated(xml: string, contents: seq<string>, index: seq<int>)
    requires |contents| == |index| && Terminated(xml)
    ensures Terminated(Phase2Fixed(xml, contents, index))
  {
    SweepFixedTerminated(xml, contents, index, 0, 0);
  }

  /** `correctMismatchedTags` with the repaired second phase. Only the first
      phase can still fail. */
  function CorrectFixed(orig: string): (r: Result<string, Failure>)
    ensures r.Err? <==> (MismatchedAreTagStarts(orig); Phase1(orig, Mismatched(orig)).Err?)
  {
    MismatchedAreTagStarts(orig);
    match Phase1(orig, Mismatched(orig))
    case Err(e) => Err(e)
    case Ok(v) => Ok(Phase2Fixed(v.0, v.1, v.2))
  }

  lemma SweepFixedKeeps(xml: string, contents: seq<string>, index: seq<int>, i: nat, len: int)
    requires |contents| == |index| && i < |contents|
    requires var cp := FindPos(xml, '>', index[i] + len) + 1;
      cp < |xml| && xml[cp] == '<'
    ensures SweepFixed(xml, contents, index, i, len) == SweepFixed(xml, contents, index, i + 1, len)
  {
  }

  lemma SweepFixedErases(xml: string, contents: seq<string>, index: seq<int>, i: nat, len: int, q: int,
                         x: string, cs: seq<string>, ix: seq<int>, len': int)
    requires |contents| == |index| && i < |contents|
    requires var cp := FindPos(xml, '>', index[i] + len) + 1;
      !(cp < |xml| && xml[cp] == '<') && q == FindPos(xml, '<', cp) && q >= 0
    requires x == InsertAt(xml, q, "</" + contents[i] + ">") && len' == len + |"</" + contents[i] + ">"|
    requires cs == Remove(contents, i) && ix == Remove(index, i)
    ensures SweepFixed(xml, contents, index, i, len) == SweepFixed(x, cs, ix, i, len')
  {
  }

  // ---------------------------------------------------------------- findings

  /** The first phase on a single reported opening tag: the string is kept
      and the tag is recorded. */
  lemma Phase1OneOpener(orig: string, p: nat, c: nat, name: string)
    requires p < |orig| && orig[p] == '<' && Find(orig, '>', p) == Some(c) && orig[p + 1] != '/'
    requires orig[p + 1..c] == name
    ensures TagPositions(orig, [p]) && Phase1(orig, [p]) == Ok((orig, [name], [p]))
  {
    assert TagPositions(orig, [p]);
    var none := Pending([], [], []);
    PlanAtOpener(orig, [p], 0, none, c);
    var st := Pending([], [orig[p + 1..c]], [p]);
    assert none.contents + [orig[p + 1..c]] == st.contents;
    assert none.index + [p + Delta([])] == st.index;
    assert Plan(orig, [p], 1, st) == Ok(st);
    assert Rebuild(orig, []) == orig by {
      assert orig[0..] == orig;
    }
  }

  // `<a><b>x</a>`: the sweep closes `b` before `</a>` and leaves nothing
  // pending, and the source then reads the last of an empty vector.

  lemma ScanNoneLeft()
    ensures Scan("<a><b>x</a>", 0) == [Tag("a", false, 0, 2), Tag("b", false, 3, 5), Tag("a", true, 7, 10)]
  {
    var s := "<a><b>x</a>";
    assert Find(s, '>', 0) == Some(2);
    assert s[1..2] == "a";
    ScanAtTag(s, 0, 2);
    assert ReadTag(s, 0, 2) == Tag("a", false, 0, 2);
    ScanNoneLeftTail();
  }

  lemma ScanNoneLeftTail()
    ensures Scan("<a><b>x</a>", 3) == [Tag("b", false, 3, 5), Tag("a", true, 7, 10)]
  {
    var s := "<a><b>x</a>";
    assert Find(s, '>', 3) == Some(5);
    assert Find(s, '>', 7) == Some(10);
    assert s[4..5] == "b" && s[8..10] == "/a";
    ScanAtTag(s, 3, 5);
    assert ReadTag(s, 3, 5) == Tag("b", false, 3, 5);
    ScanAtText(s, 6);
    ScanAtTag(s, 7, 10);
    assert ReadTag(s, 7, 10) == Tag("a", true, 7, 10);
  }

  lemma LocateNoneLeft()
    ensures Locate([Tag("a", false, 0, 2), Tag("b", false, 3, 5), Tag("a", true, 7, 10)], [], [], []) == ([], [3])
  {
    var t0, t1, t2 := Tag("a", false, 0, 2), Tag("b", false, 3, 5), Tag("a", true, 7, 10);
    LocateCons(t0, [t1, t2], [], [], []);
    assert [t0] + [t1, t2] == [t0, t1, t2];
    var e: seq<string> := [];
    var z: seq<int> := [];
    assert e + ["a"] == ["a"] && z + [0] == [0];
    LocateStepNoneLeft();
  }

  lemma LocateStepNoneLeft()
    ensures Locate([Tag("b", false, 3, 5), Tag("a", true, 7, 10)], ["a"], [0], []) == ([], [3])
  {
    var t1, t2 := Tag("b", false, 3, 5), Tag("a", true, 7, 10);
    LocateCons(t1, [t2], ["a"], [0], []);
    assert [t1] + [t2] == [t1, t2];
    assert ["a"] + ["b"] == ["a", "b"] && [0] + [3] == [0, 3];
    LocateCons(t2, [], ["a", "b"], [0, 3], []);
    assert [t2] + [] == [t2];
    assert LastIndexOf(["a", "b"], "a") == 0;
    assert Remove(["a", "b"], 0) == ["b"] && Remove([0, 3], 0) == [3];
  }

  lemma SweepNoneLeft()
    ensures Sweep("<a><b>x</a>", ["b"], [3], 0, 0) == Ok((InsertAt("<a><b>x</a>", 7, "</b>"), [], [], 4))
  {
    var s := "<a><b>x</a>";
    assert FindPos(s, '>', 3) == 5;
    assert FindPos(s, '<', 6) == 7;
    var x := InsertAt(s, 7, "</b>");
    assert Remove(["b"], 0) == [] && Remove([3], 0) == [];
    assert "</" + "b" + ">" == "</b>";
    assert !(6 < |s| && s[6] == '<');
    assert Sweep(x, [], [], 0, 4) == Ok((x, [], [], 4));
  }

  lemma InsertNoneLeft()
    ensures InsertAt("<a><b>x</a>", 7, "</b>") == "<a><b>x</b></a>"
  {
    var s := "<a><b>x</a>";
    assert s[..7] == "<a><b>x";
    assert s[7..] == "</a>";
  }

  lemma ScanFixedNoneLeft()
    ensures Scan("<a><b>x</b></a>", 0)
      == [Tag("a", false, 0, 2), Tag("b", false, 3, 5), Tag("b", true, 7, 10), Tag("a", true, 11, 14)]
  {
    FirstTagFixedNoneLeft();
    ScanFixedNoneLeftMiddle();
    ScanReads("<a><b>x</b></a>", 0, 2, Tag("a", false, 0, 2), [Tag("b", false, 3, 5), Tag("b", true, 7, 10), Tag("a", true, 11, 14)]);
  }

  lemma FirstTagFixedNoneLeft()
    ensures Find("<a><b>x</b></a>", '>', 0) == Some(2)
    ensures ReadTag("<a><b>x</b></a>", 0, 2) == Tag("a", false, 0, 2)
  {
    assert "<a><b>x</b></a>"[1..2] == "a";
  }

  lemma ScanFixedNoneLeftMiddle()
    ensures Scan("<a><b>x</b></a>", 3) == [Tag("b", false, 3, 5), Tag("b", true, 7, 10), Tag("a", true, 11, 14)]
  {
    var x := "<a><b>x</b></a>";
    assert x[3..6] == "<b>" == "<" + "b" + ">";
    TagBetween(x, 3, 5, "b");
    ScanAtTag(x, 3, 5);
    ScanAtText(x, 6);
    ScanFixedNoneLeftTail();
  }

  lemma ScanFixedNoneLeftTail()
    ensures Scan("<a><b>x</b></a>", 7) == [Tag("b", true, 7, 10), Tag("a", true, 11, 14)]
  {
    var x := "<a><b>x</b></a>";
    assert Find(x, '>', 7) == Some(10);
    assert Find(x, '>', 11) == Some(14);
    ScanAtTag(x, 7, 10);
    assert ReadTag(x, 7, 10) == Tag("b", true, 7, 10);
    ScanAtTag(x, 11, 14);
    assert ReadTag(x, 11, 14) == Tag("a", true, 11, 14);
    assert x[8..10] == "/b" && x[12..14] == "/a";
  }

  lemma BalancedFixedNoneLeft()
    ensures Balanced([Tag("a", false, 0, 2), Tag("b", false, 3, 5), Tag("b", true, 7, 10), Tag("a", true, 11, 14)])
  {
    var t0, t1, t2, t3 := Tag("a", false, 0, 2), Tag("b", false, 3, 5), Tag("b", true, 7, 10), Tag("a", true, 11, 14);
    var ts := [t0, t1, t2, t3];
    assert ts[1..] == [t1, t2, t3] && ts[1..][1..] == [t2, t3] && ts[1..][1..][1..] == [t3];
    var e: seq<string> := [];
    assert e + ["a"] == ["a"] && ["a"] + ["b"] == ["a", "b"];
    assert ["a", "b"][..1] == ["a"] && ["a"][..0] == [];
    assert Run([t3], ["a"]) == Some([]);
    assert Run([t2, t3], ["a", "b"]) == Some([]);
  }

  lemma MismatchedNoneLeft()
    ensures Mismatched("<a><b>x</a>") == [3]
  {
    ScanNoneLeft();
    LocateNoneLeft();
  }

  lemma Phase1NoneLeft()
    ensures TagPositions("<a><b>x</a>", [3]) && Phase1("<a><b>x</a>", [3]) == Ok(("<a><b>x</a>", ["b"], [3]))
  {
    var s := "<a><b>x</a>";
    assert Find(s, '>', 3) == Some(5);
    assert s[4..5] == "b";
    Phase1OneOpener(s, 3, 5, "b");
  }

  // `<a>x`: the sweep finds no `<` after the text to put `</a>` in front of,
  // and the source inserts at offset -1.

  lemma ScanTextOnly()
    ensures Scan("<a>x", 0) == [Tag("a", false, 0, 2)]
  {
    var s := "<a>x";
    assert Find(s, '>', 0) == Some(2);
    ScanAtTag(s, 0, 2);
    assert ReadTag(s, 0, 2) == Tag("a", false, 0, 2);
    assert s[1..2] == "a";
  }

  lemma MismatchedTextOnly()
    ensures Mismatched("<a>x") == [0]
  {
    var t0 := Tag("a", false, 0, 2);
    ScanTextOnly();
    LocateCons(t0, [], [], [], []);
    assert [t0] + [] == [t0];
    var e: seq<string> := [];
    var z: seq<int> := [];
    assert e + ["a"] == ["a"] && z + [0] == [0];
  }

  /** The first phase on a text that opens with `<a>` and reports only it. */
  lemma Phase1LeadingA(s: string)
    requires |s| >= 3 && s[..3] == "<a>"
    ensures TagPositions(s, [0]) && Phase1(s, [0]) == Ok((s, ["a"], [0]))
  {
    assert s[0] == '<' && s[1] == 'a' && s[2] == '>' by {
      assert s[..3][0] == s[0] && s[..3][1] == s[1] && s[..3][2] == s[2];
    }
    assert Find(s, '>', 0) == Some(2) by {
      assert Find(s, '>', 2) == Some(2);
      assert Find(s, '>', 1) == Find(s, '>', 2);
    }
    assert s[1..2] == "a";
    Phase1OneOpener(s, 0, 2, "a");
  }

  lemma SweepTextOnly()
    ensures Sweep("<a>x", ["a"], [0], 0, 0) == Err(InsertOutOfRange)
    ensures SweepFixed("<a>x", ["a"], [0], 0, 0) == (InsertAt("<a>x", 4, "</a>"), [], [], 4)
  {
    var s := "<a>x";
    assert FindPos(s, '>', 0) == 2;
    assert FindPos(s, '<', 3) == -1;
    assert "</" + "a" + ">" == "</a>";
    assert !(3 < |s| && s[3] == '<');
    assert Remove(["a"], 0) == [] && Remove([0], 0) == [];
  }

  lemma FixedTextOnly()
    ensures InsertAt("<a>x", 4, "</a>") == "<a>x</a>"
    ensures Balanced(Scan("<a>x</a>", 0))
  {
    ScanFixedTextOnly();
    var t0, t1 := Tag("a", false, 0, 2), Tag("a", true, 4, 7);
    assert [t0, t1][1..] == [t1];
    var e: seq<string> := [];
    assert e + ["a"] == ["a"] && ["a"][..0] == [];
  }

  lemma ScanFixedTextOnly()
    ensures Scan("<a>x</a>", 0) == [Tag("a", false, 0, 2), Tag("a", true, 4, 7)]
  {
    var x := "<a>x</a>";
    TextOnlyTags();
    ScanAtTag(x, 0, 2);
    ScanAtText(x, 3);
    ScanAtTag(x, 4, 7);
  }

  /** The two tags of `<a>x</a>`, read where their `>` is found. */
  lemma TextOnlyTags()
    ensures Find("<a>x</a>", '>', 0) == Some(2) && ReadTag("<a>x</a>", 0, 2) == Tag("a", false, 0, 2)
    ensures Find("<a>x</a>", '>', 4) == Some(7) && ReadTag("<a>x</a>", 4, 7) == Tag("a", true, 4, 7)
  {
    var x := "<a>x</a>";
    assert Find(x, '>', 0) == Some(2);
    assert Find(x, '>', 4) == Some(7);
    assert x[1..2] == "a" && x[5..7] == "/a";
  }

  /** Finding: where no `<` follows a pending opening tag's text, the
      source's first round inserts at offset -1 (the model's
      `InsertOutOfRange`); the repaired corrector closes the tag at the end. */
  lemma ClosedAtEnd()
    ensures Correct("<a>x") == Err(InsertOutOfRange)
    ensures CorrectFixed("<a>x") == Ok("<a>x</a>")
    ensures Balanced(Scan("<a>x</a>", 0))
  {
    MismatchedTextOnly();
    Phase1LeadingA("<a>x");
    SweepTextOnly();
    FixedTextOnly();
  }

  // `<a><b></b>`: `correctindex` finds nothing wrong after `<a>` and the
  // source inserts `</a>` at offset -1.

  lemma ScanInnerClosed()
    ensures Scan("<a><b></b>", 0) == [Tag("a", false, 0, 2), Tag("b", false, 3, 5), Tag("b", true, 6, 9)]
  {
    var s := "<a><b></b>";
    assert Find(s, '>', 0) == Some(2);
    ScanAtTag(s, 0, 2);
    assert ReadTag(s, 0, 2) == Tag("a", false, 0, 2);
    assert s[1..2] == "a";
    ScanInnerClosedTail();
  }

  lemma ScanInnerClosedTail()
    ensures Scan("<a><b></b>", 3) == [Tag("b", false, 3, 5), Tag("b", true, 6, 9)]
  {
    var s := "<a><b></b>";
    assert Find(s, '>', 3) == Some(5);
    assert Find(s, '>', 6) == Some(9);
    ScanAtTag(s, 3, 5);
    assert ReadTag(s, 3, 5) == Tag("b", false, 3, 5);
    ScanAtTag(s, 6, 9);
    assert ReadTag(s, 6, 9) == Tag("b", true, 6, 9);
    assert s[4..5] == "b" && s[7..9] == "/b";
  }

  lemma MismatchedInnerClosed()
    ensures Mismatched("<a><b></b>") == [0]
  {
    var t0, t1, t2 := Tag("a", false, 0, 2), Tag("b", false, 3, 5), Tag("b", true, 6, 9);
    ScanInnerClosed();
    LocateCons(t0, [t1, t2], [], [], []);
    assert [t0] + [t1, t2] == [t0, t1, t2];
    var e: seq<string> := [];
    var z: seq<int> := [];
    assert e + ["a"] == ["a"] && z + [0] == [0];
    LocateStepInnerClosed();
  }

  lemma LocateStepInnerClosed()
    ensures Locate([Tag("b", false, 3, 5), Tag("b", true, 6, 9)], ["a"], [0], []) == ([], [0])
  {
    var t1, t2 := Tag("b", false, 3, 5), Tag("b", true, 6, 9);
    LocateCons(t1, [t2], ["a"], [0], []);
    assert [t1] + [t2] == [t1, t2];
    assert ["a"] + ["b"] == ["a", "b"] && [0] + [3] == [0, 3];
    LocateCons(t2, [], ["a", "b"], [0, 3], []);
    assert [t2] + [] == [t2];
    assert LastIndexOf(["a", "b"], "b") == 1;
    assert Remove(["a", "b"], 1) == ["a"] && Remove([0, 3], 1) == [0];
  }

  /** `correctindex` from just past `<a>` meets `<b></b>` and nothing wrong. */
  lemma IndexInnerClosed()
    ensures CorrectIndexOf("<a><b></b>", 3) == -1
  {
    var t1, t2 := Tag("b", false, 3, 5), Tag("b", true, 6, 9);
    ScanInnerClosedTail();
    assert [t1, t2][1..] == [t2] && [t2][1..] == [];
    var e: seq<string> := [];
    assert e + ["b"] == ["b"] && ["b"][..0] == [];
  }

  lemma Phase2InnerClosed()
    ensures Phase2("<a><b></b>", ["a"], [0]) == Err(InsertOutOfRange)
    ensures Phase2Fixed("<a><b></b>", ["a"], [0]) == InsertAt("<a><b></b>", 10, "</a>")
  {
    var s := "<a><b></b>";
    assert FindPos(s, '>', 0) == 2;
    assert 3 < |s| && s[3] == '<';
    assert Sweep(s, ["a"], [0], 0, 0) == Ok((s, ["a"], [0], 0));
    assert SweepFixed(s, ["a"], [0], 0, 0) == (s, ["a"], [0], 0);
    IndexInnerClosed();
    assert "</" + "a" + ">" == "</a>";
  }

  lemma FixedInnerClosed()
    ensures Balanced(Scan("<a><b></b></a>", 0))
  {
    ScanFixedInnerClosed();
    BalancedFixedInnerClosed();
  }

  lemma ScanFixedInnerClosed()
    ensures Scan("<a><b></b></a>", 0)
      == [Tag("a", false, 0, 2), Tag("b", false, 3, 5), Tag("b", true, 6, 9), Tag("a", true, 10, 13)]
  {
    FirstTagFixedInnerClosed();
    ScanFixedInnerClosedTail();
    ScanReads("<a><b></b></a>", 0, 2, Tag("a", false, 0, 2), [Tag("b", false, 3, 5), Tag("b", true, 6, 9), Tag("a", true, 10, 13)]);
  }

  lemma FirstTagFixedInnerClosed()
    ensures Find("<a><b></b></a>", '>', 0) == Some(2)
    ensures ReadTag("<a><b></b></a>", 0, 2) == Tag("a", false, 0, 2)
  {
    assert "<a><b></b></a>"[1..2] == "a";
  }

  lemma ScanFixedInnerClosedTail()
    ensures Scan("<a><b></b></a>", 3) == [Tag("b", false, 3, 5), Tag("b", true, 6, 9), Tag("a", true, 10, 13)]
  {
    var x := "<a><b></b></a>";
    assert Find(x, '>', 3) == Some(5);
    assert Find(x, '>', 6) == Some(9);
    assert Find(x, '>', 10) == Some(13);
    ScanAtTag(x, 3, 5);
    assert ReadTag(x, 3, 5) == Tag("b", false, 3, 5);
    ScanAtTag(x, 6, 9);
    assert ReadTag(x, 6, 9) == Tag("b", true, 6, 9);
    ScanAtTag(x, 10, 13);
    assert ReadTag(x, 10, 13) == Tag("a", true, 10, 13);
    assert x[4..5] == "b" && x[7..9] == "/b" && x[11..13] == "/a";
  }

  lemma BalancedFixedInnerClosed()
    ensures Balanced([Tag("a", false, 0, 2), Tag("b", false, 3, 5), Tag("b", true, 6, 9), Tag("a", true, 10, 13)])
  {
    var t0, t1, t2, t3 := Tag("a", false, 0, 2), Tag("b", false, 3, 5), Tag("b", true, 6, 9), Tag("a", true, 10, 13);
    var ts := [t0, t1, t2, t3];
    assert ts[1..] == [t1, t2, t3] && ts[1..][1..] == [t2, t3] && ts[1..][1..][1..] == [t3];
    var e: seq<string> := [];
    assert e + ["a"] == ["a"] && ["a"] + ["b"] == ["a", "b"];
    assert ["a", "b"][..1] == ["a"] && ["a"][..0] == [];
    assert Run([t3], ["a"]) == Some([]);
    assert Run([t2, t3], ["a", "b"]) == Some([]);
  }

  /** Finding: where `correctindex` finds nothing wrong after the last
      pending opening tag it returns -1 and the source inserts there (the
      model's `InsertOutOfRange`); the repaired corrector closes the tag at
      the end. */
  lemma ClosedAtEndOfDocument()
    ensures Correct("<a><b></b>") == Err(InsertOutOfRange)
    ensures CorrectFixed("<a><b></b>") == Ok("<a><b></b></a>")
    ensures Balanced(Scan("<a><b></b></a>", 0))
  {
    MismatchedInnerClosed();
    Phase1LeadingA("<a><b></b>");
    Phase2InnerClosed();
    InsertInnerClosed();
    FixedInnerClosed();
  }

  lemma InsertInnerClosed()
    ensures InsertAt("<a><b></b>", 10, "</a>") == "<a><b></b></a>"
  {
    var s := "<a><b></b>";
    assert s[..10] == s && s[10..] == [];
  }

  // `<a>text</b>`: the orphan closing tag is rewritten to close `<a>`.

  lemma ScanWrongCloser()
    ensures Scan("<a>text</b>", 0) == [Tag("a", false, 0, 2), Tag("b", true, 7, 10)]
  {
    var s := "<a>text</b>";
    assert Find(s, '>', 0) == Some(2);
    assert Find(s, '>', 7) == Some(10);
    ScanAtTag(s, 0, 2);
    assert ReadTag(s, 0, 2) == Tag("a", false, 0, 2);
    ScanAtText(s, 3);
    ScanAtText(s, 4);
    ScanAtText(s, 5);
    ScanAtText(s, 6);
    ScanAtTag(s, 7, 10);
    assert ReadTag(s, 7, 10) == Tag("b", true, 7, 10);
    assert s[1..2] == "a" && s[8..10] == "/b";
  }

  lemma MismatchedWrongCloser()
    ensures Mismatched("<a>text</b>") == [0, 7]
  {
    ScanWrongCloser();
    LocateWrongCloser();
    assert [7] + [0] == [7, 0];
    SortWrongCloser();
  }

  lemma SortWrongCloser()
    ensures SortAsc([7, 0]) == [0, 7]
  {
    assert [7, 0][1..] == [0] && [0][1..] == [];
    assert SortAsc([0]) == [0];
    assert InsertSorted(7, [] ) == [7];
    assert [0][1..] == [];
  }

  lemma LocateWrongCloser()
    ensures Locate([Tag("a", false, 0, 2), Tag("b", true, 7, 10)], [], [], []) == ([7], [0])
  {
    var t0, t1 := Tag("a", false, 0, 2), Tag("b", true, 7, 10);
    LocateCons(t0, [t1], [], [], []);
    assert [t0] + [t1] == [t0, t1];
    var e: seq<string> := [];
    var z: seq<int> := [];
    assert e + ["a"] == ["a"] && z + [0] == [0];
    LocateStepWrongCloser();
  }

  lemma LocateStepWrongCloser()
    ensures Locate([Tag("b", true, 7, 10)], ["a"], [0], []) == ([7], [0])
  {
    var t1 := Tag("b", true, 7, 10);
    var z: seq<int> := [];
    assert LastIndexOf(["a"], "b") == -1;
    LocateCons(t1, [], ["a"], [0], []);
    assert [t1] + [] == [t1];
    assert z + [7] == [7];
  }

  // `<book><title>Dune</title><author>Herbert</book>`, written as its seven
  // pieces: `</book>` erases the pending `<book>` from the middle of the
  // vectors, `<author>` stays pending and is the only report.

  lemma MismatchedBook()
    ensures Mismatched("<book>" + "<title>" + "Dune" + "</title>" + "<author>" + "Herbert" + "</book>") == [25]
  {
    ScanBook("<book>" + "<title>" + "Dune" + "</title>" + "<author>" + "Herbert" + "</book>");
    LocateBook();
    assert [] + [25] == [25];
    assert SortAsc([25]) == InsertSorted(25, SortAsc([]));
  }

  /** A `<`, a body without `>` and a `>` make one tag read from the body. */
  lemma TagBetween(s: string, a: nat, b: nat, body: string)
    requires a < b < |s| && s[a..b + 1] == "<" + body + ">"
    requires forall k :: 0 <= k < |body| ==> body[k] != '>'
    ensures Find(s, '>', a) == Some(b)
    ensures ReadTag(s, a, b)
      == if body != [] && body[0] == '/' then Tag(body[1..], true, a, b) else Tag(body, false, a, b)
  {
    var p := s[a..b + 1];
    assert |p| == |body| + 2 && p[0] == '<' && p[b - a] == '>';
    assert s[a] == p[0] && s[b] == p[b - a];
    forall k | a <= k < b
      ensures s[k] != '>'
    {
      if k > a {
        assert s[k] == p[k - a] == body[k - a - 1];
      }
    }
    assert p[1..b - a] == body;
    SliceOfSlice(s, a, b + 1, 1, b - a);
    FindSome(s, '>', a, b);
    FindFirst(s, '>', a);
  }

  lemma SliceOfSlice(s: string, a: nat, b: nat, i: nat, j: nat)
    requires a <= b <= |s| && i <= j <= b - a
    ensures s[a..b][i..j] == s[a + i..a + j]
  {
    var x, y := s[a..b][i..j], s[a + i..a + j];
    forall k | 0 <= k < |x|
      ensures x[k] == y[k]
    {
      assert x[k] == s[a + i + k] == y[k];
    }
  }

  /** A stretch of text without `<` is skipped by the scan. */
  lemma TextBetween(s: string, a: nat, b: nat, text: string)
    requires a <= b <= |s| && s[a..b] == text
    requires forall k :: 0 <= k < |text| ==> text[k] != '<'
    ensures Scan(s, a) == Scan(s, b)
  {
    forall k | a <= k < b
      ensures s[k] != '<'
    {
      assert s[k] == s[a..b][k - a];
    }
    ScanOverText(s, a, b);
  }

  lemma ScanBook(s: string)
    requires s == "<book>" + "<title>" + "Dune" + "</title>" + "<author>" + "Herbert" + "</book>"
    ensures Scan(s, 0)
      == [Tag("book", false, 0, 5), Tag("title", false, 6, 12), Tag("title", true, 17, 24),
          Tag("author", false, 25, 32), Tag("book", true, 40, 46)]
  {
    BookHeadPieces(s);
    BookTailPieces(s);
    ScanBookHead(s);
    ScanBookTail(s);
  }

  lemma BookHeadPieces(s: string)
    requires s == "<book>" + "<title>" + "Dune" + "</title>" + "<author>" + "Herbert" + "</book>"
    ensures |s| == 47 && s[0..6] == "<book>" && s[6..13] == "<title>" && s[13..17] == "Dune"
  {
  }

  lemma BookTailPieces(s: string)
    requires s == "<book>" + "<title>" + "Dune" + "</title>" + "<author>" + "Herbert" + "</book>"
    ensures s[17..25] == "</title>" && s[25..33] == "<author>" && s[33..40] == "Herbert" && s[40..47] == "</book>"
  {
  }

  lemma ScanBookHead(s: string)
    requires |s| == 47 && s[0..6] == "<book>" && s[6..13] == "<title>" && s[13..17] == "Dune"
    ensures Scan(s, 0) == [Tag("book", false, 0, 5), Tag("title", false, 6, 12)] + Scan(s, 17)
  {
    assert "<book>" == "<" + "book" + ">" && "<title>" == "<" + "title" + ">";
    TagBetween(s, 0, 5, "book");
    TagBetween(s, 6, 12, "title");
    TextBetween(s, 13, 17, "Dune");
    ScanAtTag(s, 0, 5);
    ScanAtTag(s, 6, 12);
  }

  lemma ScanBookTail(s: string)
    requires |s| == 47 && s[17..25] == "</title>" && s[25..33] == "<author>" && s[33..40] == "Herbert" && s[40..47] == "</book>"
    ensures Scan(s, 17) == [Tag("title", true, 17, 24), Tag("author", false, 25, 32), Tag("book", true, 40, 46)]
  {
    assert "</title>" == "<" + "/title" + ">" && "/title"[1..] == "title";
    TagBetween(s, 17, 24, "/title");
    ScanAtTag(s, 17, 24);
    ScanBookEnd(s);
  }

  lemma ScanBookEnd(s: string)
    requires |s| == 47 && s[25..33] == "<author>" && s[33..40] == "Herbert" && s[40..47] == "</book>"
    ensures Scan(s, 25) == [Tag("author", false, 25, 32), Tag("book", true, 40, 46)]
  {
    assert "<author>" == "<" + "author" + ">";
    TagBetween(s, 25, 32, "author");
    TextBetween(s, 33, 40, "Herbert");
    ScanAtTag(s, 25, 32);
    ScanBookCloser(s);
  }

  lemma ScanBookCloser(s: string)
    requires |s| == 47 && s[40..47] == "</book>"
    ensures Scan(s, 40) == [Tag("book", true, 40, 46)]
  {
    assert "</book>" == "<" + "/book" + ">" && "/book"[1..] == "book";
    TagBetween(s, 40, 46, "/book");
    ScanAtTag(s, 40, 46);
    assert Scan(s, 47) == [];
  }

  lemma LocateBook()
    ensures Locate([Tag("book", false, 0, 5), Tag("title", false, 6, 12), Tag("title", true, 17, 24),
                    Tag("author", false, 25, 32), Tag("book", true, 40, 46)], [], [], []) == ([], [25])
  {
    var t0, t1, t2, t3, t4 := Tag("book", false, 0, 5), Tag("title", false, 6, 12), Tag("title", true, 17, 24),
      Tag("author", false, 25, 32), Tag("book", true, 40, 46);
    var none: seq<int> := [];
    var e: seq<string> := [];
    LocateCons(t0, [t1, t2, t3, t4], [], [], []);
    assert [t0] + [t1, t2, t3, t4] == [t0, t1, t2, t3, t4];
    assert e + ["book"] == ["book"] && none + [0] == [0];
    LocateCons(t1, [t2, t3, t4], ["book"], [0], []);
    assert [t1] + [t2, t3, t4] == [t1, t2, t3, t4];
    assert ["book"] + ["title"] == ["book", "title"] && [0] + [6] == [0, 6];
    LocateBookTail();
  }

  /** From `</title>` on: the backward search finds `title` at index 1, and
      `</book>` then finds `book` at index 0 below the pending `author`. */
  lemma LocateBookTail()
    ensures Locate([Tag("title", true, 17, 24), Tag("author", false, 25, 32), Tag("book", true, 40, 46)],
                   ["book", "title"], [0, 6], []) == ([], [25])
  {
    var t2, t3, t4 := Tag("title", true, 17, 24), Tag("author", false, 25, 32), Tag("book", true, 40, 46);
    var none: seq<int> := [];
    assert LastIndexOf(["book", "title"], "title") == 1;
    LocateCons(t2, [t3, t4], ["book", "title"], [0, 6], []);
    assert [t2] + [t3, t4] == [t2, t3, t4];
    assert Remove(["book", "title"], 1) == ["book"] && Remove([0, 6], 1) == [0];
    LocateCons(t3, [t4], ["book"], [0], []);
    assert [t3] + [t4] == [t3, t4];
    assert ["book"] + ["author"] == ["book", "author"] && [0] + [25] == [0, 25];
    assert LastIndexOf(["book", "author"], "book") == 0;
    LocateCons(t4, [], ["book", "author"], [0, 25], []);
    assert [t4] + [] == [t4];
    assert Remove(["book", "author"], 0) == ["author"] && Remove([0, 25], 0) == [25];
  }

  /** The first phase on a reported opening tag followed by a reported
      closing tag: the closing tag is rewritten to close the opening one and
      nothing stays pending. */
  lemma PlanOpenerThenCloser(orig: string, p: nat, c: nat, q: nat, d: nat, name: string)
    requires p < |orig| && orig[p] == '<' && Find(orig, '>', p) == Some(c) && orig[p + 1] != '/'
    requires c < q < |orig| && orig[q] == '<' && Find(orig, '>', q) == Some(d) && orig[q + 1] == '/'
    requires orig[p + 1..c] == name
    ensures TagPositions(orig, [p, q])
    ensures Plan(orig, [p, q], 0, Pending([], [], [])) == Ok(Pending([Rewrite(q, d, "</" + name + ">")], [], []))
  {
    var ps := [p, q];
    assert TagPositions(orig, ps);
    var none := Pending([], [], []);
    PlanAtOpener(orig, ps, 0, none, c);
    var st := Pending([], [name], [p]);
    assert none.contents + [orig[p + 1..c]] == st.contents && none.index + [p + Delta([])] == st.index;
    PlanAtCloser(orig, ps, 1, st, d);
    var w := Rewrite(q, d, "</" + name + ">");
    assert st.rewrites + [w] == [w] && st.contents[..0] == [] && st.index[..0] == [];
  }

  /** One rewrite of the original string. */
  lemma RebuildOne(orig: string, w: Rewrite)
    requires w.start <= w.close < |orig|
    ensures Fits(orig, [w]) && Rebuild(orig, [w]) == orig[..w.start] + w.text + orig[w.close + 1..]
  {
    var none: seq<Rewrite> := [];
    SnocRewrite(orig, none, w);
    assert none + [w] == [w];
    assert Cut(none) == 0 && Head(orig, none) == [];
    assert Head(orig, [w]) == orig[..w.start] + w.text;
    assert Cut([w]) == w.close + 1;
  }

  lemma Phase1OpenerThenCloser(orig: string, p: nat, c: nat, q: nat, d: nat, name: string)
    requires p < |orig| && orig[p] == '<' && Find(orig, '>', p) == Some(c) && orig[p + 1] != '/'
    requires c < q < |orig| && orig[q] == '<' && Find(orig, '>', q) == Some(d) && orig[q + 1] == '/'
    requires orig[p + 1..c] == name
    ensures TagPositions(orig, [p, q])
    ensures Phase1(orig, [p, q]) == Ok((orig[..q] + "</" + name + ">" + orig[d + 1..], [], []))
  {
    PlanOpenerThenCloser(orig, p, c, q, d, name);
    var t := "</" + name + ">";
    RebuildOne(orig, Rewrite(q, d, t));
    assert orig[..q] + t + orig[d + 1..] == orig[..q] + "</" + name + ">" + orig[d + 1..];
  }

  lemma Phase1WrongCloser()
    ensures TagPositions("<a>text</b>", [0, 7])
    ensures Phase1("<a>text</b>", [0, 7]) == Ok(("<a>text</a>", [], []))
  {
    var s := "<a>text</b>";
    assert Find(s, '>', 0) == Some(2);
    assert Find(s, '>', 7) == Some(10);
    assert s[1..2] == "a";
    assert s[..7] + "</" + "a" + ">" + s[11..] == "<a>text</a>" by {
      assert s[..7] == "<a>text" && s[11..] == [];
    }
    Phase1OpenerThenCloser(s, 0, 2, 7, 10, "a");
  }
}
