/** `_formatting_function` and `_minifying_function` of XML_GUI.py (copied
    in GUI.py): the GUI's own pretty-printer, one tag or run of text per
    line, and its minifier, which strips every line and joins them. Both
    work on Python strings, so whitespace is `str.isspace` and line breaks
    are those of `str.splitlines`. */
module PyFormat {
  import opened Base

  // ---------------------------------------------------------------------
  // Python string primitives

  /** The characters of `s` that are not Python whitespace, in order. */
  function PyNonSpace(s: string): string
  {
    if s == [] then []
    else if PyIsSpace(Last(s)) then PyNonSpace(s[..|s| - 1])
    else PyNonSpace(s[..|s| - 1]) + [Last(s)]
  }

  lemma {:induction false} PyNonSpaceAppend(a: string, b: string)
    ensures PyNonSpace(a + b) == PyNonSpace(a) + PyNonSpace(b)
    decreases |b|
  {
    if b == [] {
      assert a + b == a;
    } else {
      var b' := b[..|b| - 1];
      assert (a + b)[..|a + b| - 1] == a + b';
      PyNonSpaceAppend(a, b');
    }
  }

  /** Three consecutive slices make up the whole. */
  lemma SplitThree<T>(s: seq<T>, a: nat, b: nat)
    requires a <= b <= |s|
    ensures s == s[..a] + s[a..b] + s[b..]
  {
  }

  /** Whitespace only, as `s.isspace() or s == ""`. */
  predicate Blank(s: string)
  {
    forall k :: 0 <= k < |s| ==> PyIsSpace(s[k])
  }

  /** Whitespace only has no characters left. */
  lemma {:induction false} PyNonSpaceBlank(s: string)
    requires Blank(s)
    ensures PyNonSpace(s) == []
  {
    if s != [] {
      PyNonSpaceBlank(s[..|s| - 1]);
    }
  }

  /** The first index at or after `from` whose character is not
      whitespace, or the length when there is none. */
  function FirstSolid(s: string, from: nat): (r: nat)
    ensures from <= r <= |s| || (r == |s| && from > |s|)
    decreases |s| - from
  {
    if from >= |s| then |s|
    else if !PyIsSpace(s[from]) then from
    else FirstSolid(s, from + 1)
  }

  /** Just past the last character before `to` that is not whitespace, or
      0 when there is none. */
  function EndSolid(s: string, to: nat): (r: nat)
    requires to <= |s|
    ensures r <= to
  {
    if to == 0 then 0
    else if !PyIsSpace(s[to - 1]) then to
    else EndSolid(s, to - 1)
  }

  lemma {:induction false} FirstSolidSpec(s: string, from: nat)
    requires from <= |s|
    ensures Blank(s[from..FirstSolid(s, from)])
    ensures FirstSolid(s, from) < |s| ==> !PyIsSpace(s[FirstSolid(s, from)])
    decreases |s| - from
  {
    if from < |s| && PyIsSpace(s[from]) {
      FirstSolidSpec(s, from + 1);
    }
  }

  lemma {:induction false} EndSolidSpec(s: string, to: nat)
    requires to <= |s|
    ensures Blank(s[EndSolid(s, to)..to])
    ensures EndSolid(s, to) > 0 ==> !PyIsSpace(s[EndSolid(s, to) - 1])
  {
    if to > 0 && PyIsSpace(s[to - 1]) {
      EndSolidSpec(s, to - 1);
      var e := EndSolid(s, to);
      forall k | 0 <= k < to - e
        ensures PyIsSpace(s[e..to][k])
      {
        if k < to - 1 - e {
          assert s[e..to][k] == s[e..to - 1][k];
        } else {
          assert s[e..to][k] == s[to - 1];
        }
      }
    }
  }

  /** `s.strip()`: the part between the leading and the trailing
      whitespace, which starts at the first character that is not
      whitespace and ends at the last. */
  function Strip(s: string): (r: string)
    ensures |r| <= |s|
  {
    var a, b := FirstSolid(s, 0), EndSolid(s, |s|);
    if a < b then s[a..b] else ""
  }

  /** A string that starts and ends with a character that is not
      whitespace, or is empty. */
  predicate Stripped(s: string)
  {
    s == [] || (!PyIsSpace(s[0]) && !PyIsSpace(Last(s)))
  }

  /** `strip` leaves a part that starts and ends with a character that is
      not whitespace. */
  lemma StripIsStripped(s: string)
    ensures Stripped(Strip(s))
  {
    FirstSolidSpec(s, 0);
    EndSolidSpec(s, |s|);
  }

  /** `strip` leaves the middle part of `s` between its leading and its
      trailing whitespace, or nothing when `s` is blank. */
  lemma StripBounds(s: string)
    ensures FirstSolid(s, 0) < EndSolid(s, |s|) ==> Strip(s) == s[FirstSolid(s, 0)..EndSolid(s, |s|)]
    ensures FirstSolid(s, 0) >= EndSolid(s, |s|) ==> Strip(s) == [] && Blank(s)
  {
    FirstSolidSpec(s, 0);
    var a := FirstSolid(s, 0);
    if a < |s| {
      EndSolidPast(s, |s|, a);
    }
  }

  /** A character that is not whitespace before `to` keeps the end past
      it. */
  lemma {:induction false} EndSolidPast(s: string, to: nat, a: nat)
    requires a < to <= |s| && !PyIsSpace(s[a])
    ensures a < EndSolid(s, to)
  {
    if PyIsSpace(s[to - 1]) {
      EndSolidPast(s, to - 1, a);
    }
  }

  /** `strip` keeps every character that is not whitespace. */
  lemma StripKeepsNonSpace(s: string)
    ensures PyNonSpace(Strip(s)) == PyNonSpace(s)
  {
    StripBounds(s);
    FirstSolidSpec(s, 0);
    EndSolidSpec(s, |s|);
    var a, b := FirstSolid(s, 0), EndSolid(s, |s|);
    if a < b {
      assert s[..a] == s[0..a] && s[b..] == s[b..|s|];
      SplitThree(s, a, b);
      PyNonSpaceAppend(s[..a] + s[a..b], s[b..]);
      PyNonSpaceAppend(s[..a], s[a..b]);
      PyNonSpaceBlank(s[..a]);
      PyNonSpaceBlank(s[b..]);
    } else {
      PyNonSpaceBlank(s);
    }
  }

  /** A line is dropped exactly when it is whitespace only. */
  lemma StripEmptyIff(s: string)
    ensures Strip(s) == [] <==> Blank(s)
  {
    StripBounds(s);
    FirstSolidSpec(s, 0);
    var a, b := FirstSolid(s, 0), EndSolid(s, |s|);
    if a < b {
      assert Strip(s)[0] == s[a];
      assert !PyIsSpace(s[a]);
      assert !Blank(s);
    }
  }

  /** `strip` changes nothing on a string that is already stripped. */
  lemma StripStripped(s: string)
    requires Stripped(s)
    ensures Strip(s) == s
  {
    if s != [] {
      assert FirstSolid(s, 0) == 0;
      assert EndSolid(s, |s|) == |s|;
      assert s[0..|s|] == s;
    }
  }

  /** Every character of `Strip(s)` comes from `s`. */
  lemma StripFrom(s: string)
    ensures forall k :: 0 <= k < |Strip(s)| ==> Strip(s)[k] in s
  {
    var a, b := FirstSolid(s, 0), EndSolid(s, |s|);
    forall k | 0 <= k < |Strip(s)|
      ensures Strip(s)[k] in s
    {
      assert Strip(s)[k] == s[a + k];
    }
  }

  /** The concatenation of a list of strings, as `"".join`. */
  function Concat(ls: seq<string>): string
  {
    if ls == [] then "" else ls[0] + Concat(ls[1..])
  }

  lemma {:induction false} ConcatSnoc(ls: seq<string>, x: string)
    ensures Concat(ls + [x]) == Concat(ls) + x
  {
    if ls == [] {
      assert [] + [x] == [x];
      assert Concat([x]) == x + Concat([]);
    } else {
      assert (ls + [x])[1..] == ls[1..] + [x];
      ConcatSnoc(ls[1..], x);
    }
  }

  /** `sep.join(ls)`. */
  function Join(ls: seq<string>, sep: string): string
  {
    if ls == [] then ""
    else if |ls| == 1 then ls[0]
    else ls[0] + sep + Join(ls[1..], sep)
  }

  /** Joining with a separator of whitespace keeps the same non-whitespace
      characters as plain concatenation. */
  lemma {:induction false} JoinNonSpace(ls: seq<string>, sep: string)
    requires Blank(sep)
    ensures PyNonSpace(Join(ls, sep)) == PyNonSpace(Concat(ls))
  {
    if |ls| == 1 {
      assert ls[1..] == [];
      assert Concat(ls) == ls[0] + Concat([]);
      assert Concat(ls) == ls[0];
    } else if |ls| > 1 {
      JoinNonSpace(ls[1..], sep);
      PyNonSpaceAppend(ls[0] + sep, Join(ls[1..], sep));
      PyNonSpaceAppend(ls[0], sep);
      PyNonSpaceBlank(sep);
      PyNonSpaceAppend(ls[0], Concat(ls[1..]));
    }
  }

  function StartsWith(s: string, prefix: string): bool
  {
    |prefix| <= |s| && s[..|prefix|] == prefix
  }

  function EndsWith(s: string, suffix: string): bool
  {
    |suffix| <= |s| && s[|s| - |suffix|..] == suffix
  }

  // ---------------------------------------------------------------------
  // _formatting_function

  /** The loop's variables between two characters: the lines so far, the
      indentation level and the piece being collected. */
  datatype Layout = Layout(output: seq<string>, level: int, currentTag: string)

  /** `" " * (indentation_level * 2) + piece.strip()`; a negative level
      gives no blanks. */
  function Indented(level: int, piece: string): string
  {
    Spaces(level * 2) + Strip(piece)
  }

  /** One character of the input, as the body of the `for` loop. */
  function FormatStep(st: Layout, ch: char): Layout
  {
    if ch == '<' then
      var out := if Strip(st.currentTag) != [] then st.output + [Indented(st.level, st.currentTag)] else st.output;
      Layout(out, st.level, "<")
    else if ch == '>' then
      var tag := st.currentTag + ">";
      var level := if StartsWith(tag, "</") then st.level - 1 else st.level;
      var out := st.output + [Indented(level, tag)];
      var next := if !StartsWith(tag, "</") && !EndsWith(tag, "/>") then level + 1 else level;
      Layout(out, next, "")
    else st.(currentTag := st.currentTag + [ch])
  }

  /** The state after the characters of `s`. */
  function FormatRun(s: string): Layout
  {
    if s == [] then Layout([], 0, "") else FormatStep(FormatRun(s[..|s| - 1]), Last(s))
  }

  /** The list `output` at the end: the last piece is added when it is not
      blank. */
  function FormatLines(xml: string): seq<string>
  {
    var st := FormatRun(xml);
    if Strip(st.currentTag) != [] then st.output + [Indented(st.level, st.currentTag)] else st.output
  }

  /** What `_formatting_function` returns: empty exactly when no line was
      written. */
  function Formatted(xml: string): (r: string)
    ensures r == [] <==> FormatLines(xml) == []
  {
    FormatLinesAreLines(xml);
    Join(FormatLines(xml), "\n")
  }

  method FormattingFunction(xml: string) returns (r: string)
    ensures r == Formatted(xml)
  {
    var output: seq<string> := [];
    var indentationLevel := 0;
    var currentTag := "";
    for i := 0 to |xml|
      invariant FormatRun(xml[..i]) == Layout(output, indentationLevel, currentTag)
    {
      var ch := xml[i];
      assert xml[..i + 1][..i] == xml[..i];
      if ch == '<' {
        if Strip(currentTag) != [] {
          output := output + [Spaces(indentationLevel * 2) + Strip(currentTag)];
        }
        currentTag := [ch];
      } else if ch == '>' {
        currentTag := currentTag + [ch];
        if StartsWith(currentTag, "</") {
          indentationLevel := indentationLevel - 1;
        }
        output := output + [Spaces(indentationLevel * 2) + Strip(currentTag)];
        if !StartsWith(currentTag, "</") && !EndsWith(currentTag, "/>") {
          indentationLevel := indentationLevel + 1;
        }
        currentTag := "";
      } else {
        currentTag := currentTag + [ch];
      }
    }
    assert xml[..|xml|] == xml;
    if Strip(currentTag) != [] {
      output := output + [Spaces(indentationLevel * 2) + Strip(currentTag)];
    }
    r := Join(output, "\n");
  }

  /** A line of the output: not blank, no whitespace at its end, and
      only blanks before its first character that is not whitespace. */
  predicate IsLine(line: string)
  {
    Strip(line) != [] && EndSolid(line, |line|) == |line|
    && forall k :: 0 <= k < FirstSolid(line, 0) ==> line[k] == ' '
  }

  /** An indented piece that is not blank is a line. */
  lemma IndentedLine(level: int, piece: string)
    requires Strip(piece) != []
    ensures IsLine(Indented(level, piece))
  {
    StripIsStripped(piece);
    var pad, body := Spaces(level * 2), Strip(piece);
    var t := pad + body;
    SolidAfterPad(pad, body, 0);
    assert Last(t) == Last(body);
    assert t[|pad|..|t|] == body;
  }

  /** Past the blanks of the indentation, the first character that is not
      whitespace is the piece's first. */
  lemma {:induction false} SolidAfterPad(pad: string, body: string, k: nat)
    requires forall j :: 0 <= j < |pad| ==> pad[j] == ' '
    requires body != [] && Stripped(body) && k <= |pad|
    ensures FirstSolid(pad + body, k) == |pad|
    decreases |pad| - k
  {
    var t := pad + body;
    if k < |pad| {
      assert t[k] == ' ';
      SolidAfterPad(pad, body, k + 1);
    } else {
      assert t[k] == body[0];
    }
  }

  /** Every line written so far is a line. */
  predicate AllLines(out: seq<string>)
  {
    forall k :: 0 <= k < |out| ==> IsLine(out[k])
  }

  /** No character that is not whitespace has been lost or reordered: those
      of the lines and of the piece are those read. */
  predicate KeptSolid(st: Layout, seen: string)
  {
    PyNonSpace(Concat(st.output)) + PyNonSpace(st.currentTag) == PyNonSpace(seen)
  }

  lemma AllLinesSnoc(out: seq<string>, line: string)
    requires AllLines(out) && IsLine(line)
    ensures AllLines(out + [line])
  {
    assert forall k :: 0 <= k < |out| ==> (out + [line])[k] == out[k];
  }

  /** Writing a piece as a line adds exactly its characters that are not
      whitespace. */
  lemma EmitNonSpace(out: seq<string>, level: int, piece: string)
    ensures PyNonSpace(Concat(out + [Indented(level, piece)])) == PyNonSpace(Concat(out)) + PyNonSpace(piece)
  {
    var line := Indented(level, piece);
    ConcatSnoc(out, line);
    PyNonSpaceAppend(Concat(out), line);
    IndentedNonSpace(level, piece);
  }

  /** The indentation adds no character that is not whitespace. */
  lemma IndentedNonSpace(level: int, piece: string)
    ensures PyNonSpace(Indented(level, piece)) == PyNonSpace(piece)
  {
    var pad := Spaces(level * 2);
    PyNonSpaceAppend(pad, Strip(piece));
    PyNonSpaceBlank(pad);
    StripKeepsNonSpace(piece);
  }

  /** A tag ends with `>` and so is never blank. */
  lemma TagNotBlank(cur: string)
    ensures Strip(cur + ">") != []
  {
    var tag := cur + ">";
    StripEmptyIff(tag);
    assert !PyIsSpace(tag[|tag| - 1]);
  }

  /** Every step writes lines only. */
  lemma StepLines(st: Layout, ch: char)
    requires AllLines(st.output)
    ensures AllLines(FormatStep(st, ch).output)
  {
    if ch == '<' {
      if Strip(st.currentTag) != [] {
        IndentedLine(st.level, st.currentTag);
        AllLinesSnoc(st.output, Indented(st.level, st.currentTag));
      }
    } else if ch == '>' {
      var tag := st.currentTag + ">";
      var level := if StartsWith(tag, "</") then st.level - 1 else st.level;
      TagNotBlank(st.currentTag);
      IndentedLine(level, tag);
      AllLinesSnoc(st.output, Indented(level, tag));
    }
  }

  /** At `<`, the piece collected so far is written when it is not
      blank, and `<` starts the next one. */
  lemma OpenStepKept(st: Layout, seen: string)
    requires KeptSolid(st, seen)
    ensures KeptSolid(FormatStep(st, '<'), seen + "<")
  {
    PyNonSpaceAppend(seen, "<");
    assert "<"[..0] == [];
    if Strip(st.currentTag) != [] {
      EmitNonSpace(st.output, st.level, st.currentTag);
    } else {
      StripEmptyIff(st.currentTag);
      PyNonSpaceBlank(st.currentTag);
    }
  }

  /** At `>`, the tag with its `>` is written. */
  lemma CloseStepKept(st: Layout, seen: string)
    requires KeptSolid(st, seen)
    ensures KeptSolid(FormatStep(st, '>'), seen + ">")
  {
    var tag := st.currentTag + ">";
    var level := if StartsWith(tag, "</") then st.level - 1 else st.level;
    CloseKept(st.output, st.currentTag, seen, level);
  }

  lemma CloseKept(out: seq<string>, cur: string, seen: string, level: int)
    requires PyNonSpace(Concat(out)) + PyNonSpace(cur) == PyNonSpace(seen)
    ensures PyNonSpace(Concat(out + [Indented(level, cur + ">")])) + PyNonSpace("") == PyNonSpace(seen + ">")
  {
    var tag := cur + ">";
    var line := Indented(level, tag);
    EmitNonSpace(out, level, tag);
    PyNonSpaceAppend(cur, ">");
    PyNonSpaceAppend(seen, ">");
    assert PyNonSpace("") == [];
    ConcatAssoc(PyNonSpace(Concat(out)), PyNonSpace(cur), PyNonSpace(">"));
  }

  /** Any other character joins the piece. */
  lemma OtherStepKept(st: Layout, seen: string, ch: char)
    requires KeptSolid(st, seen) && ch != '<' && ch != '>'
    ensures KeptSolid(FormatStep(st, ch), seen + [ch])
  {
    PyNonSpaceAppend(seen, [ch]);
    PyNonSpaceAppend(st.currentTag, [ch]);
  }

  lemma StepKept(st: Layout, seen: string, ch: char)
    requires KeptSolid(st, seen)
    ensures KeptSolid(FormatStep(st, ch), seen + [ch])
  {
    if ch == '<' {
      OpenStepKept(st, seen);
    } else if ch == '>' {
      CloseStepKept(st, seen);
    } else {
      OtherStepKept(st, seen, ch);
    }
  }

  /** What every state reached after reading `s` satisfies. */
  lemma {:induction false} FormatRunGood(s: string)
    ensures AllLines(FormatRun(s).output) && KeptSolid(FormatRun(s), s)
  {
    if s != [] {
      var init := s[..|s| - 1];
      FormatRunGood(init);
      StepLines(FormatRun(init), Last(s));
      StepKept(FormatRun(init), init, Last(s));
      assert init + [Last(s)] == s;
    }
  }

  /** Every line of the formatted output is blanks followed by a piece
      that is not blank and has no whitespace at either end. */
  lemma FormatLinesAreLines(xml: string)
    ensures forall k :: 0 <= k < |FormatLines(xml)| ==> IsLine(FormatLines(xml)[k])
  {
    FormatRunGood(xml);
    var st := FormatRun(xml);
    if Strip(st.currentTag) != [] {
      IndentedLine(st.level, st.currentTag);
      AllLinesSnoc(st.output, Indented(st.level, st.currentTag));
    }
    assert AllLines(FormatLines(xml));
  }

  /** `_formatting_function` loses, adds and reorders no character that is
      not whitespace. */
  lemma FormatKeepsNonSpace(xml: string)
    ensures PyNonSpace(Formatted(xml)) == PyNonSpace(xml)
  {
    FormatRunGood(xml);
    var st := FormatRun(xml);
    JoinNonSpace(FormatLines(xml), "\n");
    if Strip(st.currentTag) != [] {
      EmitNonSpace(st.output, st.level, st.currentTag);
    } else {
      StripEmptyIff(st.currentTag);
      PyNonSpaceBlank(st.currentTag);
    }
  }

  // ---------------------------------------------------------------------
  // Indentation levels of _formatting_function

  /** A tag that lowers the level before it is written. */
  predicate Closer(tag: string)
  {
    StartsWith(tag, "</")
  }

  /** A tag that raises the level after it is written. */
  predicate Opener(tag: string)
  {
    !StartsWith(tag, "</") && !EndsWith(tag, "/>")
  }

  /** At `>`, a closing tag is written one level lower and leaves the
      level lowered. */
  lemma CloserStep(st: Layout)
    requires Closer(st.currentTag + ">")
    ensures FormatStep(st, '>') == Layout(st.output + [Indented(st.level - 1, st.currentTag + ">")], st.level - 1, "")
  {
  }

  /** At `>`, an opening tag is written at the level and raises it
      afterwards. */
  lemma OpenerStep(st: Layout)
    requires Opener(st.currentTag + ">")
    ensures FormatStep(st, '>') == Layout(st.output + [Indented(st.level, st.currentTag + ">")], st.level + 1, "")
  {
  }

  /** At `>`, a tag ending with `/>` is written at the level and leaves it
      as it was. */
  lemma SelfClosingStep(st: Layout)
    requires !Closer(st.currentTag + ">") && EndsWith(st.currentTag + ">", "/>")
    ensures FormatStep(st, '>') == Layout(st.output + [Indented(st.level, st.currentTag + ">")], st.level, "")
  {
  }

  /** At `<`, the pending text is written at the level when it is not
      blank; the level stays. */
  lemma TextStep(st: Layout)
    ensures FormatStep(st, '<').level == st.level && FormatStep(st, '<').currentTag == "<"
    ensures FormatStep(st, '<').output == st.output + if Strip(st.currentTag) != [] then [Indented(st.level, st.currentTag)] else []
  {
  }

  /** The piece pending after `s`: from its last `<` on, or what follows
      its last `>`, or all of `s` when it has neither. */
  function Piece(s: string): (r: string)
    ensures |r| <= |s| && r == s[|s| - |r|..]
  {
    if s == [] then ""
    else if Last(s) == '>' then ""
    else if Last(s) == '<' then "<"
    else Piece(s[..|s| - 1]) + [Last(s)]
  }

  /** The tags completed in `s`, in order: the pending piece before each
      `>`, with that `>`. */
  function Tags(s: string): seq<string>
  {
    if s == [] then []
    else if Last(s) == '>' then Tags(s[..|s| - 1]) + [Piece(s[..|s| - 1]) + ">"]
    else Tags(s[..|s| - 1])
  }

  /** How many of `tags` open an element. */
  function Openers(tags: seq<string>): nat
  {
    if tags == [] then 0 else Openers(tags[..|tags| - 1]) + if Opener(Last(tags)) then 1 else 0
  }

  /** How many of `tags` close one. */
  function Closers(tags: seq<string>): nat
  {
    if tags == [] then 0 else Closers(tags[..|tags| - 1]) + if Closer(Last(tags)) then 1 else 0
  }

  /** The nesting depth after `tags`: the openers less the closers, below
      zero when more closing tags than opening ones were read. */
  function Depth(tags: seq<string>): int
  {
    Openers(tags) - Closers(tags)
  }

  /** The line of the text pending after `s`, written at its depth. */
  function TextLine(s: string): string
  {
    Indented(Depth(Tags(s)), Piece(s))
  }

  /** The line of the tag that a `>` after `s` completes: at the depth of
      the tags before it, one lower for a closing tag. */
  function TagLine(s: string): string
  {
    var tag := Piece(s) + ">";
    Indented(Depth(Tags(s)) - (if Closer(tag) then 1 else 0), tag)
  }

  /** The lines written while reading `s`: at each `<` the text pending
      when it is not blank, at each `>` the tag it completes. */
  function Emitted(s: string): seq<string>
  {
    if s == [] then []
    else
      var init := s[..|s| - 1];
      if Last(s) == '<' then Emitted(init) + if Strip(Piece(init)) != [] then [TextLine(init)] else []
      else if Last(s) == '>' then Emitted(init) + [TagLine(init)]
      else Emitted(init)
  }

  /** After reading `s`, the level is the number of opening tags less that
      of closing tags (negative when closers outnumber openers), the piece
      pending is `Piece(s)` and the lines are those `Emitted(s)` lists. */
  lemma {:induction false} FormatRunState(s: string)
    ensures FormatRun(s).level == Openers(Tags(s)) - Closers(Tags(s))
    ensures FormatRun(s).currentTag == Piece(s)
    ensures FormatRun(s).output == Emitted(s)
  {
    if s != [] {
      var init := s[..|s| - 1];
      FormatRunState(init);
      assert init + [Last(s)] == s;
      StepState(FormatRun(init), init, Last(s));
    }
  }

  /** One character takes the state described for `init` to the one
      described for `init + [c]`. */
  lemma StepState(st: Layout, init: string, c: char)
    requires st == Layout(Emitted(init), Depth(Tags(init)), Piece(init))
    ensures FormatStep(st, c) == Layout(Emitted(init + [c]), Depth(Tags(init + [c])), Piece(init + [c]))
  {
    SnocUnfold(init, c);
    if c == '>' {
      TagStepState(st, init);
    } else if c == '<' {
      TextStep(st);
    }
  }

  /** At `>`, the tag completed is written at the depth `TagLine` gives,
      and the depth moves as the tag says. */
  lemma TagStepState(st: Layout, init: string)
    requires st.level == Depth(Tags(init)) && st.currentTag == Piece(init)
    ensures FormatStep(st, '>') == Layout(st.output + [TagLine(init)], Depth(Tags(init + ">")), "")
  {
    DepthOnTag(init);
    var tag := Piece(init) + ">";
    assert st.currentTag + ">" == tag;
    if Closer(tag) {
      CloserStep(st);
    } else if Opener(tag) {
      OpenerStep(st);
    } else {
      SelfClosingStep(st);
    }
  }

  /** A `>` adds the tag it completes to the depth: one more for an
      opener, one less for a closer. */
  lemma DepthOnTag(init: string)
    ensures var tag := Piece(init) + ">";
      Depth(Tags(init + ">")) == Depth(Tags(init)) + (if Opener(tag) then 1 else 0) - (if Closer(tag) then 1 else 0)
  {
    SnocUnfold(init, '>');
    var tags := Tags(init + ">");
    assert tags[..|tags| - 1] == Tags(init);
  }

  /** What `Piece`, `Tags` and `Emitted` are one character further. */
  lemma SnocUnfold(init: string, c: char)
    ensures Piece(init + [c]) == if c == '>' then "" else if c == '<' then "<" else Piece(init) + [c]
    ensures Tags(init + [c]) == Tags(init) + if c == '>' then [Piece(init) + ">"] else []
    ensures Emitted(init + [c]) == if c == '<' then Emitted(init) + (if Strip(Piece(init)) != [] then [TextLine(init)] else [])
      else if c == '>' then Emitted(init) + [TagLine(init)] else Emitted(init)
  {
    var s := init + [c];
    assert s[..|s| - 1] == init && Last(s) == c;
  }

  /** The formatted lines: the tags and texts in the order read, each one
      the blanks of twice its depth followed by the stripped piece, and
      the text left at the end when it is not blank. */
  lemma FormatLinesSpec(xml: string)
    ensures FormatLines(xml) == Emitted(xml) + if Strip(Piece(xml)) != [] then [TextLine(xml)] else []
  {
    FormatRunState(xml);
    assert FormatRun(xml) == Layout(Emitted(xml), Depth(Tags(xml)), Piece(xml));
  }

  /** A closing tag at depth zero or below is written without blanks, as
      `" " * -2` is the empty string. */
  lemma UnmatchedCloser(level: int, tag: string)
    requires level <= 0 && Closer(tag)
    ensures Indented(level - 1, tag) == Strip(tag)
  {
    assert Spaces((level - 1) * 2) == "";
  }

  /** A stripped closing tag completed at level zero or below is written
      as it is, without blanks, and leaves the level below zero. */
  lemma ClosingAt(st: Layout, tag: string)
    requires st.level <= 0 && tag == st.currentTag + ">" && Closer(tag) && Stripped(tag)
    ensures FormatStep(st, '>') == Layout(st.output + [tag], st.level - 1, "")
  {
    CloserStep(st);
    StripStripped(tag);
    UnmatchedCloser(st.level, tag);
  }

  // ---------------------------------------------------------------------
  // _minifying_function

  /** The first line break at or after `from`. */
  function BreakAt(s: string, from: nat): (r: Option<nat>)
    ensures r.Some? ==> from <= r.value < |s| && PyLineBreak(s[r.value])
    ensures r.Some? ==> forall k :: from <= k < r.value ==> !PyLineBreak(s[k])
    ensures r.None? ==> forall k :: from <= k < |s| ==> !PyLineBreak(s[k])
    decreases |s| - from
  {
    if from >= |s| then None
    else if PyLineBreak(s[from]) then Some(from)
    else BreakAt(s, from + 1)
  }

  /** `s.splitlines()`: the lines without their breaks, `\r\n` counting as
      one break, and no empty line after a final break. */
  function SplitLines(s: string): (r: seq<string>)
    ensures |r| <= |s| && (s != [] ==> r != [])
    decreases |s|
  {
    match BreakAt(s, 0)
    case None => if s == [] then [] else [s]
    case Some(k) =>
      var width := if s[k] == '\r' && k + 1 < |s| && s[k + 1] == '\n' then 2 else 1;
      [s[..k]] + SplitLines(s[k + width..])
  }

  /** The generator of `_minifying_function`: each line stripped, the
      blank ones left out. */
  function NonBlank(lines: seq<string>): seq<string>
  {
    if lines == [] then []
    else if Strip(lines[0]) != [] then [Strip(lines[0])] + NonBlank(lines[1..])
    else NonBlank(lines[1..])
  }

  /** What `_minifying_function` returns: never longer than its input. */
  function Minified(xml: string): (r: string)
    ensures |r| <= |xml|
  {
    SplitLinesLength(xml);
    NonBlankLength(SplitLines(xml));
    Concat(NonBlank(SplitLines(xml)))
  }

  /** Splitting only drops line breaks. */
  lemma {:induction false} SplitLinesLength(s: string)
    ensures |Concat(SplitLines(s))| <= |s|
    decreases |s|
  {
    match BreakAt(s, 0)
    case None =>
      if s != [] {
        assert Concat([s]) == s + Concat([]);
      }
    case Some(k) =>
      var width := if s[k] == '\r' && k + 1 < |s| && s[k + 1] == '\n' then 2 else 1;
      SplitLinesLength(s[k + width..]);
      var ls := [s[..k]] + SplitLines(s[k + width..]);
      assert ls[0] == s[..k] && ls[1..] == SplitLines(s[k + width..]);
  }

  /** Stripping and leaving lines out only makes the text shorter. */
  lemma {:induction false} NonBlankLength(lines: seq<string>)
    ensures |Concat(NonBlank(lines))| <= |Concat(lines)|
  {
    if lines != [] {
      NonBlankLength(lines[1..]);
      if Strip(lines[0]) != [] {
        var ls := [Strip(lines[0])] + NonBlank(lines[1..]);
        assert ls[0] == Strip(lines[0]) && ls[1..] == NonBlank(lines[1..]);
      }
    }
  }

  /** No line holds a line break. */
  lemma {:induction false} SplitLinesNoBreak(s: string)
    ensures forall j, k :: 0 <= j < |SplitLines(s)| && 0 <= k < |SplitLines(s)[j]| ==> !PyLineBreak(SplitLines(s)[j][k])
    decreases |s|
  {
    match BreakAt(s, 0)
    case None =>
    case Some(k) =>
      var width := if s[k] == '\r' && k + 1 < |s| && s[k + 1] == '\n' then 2 else 1;
      SplitLinesNoBreak(s[k + width..]);
  }

  /** Splitting drops only line breaks. */
  lemma {:induction false} SplitLinesNonSpace(s: string)
    ensures PyNonSpace(Concat(SplitLines(s))) == PyNonSpace(s)
    decreases |s|
  {
    match BreakAt(s, 0)
    case None =>
      if s != [] {
        assert [s][1..] == [];
        assert Concat([s]) == s + Concat([]);
        assert Concat([s]) == s;
      }
    case Some(k) =>
      var width := if s[k] == '\r' && k + 1 < |s| && s[k + 1] == '\n' then 2 else 1;
      var rest := s[k + width..];
      SplitLinesNonSpace(rest);
      BreakBlank(s, k, width);
      SplitStep(s, k, k + width, SplitLines(rest));
  }

  /** A line break, `\r\n` included, is whitespace. */
  lemma BreakBlank(s: string, k: nat, width: nat)
    requires k < |s| && PyLineBreak(s[k])
    requires width == if s[k] == '\r' && k + 1 < |s| && s[k + 1] == '\n' then 2 else 1
    ensures k + width <= |s| && Blank(s[k..k + width])
  {
    var gap := s[k..k + width];
    LineBreakIsSpace(s[k]);
    assert gap[0] == s[k];
    if width == 2 {
      assert gap[1] == '\n';
    }
  }

  /** One line and the lines after the break keep what the text keeps. */
  lemma SplitStep(s: string, k: nat, e: nat, more: seq<string>)
    requires k <= e <= |s| && Blank(s[k..e])
    requires PyNonSpace(Concat(more)) == PyNonSpace(s[e..])
    ensures PyNonSpace(Concat([s[..k]] + more)) == PyNonSpace(s)
  {
    var ls := [s[..k]] + more;
    assert ls[0] == s[..k] && ls[1..] == more;
    PyNonSpaceAppend(s[..k], Concat(more));
    BreakGap(s, k, e);
  }

  /** Whitespace between two parts contributes nothing. */
  lemma BlankGap(a: string, gap: string, b: string)
    requires Blank(gap)
    ensures PyNonSpace(a + gap + b) == PyNonSpace(a) + PyNonSpace(b)
  {
    PyNonSpaceBlank(gap);
    PyNonSpaceAppend(a + gap, b);
    PyNonSpaceAppend(a, gap);
  }

  /** Cutting out whitespace between two parts keeps the characters that
      are not whitespace. */
  lemma BreakGap(s: string, k: nat, e: nat)
    requires k <= e <= |s| && Blank(s[k..e])
    ensures PyNonSpace(s) == PyNonSpace(s[..k]) + PyNonSpace(s[e..])
  {
    SplitThree(s, k, e);
    BlankGap(s[..k], s[k..e], s[e..]);
  }

  lemma {:induction false} NonBlankNonSpace(lines: seq<string>)
    ensures PyNonSpace(Concat(NonBlank(lines))) == PyNonSpace(Concat(lines))
  {
    if lines != [] {
      NonBlankNonSpace(lines[1..]);
      StripKeepsNonSpace(lines[0]);
      PyNonSpaceAppend(lines[0], Concat(lines[1..]));
      if Strip(lines[0]) != [] {
        PyNonSpaceAppend(Strip(lines[0]), Concat(NonBlank(lines[1..])));
      }
    }
  }

  /** `_minifying_function` loses, adds and reorders no character that is
      not whitespace. */
  lemma MinifyKeepsNonSpace(xml: string)
    ensures PyNonSpace(Minified(xml)) == PyNonSpace(xml)
  {
    SplitLinesNonSpace(xml);
    NonBlankNonSpace(SplitLines(xml));
  }

  /** The lines kept are stripped, not empty, and free of breaks. */
  lemma {:induction false} NonBlankLines(lines: seq<string>)
    requires forall j, k :: 0 <= j < |lines| && 0 <= k < |lines[j]| ==> !PyLineBreak(lines[j][k])
    ensures forall j :: 0 <= j < |NonBlank(lines)| ==> NonBlank(lines)[j] != [] && Stripped(NonBlank(lines)[j])
    ensures forall j, k :: 0 <= j < |NonBlank(lines)| && 0 <= k < |NonBlank(lines)[j]| ==> !PyLineBreak(NonBlank(lines)[j][k])
  {
    if lines != [] {
      NonBlankLines(lines[1..]);
      StripIsStripped(lines[0]);
      StripFrom(lines[0]);
    }
  }

  /** Stripped pieces that are not empty concatenate to a stripped text
      whose characters are theirs. */
  lemma {:induction false} ConcatPieces(ls: seq<string>)
    requires forall j :: 0 <= j < |ls| ==> ls[j] != [] && Stripped(ls[j])
    requires forall j, k :: 0 <= j < |ls| && 0 <= k < |ls[j]| ==> !PyLineBreak(ls[j][k])
    ensures Stripped(Concat(ls))
    ensures forall k :: 0 <= k < |Concat(ls)| ==> !PyLineBreak(Concat(ls)[k])
  {
    if ls != [] {
      ConcatPieces(ls[1..]);
      var c := Concat(ls);
      assert c == ls[0] + Concat(ls[1..]);
      assert c[0] == ls[0][0];
      if Concat(ls[1..]) == [] {
        assert c == ls[0];
      } else {
        assert Last(c) == Last(Concat(ls[1..]));
      }
      forall k | 0 <= k < |c|
        ensures !PyLineBreak(c[k])
      {
        if k >= |ls[0]| {
          assert c[k] == Concat(ls[1..])[k - |ls[0]|];
        }
      }
    }
  }

  /** The minified text has no line break, and no whitespace at either
      end. */
  lemma MinifyShape(xml: string)
    ensures Stripped(Minified(xml))
    ensures forall k :: 0 <= k < |Minified(xml)| ==> !PyLineBreak(Minified(xml)[k])
  {
    SplitLinesNoBreak(xml);
    NonBlankLines(SplitLines(xml));
    ConcatPieces(NonBlank(SplitLines(xml)));
  }

  /** Minifying twice gives the same text as minifying once. */
  lemma MinifyIdempotent(xml: string)
    ensures Minified(Minified(xml)) == Minified(xml)
  {
    var m := Minified(xml);
    MinifyShape(xml);
    assert BreakAt(m, 0).None?;
    if m != [] {
      assert SplitLines(m) == [m];
      StripStripped(m);
      assert NonBlank([m]) == [m] + NonBlank([]);
      assert Concat([m]) == m + Concat([]);
    }
  }
}
