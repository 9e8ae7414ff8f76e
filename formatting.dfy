/** Formatting.cpp: `FormattingFunction` puts every tag and every run of text
    on a line of its own, indented by two blanks per open tag. */
module Formatting {
  import opened Base

  /** The loop's variables between two characters: the output so far, the
      stack of open tag names, the piece being collected, the in-tag flag and
      the indentation level. */
  datatype Pretty = Pretty(output: string, tagStack: seq<string>, currentTag: string, insideTag: bool, level: int)

  const Fresh := Pretty("", [], "", false, 0)

  /** `string(indentationLevel * 2, ' ') + piece + '\n'`. */
  function Line(level: int, piece: string): string
  {
    Spaces(level * 2) + piece + "\n"
  }

  /** The name pushed for an opening tag: up to the first blank, or the text
      between `<` and `>`. Lengths are `size_t`, so `spacePos - 1` and
      `size() - 2` wrap around below zero. */
  function TagName(tag: string): string
    requires |tag| >= 1
  {
    var spacePos := FindPos(tag, ' ', 0);
    if spacePos != -1 then Substr(tag, 1, spacePos - 1) else Substr(tag, 1, |tag| - 2)
  }

  /** Writes out the collected piece at `<` and at the end, after a line
      break if the output does not end in one. */
  function Flush(p: Pretty): Pretty
  {
    if p.currentTag == [] then p
    else
      var out := if p.output != [] && Last(p.output) != '\n' then p.output + "\n" else p.output;
      p.(output := out + Line(p.level, p.currentTag), currentTag := [])
  }

  /** One character of the input, as the body of the `for` loop. */
  function Step(p: Pretty, ch: char): Pretty
  {
    if ch == '<' then
      var q := Flush(p);
      q.(insideTag := true, currentTag := q.currentTag + [ch])
    else if ch == '>' then
      var tag := p.currentTag + [ch];
      var q := p.(insideTag := false, currentTag := []);
      if CharAt(tag, 1) == '/' then
        var r := if p.tagStack != [] then q.(tagStack := p.tagStack[..|p.tagStack| - 1], level := p.level - 1) else q;
        r.(output := p.output + Line(r.level, tag))
      else if Last(tag) == '/' then
        q.(output := p.output + Line(p.level, tag))
      else
        q.(output := p.output + Line(p.level, tag), tagStack := p.tagStack + [TagName(tag)], level := p.level + 1)
    else if p.insideTag then p.(currentTag := p.currentTag + [ch])
    else if !IsSpace(ch) || (p.output != [] && Last(p.output) != '\n') then p.(currentTag := p.currentTag + [ch])
    else p
  }

  /** The state after the characters of `s`. */
  function Run(s: string): Pretty
  {
    if s == [] then Fresh else Step(Run(s[..|s| - 1]), Last(s))
  }

  /** `FormattingFunction`: the run, then the remaining piece written out. */
  function Format(input: string): string
  {
    Flush(Run(input)).output
  }

  /** The `for` loop over the input and the final write-out. */
  method FormattingFunction(input: string) returns (output: string)
    ensures output == Format(input)
  {
    output := "";
    var tagStack: seq<string> := [];
    var currentTag := "";
    var insideTag := false;
    var indentationLevel := 0;
    for i := 0 to |input|
      invariant Run(input[..i]) == Pretty(output, tagStack, currentTag, insideTag, indentationLevel)
    {
      var ch := input[i];
      assert input[..i + 1][..i] == input[..i];
      if ch == '<' {
        if currentTag != [] {
          if output != [] && Last(output) != '\n' {
            output := output + "\n";
          }
          output := output + Line(indentationLevel, currentTag);
          currentTag := [];
        }
        insideTag := true;
        currentTag := currentTag + [ch];
      } else if ch == '>' {
        insideTag := false;
        currentTag := currentTag + [ch];
        if CharAt(currentTag, 1) == '/' {
          if tagStack != [] {
            tagStack := tagStack[..|tagStack| - 1];
            indentationLevel := indentationLevel - 1;
          }
          output := output + Line(indentationLevel, currentTag);
        } else {
          var tagName := TagName(currentTag);
          if Last(currentTag) == '/' {
            output := output + Line(indentationLevel, currentTag);
          } else {
            output := output + Line(indentationLevel, currentTag);
            tagStack := tagStack + [tagName];
            indentationLevel := indentationLevel + 1;
          }
        }
        currentTag := [];
      } else if insideTag {
        currentTag := currentTag + [ch];
      } else if !IsSpace(ch) || (output != [] && Last(output) != '\n') {
        currentTag := currentTag + [ch];
      }
    }
    assert input[..|input|] == input;
    if currentTag != [] {
      if output != [] && Last(output) != '\n' {
        output := output + "\n";
      }
      output := output + Line(indentationLevel, currentTag);
    }
  }

  /** What every reachable state satisfies after reading `seen`: the level
      counts the open tags, the output is empty or ends a line, and every
      non-whitespace character read so far is in the output or in the
      piece, in order. */
  ghost predicate Good(p: Pretty, seen: string)
  {
    p.level == |p.tagStack|
    && (p.output == [] || Last(p.output) == '\n')
    && NonSpace(p.output) + NonSpace(p.currentTag) == NonSpace(seen)
  }

  /** A written line adds exactly the non-whitespace characters of its
      piece. */
  lemma LineNonSpace(out: string, level: int, piece: string)
    ensures NonSpace(out + Line(level, piece)) == NonSpace(out) + NonSpace(piece)
  {
    var pad := Spaces(level * 2);
    var line := Line(level, piece);
    NonSpaceOfSpaces(level * 2);
    NonSpaceAppend(pad, piece);
    assert NonSpace("\n") == [];
    NonSpaceAppend(pad + piece, "\n");
    assert NonSpace(line) == NonSpace(piece);
    NonSpaceAppend(out, line);
  }

  lemma FlushGood(p: Pretty, seen: string)
    requires Good(p, seen)
    ensures Good(Flush(p), seen) && Flush(p).currentTag == []
    ensures p.currentTag != [] ==> Flush(p).output == p.output + Line(p.level, p.currentTag)
  {
    if p.currentTag != [] {
      LineNonSpace(p.output, p.level, p.currentTag);
    }
  }

  /** The non-whitespace characters of `seen + [ch]`, split the same way. */
  lemma SplitLast(seen: string, ch: char)
    ensures NonSpace(seen + [ch]) == NonSpace(seen) + (if IsSpace(ch) then [] else [ch])
  {
    NonSpaceAppend(seen, [ch]);
    assert [ch][..0] == [];
  }

  lemma StepOpenGood(p: Pretty, seen: string)
    requires Good(p, seen)
    ensures Good(Step(p, '<'), seen + ['<'])
  {
    SplitLast(seen, '<');
    FlushGood(p, seen);
    SplitLast([], '<');
  }

  lemma StepCloseGood(p: Pretty, seen: string)
    requires Good(p, seen)
    ensures Good(Step(p, '>'), seen + ['>'])
  {
    var tag := p.currentTag + ['>'];
    var r := Step(p, '>');
    var lvl := if CharAt(tag, 1) == '/' then r.level else p.level;
    assert r.currentTag == [] && r.output == p.output + Line(lvl, tag);
    assert r.level == |r.tagStack|;
    var a, c := NonSpace(p.output), NonSpace(p.currentTag);
    SplitLast(seen, '>');
    assert NonSpace(seen + ['>']) == NonSpace(seen) + ['>'];
    SplitLast(p.currentTag, '>');
    assert NonSpace(tag) == c + ['>'];
    LineNonSpace(p.output, lvl, tag);
    assert NonSpace(r.output) == a + (c + ['>']);
    ConcatAssoc(a, c, ['>']);
    assert NonSpace(r.output) + NonSpace(r.currentTag) == NonSpace(r.output);
  }

  lemma StepOtherGood(p: Pretty, seen: string, ch: char)
    requires Good(p, seen) && ch != '<' && ch != '>'
    ensures Good(Step(p, ch), seen + [ch])
  {
    SplitLast(seen, ch);
    var q := Step(p, ch);
    if p.insideTag || !IsSpace(ch) || (p.output != [] && Last(p.output) != '\n') {
      assert q == p.(currentTag := p.currentTag + [ch]);
      SplitLast(p.currentTag, ch);
      ConcatAssoc(NonSpace(p.output), NonSpace(p.currentTag), if IsSpace(ch) then [] else [ch]);
    } else {
      assert q == p;
      assert NonSpace(seen) + [] == NonSpace(seen);
    }
  }

  lemma StepGood(p: Pretty, seen: string, ch: char)
    requires Good(p, seen)
    ensures Good(Step(p, ch), seen + [ch])
  {
    if ch == '<' {
      StepOpenGood(p, seen);
    } else if ch == '>' {
      StepCloseGood(p, seen);
    } else {
      StepOtherGood(p, seen, ch);
    }
  }

  lemma {:induction false} RunGood(s: string)
    ensures Good(Run(s), s)
  {
    if s != [] {
      var s' := s[..|s| - 1];
      RunGood(s');
      StepGood(Run(s'), s', Last(s));
      assert s' + [Last(s)] == s;
    }
  }

  /** Formatting loses no non-whitespace character and keeps their order:
      it only adds indentation and line breaks, and drops whitespace. */
  lemma FormatKeepsNonSpace(input: string)
    ensures NonSpace(Format(input)) == NonSpace(input)
  {
    RunGood(input);
    FlushGood(Run(input), input);
  }

  /** The output is empty or ends with a line break. */
  lemma FormatEndsLine(input: string)
    ensures Format(input) == [] || Last(Format(input)) == '\n'
  {
    RunGood(input);
    FlushGood(Run(input), input);
  }

  /** The level is never negative and always counts the open tags. */
  lemma LevelCountsOpenTags(input: string)
    ensures Run(input).level == |Run(input).tagStack| >= 0
  {
    RunGood(input);
  }

  /** Because the output always ends a line, whitespace between tags is
      always dropped, and the extra line break before a written piece is
      never added. */
  lemma OutsideWhitespaceDropped(s: string, ch: char)
    requires !Run(s).insideTag && IsSpace(ch) && ch != '<' && ch != '>'
    ensures Step(Run(s), ch) == Run(s)
  {
    RunGood(s);
  }

  lemma NoExtraBreak(s: string)
    ensures Run(s).currentTag != [] ==> Flush(Run(s)).output == Run(s).output + Line(Run(s).level, Run(s).currentTag)
  {
    RunGood(s);
    FlushGood(Run(s), s);
  }

  /** The branch for self-closing tags never runs: the tested last character
      is the `>` just appended, so `<x/>` raises the level like an opening
      tag. */
  lemma SelfClosingOpens(p: Pretty, name: string)
    requires p.currentTag == "<" + name + "/" && name != [] && name[0] != '/'
    ensures Step(p, '>').level == p.level + 1 && |Step(p, '>').tagStack| == |p.tagStack| + 1
  {
    var tag := p.currentTag + ['>'];
    assert CharAt(tag, 1) == name[0];
    assert Last(tag) == '>';
  }

  /** A closing tag takes the level down before it is written; an opening
      tag is written at the current level and then raises it. */
  lemma CloserDedents(p: Pretty, name: string)
    requires p.currentTag == "</" + name && p.tagStack != []
    ensures Step(p, '>').output == p.output + Line(p.level - 1, "</" + name + ">")
    ensures Step(p, '>').level == p.level - 1 && Step(p, '>').tagStack == p.tagStack[..|p.tagStack| - 1]
  {
    assert CharAt(p.currentTag + ['>'], 1) == '/';
  }

  lemma OpenerIndents(p: Pretty, name: string)
    requires p.currentTag == "<" + name && name != [] && name[0] != '/' && forall k :: 0 <= k < |name| ==> name[k] != ' '
    ensures Step(p, '>').output == p.output + Line(p.level, "<" + name + ">")
    ensures Step(p, '>').level == p.level + 1 && Step(p, '>').tagStack == p.tagStack + [name]
  {
    var tag := p.currentTag + ['>'];
    assert tag == "<" + name + ">";
    assert CharAt(tag, 1) == name[0];
    assert Last(tag) == '>';
    assert FindPos(tag, ' ', 0) == -1;
    assert TagName(tag) == tag[1..|tag| - 1] == name;
  }
  /** The self-closing test as evidently intended, made on the piece before
      its `>` is appended: a tag that is not a closing tag and whose piece
      ends with `/` is written at the current level and opens nothing. */
  function StepFixed(p: Pretty, ch: char): Pretty
  {
    if ch == '>' && p.currentTag != [] && Last(p.currentTag) == '/' && CharAt(p.currentTag, 1) != '/' then
      p.(insideTag := false, currentTag := [], output := p.output + Line(p.level, p.currentTag + ['>']))
    else Step(p, ch)
  }

  /** The state after the characters of `s`, with the corrected step. */
  function RunFixed(s: string): Pretty
  {
    if s == [] then Fresh else StepFixed(RunFixed(s[..|s| - 1]), Last(s))
  }

  /** The corrected formatter: the corrected run, then the remaining piece
      written out. */
  function FormatFixed(input: string): string
  {
    Flush(RunFixed(input)).output
  }

  /** With the corrected test, `<x/>` is written at the current level and
      leaves the level and the stack of open tags as they were. */
  lemma SelfClosingStays(p: Pretty, name: string)
    requires p.currentTag == "<" + name + "/" && name != [] && name[0] != '/'
    ensures StepFixed(p, '>').output == p.output + Line(p.level, "<" + name + "/>")
    ensures StepFixed(p, '>').level == p.level && StepFixed(p, '>').tagStack == p.tagStack
  {
    assert CharAt(p.currentTag, 1) == name[0];
    assert p.currentTag + ['>'] == "<" + name + "/>";
  }

  /** The corrected step keeps the state description of `Good`. */
  lemma StepFixedGood(p: Pretty, seen: string, ch: char)
    requires Good(p, seen)
    ensures Good(StepFixed(p, ch), seen + [ch])
  {
    if ch == '>' && p.currentTag != [] && Last(p.currentTag) == '/' && CharAt(p.currentTag, 1) != '/' {
      var tag := p.currentTag + ['>'];
      var a, c := NonSpace(p.output), NonSpace(p.currentTag);
      SplitLast(seen, '>');
      SplitLast(p.currentTag, '>');
      LineNonSpace(p.output, p.level, tag);
      ConcatAssoc(a, c, ['>']);
    } else {
      StepGood(p, seen, ch);
    }
  }

  lemma {:induction false} RunFixedGood(s: string)
    ensures Good(RunFixed(s), s)
  {
    if s != [] {
      var s' := s[..|s| - 1];
      RunFixedGood(s');
      StepFixedGood(RunFixed(s'), s', Last(s));
      assert s' + [Last(s)] == s;
    }
  }

  /** The corrected formatter keeps the promises of the original: no
      non-whitespace character is lost or moved, the output ends a line,
      and the level counts the open tags. */
  lemma FormatFixedKeepsNonSpace(input: string)
    ensures NonSpace(FormatFixed(input)) == NonSpace(input)
    ensures FormatFixed(input) == [] || Last(FormatFixed(input)) == '\n'
    ensures RunFixed(input).level == |RunFixed(input).tagStack| >= 0
  {
    RunFixedGood(input);
    FlushGood(RunFixed(input), input);
  }
}
