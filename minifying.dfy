/** Minifying.cpp: `MinifyingFunction` puts every tag on a line of its own and
    drops the whitespace that follows a line break outside tags. Its
    `charStack` is pushed and popped but never read for the output. */
module Minifying {
  import opened Base

  /** The output and the in-tag flag between two characters. */
  datatype Mini = Mini(output: string, insideTag: bool)

  /** One character of the input, leaving out the character stack. */
  function Step(m: Mini, ch: char): Mini
  {
    if ch == '<' then
      var out := if m.output != [] && Last(m.output) != '\n' then m.output + "\n" else m.output;
      Mini(out + [ch], true)
    else if ch == '>' then Mini(m.output + [ch] + "\n", false)
    else if m.insideTag then m.(output := m.output + [ch])
    else if !IsSpace(ch) || m.output == [] || Last(m.output) != '\n' then m.(output := m.output + [ch])
    else m
  }

  function Run(s: string): Mini
  {
    if s == [] then Mini("", false) else Step(Run(s[..|s| - 1]), Last(s))
  }

  function Minify(input: string): string
  {
    Run(input).output
  }

  /** `while (!charStack.empty() && charStack.top() == '<') charStack.pop();` */
  method PopOpeners(charStack: seq<char>) returns (r: seq<char>)
    ensures |r| <= |charStack| && r == charStack[..|r|]
    ensures r == [] || Last(r) != '<'
    ensures forall k :: |r| <= k < |charStack| ==> charStack[k] == '<'
  {
    r := charStack;
    while r != [] && Last(r) == '<'
      invariant |r| <= |charStack| && r == charStack[..|r|]
      invariant forall k :: |r| <= k < |charStack| ==> charStack[k] == '<'
    {
      r := r[..|r| - 1];
    }
  }

  /** The `for` loop, stack included. Its result is `Minify(input)`, which
      does not mention the stack: the stack does not influence the output. */
  method MinifyingFunction(input: string) returns (output: string)
    ensures output == Minify(input)
  {
    output := "";
    var charStack: seq<char> := [];
    var insideTag := false;
    for i := 0 to |input|
      invariant Run(input[..i]) == Mini(output, insideTag)
    {
      var ch := input[i];
      assert input[..i + 1][..i] == input[..i];
      if ch == '<' {
        if output != [] && Last(output) != '\n' {
          output := output + "\n";
        }
        charStack := charStack + [ch];
        insideTag := true;
        output := output + [ch];
      } else if ch == '>' {
        insideTag := false;
        charStack := PopOpeners(charStack);
        output := output + [ch];
        output := output + "\n";
      } else if insideTag {
        charStack := charStack + [ch];
        output := output + [ch];
      } else if !IsSpace(ch) || output == [] || Last(output) != '\n' {
        charStack := charStack + [ch];
        output := output + [ch];
      }
    }
    assert input[..|input|] == input;
  }

  /** What every reachable state satisfies after reading `seen`: each `>`
      in the output is followed by a line break, and the output holds the
      non-whitespace characters read so far, in order. */
  ghost predicate Good(m: Mini, seen: string)
  {
    (forall k :: 0 <= k < |m.output| && m.output[k] == '>' ==> k + 1 < |m.output| && m.output[k + 1] == '\n')
    && NonSpace(m.output) == NonSpace(seen)
  }

  lemma SplitLast(s: string, ch: char)
    ensures NonSpace(s + [ch]) == NonSpace(s) + (if IsSpace(ch) then [] else [ch])
  {
    NonSpaceAppend(s, [ch]);
    assert [ch][..0] == [];
  }

  lemma StepOpenGood(m: Mini, seen: string)
    requires Good(m, seen)
    ensures Good(Step(m, '<'), seen + ['<'])
  {
    var out := if m.output != [] && Last(m.output) != '\n' then m.output + "\n" else m.output;
    SplitLast(seen, '<');
    SplitLast(m.output, '\n');
    SplitLast(out, '<');
    var o := out + ['<'];
    forall k | 0 <= k < |o| && o[k] == '>'
      ensures k + 1 < |o| && o[k + 1] == '\n'
    {
      assert k < |m.output|;
    }
  }

  lemma StepCloseGood(m: Mini, seen: string)
    requires Good(m, seen)
    ensures Good(Step(m, '>'), seen + ['>'])
  {
    SplitLast(seen, '>');
    SplitLast(m.output, '>');
    SplitLast(m.output + ['>'], '\n');
    var o := m.output + ['>'] + "\n";
    forall k | 0 <= k < |o| && o[k] == '>'
      ensures k + 1 < |o| && o[k + 1] == '\n'
    {
      if k < |m.output| {
        assert o[k] == m.output[k];
        if k + 1 < |m.output| {
          assert o[k + 1] == m.output[k + 1];
        }
      }
    }
  }

  lemma StepOtherGood(m: Mini, seen: string, ch: char)
    requires Good(m, seen) && ch != '<' && ch != '>'
    ensures Good(Step(m, ch), seen + [ch])
  {
    SplitLast(seen, ch);
    SplitLast(m.output, ch);
    var r := Step(m, ch);
    if r != m {
      var o := m.output + [ch];
      assert r.output == o;
      forall k | 0 <= k < |o| && o[k] == '>'
        ensures k + 1 < |o| && o[k + 1] == '\n'
      {
        assert k < |m.output|;
      }
    }
  }

  lemma {:induction false} RunGood(s: string)
    ensures Good(Run(s), s)
  {
    if s != [] {
      var s' := s[..|s| - 1];
      var ch := Last(s);
      RunGood(s');
      assert s' + [ch] == s;
      if ch == '<' {
        StepOpenGood(Run(s'), s');
      } else if ch == '>' {
        StepCloseGood(Run(s'), s');
      } else {
        StepOtherGood(Run(s'), s', ch);
      }
    }
  }

  /** Minifying loses no non-whitespace character and keeps their order. */
  lemma MinifyKeepsNonSpace(input: string)
    ensures NonSpace(Minify(input)) == NonSpace(input)
  {
    RunGood(input);
  }

  /** Every `>` of the output is immediately followed by a line break. */
  lemma CloseThenBreak(input: string, k: nat)
    requires k < |Minify(input)| && Minify(input)[k] == '>'
    ensures k + 1 < |Minify(input)| && Minify(input)[k + 1] == '\n'
  {
    RunGood(input);
  }

  /** A `<` starts a new line exactly when the output so far is non-empty
      and does not already end one. */
  lemma BreakBeforeTag(s: string)
    ensures var o := Minify(s); var o' := Minify(s + ['<']);
      o' == (if o != [] && Last(o) != '\n' then o + "\n<" else o + "<")
  {
    assert (s + ['<'])[..|s|] == s;
  }

  /** Inside a tag every character other than `>` and `<` is copied,
      whitespace included. */
  lemma InsideTagCopied(s: string, ch: char)
    requires Run(s).insideTag && ch != '<' && ch != '>'
    ensures Minify(s + [ch]) == Minify(s) + [ch] && Run(s + [ch]).insideTag
  {
    assert (s + [ch])[..|s|] == s;
  }

  /** Outside tags a whitespace character is dropped exactly when the output
      is non-empty and ends with a line break. */
  lemma OutsideWhitespace(s: string, ch: char)
    requires !Run(s).insideTag && IsSpace(ch)
    ensures Minify(s + [ch]) == Minify(s) <==> (Minify(s) != [] && Last(Minify(s)) == '\n')
  {
    assert (s + [ch])[..|s|] == s;
  }
}
