/** The tag helpers of the Python front end (XML_GUI.py, copied unchanged in
    GUI.py): the consistency check, whose `while` loop jumps from a `<` to its
    `>`, and the mismatch locator, whose `for` loop visits every `<`. Python
    raises `IndexError` when a `<` is the last character; that outcome is an
    `Err`. */
module PyXml {
  import opened Base
  import opened TagScan
  import opened Nesting

  datatype PyError = IndexError

  /** `s.find(c, start)`: a negative start counts from the end of the text,
      and -1 stands for "not found". */
  function PyFind(s: string, c: char, start: int): (r: int)
    ensures r == -1 || (start <= r < |s| && 0 <= r && s[r] == c)
  {
    var from := if start >= 0 then start else if start + |s| < 0 then 0 else start + |s|;
    match Find(s, c, from)
    case None => -1
    case Some(k) => k
  }

  /** A slice bound as Python reads it: negative bounds count from the end,
      and bounds outside the text are clamped to it. */
  function SliceBound(n: nat, k: int): (r: nat)
    ensures r <= n
  {
    if k < 0 then (if k + n < 0 then 0 else k + n) else if k > n then n else k
  }

  /** `s[a:b]`. */
  function PySlice(s: string, a: int, b: int): (r: string)
    ensures 0 <= a <= b <= |s| ==> r == s[a..b]
    ensures b == -1 && 0 <= a < |s| ==> r == s[a..|s| - 1]
    ensures |r| <= |s|
  {
    var i, j := SliceBound(|s|, a), SliceBound(|s|, b);
    if i < j then s[i..j] else ""
  }

  /** `s[k]`: negative indexes count from the end; anything else outside the
      text raises `IndexError`. */
  function PyIndex(s: string, k: int): (r: Result<char, PyError>)
    ensures r.Ok? <==> -|s| <= k < |s|
    ensures 0 <= k < |s| ==> r == Ok(s[k])
  {
    if 0 <= k < |s| then Ok(s[k])
    else if -|s| <= k < 0 then Ok(s[k + |s|])
    else Err(IndexError)
  }

  /** `find` started later, but not past the match, finds the same match. */
  lemma {:induction false} FindLater(s: string, c: char, from: nat, j: nat)
    requires from <= j && Find(s, c, from).Some? && j <= Find(s, c, from).value
    ensures Find(s, c, j) == Find(s, c, from)
    decreases j - from
  {
    if from < j {
      FindLater(s, c, from + 1, j);
    }
  }

  // ---------------------------------------------------------------------
  // _check_xml_consistency

  /** The `while` loop of `_check_xml_consistency` from offset i, with the
      list `stack` whose last element is its top. `IndexError` is raised
      only on a text that ends with `<`. */
  function CheckFrom(xml: string, i: nat, stack: seq<string>): (r: Result<bool, PyError>)
    ensures r.Err? ==> xml != [] && Last(xml) == '<'
    decreases |xml| - i
  {
    if i >= |xml| then Ok(stack == [])
    else if xml[i] != '<' then CheckFrom(xml, i + 1, stack)
    else if i + 1 >= |xml| then Err(IndexError)
    else
      var closing := xml[i + 1] == '/';
      var tagStart := i + (if closing then 2 else 1);
      var tagEnd := PyFind(xml, '>', tagStart);
      if tagEnd == -1 then Ok(false)
      else
        var tag := xml[tagStart..tagEnd];
        if closing then
          if stack == [] || Last(stack) != tag then Ok(false)
          else CheckFrom(xml, tagEnd, stack[..|stack| - 1])
        else CheckFrom(xml, tagEnd, stack + [tag])
  }

  method CheckXmlConsistency(xml: string) returns (r: Result<bool, PyError>)
    ensures r == CheckFrom(xml, 0, [])
  {
    var stack: seq<string> := [];
    var i := 0;
    while i < |xml|
      invariant i <= |xml|
      invariant CheckFrom(xml, i, stack) == CheckFrom(xml, 0, [])
      decreases |xml| - i
    {
      if xml[i] == '<' {
        if i + 1 >= |xml| {
          return Err(IndexError);
        }
        var closing := xml[i + 1] == '/';
        var tagStart := i + (if closing then 2 else 1);
        var tagEnd := PyFind(xml, '>', tagStart);
        if tagEnd == -1 {
          return Ok(false);
        }
        var tag := xml[tagStart..tagEnd];
        if closing {
          if stack == [] || Last(stack) != tag {
            return Ok(false);
          }
          stack := stack[..|stack| - 1];
        } else {
          stack := stack + [tag];
        }
        i := tagEnd;
      } else {
        i := i + 1;
      }
    }
    return Ok(stack == []);
  }

  /** At a terminated `<`, Python's `find` from after the `<` (or after the
      `</`) stops at the same `>` as the C++ scanner's `find` from the `<`,
      and the slice it takes is the name the scanner reads. */
  lemma TagAsScanned(xml: string, i: nat, c: nat)
    requires i < |xml| && xml[i] == '<' && Find(xml, '>', i) == Some(c)
    ensures i + 1 < |xml|
    ensures var closing := xml[i + 1] == '/';
      var tagStart := i + (if closing then 2 else 1);
      tagStart <= c && PyFind(xml, '>', tagStart) == c
      && ReadTag(xml, i, c) == Tag(xml[tagStart..c], closing, i, c)
  {
    var closing := xml[i + 1] == '/';
    var tagStart := i + (if closing then 2 else 1);
    FindLater(xml, '>', i, tagStart);
    var content := xml[i + 1..c];
    if closing {
      assert content[0] == '/' && content[1..] == xml[i + 2..c];
    } else if i + 1 < c {
      assert content[0] == xml[i + 1];
    }
  }

  /** On a terminated text the Python check is the strict stack discipline
      over the tags the C++ scanner reads. */
  lemma {:induction false} CheckAgreesWithRun(xml: string, i: nat, stack: seq<string>)
    requires Terminated(xml)
    ensures CheckFrom(xml, i, stack) == Ok(Run(Scan(xml, i), stack) == Some([]))
    decreases |xml| - i
  {
    if i < |xml| {
      if xml[i] != '<' {
        CheckAgreesWithRun(xml, i + 1, stack);
      } else {
        assert Find(xml, '>', i).Some?;
        var c := Find(xml, '>', i).value;
        TagAsScanned(xml, i, c);
        ScanAtTag(xml, i, c);
        var t := ReadTag(xml, i, c);
        assert Scan(xml, i)[1..] == Scan(xml, c + 1);
        if t.closing {
          if stack != [] && Last(stack) == t.name {
            CheckAgreesWithRun(xml, c + 1, stack[..|stack| - 1]);
          }
        } else {
          CheckAgreesWithRun(xml, c + 1, stack + [t.name]);
        }
      }
    }
  }

  /** A `<` with no later `>`, once the loop can reach it, makes the check
      fail: `find` returns -1 (or the `<` ends the text). */
  lemma {:induction false} UnterminatedFails(xml: string, i: nat, j: nat, stack: seq<string>)
    requires i <= j < |xml| && xml[j] == '<' && Find(xml, '>', j).None?
    ensures CheckFrom(xml, i, stack) != Ok(true)
    decreases |xml| - i
  {
    if xml[i] != '<' {
      UnterminatedFails(xml, i + 1, j, stack);
    } else if i + 1 < |xml| {
      var closing := xml[i + 1] == '/';
      var tagStart := i + (if closing then 2 else 1);
      var tagEnd := PyFind(xml, '>', tagStart);
      if tagEnd != -1 {
        if tagEnd >= j {
          FindSome(xml, '>', j, tagEnd);
        }
        var tag := xml[tagStart..tagEnd];
        if closing {
          if stack != [] && Last(stack) == tag {
            UnterminatedFails(xml, tagEnd, j, stack[..|stack| - 1]);
          }
        } else {
          UnterminatedFails(xml, tagEnd, j, stack + [tag]);
        }
      }
    }
  }

  /** `_check_xml_consistency` returns True exactly on a text whose every `<`
      has a later `>` and whose tags nest properly. */
  lemma CheckIffNested(xml: string)
    ensures CheckFrom(xml, 0, []) == Ok(true) <==> Terminated(xml) && Nested(Scan(xml, 0))
  {
    if Terminated(xml) {
      CheckAgreesWithRun(xml, 0, []);
      BalancedIffNested(Scan(xml, 0));
    } else {
      var j :| 0 <= j < |xml| && xml[j] == '<' && Find(xml, '>', j).None?;
      UnterminatedFails(xml, 0, j, []);
    }
  }

  // ---------------------------------------------------------------------
  // _find_mismatched_tags

  /** The two lists of `_find_mismatched_tags`. */
  datatype Finder = Finder(stack: seq<string>, mismatches: seq<nat>)

  /** One iteration of the `for` loop, at offset i. With no `>` after the
      tag, `find` returns -1 and the slice `xml[tag_start:-1]` runs to the
      last character but one. */
  function FindAt(xml: string, i: nat, f: Finder): Result<Finder, PyError>
    requires i < |xml|
  {
    if xml[i] != '<' then Ok(f)
    else if i + 1 >= |xml| then Err(IndexError)
    else
      var closing := xml[i + 1] == '/';
      var tagStart := i + (if closing then 2 else 1);
      var tagEnd := PyFind(xml, '>', tagStart);
      var tag := PySlice(xml, tagStart, tagEnd);
      if closing then
        if f.stack == [] || Last(f.stack) != tag then Ok(f.(mismatches := f.mismatches + [i]))
        else Ok(f.(stack := f.stack[..|f.stack| - 1]))
      else Ok(f.(stack := f.stack + [tag]))
  }

  /** The lists after the iterations for offsets `0 .. n-1`. */
  function FindUpTo(xml: string, n: nat): Result<Finder, PyError>
    requires n <= |xml|
  {
    if n == 0 then Ok(Finder([], []))
    else match FindUpTo(xml, n - 1)
      case Err(e) => Err(e)
      case Ok(f) => FindAt(xml, n - 1, f)
  }

  /** What `_find_mismatched_tags` returns: at most one offset for each
      character, each an offset into the text. */
  function Mismatched(xml: string): (r: Result<seq<nat>, PyError>)
    ensures r.Ok? ==> |r.value| <= |xml| && forall k :: 0 <= k < |r.value| ==> r.value[k] < |xml|
  {
    FindUpToBounds(xml, |xml|);
    match FindUpTo(xml, |xml|)
    case Err(e) => Err(e)
    case Ok(f) => Ok(f.mismatches)
  }

  /** At most one offset is reported per iteration, each an offset already
      passed. */
  lemma {:induction false} FindUpToBounds(xml: string, n: nat)
    requires n <= |xml|
    ensures FindUpTo(xml, n).Ok? ==> |FindUpTo(xml, n).value.mismatches| <= n
    ensures FindUpTo(xml, n).Ok? ==> forall k :: 0 <= k < |FindUpTo(xml, n).value.mismatches| ==> FindUpTo(xml, n).value.mismatches[k] < n
  {
    if n > 0 {
      FindUpToBounds(xml, n - 1);
    }
  }

  method FindMismatchedTags(xml: string) returns (r: Result<seq<nat>, PyError>)
    ensures r == Mismatched(xml)
  {
    var stack: seq<string> := [];
    var mismatches: seq<nat> := [];
    for i := 0 to |xml|
      invariant FindUpTo(xml, i) == Ok(Finder(stack, mismatches))
    {
      if xml[i] == '<' {
        if i + 1 >= |xml| {
          return Err(IndexError);
        }
        var closing := xml[i + 1] == '/';
        var tagStart := i + (if closing then 2 else 1);
        var tagEnd := PyFind(xml, '>', tagStart);
        var tag := PySlice(xml, tagStart, tagEnd);
        if closing {
          if stack == [] || Last(stack) != tag {
            mismatches := mismatches + [i];
          } else {
            stack := stack[..|stack| - 1];
          }
        } else {
          stack := stack + [tag];
        }
      }
    }
    return Ok(mismatches);
  }

  /** A terminated text does not end with `<`. */
  lemma TerminatedLastNotLt(xml: string)
    requires Terminated(xml)
    ensures |xml| > 0 ==> (Last(xml) == '<' ==> Find(xml, '>', |xml| - 1).None?) && Last(xml) != '<'
  {
  }

  /** The loop raises `IndexError` exactly when the text ends with `<`. */
  lemma {:induction false} FindErrorIff(xml: string, n: nat)
    requires n <= |xml|
    ensures FindUpTo(xml, n).Err? <==> n == |xml| && n > 0 && xml[n - 1] == '<'
  {
    if n > 0 {
      FindErrorIff(xml, n - 1);
    }
  }

  lemma MismatchedErrorIff(xml: string)
    ensures Mismatched(xml).Err? <==> |xml| > 0 && Last(xml) == '<'
  {
    FindErrorIff(xml, |xml|);
  }

  /** The offsets reported before offset n: strictly increasing, each the `<`
      of a closing tag `</`. Opening tags are never reported. */
  predicate ReportsClosers(xml: string, n: nat, ms: seq<nat>)
  {
    Increasing(ms)
    && forall k :: 0 <= k < |ms| ==> ms[k] < n && ms[k] + 1 < |xml| && xml[ms[k]] == '<' && xml[ms[k] + 1] == '/'
  }

  /** A step that reports offset i leaves the stack as it was. */
  lemma FindAtReport(xml: string, i: nat, f: Finder)
    requires i < |xml| && FindAt(xml, i, f).Ok?
    ensures var g := FindAt(xml, i, f).value;
      g.mismatches == f.mismatches || (g.mismatches == f.mismatches + [i] && g.stack == f.stack && i + 1 < |xml| && xml[i] == '<' && xml[i + 1] == '/')
  {
  }

  lemma {:induction false} FindUpToReports(xml: string, n: nat)
    requires n <= |xml| && FindUpTo(xml, n).Ok?
    ensures ReportsClosers(xml, n, FindUpTo(xml, n).value.mismatches)
  {
    if n > 0 {
      FindUpToReports(xml, n - 1);
      var f := FindUpTo(xml, n - 1).value;
      FindAtReport(xml, n - 1, f);
    }
  }

  /** Every offset `_find_mismatched_tags` returns is the `<` of a closing
      tag, and they come in strictly increasing order. */
  lemma MismatchedAreClosers(xml: string)
    requires Mismatched(xml).Ok?
    ensures ReportsClosers(xml, |xml|, Mismatched(xml).value)
  {
    FindUpToReports(xml, |xml|);
  }

  // ---------------------------------------------------------------------
  // Agreement with the check

  /** No `<` appears inside a tag: after each `<`, the next `<` (if any)
      comes after the first `>`. The check jumps over tag contents and the
      locator does not, so the two read the same tags on such texts. */
  predicate NoLtInTags(xml: string)
  {
    forall i {:trigger Find(xml, '>', i)} :: 0 <= i < |xml| && xml[i] == '<' ==>
      Find(xml, '<', i + 1).None? || (Find(xml, '>', i).Some? && Find(xml, '>', i).value < Find(xml, '<', i + 1).value)
  }

  /** The locator's step for one scanned tag. */
  function LocateTag(t: Tag, f: Finder): Finder
  {
    if t.closing then
      if f.stack == [] || Last(f.stack) != t.name then f.(mismatches := f.mismatches + [t.start])
      else f.(stack := f.stack[..|f.stack| - 1])
    else f.(stack := f.stack + [t.name])
  }

  function Locate(ts: seq<Tag>, f: Finder): Finder
    decreases |ts|
  {
    if ts == [] then f else Locate(ts[1..], LocateTag(ts[0], f))
  }

  /** Offsets with no `<` leave the lists alone. */
  lemma {:induction false} SkipText(xml: string, i: nat, j: nat)
    requires i <= j <= |xml| && FindUpTo(xml, i).Ok?
    requires forall k :: i <= k < j ==> xml[k] != '<'
    ensures FindUpTo(xml, j) == FindUpTo(xml, i)
    decreases j - i
  {
    if i < j {
      SkipText(xml, i, j - 1);
    }
  }

  /** The locator's iteration at a terminated `<` is the tag's step. */
  lemma FindAtTag(xml: string, o: nat, c: nat, f: Finder)
    requires o < |xml| && xml[o] == '<' && Find(xml, '>', o) == Some(c)
    ensures FindAt(xml, o, f) == Ok(LocateTag(ReadTag(xml, o, c), f))
  {
    TagAsScanned(xml, o, c);
  }

  /** Across a whole tag, from its `<` to just past its `>`, the lists take
      that tag's step. */
  lemma StepOverTag(xml: string, o: nat, c: nat, f: Finder)
    requires NoLtInTags(xml)
    requires o < |xml| && xml[o] == '<' && Find(xml, '>', o) == Some(c)
    requires FindUpTo(xml, o) == Ok(f)
    ensures FindUpTo(xml, c + 1) == Ok(LocateTag(ReadTag(xml, o, c), f))
  {
    FindAtTag(xml, o, c, f);
    assert FindUpTo(xml, o + 1) == FindAt(xml, o, f);
    NoLtInside(xml, o, c);
    SkipText(xml, o + 1, c + 1);
  }

  lemma NoLtInside(xml: string, o: nat, c: nat)
    requires NoLtInTags(xml)
    requires o < |xml| && xml[o] == '<' && Find(xml, '>', o) == Some(c)
    ensures forall k :: o + 1 <= k < c + 1 ==> xml[k] != '<'
  {
    FindFirst(xml, '<', o + 1);
  }

  /** From a scan point on, the locator's lists evolve tag by tag. */
  lemma {:induction false} FindAgreesWithScan(xml: string, i: nat, f: Finder)
    requires Terminated(xml) && NoLtInTags(xml)
    requires i <= |xml| && FindUpTo(xml, i) == Ok(f)
    ensures FindUpTo(xml, |xml|) == Ok(Locate(Scan(xml, i), f))
    decreases |xml| - i
  {
    FindFirst(xml, '<', i);
    match Find(xml, '<', i)
    case None =>
      SkipText(xml, i, |xml|);
      ScanNone(xml, i);
    case Some(o) =>
      SkipText(xml, i, o);
      ScanSkip(xml, i, o);
      assert Find(xml, '>', o).Some?;
      var c := Find(xml, '>', o).value;
      StepOverTag(xml, o, c, f);
      ScanAtTag(xml, o, c);
      var t := ReadTag(xml, o, c);
      FindAgreesWithScan(xml, c + 1, LocateTag(t, f));
      assert Scan(xml, o)[1..] == Scan(xml, c + 1);
  }

  /** The scan skips text up to the next `<`. */
  lemma {:induction false} ScanSkip(xml: string, i: nat, o: nat)
    requires i <= o <= |xml| && forall k :: i <= k < o ==> xml[k] != '<'
    ensures Scan(xml, i) == Scan(xml, o)
    decreases o - i
  {
    if i < o {
      ScanSkip(xml, i + 1, o);
    }
  }

  lemma ScanNone(xml: string, i: nat)
    requires i <= |xml| && forall k :: i <= k < |xml| ==> xml[k] != '<'
    ensures Scan(xml, i) == []
  {
    ScanSkip(xml, i, |xml|);
  }

  /** Locating only appends to the mismatch list. */
  lemma {:induction false} LocateExtends(ts: seq<Tag>, f: Finder)
    ensures |Locate(ts, f).mismatches| >= |f.mismatches|
    ensures Locate(ts, f).mismatches[..|f.mismatches|] == f.mismatches
    decreases |ts|
  {
    if ts != [] {
      var g := LocateTag(ts[0], f);
      LocateExtends(ts[1..], g);
      assert g.mismatches[..|f.mismatches|] == f.mismatches;
    }
  }

  /** The strict run succeeds exactly when locating reports nothing, and
      both end with the same stack. */
  lemma {:induction false} LocateAgreesWithRun(ts: seq<Tag>, stack: seq<string>, ms: seq<nat>)
    ensures Run(ts, stack).Some? <==> Locate(ts, Finder(stack, ms)).mismatches == ms
    ensures Run(ts, stack).Some? ==> Run(ts, stack).value == Locate(ts, Finder(stack, ms)).stack
    decreases |ts|
  {
    if ts != [] {
      var f := Finder(stack, ms);
      var g := LocateTag(ts[0], f);
      if g.mismatches == ms {
        LocateAgreesWithRun(ts[1..], g.stack, ms);
      } else {
        LocateExtends(ts[1..], g);
        assert |Locate(ts, f).mismatches| > |ms|;
      }
    }
  }

  /** On a terminated text with no `<` inside a tag, the check returns True
      exactly when the locator reports nothing and its stack ends empty. */
  lemma CheckIffNothingReported(xml: string)
    requires Terminated(xml) && NoLtInTags(xml)
    ensures FindUpTo(xml, |xml|).Ok?
    ensures CheckFrom(xml, 0, []) == Ok(true) <==> FindUpTo(xml, |xml|) == Ok(Finder([], []))
  {
    CheckAgreesWithRun(xml, 0, []);
    FindAgreesWithScan(xml, 0, Finder([], []));
    LocateAgreesWithRun(Scan(xml, 0), [], []);
  }
}
