/** `_correct_mismatched_tags` of XML_GUI.py (copied in GUI.py): every offset
    the locator reports is shifted by the running `offset`, and the tag found
    there is deleted (a closing tag) or has a closing tag inserted after it
    (an opening tag). The locator only reports closing tags, and `tag_stack`
    is never appended to, so on the texts it is meant for only the deletion
    runs. */
module PyCorrector {
  import opened Base
  import opened TagScan
  import opened PyXml

  /** The text and the offset the `for` loop carries. */
  datatype Fix = Fix(xml: string, offset: int)

  /** The closing-tag branch: cut from `pos` through the `>` that
      `find('>', pos)` gives, and lower the offset by the length cut. */
  function DeleteBranch(f: Fix, pos: int): Fix
  {
    var closePos := PyFind(f.xml, '>', pos);
    Fix(PySlice(f.xml, 0, pos) + PySlice(f.xml, closePos + 1, |f.xml|), f.offset - (closePos - pos + 1))
  }

  /** The opening-tag branch: insert `</name>` before the next `<` after the
      tag, or at the end, and raise the offset by its length. */
  function InsertBranch(f: Fix, pos: int): Fix
  {
    var closePos := PyFind(f.xml, '>', pos);
    var tagName := PySlice(f.xml, pos + 1, closePos);
    var closingTag := "</" + tagName + ">";
    var found := PyFind(f.xml, '<', closePos + 1);
    var insertPos := if found == -1 then |f.xml| else found;
    Fix(PySlice(f.xml, 0, insertPos) + closingTag + PySlice(f.xml, insertPos, |f.xml|), f.offset + |closingTag|)
  }

  /** One iteration of the `for` loop, for a reported offset p:
      `IndexError` exactly when `xml[pos + 1]` is out of range. */
  function CorrectAt(f: Fix, p: nat): (r: Result<Fix, PyError>)
    ensures r.Err? <==> !(-|f.xml| <= p + f.offset + 1 < |f.xml|)
  {
    var pos := p + f.offset;
    match PyIndex(f.xml, pos + 1)
    case Err(e) => Err(e)
    case Ok(ch) => Ok(if ch == '/' then DeleteBranch(f, pos) else InsertBranch(f, pos))
  }

  /** At a `/`, the iteration takes the deletion branch. */
  lemma AtSlash(f: Fix, p: nat)
    requires PyIndex(f.xml, p + f.offset + 1) == Ok('/')
    ensures CorrectAt(f, p) == Ok(DeleteBranch(f, p + f.offset))
  {
  }

  lemma DeleteBranchAt(f: Fix, pos: int, closePos: int)
    requires PyFind(f.xml, '>', pos) == closePos
    ensures DeleteBranch(f, pos) == Fix(PySlice(f.xml, 0, pos) + PySlice(f.xml, closePos + 1, |f.xml|), f.offset - (closePos - pos + 1))
  {
  }

  /** The loop after the first k reported offsets: before any iteration
      nothing is raised. */
  function CorrectUpTo(xml: string, ps: seq<nat>, k: nat): (r: Result<Fix, PyError>)
    requires k <= |ps|
    ensures r.Err? ==> k > 0
  {
    if k == 0 then Ok(Fix(xml, 0))
    else match CorrectUpTo(xml, ps, k - 1)
      case Err(e) => Err(e)
      case Ok(f) => CorrectAt(f, ps[k - 1])
  }

  /** One more iteration. */
  lemma UpToStep(xml: string, ps: seq<nat>, j: nat, k: nat)
    requires k == j + 1 <= |ps|
    ensures CorrectUpTo(xml, ps, k) == match CorrectUpTo(xml, ps, j)
      case Err(e) => Err(e)
      case Ok(f) => CorrectAt(f, ps[j])
  {
  }

  /** An exception ends the loop: the error is what the call raises. */
  lemma {:induction false} ErrorStays(xml: string, ps: seq<nat>, k: nat, n: nat)
    requires k <= n <= |ps| && CorrectUpTo(xml, ps, k).Err?
    ensures CorrectUpTo(xml, ps, n) == CorrectUpTo(xml, ps, k)
    decreases n
  {
    if k < n {
      var m := n - 1;
      ErrorStays(xml, ps, k, m);
      UpToStep(xml, ps, m, n);
    }
  }

  /** What `_correct_mismatched_tags` returns: the locator's error, and
      the text unchanged when it reports nothing. */
  function Corrected(xml: string): (r: Result<string, PyError>)
    ensures Mismatched(xml).Err? ==> r.Err?
    ensures Mismatched(xml) == Ok([]) ==> r == Ok(xml)
  {
    match Mismatched(xml)
    case Err(e) => Err(e)
    case Ok(ps) =>
      match CorrectUpTo(xml, ps, |ps|)
      case Err(e) => Err(e)
      case Ok(f) => Ok(f.xml)
  }

  /** The closing-tag branch of the loop body. */
  method DeleteClosing(content: string, offset: int, pos: int) returns (r: Fix)
    ensures r == DeleteBranch(Fix(content, offset), pos)
  {
    var closePos := PyFind(content, '>', pos);
    r := Fix(PySlice(content, 0, pos) + PySlice(content, closePos + 1, |content|), offset - (closePos - pos + 1));
  }

  /** The opening-tag branch of the loop body. */
  method InsertClosing(content: string, offset: int, pos: int) returns (r: Fix)
    ensures r == InsertBranch(Fix(content, offset), pos)
  {
    var closePos := PyFind(content, '>', pos);
    var tagName := PySlice(content, pos + 1, closePos);
    var closingTag := "</" + tagName + ">";
    var insertPos := PyFind(content, '<', closePos + 1);
    if insertPos == -1 {
      insertPos := |content|;
    }
    var before := PySlice(content, 0, insertPos);
    var after := PySlice(content, insertPos, |content|);
    r := Fix(before + closingTag + after, offset + |closingTag|);
  }

  /** The body of the `for` loop. */
  method CorrectOne(content: string, offset: int, p: nat) returns (r: Result<Fix, PyError>)
    ensures r == CorrectAt(Fix(content, offset), p)
  {
    var pos := p + offset;
    var next := PyIndex(content, pos + 1);
    if next.Err? {
      return Err(next.error);
    }
    var f: Fix;
    if next.value == '/' {
      f := DeleteClosing(content, offset, pos);
    } else {
      f := InsertClosing(content, offset, pos);
    }
    r := Ok(f);
  }

  method CorrectMismatchedTags(xml: string) returns (r: Result<string, PyError>)
    ensures r == Corrected(xml)
  {
    var found := FindMismatchedTags(xml);
    if found.Err? {
      return Err(found.error);
    }
    var positions := found.value;
    var offset := 0;
    var content := xml;
    for k := 0 to |positions|
      invariant CorrectUpTo(xml, positions, k) == Ok(Fix(content, offset))
    {
      var next := CorrectOne(content, offset, positions[k]);
      if next.Err? {
        ErrorStays(xml, positions, k + 1, |positions|);
        return Err(next.error);
      }
      content, offset := next.value.xml, next.value.offset;
    }
    return Ok(content);
  }

  // ---------------------------------------------------------------------
  // The intended effect: each reported closing tag is cut out

  /** Just past the tag whose `<` is at p: after its `>`, or the end of the
      text when no `>` follows. */
  function TagEnd(xml: string, p: nat): (r: nat)
    ensures r <= |xml| && (p < |xml| ==> p < r)
  {
    match Find(xml, '>', p)
    case None => |xml|
    case Some(c) => c + 1
  }

  /** Where the kept text resumes after the first k reported tags. */
  function Resume(xml: string, ps: seq<nat>, k: nat): (r: nat)
    requires k <= |ps|
    ensures r <= |xml|
  {
    if k == 0 then 0 else TagEnd(xml, ps[k - 1])
  }

  /** Each reported tag is a closing tag `</` that begins at or after the
      end of the previous one. */
  predicate Spaced(xml: string, ps: seq<nat>)
  {
    (forall j :: 0 <= j < |ps| ==> ps[j] + 1 < |xml| && xml[ps[j]] == '<' && xml[ps[j] + 1] == '/')
    && forall k {:trigger Resume(xml, ps, k)} :: 0 <= k < |ps| ==> Resume(xml, ps, k) <= ps[k]
  }

  /** The text kept before the k-th reported tag. */
  function KeptBefore(xml: string, ps: seq<nat>, k: nat): string
    requires k <= |ps|
  {
    if k == 0 then "" else KeptBefore(xml, ps, k - 1) + PySlice(xml, Resume(xml, ps, k - 1), ps[k - 1])
  }

  /** The text with every reported tag cut out. */
  function Removed(xml: string, ps: seq<nat>): string
  {
    KeptBefore(xml, ps, |ps|) + xml[Resume(xml, ps, |ps|)..]
  }

  /** Total length of the first k reported tags. */
  function CutLength(xml: string, ps: seq<nat>, k: nat): int
    requires k <= |ps|
  {
    if k == 0 then 0 else CutLength(xml, ps, k - 1) + (TagEnd(xml, ps[k - 1]) - ps[k - 1])
  }

  /** The kept text is as long as the text read so far, less what was cut. */
  lemma {:induction false} KeptLength(xml: string, ps: seq<nat>, k: nat)
    requires k <= |ps| && Spaced(xml, ps)
    ensures |KeptBefore(xml, ps, k)| == Resume(xml, ps, k) - CutLength(xml, ps, k)
  {
    if k > 0 {
      var j := k - 1;
      KeptLength(xml, ps, j);
      NextCut(xml, ps, j, k);
    }
  }

  /** A loop state made of a kept part followed by the input from r on,
      with the offset that maps an offset of the input into it. */
  predicate Split(kb: string, xml: string, r: nat, f: Fix)
  {
    r <= |xml| && f.xml == kb + xml[r..] && f.offset == |kb| - r
  }

  /** The state the loop keeps while it only deletes: the text kept before
      the k-th reported tag, then the rest of the input. */
  predicate Cutting(xml: string, ps: seq<nat>, k: nat, f: Fix)
    requires k <= |ps|
  {
    Split(KeptBefore(xml, ps, k), xml, Resume(xml, ps, k), f)
  }

  /** Cutting a string made of a kept part and the rest of the input, at
      offsets of the rest. */
  lemma SplitRest(kb: string, xml: string, r: nat, d: nat, e: nat)
    requires r + d <= r + e <= |xml|
    ensures (kb + xml[r..])[..|kb| + d] == kb + xml[r..r + d]
    ensures (kb + xml[r..])[|kb| + e..] == xml[r + e..]
  {
    var t := kb + xml[r..];
    assert t[..|kb| + d] == kb + xml[r..][..d];
    assert xml[r..][..d] == xml[r..r + d];
    assert t[|kb| + e..] == xml[r..][e..];
  }

  /** The text being corrected, seen from the reported `<` at p of the
      input: the kept part before it, its next character and its
      `find('>')`, which is the input's search shifted. */
  lemma ShiftedView(kb: string, xml: string, r: nat, p: nat, f: Fix)
    requires r <= p && p + 1 < |xml| && f.xml == kb + xml[r..] && f.offset == |kb| - r
    ensures var pos := p + f.offset;
      0 <= pos && pos + 1 < |f.xml| && f.xml[pos + 1] == xml[p + 1]
      && f.xml[..pos] == kb + xml[r..p]
      && PyFind(f.xml, '>', pos) == (match Find(xml, '>', p) case None => -1 case Some(c) => c - p + pos)
  {
    var pos := p + f.offset;
    SplitRest(kb, xml, r, p - r, p - r);
    assert f.xml[pos..] == xml[p..];
    assert f.xml[pos + 1] == f.xml[pos..][1];
    PyFindShift(xml, f.xml, '>', p, pos);
  }

  /** `find` in a text whose tail from b is the input's tail from a. */
  lemma PyFindShift(s: string, t: string, c: char, a: nat, b: nat)
    requires a <= |s| && b <= |t| && s[a..] == t[b..]
    ensures PyFind(t, c, b) == (match Find(s, c, a) case None => -1 case Some(x) => x - a + b)
  {
    FindShift(s, t, c, a, b, 0);
    assert a + 0 == a && b + 0 == b;
    if Find(s, c, a).Some? {
      assert Find(t, c, b) == Some(Find(s, c, a).value - a + b);
    } else {
      assert Find(t, c, b).None?;
    }
  }

  /** The deletion at a reported closing tag whose `>` is at c cuts out
      exactly that tag. */
  lemma DeleteTag(kb: string, xml: string, r: nat, p: nat, c: nat, f: Fix)
    requires r <= p && p + 1 < |xml| && Find(xml, '>', p) == Some(c)
    requires f.xml == kb + xml[r..] && f.offset == |kb| - r
    ensures DeleteBranch(f, p + f.offset) == Fix(kb + xml[r..p] + xml[c + 1..], f.offset - (c - p + 1))
  {
    var pos := p + f.offset;
    ShiftedView(kb, xml, r, p, f);
    var closePos := c - p + pos;
    DeleteBranchAt(f, pos, closePos);
    SplitRest(kb, xml, r, p - r, c + 1 - r);
    assert PySlice(f.xml, 0, pos) == kb + xml[r..p];
    assert PySlice(f.xml, closePos + 1, |f.xml|) == xml[c + 1..];
  }

  /** The deletion at a reported closing tag with no later `>`: `find`
      returns -1, so the slice `xml_content[close_pos + 1:]` is the whole
      text, which is appended to the part before the tag, and the offset
      grows by `pos`. */
  lemma DeleteUnterminated(kb: string, xml: string, r: nat, p: nat, f: Fix)
    requires r <= p && p + 1 < |xml| && Find(xml, '>', p).None?
    requires f.xml == kb + xml[r..] && f.offset == |kb| - r
    ensures DeleteBranch(f, p + f.offset) == Fix(kb + xml[r..p] + f.xml, f.offset + (p + f.offset))
  {
    var pos := p + f.offset;
    ShiftedView(kb, xml, r, p, f);
    DeleteBranchAt(f, pos, -1);
    assert PySlice(f.xml, 0, pos) == kb + xml[r..p];
    assert PySlice(f.xml, 0, |f.xml|) == f.xml;
  }

  /** The character after the reported `<` is the input's. */
  lemma SlashAt(kb: string, xml: string, r: nat, p: nat, f: Fix)
    requires r <= p && p + 1 < |xml| && f.xml == kb + xml[r..] && f.offset == |kb| - r
    ensures PyIndex(f.xml, p + f.offset + 1) == Ok(xml[p + 1])
  {
    ShiftedView(kb, xml, r, p, f);
  }

  /** The reported tag after the first j, in the loop's terms: where the
      kept text resumes before it, and how the bookkeeping grows past it
      to k = j + 1. */
  lemma NextCut(xml: string, ps: seq<nat>, j: nat, k: nat)
    requires k == j + 1 <= |ps| && Spaced(xml, ps)
    ensures Resume(xml, ps, j) <= ps[j] && ps[j] + 1 < |xml| && xml[ps[j] + 1] == '/'
    ensures KeptBefore(xml, ps, k) == KeptBefore(xml, ps, j) + xml[Resume(xml, ps, j)..ps[j]]
    ensures Resume(xml, ps, k) == TagEnd(xml, ps[j])
    ensures CutLength(xml, ps, k) == CutLength(xml, ps, j) + (TagEnd(xml, ps[j]) - ps[j])
  {
    NextKept(xml, ps, j, k);
  }

  lemma NextKept(xml: string, ps: seq<nat>, j: nat, k: nat)
    requires k == j + 1 <= |ps| && Resume(xml, ps, j) <= ps[j] < |xml|
    ensures KeptBefore(xml, ps, k) == KeptBefore(xml, ps, j) + xml[Resume(xml, ps, j)..ps[j]]
  {
  }

  /** As written, an iteration at a reported closing tag that has a `>`
      sees the `/` and cuts that tag out, keeping the loop state's shape. */
  lemma DeleteStep(kb: string, xml: string, r: nat, p: nat, c: nat, f: Fix)
    requires Split(kb, xml, r, f) && r <= p && p + 1 < |xml| && xml[p + 1] == '/'
    requires Find(xml, '>', p) == Some(c)
    ensures CorrectAt(f, p).Ok? && Split(kb + xml[r..p], xml, c + 1, CorrectAt(f, p).value)
  {
    SlashAt(kb, xml, r, p, f);
    AtSlash(f, p);
    DeleteTag(kb, xml, r, p, c, f);
  }

  /** The loop state after k offsets, from its parts. */
  lemma CuttingFrom(xml: string, ps: seq<nat>, k: nat, g: Fix, kept: string, r: nat)
    requires k <= |ps| && KeptBefore(xml, ps, k) == kept && Resume(xml, ps, k) == r
    requires Split(kept, xml, r, g)
    ensures Cutting(xml, ps, k, g)
  {
  }

  /** An iteration at the next reported, terminated tag takes the loop
      state after j offsets to the one after k = j + 1. */
  lemma CuttingStep(xml: string, ps: seq<nat>, j: nat, k: nat, f: Fix)
    requires k == j + 1 <= |ps| && Spaced(xml, ps) && Find(xml, '>', ps[j]).Some?
    requires Cutting(xml, ps, j, f)
    ensures CorrectAt(f, ps[j]).Ok? && Cutting(xml, ps, k, CorrectAt(f, ps[j]).value)
  {
    var kb, r, p := KeptBefore(xml, ps, j), Resume(xml, ps, j), ps[j];
    var c := Find(xml, '>', p).value;
    NextCut(xml, ps, j, k);
    DeleteStep(kb, xml, r, p, c, f);
    CuttingFrom(xml, ps, k, CorrectAt(f, p).value, kb + xml[r..p], c + 1);
  }

  /** Past one more reported, terminated tag, the loop keeps its shape. */
  lemma CutNext(xml: string, ps: seq<nat>, j: nat, k: nat)
    requires k == j + 1 <= |ps| && Spaced(xml, ps) && Find(xml, '>', ps[j]).Some?
    requires CorrectUpTo(xml, ps, j).Ok? && Cutting(xml, ps, j, CorrectUpTo(xml, ps, j).value)
    ensures CorrectUpTo(xml, ps, k).Ok? && Cutting(xml, ps, k, CorrectUpTo(xml, ps, k).value)
  {
    CuttingStep(xml, ps, j, k, CorrectUpTo(xml, ps, j).value);
    UpToStep(xml, ps, j, k);
  }

  /** With every reported tag terminated, the loop's state after k offsets
      is the input with the first k reported tags cut out. */
  lemma {:induction false} CutUpTo(xml: string, ps: seq<nat>, k: nat)
    requires k <= |ps| && Spaced(xml, ps)
    requires forall j :: 0 <= j < |ps| ==> Find(xml, '>', ps[j]).Some?
    ensures CorrectUpTo(xml, ps, k).Ok? && Cutting(xml, ps, k, CorrectUpTo(xml, ps, k).value)
  {
    if k == 0 {
      assert xml[0..] == xml;
    } else {
      var j := k - 1;
      CutUpTo(xml, ps, j);
      CutNext(xml, ps, j, k);
    }
  }

  /** Under the locator's guarantees and no `<` inside a tag, the reported
      tags are spaced. */
  lemma ReportsSpaced(xml: string, ps: seq<nat>)
    requires NoLtInTags(xml) && ReportsClosers(xml, |xml|, ps)
    ensures Spaced(xml, ps)
  {
    forall k | 0 < k < |ps|
      ensures TagEnd(xml, ps[k - 1]) <= ps[k]
    {
      var a, b := ps[k - 1], ps[k];
      FindSome(xml, '<', a + 1, b);
    }
  }

  /** On a text whose every `<` has a later `>` and with no `<` inside a tag,
      `_correct_mismatched_tags` returns the input with each reported
      closing tag cut out, its `>` included, and nothing else changed. */
  lemma CorrectedCutsReported(xml: string)
    requires Terminated(xml) && NoLtInTags(xml)
    ensures Mismatched(xml).Ok?
    ensures Spaced(xml, Mismatched(xml).value)
    ensures Corrected(xml) == Ok(Removed(xml, Mismatched(xml).value))
  {
    MismatchedErrorIff(xml);
    TerminatedLastNotLt(xml);
    var ps := Mismatched(xml).value;
    MismatchedAreClosers(xml);
    ReportsSpaced(xml, ps);
    CutUpTo(xml, ps, |ps|);
  }

  /** The final offset is minus the total length of the cut tags. */
  lemma CorrectedOffset(xml: string)
    requires Terminated(xml) && NoLtInTags(xml)
    ensures Mismatched(xml).Ok? && Spaced(xml, Mismatched(xml).value)
    ensures var ps := Mismatched(xml).value;
      CorrectUpTo(xml, ps, |ps|).Ok? && CorrectUpTo(xml, ps, |ps|).value.offset == -CutLength(xml, ps, |ps|)
      && |Removed(xml, ps)| == |xml| - CutLength(xml, ps, |ps|)
  {
    CorrectedCutsReported(xml);
    var ps := Mismatched(xml).value;
    CutUpTo(xml, ps, |ps|);
    KeptLength(xml, ps, |ps|);
  }

  // ---------------------------------------------------------------------
  // A closing tag with no `>` after it

  /** On `"<b></a"` the locator reports the `</a` at 3: `find('>')` gives
      -1 there and the tag read is empty, which is not `b`. */
  lemma UnterminatedReported()
    ensures Mismatched("<b></a") == Ok([3])
  {
    var xml := "<b></a";
    assert Find(xml, '>', 2) == Some(2);
    assert PyFind(xml, '>', 1) == 2;
    assert PySlice(xml, 1, 2) == "b";
    var none: seq<string> := [];
    assert none + ["b"] == ["b"];
    assert FindAt(xml, 0, Finder([], [])) == Ok(Finder(["b"], []));
    assert FindUpTo(xml, 1) == Ok(Finder(["b"], []));
    assert FindUpTo(xml, 3) == Ok(Finder(["b"], []));
    assert Find(xml, '>', 5) == None;
    assert PyFind(xml, '>', 5) == -1;
    assert PySlice(xml, 5, -1) == "";
    var noPos: seq<nat> := [];
    assert noPos + [3] == [3];
    assert FindAt(xml, 3, Finder(["b"], [])) == Ok(Finder(["b"], [3]));
    assert FindUpTo(xml, 4) == Ok(Finder(["b"], [3]));
    assert FindUpTo(xml, 6) == Ok(Finder(["b"], [3]));
  }

  /** As written, the correction of `"<b></a"` copies the whole text after
      `"<b>"` instead of cutting the tag. */
  lemma UnterminatedCopied()
    ensures Corrected("<b></a") == Ok("<b><b></a")
  {
    UnterminatedReported();
    var xml := "<b></a";
    UpToStep(xml, [3], 0, 1);
    assert [3][0] == 3;
    CopyStep(xml);
  }

  /** The one iteration on `"<b></a"`: the deletion branch, with no `>`. */
  lemma CopyStep(xml: string)
    requires xml == "<b></a"
    ensures CorrectAt(Fix(xml, 0), 3) == Ok(Fix("<b><b></a", 3))
  {
    var f := Fix(xml, 0);
    assert PyIndex(xml, 4) == Ok('/');
    AtSlash(f, 3);
    assert Find(xml, '>', 3) == None;
    assert "" + xml[0..] == xml;
    DeleteUnterminated("", xml, 0, 3, f);
    CopiedText(xml);
  }

  lemma CopiedText(xml: string)
    requires xml == "<b></a"
    ensures "" + xml[0..3] + xml == "<b><b></a"
  {
    var head := xml[0..3];
    assert head == ['<', 'b', '>'];
    var t := "" + head + xml;
    assert |t| == 9;
    forall k | 0 <= k < 9
      ensures t[k] == "<b><b></a"[k]
    {
    }
  }

  /** The corrected closing-tag branch: with no `>` after the tag, cut to
      the end of the text. */
  function DeleteBranchFixed(f: Fix, pos: int): Fix
  {
    var closePos := PyFind(f.xml, '>', pos);
    var tagEnd := if closePos == -1 then |f.xml| else closePos + 1;
    Fix(PySlice(f.xml, 0, pos) + PySlice(f.xml, tagEnd, |f.xml|), f.offset - (tagEnd - pos))
  }

  /** One iteration of the corrected loop. */
  function CorrectAtFixed(f: Fix, p: nat): Result<Fix, PyError>
  {
    var pos := p + f.offset;
    match PyIndex(f.xml, pos + 1)
    case Err(e) => Err(e)
    case Ok(ch) => Ok(if ch == '/' then DeleteBranchFixed(f, pos) else InsertBranch(f, pos))
  }

  /** The corrected loop after the first k reported offsets. */
  function CorrectUpToFixed(xml: string, ps: seq<nat>, k: nat): Result<Fix, PyError>
    requires k <= |ps|
  {
    if k == 0 then Ok(Fix(xml, 0))
    else match CorrectUpToFixed(xml, ps, k - 1)
      case Err(e) => Err(e)
      case Ok(f) => CorrectAtFixed(f, ps[k - 1])
  }

  /** The corrected `_correct_mismatched_tags`. */
  function CorrectedFixed(xml: string): Result<string, PyError>
  {
    match Mismatched(xml)
    case Err(e) => Err(e)
    case Ok(ps) =>
      match CorrectUpToFixed(xml, ps, |ps|)
      case Err(e) => Err(e)
      case Ok(f) => Ok(f.xml)
  }

  lemma UpToFixedStep(xml: string, ps: seq<nat>, j: nat, k: nat)
    requires k == j + 1 <= |ps|
    ensures CorrectUpToFixed(xml, ps, k) == match CorrectUpToFixed(xml, ps, j)
      case Err(e) => Err(e)
      case Ok(f) => CorrectAtFixed(f, ps[j])
  {
  }

  lemma AtSlashFixed(f: Fix, p: nat)
    requires PyIndex(f.xml, p + f.offset + 1) == Ok('/')
    ensures CorrectAtFixed(f, p) == Ok(DeleteBranchFixed(f, p + f.offset))
  {
  }

  lemma DeleteFixedAt(f: Fix, pos: int, tagEnd: int)
    requires tagEnd == (if PyFind(f.xml, '>', pos) == -1 then |f.xml| else PyFind(f.xml, '>', pos) + 1)
    ensures DeleteBranchFixed(f, pos) == Fix(PySlice(f.xml, 0, pos) + PySlice(f.xml, tagEnd, |f.xml|), f.offset - (tagEnd - pos))
  {
  }

  /** The corrected deletion cuts the reported tag through its `>`, or
      through the end of the text when there is none. */
  lemma DeleteFixedTag(kb: string, xml: string, r: nat, p: nat, f: Fix)
    requires r <= p && p + 1 < |xml| && f.xml == kb + xml[r..] && f.offset == |kb| - r
    ensures DeleteBranchFixed(f, p + f.offset) == Fix(kb + xml[r..p] + xml[TagEnd(xml, p)..], f.offset - (TagEnd(xml, p) - p))
  {
    var pos := p + f.offset;
    ShiftedView(kb, xml, r, p, f);
    var e := TagEnd(xml, p);
    var tagEnd := e - p + pos;
    DeleteFixedAt(f, pos, tagEnd);
    SplitRest(kb, xml, r, p - r, e - r);
    assert PySlice(f.xml, 0, pos) == kb + xml[r..p];
    assert tagEnd == |kb| + (e - r) <= |f.xml|;
    assert f.xml[tagEnd..] == xml[e..];
    assert PySlice(f.xml, tagEnd, |f.xml|) == f.xml[tagEnd..];
  }

  /** The corrected iteration at a reported closing tag keeps the loop
      state's shape, terminated or not. */
  lemma DeleteFixedStep(kb: string, xml: string, r: nat, p: nat, f: Fix)
    requires Split(kb, xml, r, f) && r <= p && p + 1 < |xml| && xml[p + 1] == '/'
    ensures CorrectAtFixed(f, p).Ok? && Split(kb + xml[r..p], xml, TagEnd(xml, p), CorrectAtFixed(f, p).value)
  {
    SlashAt(kb, xml, r, p, f);
    AtSlashFixed(f, p);
    DeleteFixedTag(kb, xml, r, p, f);
  }

  /** A corrected iteration at the next reported tag, terminated or not,
      takes the loop state after j offsets to the one after k = j + 1. */
  lemma CuttingFixedStep(xml: string, ps: seq<nat>, j: nat, k: nat, f: Fix)
    requires k == j + 1 <= |ps| && Spaced(xml, ps) && Cutting(xml, ps, j, f)
    ensures CorrectAtFixed(f, ps[j]).Ok? && Cutting(xml, ps, k, CorrectAtFixed(f, ps[j]).value)
  {
    var kb, r, p := KeptBefore(xml, ps, j), Resume(xml, ps, j), ps[j];
    NextCut(xml, ps, j, k);
    DeleteFixedStep(kb, xml, r, p, f);
    CuttingFrom(xml, ps, k, CorrectAtFixed(f, p).value, kb + xml[r..p], TagEnd(xml, p));
  }

  lemma CutNextFixed(xml: string, ps: seq<nat>, j: nat, k: nat)
    requires k == j + 1 <= |ps| && Spaced(xml, ps)
    requires CorrectUpToFixed(xml, ps, j).Ok? && Cutting(xml, ps, j, CorrectUpToFixed(xml, ps, j).value)
    ensures CorrectUpToFixed(xml, ps, k).Ok? && Cutting(xml, ps, k, CorrectUpToFixed(xml, ps, k).value)
  {
    CuttingFixedStep(xml, ps, j, k, CorrectUpToFixed(xml, ps, j).value);
    UpToFixedStep(xml, ps, j, k);
  }

  /** The corrected loop's state after k offsets is the input with the
      first k reported tags cut out, whether they have a `>` or not. */
  lemma {:induction false} CutUpToFixed(xml: string, ps: seq<nat>, k: nat)
    requires k <= |ps| && Spaced(xml, ps)
    ensures CorrectUpToFixed(xml, ps, k).Ok? && Cutting(xml, ps, k, CorrectUpToFixed(xml, ps, k).value)
  {
    if k == 0 {
      assert xml[0..] == xml;
    } else {
      var j := k - 1;
      CutUpToFixed(xml, ps, j);
      CutNextFixed(xml, ps, j, k);
    }
  }

  /** With no `<` inside a tag and no `<` at the very end, the corrected
      function returns the input with each reported closing tag cut out. */
  lemma CorrectedFixedCutsReported(xml: string)
    requires NoLtInTags(xml) && (|xml| > 0 ==> Last(xml) != '<')
    ensures Mismatched(xml).Ok?
    ensures Spaced(xml, Mismatched(xml).value)
    ensures CorrectedFixed(xml) == Ok(Removed(xml, Mismatched(xml).value))
  {
    MismatchedErrorIff(xml);
    var ps := Mismatched(xml).value;
    MismatchedAreClosers(xml);
    ReportsSpaced(xml, ps);
    CutUpToFixed(xml, ps, |ps|);
  }

  /** On the same text the corrected function cuts `</a` out. */
  lemma UnterminatedCut()
    ensures CorrectedFixed("<b></a") == Ok("<b>")
  {
    UnterminatedReported();
    var xml := "<b></a";
    var f := Fix(xml, 0);
    UpToFixedStep(xml, [3], 0, 1);
    assert PyIndex(xml, 4) == Ok('/');
    AtSlashFixed(f, 3);
    assert Find(xml, '>', 3) == None;
    DeleteFixedAt(f, 3, 6);
    CutText(xml);
  }

  lemma CutText(xml: string)
    requires xml == "<b></a"
    ensures PySlice(xml, 0, 3) + PySlice(xml, 6, |xml|) == "<b>"
  {
    assert xml[0..3] == ['<', 'b', '>'];
    assert xml[6..6] == [];
  }
}
