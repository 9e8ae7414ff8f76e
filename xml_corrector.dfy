/** The corrector of XML_Consistency.cpp: `correctindex`, which finds where a
    missing closing tag should go, and `correctMismatchedTags`, which first
    rewrites every mismatched closing tag into the closing tag of the last
    pending opening tag and then inserts closing tags for the openings left
    over. */
module XmlCorrector {
  import opened Base
  import opened TagScan
  import opened Nesting
  import opened XmlConsistency

  /** How the C++ code fails: `back()` of an empty vector (undefined
      behaviour) and `insert` at a position past the end (`std::out_of_range`). */
  datatype Failure = BackOfEmpty | InsertOutOfRange

  // ---------------------------------------------------------------- correctindex

  /** `correctindex` over the tags it meets. `flag` is raised right after an
      opening tag and lowered by a matching closing tag. The answer is the
      offset of the first closing tag that does not match the top, or for a
      second opening tag in a row the offset `start - |previous name| - 2`,
      or -1. */
  function IndexRun(ts: seq<Tag>, stack: seq<string>, flag: bool): int
    requires flag ==> stack != []
    decreases |ts|
  {
    if ts == [] then -1
    else
      var t := ts[0];
      if t.closing then
        if stack == [] || Last(stack) != t.name then t.start
        else IndexRun(ts[1..], stack[..|stack| - 1], false)
      else if flag then t.start - |Last(stack)| - 2
      else IndexRun(ts[1..], stack + [t.name], true)
  }

  function CorrectIndexOf(xml: string, i: nat): int
  {
    IndexRun(Scan(xml, i), [], false)
  }

  /** The vector of open names of `correctindex` is the stack of Nesting's
      `Run`, and its flag says that the tag before was an opening tag. At
      `u[m]` the loop stops in one of two ways. */

  /** `u[m]` is an opening tag right after an opening tag (for `m == 0`,
      right after the start with the flag raised). */
  ghost predicate OpenerClash(u: seq<Tag>, flag: bool, m: int)
  {
    0 <= m < |u| && !u[m].closing && (if m == 0 then flag else !u[m - 1].closing)
  }

  /** `u[m]` is a closing tag that does not close the last name left open by
      the tags before it. */
  ghost predicate CloserClash(u: seq<Tag>, stack: seq<string>, m: int)
  {
    0 <= m < |u| && u[m].closing && Run(u[..m], stack).Some?
    && (Run(u[..m], stack).value == [] || Last(Run(u[..m], stack).value) != u[m].name)
  }

  ghost predicate Clash(u: seq<Tag>, stack: seq<string>, flag: bool, m: int)
  {
    OpenerClash(u, flag, m) || CloserClash(u, stack, m)
  }

  /** No tag before `u[m]` stops the loop. */
  ghost predicate CleanUpTo(u: seq<Tag>, stack: seq<string>, flag: bool, m: int)
  {
    forall j :: 0 <= j < m ==> !Clash(u, stack, flag, j)
  }

  /** The stack after one tag that does not stop the loop. */
  function NextStack(stack: seq<string>, t: Tag): seq<string>
    requires t.closing ==> stack != []
  {
    if t.closing then stack[..|stack| - 1] else stack + [t.name]
  }

  /** Past a first tag that does not stop the loop, the run and the stops
      of the remaining tags are those of the whole sequence, one place
      later. */
  lemma ClashShift(u: seq<Tag>, stack: seq<string>, flag: bool, j: nat)
    requires 0 < j <= |u| && !Clash(u, stack, flag, 0)
    ensures u[0].closing ==> stack != []
    ensures Run(u[..j], stack) == Run(u[1..][..j - 1], NextStack(stack, u[0]))
    ensures j < |u| ==> (Clash(u, stack, flag, j) <==> Clash(u[1..], NextStack(stack, u[0]), !u[0].closing, j - 1))
  {
    assert u[..0] == [];
    assert u[..j][0] == u[0] && u[..j][1..] == u[1..][..j - 1];
    if j < |u| {
      assert u[1..][j - 1] == u[j];
      if j > 1 {
        assert u[1..][j - 2] == u[j - 1];
      }
      assert u[1..][..j - 1] == u[..j][1..];
    }
  }

  /** What `correctindex` answers about the tags `u`, read with the open
      names `stack` and the flag: the first tag `u[m]` that stops the loop
      (all tags before it are read without a stop), or `m == |u|` and -1
      when none does. A stopping closing tag gives its own offset; a
      stopping opening tag gives its offset less the length of the last open
      name, which is the previous tag's name, and 2. */
  lemma {:induction false} IndexRunCases(u: seq<Tag>, stack: seq<string>, flag: bool) returns (m: nat)
    requires flag ==> stack != []
    ensures m <= |u| && CleanUpTo(u, stack, flag, m) && Run(u[..m], stack).Some?
    ensures m == |u| ==> IndexRun(u, stack, flag) == -1
    ensures m < |u| ==> Clash(u, stack, flag, m)
    ensures m < |u| && u[m].closing ==> IndexRun(u, stack, flag) == u[m].start
    ensures m < |u| && !u[m].closing ==>
      var st := Run(u[..m], stack).value;
      st != [] && (0 < m ==> Last(st) == u[m - 1].name) && IndexRun(u, stack, flag) == u[m].start - |Last(st)| - 2
    decreases |u|
  {
    assert u[..0] == [];
    if u == [] {
      m := 0;
    } else if Clash(u, stack, flag, 0) {
      m := 0;
    } else {
      var t := u[0];
      ClashShift(u, stack, flag, 1);
      var next := NextStack(stack, t);
      var m' := IndexRunCases(u[1..], next, !t.closing);
      m := m' + 1;
      forall j | 0 <= j < m
        ensures !Clash(u, stack, flag, j)
      {
        if j > 0 {
          ClashShift(u, stack, flag, j);
        }
      }
      ClashShift(u, stack, flag, m);
      if m' < |u[1..]| && !u[m].closing && m' == 0 {
        assert Run(u[1..][..0], next) == Some(next);
      }
    }
  }

  /** The offset of an opening tag's `>` is one past its name. */
  lemma OpenerWidth(xml: string, ts: seq<Tag>, m: nat)
    requires ReadBack(xml, ts) && m < |ts| && !ts[m].closing
    ensures ts[m].close == ts[m].start + |ts[m].name| + 1
  {
    assert ts[m] == ReadTag(xml, ts[m].start, ts[m].close);
  }

  /** `correctindex(xml, i)` on the tags scanned from `i`: -1 exactly when no
      tag stops the loop, and otherwise the answer at the first tag that
      does, an offset of `xml` at or after `i` (a closing tag's `<`, or an
      opening tag's `<` moved left past the previous opening tag's name). */
  lemma CorrectIndexCases(xml: string, i: nat) returns (m: nat)
    ensures var ts := Scan(xml, i); var r := CorrectIndexOf(xml, i);
      m <= |ts| && CleanUpTo(ts, [], false, m)
      && (r == -1 <==> m == |ts|)
      && (m < |ts| ==> Clash(ts, [], false, m) && i <= r < |xml|)
  {
    var ts := Scan(xml, i);
    m := IndexRunCases(ts, [], false);
    ScanInOrder(xml, i);
    ScanReadBack(xml, i);
    if m < |ts| && !ts[m].closing {
      OpenerWidth(xml, ts, m - 1);
      assert ts[m - 1].close < ts[m].start;
    }
  }

  /** `correctindex(xml, i)` is -1 or an offset of `xml` at or after `i`. */
  lemma CorrectIndexRange(xml: string, i: nat)
    ensures CorrectIndexOf(xml, i) == -1 || i <= CorrectIndexOf(xml, i) < |xml|
  {
    var m := CorrectIndexCases(xml, i);
  }

  /** `correctindex`: the scan from `i` with a vector of open names. */
  method CorrectIndex(xml: string, i0: nat) returns (r: int)
    requires Terminated(xml)
    ensures r == CorrectIndexOf(xml, i0)
  {
    var tagStack: seq<string> := [];
    var n := |xml|;
    var flag := false;
    var i := i0;
    while i < n
      invariant flag ==> tagStack != []
      invariant IndexRun(Scan(xml, i), tagStack, flag) == CorrectIndexOf(xml, i0)
      decreases n - i
    {
      if xml[i] == '<' {
        var closePos := Find(xml, '>', i).value;
        var tagContent := xml[i + 1..closePos];
        var isClosingTag := |tagContent| > 0 && tagContent[0] == '/';
        var tagName := if isClosingTag then tagContent[1..] else tagContent;
        ScanAtTag(xml, i, closePos);
        ghost var t := ReadTag(xml, i, closePos);
        assert t.closing == isClosingTag && t.name == tagName && t.start == i;
        assert ([t] + Scan(xml, closePos + 1))[1..] == Scan(xml, closePos + 1);
        if isClosingTag {
          if tagStack == [] || Last(tagStack) != tagName {
            return i;
          }
          tagStack := tagStack[..|tagStack| - 1];
          flag := false;
        } else {
          if flag {
            return i - |Last(tagStack)| - 2;
          }
          tagStack := tagStack + [tagName];
          flag := true;
        }
        i := closePos + 1;
      } else {
        ScanAtText(xml, i);
        i := i + 1;
      }
    }
    return -1;
  }

  // ---------------------------------------------------------------- phase 1

  /** A rewrite of the first phase: the closing tag spanning `start..close`
      (both included) of the original string becomes `text`. */
  datatype Rewrite = Rewrite(start: nat, close: nat, text: string)

  /** The net change in length the rewrites make. */
  function Delta(rs: seq<Rewrite>): int
    decreases |rs|
  {
    if rs == [] then 0
    else Delta(rs[..|rs| - 1]) + |Last(rs).text| - (Last(rs).close - Last(rs).start + 1)
  }

  /** The offset just past the last rewrite, 0 when there is none. */
  function Cut(rs: seq<Rewrite>): nat
  {
    if rs == [] then 0 else Last(rs).close + 1
  }

  /** Rewrites in document order, inside `s`, disjoint. */
  predicate Fits(s: string, rs: seq<Rewrite>)
    decreases |rs|
  {
    rs == [] || (Fits(s, rs[..|rs| - 1]) && Cut(rs[..|rs| - 1]) <= Last(rs).start <= Last(rs).close < |s|)
  }

  /** `s` up to the cut, with every rewrite applied. */
  function Head(s: string, rs: seq<Rewrite>): (h: string)
    requires Fits(s, rs)
    ensures Cut(rs) <= |s| && |h| == Cut(rs) + Delta(rs)
    decreases |rs|
  {
    if rs == [] then []
    else
      var init := rs[..|rs| - 1];
      Head(s, init) + s[Cut(init)..Last(rs).start] + Last(rs).text
  }

  /** The original string with the rewrites applied. */
  function Rebuild(s: string, rs: seq<Rewrite>): (r: string)
    requires Fits(s, rs)
    ensures |r| == |s| + Delta(rs)
  {
    var h := Head(s, rs);
    h + s[Cut(rs)..]
  }

  /** Appending a rewrite past the cut extends the applied prefix by the
      untouched stretch and the new text. */
  lemma SnocRewrite(s: string, rs: seq<Rewrite>, w: Rewrite)
    requires Fits(s, rs) && Cut(rs) <= w.start <= w.close < |s|
    ensures Fits(s, rs + [w]) && Cut(rs + [w]) == w.close + 1
    ensures Delta(rs + [w]) == Delta(rs) + |w.text| - (w.close - w.start + 1)
    ensures Head(s, rs + [w]) == Head(s, rs) + s[Cut(rs)..w.start] + w.text
  {
    assert (rs + [w])[..|rs|] == rs;
  }

  /** What the first phase has gathered: the rewrites so far, and for each
      pending opening tag its content and its offset in the rewritten string. */
  datatype Pending = Pending(rewrites: seq<Rewrite>, contents: seq<string>, index: seq<int>)

  /** The first phase can go on from the `k`-th reported offset. */
  predicate PlanReady(orig: string, ps: seq<int>, k: nat, st: Pending)
  {
    TagPositions(orig, ps) && k <= |ps| && |st.contents| == |st.index| && Fits(orig, st.rewrites)
    && (k < |ps| ==> Cut(st.rewrites) <= ps[k])
  }

  /** The `>` of the tag at a reported offset lies after its `<` and before
      the next reported offset. */
  lemma CloseAfterOpen(xml: string, ps: seq<int>, k: nat)
    requires TagPositions(xml, ps) && k < |ps|
    ensures ps[k] < Find(xml, '>', ps[k]).value
    ensures k + 1 < |ps| ==> Find(xml, '>', ps[k]).value < ps[k + 1]
  {
  }

  /** The first phase on the original string from the `k`-th reported offset:
      a reported opening tag records its content and offset; a reported closing
      tag becomes the closing tag of the last recorded content, which is then
      dropped. */
  function Plan(orig: string, ps: seq<int>, k: nat, st: Pending): (r: Result<Pending, Failure>)
    requires PlanReady(orig, ps, k, st)
    ensures r.Ok? ==> Fits(orig, r.value.rewrites) && |r.value.contents| == |r.value.index|
    decreases |ps| - k
  {
    if k == |ps| then Ok(st)
    else
      var p := ps[k];
      CloseAfterOpen(orig, ps, k);
      var c := Find(orig, '>', p).value;
      if orig[p + 1] == '/' then
        if st.contents == [] then Err(BackOfEmpty)
        else
          var w := Rewrite(p, c, "</" + Last(st.contents) + ">");
          SnocRewrite(orig, st.rewrites, w);
          Plan(orig, ps, k + 1, Pending(st.rewrites + [w], st.contents[..|st.contents| - 1], st.index[..|st.index| - 1]))
      else
        Plan(orig, ps, k + 1, Pending(st.rewrites, st.contents + [orig[p + 1..c]], st.index + [p + Delta(st.rewrites)]))
  }

  /** `Plan` at a reported closing tag with nothing pending. */
  lemma PlanAtLoneCloser(orig: string, ps: seq<int>, k: nat, st: Pending)
    requires PlanReady(orig, ps, k, st) && k < |ps| && orig[ps[k] + 1] == '/' && st.contents == []
    ensures Plan(orig, ps, k, st) == Err(BackOfEmpty)
  {
  }

  /** `Plan` at a reported closing tag rewrites it and drops the last entry. */
  lemma PlanAtCloser(orig: string, ps: seq<int>, k: nat, st: Pending, c: nat)
    requires PlanReady(orig, ps, k, st) && k < |ps| && orig[ps[k] + 1] == '/' && st.contents != []
    requires Find(orig, '>', ps[k]) == Some(c)
    ensures ps[k] < c
    ensures var w := Rewrite(ps[k], c, "</" + Last(st.contents) + ">");
      var st' := Pending(st.rewrites + [w], st.contents[..|st.contents| - 1], st.index[..|st.index| - 1]);
      PlanReady(orig, ps, k + 1, st') && Plan(orig, ps, k, st) == Plan(orig, ps, k + 1, st')
  {
    CloseAfterOpen(orig, ps, k);
    SnocRewrite(orig, st.rewrites, Rewrite(ps[k], c, "</" + Last(st.contents) + ">"));
  }

  /** `Plan` at a reported opening tag records its content and offset. */
  lemma PlanAtOpener(orig: string, ps: seq<int>, k: nat, st: Pending, c: nat)
    requires PlanReady(orig, ps, k, st) && k < |ps| && orig[ps[k] + 1] != '/'
    requires Find(orig, '>', ps[k]) == Some(c)
    ensures ps[k] < c
    ensures var st' := Pending(st.rewrites, st.contents + [orig[ps[k] + 1..c]], st.index + [ps[k] + Delta(st.rewrites)]);
      PlanReady(orig, ps, k + 1, st') && Plan(orig, ps, k, st) == Plan(orig, ps, k + 1, st')
  {
    CloseAfterOpen(orig, ps, k);
  }

  /** The rewritten prefix followed by the untouched rest, split at an
      offset `p` of the untouched rest. */
  lemma Align(h: string, o: string, c: nat, p: nat)
    requires c <= p <= |o|
    ensures (h + o[c..])[..|h| + (p - c)] == h + o[c..p]
    ensures (h + o[c..])[|h| + (p - c)..] == o[p..]
  {
  }

  /** Two strings that agree from `pos` and from `p` on hold the same tag
      there, with its `>` at the same distance. */
  lemma ShiftedTag(x: string, pos: nat, o: string, p: nat, c: nat)
    requires pos <= |x| && p <= |o| && x[pos..] == o[p..]
    requires p < c && Find(o, '>', p) == Some(c)
    ensures pos + (c - p) < |x| && Find(x, '>', pos) == Some(pos + (c - p))
    ensures x[pos + 1] == o[p + 1] && x[pos + 1..pos + (c - p)] == o[p + 1..c]
  {
    FindShift(o, x, '>', p, pos, 0);
    assert x[pos + 1] == o[p + 1] by {
      assert x[pos..][1] == o[p..][1];
    }
    ShiftedSlice(x, pos, o, p, c - p);
  }

  lemma ShiftedSlice(x: string, pos: nat, o: string, p: nat, n: nat)
    requires pos <= |x| && p <= |o| && x[pos..] == o[p..] && 1 <= n && p + n <= |o|
    ensures pos + n <= |x| && x[pos + 1..pos + n] == o[p + 1..p + n]
  {
    assert |x| - pos == |o| - p;
    var a, b := x[pos + 1..pos + n], o[p + 1..p + n];
    forall k | 0 <= k < |a|
      ensures a[k] == b[k]
    {
      assert x[pos..][k + 1] == o[p..][k + 1];
    }
  }

  /** In a string made of a prefix `h` and the original from `cut` on, a tag
      of the original past `cut` sits at `pos`, shifted by `|h| - cut`, with
      the same content and the same `>`. */
  lemma AtReported(h: string, orig: string, cut: nat, p: nat, pos: nat)
    requires cut <= p < |orig| && orig[p] == '<' && Find(orig, '>', p).Some? && pos == |h| + (p - cut)
    ensures var x := h + orig[cut..];
      var c := Find(orig, '>', p).value;
      p < c && pos + 1 < |x| && x[pos + 1] == orig[p + 1]
      && Find(x, '>', pos) == Some(pos + (c - p)) && x[pos + 1..pos + (c - p)] == orig[p + 1..c]
  {
    Align(h, orig, cut, p);
    ShiftedTag(h + orig[cut..], pos, orig, p, Find(orig, '>', p).value);
  }

  /** Around that tag: before it the prefix and the untouched stretch, after
      its `>` the original after the tag. */
  lemma AroundReported(h: string, orig: string, cut: nat, p: nat, pos: nat)
    requires cut <= p < |orig| && orig[p] == '<' && Find(orig, '>', p).Some? && pos == |h| + (p - cut)
    ensures var x := h + orig[cut..];
      var c := Find(orig, '>', p).value;
      pos + (c - p) < |x| && x[..pos] == h + orig[cut..p] && x[pos + (c - p) + 1..] == orig[c + 1..]
  {
    Align(h, orig, cut, p);
    Align(h, orig, cut, Find(orig, '>', p).value + 1);
  }

  /** `erase` of `x[pos..e]` followed by `insert` of `t` at `pos`. */
  lemma EraseInsert(x: string, pos: nat, e: nat, t: string)
    requires pos <= e <= |x|
    ensures pos <= |x[..pos] + x[e..]| && InsertAt(x[..pos] + x[e..], pos, t) == x[..pos] + t + x[e..]
  {
    var y := x[..pos] + x[e..];
    assert y[..pos] == x[..pos] && y[pos..] == x[e..];
  }

  /** Putting `t` in place of a reported closing tag is one more rewrite of
      the original. */
  lemma CloserStep(orig: string, rs: seq<Rewrite>, p: nat, pos: nat, t: string)
    requires Fits(orig, rs) && Cut(rs) <= p < |orig| && orig[p] == '<' && Find(orig, '>', p).Some?
    requires pos == p + Delta(rs)
    ensures var x := Head(orig, rs) + orig[Cut(rs)..];
      var c := Find(orig, '>', p).value;
      var rw := rs + [Rewrite(p, c, t)];
      pos + (c - p) < |x|
      && Fits(orig, rw) && Cut(rw) == c + 1 && Delta(rw) == Delta(rs) - (c - p + 1) + |t|
      && x[..pos] + t + x[pos + (c - p) + 1..] == Head(orig, rw) + orig[Cut(rw)..]
  {
    var c := Find(orig, '>', p).value;
    assert |Head(orig, rs)| == Cut(rs) + Delta(rs);
    AroundReported(Head(orig, rs), orig, Cut(rs), p, pos);
    SnocRewrite(orig, rs, Rewrite(p, c, t));
  }

  /** The closing-tag branch of the first phase keeps the loop's invariant:
      the edited string is the original with one more rewrite. */
  lemma CloserKeeps(orig: string, rs: seq<Rewrite>, x: string, p: nat, pos: nat, closePos: nat, t: string)
    requires Fits(orig, rs) && Cut(rs) <= p < |orig| && orig[p] == '<' && Find(orig, '>', p).Some?
    requires x == Head(orig, rs) + orig[Cut(rs)..]
    requires pos == p + Delta(rs) && closePos == pos + (Find(orig, '>', p).value - p)
    ensures pos <= closePos < |x|
    ensures var rw := rs + [Rewrite(p, Find(orig, '>', p).value, t)];
      Fits(orig, rw) && Cut(rw) == Find(orig, '>', p).value + 1
      && Delta(rw) == Delta(rs) - (closePos - pos + 1) + |t|
      && x[..pos] + t + x[closePos + 1..] == Head(orig, rw) + orig[Cut(rw)..]
  {
    CloserStep(orig, rs, p, pos, t);
  }

  /** Erasing a closing tag and inserting `t` where it was keeps the string
      terminated, and is the splice of `t` in its place. */
  lemma SpliceTerminated(x: string, pos: nat, closePos: nat, t: string)
    requires pos <= closePos < |x| && Terminated(x) && |t| > 0 && Last(t) == '>'
    ensures pos <= |x[..pos] + x[closePos + 1..]|
    ensures InsertAt(x[..pos] + x[closePos + 1..], pos, t) == x[..pos] + t + x[closePos + 1..]
    ensures Terminated(x[..pos] + t + x[closePos + 1..])
  {
    EraseInsert(x, pos, closePos + 1, t);
    TerminatedSplice(x, pos, closePos + 1, t);
  }

  /** The first phase as a whole: the rewritten string and the entries still
      pending, or the failure. */
  function Phase1(orig: string, ps: seq<int>): (r: Result<(string, seq<string>, seq<int>), Failure>)
    requires TagPositions(orig, ps)
    ensures r.Ok? ==> |r.value.1| == |r.value.2|
  {
    match Plan(orig, ps, 0, Pending([], [], []))
    case Err(e) => Err(e)
    case Ok(st) => Ok((Rebuild(orig, st.rewrites), st.contents, st.index))
  }

  /** What holds between two turns of the first phase's loop: the string is
      the original with the rewrites so far applied, `offset` is their change
      in length, and the string is terminated. */
  ghost predicate Phase1Inv(orig: string, ps: seq<int>, k: nat, rs: seq<Rewrite>,
                            xml: string, tagContent: seq<string>, tagIndex: seq<int>, offset: int)
  {
    PlanReady(orig, ps, k, Pending(rs, tagContent, tagIndex))
    && xml == Head(orig, rs) + orig[Cut(rs)..] && offset == Delta(rs) && Terminated(xml)
  }

  /** One turn of the first phase's loop, at the `k`-th reported offset. */
  method RewriteOne(orig: string, mismatchedPositions: seq<int>, k: nat, ghost rs: seq<Rewrite>,
                    xml0: string, tagContent0: seq<string>, tagIndex0: seq<int>, offset0: int)
    returns (r: Result<(string, seq<string>, seq<int>, int), Failure>, ghost rs': seq<Rewrite>)
    requires k < |mismatchedPositions|
    requires Phase1Inv(orig, mismatchedPositions, k, rs, xml0, tagContent0, tagIndex0, offset0)
    ensures r.Err? ==> Plan(orig, mismatchedPositions, k, Pending(rs, tagContent0, tagIndex0)) == Err(r.error)
    ensures r.Ok? ==> Phase1Inv(orig, mismatchedPositions, k + 1, rs', r.value.0, r.value.1, r.value.2, r.value.3)
    ensures r.Ok? ==> Plan(orig, mismatchedPositions, k + 1, Pending(rs', r.value.1, r.value.2))
                      == Plan(orig, mismatchedPositions, k, Pending(rs, tagContent0, tagIndex0))
  {
    ghost var p := mismatchedPositions[k];
    assert |Head(orig, rs)| == Cut(rs) + Delta(rs);
    var pos := mismatchedPositions[k] + offset0;
    AtReported(Head(orig, rs), orig, Cut(rs), p, pos);
    if xml0[pos + 1] == '/' {
      r, rs' := RewriteCloser(orig, mismatchedPositions, k, rs, xml0, tagContent0, tagIndex0, offset0);
    } else {
      r, rs' := RewriteOpener(orig, mismatchedPositions, k, rs, xml0, tagContent0, tagIndex0, offset0);
    }
  }

  /** The turn at a reported closing tag: it is replaced by the closing tag
      of the last pending opening tag, which is dropped. */
  method RewriteCloser(orig: string, mismatchedPositions: seq<int>, k: nat, ghost rs: seq<Rewrite>,
                    xml0: string, tagContent0: seq<string>, tagIndex0: seq<int>, offset0: int)
    returns (r: Result<(string, seq<string>, seq<int>, int), Failure>, ghost rs': seq<Rewrite>)
    requires k < |mismatchedPositions|
    requires Phase1Inv(orig, mismatchedPositions, k, rs, xml0, tagContent0, tagIndex0, offset0)
    requires var pos := mismatchedPositions[k] + offset0; 0 <= pos && pos + 1 < |xml0| && xml0[pos + 1] == '/'
    ensures r.Err? ==> Plan(orig, mismatchedPositions, k, Pending(rs, tagContent0, tagIndex0)) == Err(r.error)
    ensures r.Ok? ==> Phase1Inv(orig, mismatchedPositions, k + 1, rs', r.value.0, r.value.1, r.value.2, r.value.3)
    ensures r.Ok? ==> Plan(orig, mismatchedPositions, k + 1, Pending(rs', r.value.1, r.value.2))
                      == Plan(orig, mismatchedPositions, k, Pending(rs, tagContent0, tagIndex0))
  {
    var xml, tagContent, tagIndex, offset := xml0, tagContent0, tagIndex0, offset0;
    ghost var P := mismatchedPositions;
    ghost var p := P[k];
    ghost var st := Pending(rs, tagContent, tagIndex);
    ghost var c := Find(orig, '>', p).value;
    assert |Head(orig, rs)| == Cut(rs) + Delta(rs);
    var pos := mismatchedPositions[k] + offset;
    AtReported(Head(orig, rs), orig, Cut(rs), p, pos);
    var closePos := Find(xml, '>', pos).value;
    xml := xml[..pos] + xml[closePos + 1..];
    offset := offset - (closePos - pos + 1);
    if tagContent == [] {
      PlanAtLoneCloser(orig, P, k, st);
      return Err(BackOfEmpty), rs;
    }
    var closingTag := "</" + Last(tagContent) + ">";
    CloserKeeps(orig, rs, xml0, p, pos, closePos, closingTag);
    SpliceTerminated(xml0, pos, closePos, closingTag);
    xml := InsertAt(xml, pos, closingTag);
    offset := offset + |closingTag|;
    PlanAtCloser(orig, P, k, st, c);
    tagContent := tagContent[..|tagContent| - 1];
    tagIndex := tagIndex[..|tagIndex| - 1];
    rs' := rs + [Rewrite(p, c, closingTag)];
    r := Ok((xml, tagContent, tagIndex, offset));
  }

  /** The turn at a reported opening tag: its name and offset are pushed. */
  method RewriteOpener(orig: string, mismatchedPositions: seq<int>, k: nat, ghost rs: seq<Rewrite>,
                    xml0: string, tagContent0: seq<string>, tagIndex0: seq<int>, offset0: int)
    returns (r: Result<(string, seq<string>, seq<int>, int), Failure>, ghost rs': seq<Rewrite>)
    requires k < |mismatchedPositions|
    requires Phase1Inv(orig, mismatchedPositions, k, rs, xml0, tagContent0, tagIndex0, offset0)
    requires var pos := mismatchedPositions[k] + offset0; 0 <= pos && pos + 1 < |xml0| && xml0[pos + 1] != '/'
    ensures r.Err? ==> Plan(orig, mismatchedPositions, k, Pending(rs, tagContent0, tagIndex0)) == Err(r.error)
    ensures r.Ok? ==> Phase1Inv(orig, mismatchedPositions, k + 1, rs', r.value.0, r.value.1, r.value.2, r.value.3)
    ensures r.Ok? ==> Plan(orig, mismatchedPositions, k + 1, Pending(rs', r.value.1, r.value.2))
                      == Plan(orig, mismatchedPositions, k, Pending(rs, tagContent0, tagIndex0))
  {
    var xml, tagContent, tagIndex, offset := xml0, tagContent0, tagIndex0, offset0;
    ghost var P := mismatchedPositions;
    ghost var p := P[k];
    ghost var st := Pending(rs, tagContent, tagIndex);
    ghost var c := Find(orig, '>', p).value;
    assert |Head(orig, rs)| == Cut(rs) + Delta(rs);
    var pos := mismatchedPositions[k] + offset;
    AtReported(Head(orig, rs), orig, Cut(rs), p, pos);
    var closePos := Find(xml, '>', pos).value;
    assert xml[pos + 1..closePos] == orig[p + 1..c];
    PlanAtOpener(orig, P, k, st, c);
    tagContent := tagContent + [xml[pos + 1..closePos]];
    tagIndex := tagIndex + [pos];
    rs' := rs;
    r := Ok((xml, tagContent, tagIndex, offset));
  }

  /** The `for` loop over the reported offsets in `correctMismatchedTags`,
      editing the string in place and shifting each offset by the change in
      length so far. */
  method RewriteMismatched(orig: string, mismatchedPositions: seq<int>)
    returns (r: Result<(string, seq<string>, seq<int>), Failure>)
    requires Terminated(orig) && TagPositions(orig, mismatchedPositions)
    ensures r == Phase1(orig, mismatchedPositions)
    ensures r.Ok? ==> Terminated(r.value.0)
  {
    var xml := orig;
    var tagContent: seq<string> := [];
    var tagIndex: seq<int> := [];
    var offset := 0;
    ghost var rs: seq<Rewrite> := [];
    assert orig[0..] == orig;
    var k := 0;
    while k < |mismatchedPositions|
      invariant Phase1Inv(orig, mismatchedPositions, k, rs, xml, tagContent, tagIndex, offset)
      invariant Plan(orig, mismatchedPositions, k, Pending(rs, tagContent, tagIndex))
                == Plan(orig, mismatchedPositions, 0, Pending([], [], []))
    {
      var step;
      step, rs := RewriteOne(orig, mismatchedPositions, k, rs, xml, tagContent, tagIndex, offset);
      if step.Err? {
        return Err(step.error);
      }
      xml, tagContent, tagIndex, offset := step.value.0, step.value.1, step.value.2, step.value.3;
      k := k + 1;
    }
    return Ok((xml, tagContent, tagIndex));
  }

  // ---------------------------------------------------------------- phase 2

  /** Inserting a closing tag keeps a terminated string terminated. */
  lemma InsertKeepsTerminated(xml: string, q: nat, tag: string)
    requires q <= |xml| && |tag| > 0 && Last(tag) == '>'
    ensures Terminated(xml) ==> Terminated(InsertAt(xml, q, tag))
  {
    if Terminated(xml) {
      TerminatedSplice(xml, q, q, tag);
    }
  }

  /** The `for` loop of the first round of the second phase: for each
      pending opening tag from the first, if the character after the `>` found
      from its recorded offset is not `<`, its closing tag goes in front of the
      next `<` and the entry is erased; otherwise the entry stays. Yields the
      string, the entries left and the inserted length. */
  function Sweep(xml: string, contents: seq<string>, index: seq<int>, i: nat, len: int)
    : (r: Result<(string, seq<string>, seq<int>, int), Failure>)
    requires |contents| == |index| && i <= |contents|
    ensures r.Ok? ==> |r.value.1| == |r.value.2| && r.value.3 - len == |r.value.0| - |xml|
    ensures r.Ok? ==> |r.value.1| <= |contents|
    ensures r.Ok? && Terminated(xml) ==> Terminated(r.value.0)
    decreases |contents| - i
  {
    if i == |contents| then Ok((xml, contents, index, len))
    else
      var tag := "</" + contents[i] + ">";
      var cp := FindPos(xml, '>', index[i] + len) + 1;
      if cp < |xml| && xml[cp] == '<' then Sweep(xml, contents, index, i + 1, len)
      else
        var q := FindPos(xml, '<', cp);
        if q < 0 then Err(InsertOutOfRange)
        else
          var x := InsertAt(xml, q, tag);
          InsertKeepsTerminated(xml, q, tag);
          Sweep(x, Remove(contents, i), Remove(index, i), i, len + |tag|)
  }

  /** The tail of each round of the second phase: the closing tag of the last
      pending entry goes where `correctindex` points from just past the `>`
      found from its recorded offset, and the entry is dropped; the rounds end
      when no entry is left. */
  function Unwind(xml: string, contents: seq<string>, index: seq<int>, len: int): (r: Result<string, Failure>)
    requires |contents| == |index|
    decreases |contents|
  {
    if contents == [] then Err(BackOfEmpty)
    else
      var tag := "</" + Last(contents) + ">";
      var cp := FindPos(xml, '>', Last(index) + len) + 1;
      var q := CorrectIndexOf(xml, cp);
      if q < 0 || q > |xml| then Err(InsertOutOfRange)
      else
        var x := InsertAt(xml, q, tag);
        if |contents| == 1 then Ok(x)
        else Unwind(x, contents[..|contents| - 1], index[..|index| - 1], len + |tag|)
  }

  /** The second phase, from the first phase's string and pending entries. */
  function Phase2(xml: string, contents: seq<string>, index: seq<int>): Result<string, Failure>
    requires |contents| == |index|
  {
    if contents == [] then Ok(xml)
    else match Sweep(xml, contents, index, 0, 0)
      case Err(e) => Err(e)
      case Ok((x, cs, ix, len)) => Unwind(x, cs, ix, len)
  }

  /** What `correctMismatchedTags` computes. */
  function Correct(orig: string): Result<string, Failure>
  {
    MismatchedAreTagStarts(orig);
    match Phase1(orig, Mismatched(orig))
    case Err(e) => Err(e)
    case Ok(v) => Phase2(v.0, v.1, v.2)
  }

  /** A consistent document comes back unchanged. */
  lemma ConsistentUnchanged(orig: string)
    requires Balanced(Scan(orig, 0))
    ensures Correct(orig) == Ok(orig)
  {
    ConsistentHasNoMismatch(orig);
    MismatchedAreTagStarts(orig);
    var none := Pending([], [], []);
    assert Plan(orig, [], 0, none) == Ok(none);
    assert Rebuild(orig, []) == orig by {
      assert orig[0..] == orig;
    }
    assert Phase1(orig, []) == Ok((orig, [], []));
    assert Phase2(orig, [], []) == Ok(orig);
  }

  /** The `for` loop of the first round of the second phase. An erased entry
      leaves `i` where it is, as the source's `i--` before `i++` does. */
  method SweepPending(xml0: string, contents: seq<string>, index: seq<int>, len0: int)
    returns (r: Result<(string, seq<string>, seq<int>, int), Failure>)
    requires |contents| == |index|
    ensures r == Sweep(xml0, contents, index, 0, len0)
  {
    var xml, tagContent, tagIndex, len := xml0, contents, index, len0;
    var i := 0;
    while i < |tagContent|
      invariant 0 <= i <= |tagContent| == |tagIndex|
      invariant Sweep(xml, tagContent, tagIndex, i, len) == Sweep(xml0, contents, index, 0, len0)
      decreases |tagContent| - i
    {
      var failed;
      failed, xml, tagContent, tagIndex, i, len := SweepEntry(xml, tagContent, tagIndex, i, len);
      if failed {
        return Err(InsertOutOfRange);
      }
    }
    return Ok((xml, tagContent, tagIndex, len));
  }

  /** One entry of the sweep: either it stays and `i` moves on, or its
      closing tag is inserted and it is erased, or there is no `<` to put
      the closing tag in front of. */
  method SweepEntry(xml: string, contents: seq<string>, index: seq<int>, i: nat, len: int)
    returns (failed: bool, xml': string, contents': seq<string>, index': seq<int>, i': nat, len': int)
    requires |contents| == |index| && i < |contents|
    ensures failed ==> Sweep(xml, contents, index, i, len) == Err(InsertOutOfRange)
    ensures !failed ==> i' <= |contents'| == |index'| && |contents'| - i' < |contents| - i
    ensures !failed ==> Sweep(xml', contents', index', i', len') == Sweep(xml, contents, index, i, len)
  {
    xml', contents', index', i', len' := xml, contents, index, i, len;
    var closingTag := "</" + contents[i] + ">";
    var closePos := FindPos(xml, '>', index[i] + len) + 1;
    if !(closePos < |xml| && xml[closePos] == '<') {
      closePos := FindPos(xml, '<', closePos);
      if closePos < 0 {
        SweepFails(xml, contents, index, i, len);
        return true, xml', contents', index', i', len';
      }
      SweepErases(xml, contents, index, i, len, closePos);
      xml' := InsertAt(xml, closePos, closingTag);
      len' := len + |closingTag|;
      contents' := Remove(contents, i);
      index' := Remove(index, i);
    } else {
      SweepKeeps(xml, contents, index, i, len);
      i' := i + 1;
    }
    failed := false;
  }

  /** A sweep step that inserts the closing tag before the next `<` and
      erases the entry. */
  lemma SweepErases(xml: string, contents: seq<string>, index: seq<int>, i: nat, len: int, q: int)
    requires |contents| == |index| && i < |contents|
    requires var cp := FindPos(xml, '>', index[i] + len) + 1;
      !(cp < |xml| && xml[cp] == '<') && q == FindPos(xml, '<', cp) && q >= 0
    ensures Sweep(xml, contents, index, i, len)
      == Sweep(InsertAt(xml, q, "</" + contents[i] + ">"), Remove(contents, i), Remove(index, i), i, len + |"</" + contents[i] + ">"|)
  {
  }

  /** A sweep step with no `<` left to insert in front of fails. */
  lemma SweepFails(xml: string, contents: seq<string>, index: seq<int>, i: nat, len: int)
    requires |contents| == |index| && i < |contents|
    requires var cp := FindPos(xml, '>', index[i] + len) + 1;
      !(cp < |xml| && xml[cp] == '<') && FindPos(xml, '<', cp) < 0
    ensures Sweep(xml, contents, index, i, len) == Err(InsertOutOfRange)
  {
  }

  /** A sweep step that keeps the entry. */
  lemma SweepKeeps(xml: string, contents: seq<string>, index: seq<int>, i: nat, len: int)
    requires |contents| == |index| && i < |contents|
    requires var cp := FindPos(xml, '>', index[i] + len) + 1;
      cp < |xml| && xml[cp] == '<'
    ensures Sweep(xml, contents, index, i, len) == Sweep(xml, contents, index, i + 1, len)
  {
  }

  /** The tail of one round of the `while` loop of `correctMismatchedTags`:
      the closing tag of the last pending entry goes where `correctindex`
      points, and the entry is dropped. */
  method CloseLast(xml0: string, contents: seq<string>, index: seq<int>, len0: int)
    returns (r: Result<(string, seq<string>, seq<int>, int), Failure>)
    requires Terminated(xml0) && |contents| == |index| && contents != []
    ensures r.Err? ==> Unwind(xml0, contents, index, len0) == Err(r.error)
    ensures r.Ok? ==> Terminated(r.value.0) && |r.value.1| == |r.value.2| == |contents| - 1
    ensures r.Ok? ==> Unwind(xml0, contents, index, len0)
                      == (if r.value.1 == [] then Ok(r.value.0) else Unwind(r.value.0, r.value.1, r.value.2, r.value.3))
  {
    var closingTag := "</" + Last(contents) + ">";
    var closePos := FindPos(xml0, '>', Last(index) + len0) + 1;
    closePos := CorrectIndex(xml0, closePos);
    if closePos < 0 || closePos > |xml0| {
      return Err(InsertOutOfRange);
    }
    InsertKeepsTerminated(xml0, closePos, closingTag);
    var xml := InsertAt(xml0, closePos, closingTag);
    r := Ok((xml, contents[..|contents| - 1], index[..|index| - 1], len0 + |closingTag|));
  }

  /** The `while` loop of `correctMismatchedTags`: the first round sweeps,
      every round closes the last pending entry where `correctindex` points.
      The flag `f` makes the sweep run in the first round only. */
  method CloseRemaining(xml0: string, contents: seq<string>, index: seq<int>) returns (r: Result<string, Failure>)
    requires Terminated(xml0) && |contents| == |index|
    ensures r == Phase2(xml0, contents, index)
  {
    var xml, tagContent, tagIndex := xml0, contents, index;
    var f := false;
    var len := 0;
    while tagContent != [] && tagIndex != []
      invariant |tagContent| == |tagIndex| && Terminated(xml)
      invariant !f ==> xml == xml0 && tagContent == contents && tagIndex == index && len == 0
      invariant f ==> Phase2(xml0, contents, index)
                      == (if tagContent == [] then Ok(xml) else Unwind(xml, tagContent, tagIndex, len))
      decreases |tagContent|
    {
      if !f {
        var swept := SweepPending(xml, tagContent, tagIndex, len);
        if swept.Err? {
          return Err(swept.error);
        }
        xml, tagContent, tagIndex, len := swept.value.0, swept.value.1, swept.value.2, swept.value.3;
      }
      assert Phase2(xml0, contents, index) == Unwind(xml, tagContent, tagIndex, len);
      f := true;
      if tagContent == [] {
        return Err(BackOfEmpty);
      }
      var step := CloseLast(xml, tagContent, tagIndex, len);
      if step.Err? {
        return Err(step.error);
      }
      xml, tagContent, tagIndex, len := step.value.0, step.value.1, step.value.2, step.value.3;
    }
    return Ok(xml);
  }

  /** `correctMismatchedTags`. */
  method CorrectMismatchedTags(orig: string) returns (r: Result<string, Failure>)
    requires Terminated(orig)
    ensures r == Correct(orig)
  {
    var mismatchedPositions := FindMismatchedTags(orig);
    var first := RewriteMismatched(orig, mismatchedPositions);
    if first.Err? {
      return Err(first.error);
    }
    r := CloseRemaining(first.value.0, first.value.1, first.value.2);
  }
}
