/** XML_Consistency.cpp: the linked stack, the strict consistency check, the
    locator of mismatched tags and the whitespace filter of `readXMLFile`. */
module XmlConsistency {
  import opened Base
  import opened TagScan
  import opened Nesting

  /** The nodes of the linked stack, top first. */
  datatype Link<T> = Null | Node(data: T, next: Link<T>)

  /** The values held from `l` down, bottom first, top last. */
  function Items<T>(l: Link<T>): seq<T>
  {
    match l
    case Null => []
    case Node(d, next) => Items(next) + [d]
  }

  /** `Stack<t>`: a singly linked list of nodes with a counter `length`. */
  class Stack<T> {
    var top: Link<T>
    var length: int

    /** The values on the stack, bottom first. */
    ghost function Elements(): seq<T>
      reads this
    {
      Items(top)
    }

    /** The counter agrees with the number of nodes. */
    ghost predicate Valid()
      reads this
    {
      length == |Items(top)|
    }

    constructor()
      ensures Valid() && Elements() == []
    {
      top := Null;
      length := 0;
    }

    method IsEmpty() returns (b: bool)
      requires Valid()
      ensures b <==> Elements() == []
    {
      b := top.Null?;
    }

    method Len() returns (n: int)
      requires Valid()
      ensures n == |Elements()|
    {
      n := length;
    }

    method Push(value: T)
      requires Valid()
      modifies this
      ensures Valid() && Elements() == old(Elements()) + [value]
    {
      top := Node(value, top);
      length := length + 1;
    }

    method Pop() returns (v: T)
      requires Valid() && Elements() != []
      modifies this
      ensures Valid() && v == Last(old(Elements())) && Elements() == old(Elements())[..|old(Elements())| - 1]
    {
      v := top.data;
      top := top.next;
      length := length - 1;
    }

    method Peak() returns (v: T)
      requires Valid() && Elements() != []
      ensures v == Last(Elements())
    {
      v := top.data;
    }
  }

  /** Pushing and then popping hands back the pushed value and leaves the
      stack and its length as they were. */
  method PushThenPop<T>(s: Stack<T>, x: T) returns (y: T, n: int)
    requires s.Valid()
    modifies s
    ensures y == x && s.Valid() && s.Elements() == old(s.Elements()) && n == |old(s.Elements())|
  {
    s.Push(x);
    y := s.Pop();
    n := s.Len();
  }

  /** `checkXMLConsistency`: walks the document with a fresh stack of open
      names; the answer is the stack machine's verdict on the scanned tags. */
  method CheckXmlConsistency(xml: string) returns (ok: bool)
    requires Terminated(xml)
    ensures ok == Balanced(Scan(xml, 0))
  {
    var tagStack := new Stack<string>();
    var i: nat := 0;
    while i < |xml|
      invariant i <= |xml| && tagStack.Valid()
      invariant Run(Scan(xml, i), tagStack.Elements()) == Run(Scan(xml, 0), [])
      decreases |xml| - i
    {
      if xml[i] == '<' {
        var closePos := Find(xml, '>', i).value;
        var fine := CheckTag(xml, i, closePos, tagStack);
        if !fine {
          return false;
        }
        i := closePos + 1;
      } else {
        ScanAtText(xml, i);
        i := i + 1;
      }
    }
    ok := tagStack.IsEmpty();
  }

  /** One tag of `checkXMLConsistency`: a closing tag must name the top,
      which it pops; an opening tag is pushed. False when the check fails
      here, which is exactly when the stack machine fails on this tag. */
  method CheckTag(xml: string, i: nat, closePos: nat, tagStack: Stack<string>) returns (fine: bool)
    requires i < |xml| && xml[i] == '<' && Find(xml, '>', i) == Some(closePos) && tagStack.Valid()
    modifies tagStack
    ensures tagStack.Valid()
    ensures fine ==> Run(Scan(xml, closePos + 1), tagStack.Elements()) == Run(Scan(xml, i), old(tagStack.Elements()))
    ensures !fine ==> Run(Scan(xml, i), old(tagStack.Elements())) == None
  {
    ScanAtTag(xml, i, closePos);
    RunHead(ReadTag(xml, i, closePos), Scan(xml, closePos + 1), tagStack.Elements());
    var tagContent := xml[i + 1..closePos];
    if |tagContent| > 0 && tagContent[0] == '/' {
      var tagName := tagContent[1..];
      assert ReadTag(xml, i, closePos).name == tagName;
      var empty := tagStack.IsEmpty();
      if empty {
        return false;
      }
      var top := tagStack.Peak();
      if top != tagName {
        return false;
      }
      var _ := tagStack.Pop();
    } else {
      assert ReadTag(xml, i, closePos).name == tagContent;
      tagStack.Push(tagContent);
    }
    fine := true;
  }

  /** The stack machine on a first tag. */
  lemma RunHead(t: Tag, rest: seq<Tag>, stack: seq<string>)
    ensures Run([t] + rest, stack) == if !t.closing then Run(rest, stack + [t.name])
      else if stack != [] && Last(stack) == t.name then Run(rest, stack[..|stack| - 1])
      else None
  {
    assert ([t] + rest)[0] == t && ([t] + rest)[1..] == rest;
  }

  /** The last index of `names` holding `x`, or -1. */
  function LastIndexOf(names: seq<string>, x: string): (j: int)
    ensures -1 <= j < |names|
    ensures j >= 0 ==> names[j] == x && forall k :: j < k < |names| ==> names[k] != x
    ensures j < 0 ==> forall k :: 0 <= k < |names| ==> names[k] != x
  {
    if names == [] then -1
    else if Last(names) == x then |names| - 1
    else LastIndexOf(names[..|names| - 1], x)
  }

  function Remove<T>(s: seq<T>, j: nat): (r: seq<T>)
    requires j < |s|
    ensures |r| == |s| - 1
  {
    s[..j] + s[j + 1..]
  }

  /** The tolerant walk of `findMismatchedTags`: a closing tag cancels the
      most recent open tag of its name, wherever it sits in the stack, and is
      recorded as mismatched when there is none. The result is the recorded
      positions and the positions still open at the end. */
  function Locate(ts: seq<Tag>, names: seq<string>, poss: seq<int>, mism: seq<int>): (seq<int>, seq<int>)
    requires |names| == |poss|
    decreases |ts|
  {
    if ts == [] then (mism, poss)
    else if ts[0].closing then
      var j := LastIndexOf(names, ts[0].name);
      if j >= 0 then Locate(ts[1..], Remove(names, j), Remove(poss, j), mism)
      else Locate(ts[1..], names, poss, mism + [ts[0].start])
    else Locate(ts[1..], names + [ts[0].name], poss + [ts[0].start], mism)
  }

  /** One tag of the walk, then the walk over the rest. */
  lemma LocateCons(t: Tag, rest: seq<Tag>, names: seq<string>, poss: seq<int>, mism: seq<int>)
    requires |names| == |poss|
    ensures t.closing && LastIndexOf(names, t.name) >= 0 ==>
      Locate([t] + rest, names, poss, mism)
        == Locate(rest, Remove(names, LastIndexOf(names, t.name)), Remove(poss, LastIndexOf(names, t.name)), mism)
    ensures t.closing && LastIndexOf(names, t.name) < 0 ==>
      Locate([t] + rest, names, poss, mism) == Locate(rest, names, poss, mism + [t.start])
    ensures !t.closing ==>
      Locate([t] + rest, names, poss, mism) == Locate(rest, names + [t.name], poss + [t.start], mism)
  {
    assert ([t] + rest)[1..] == rest;
  }

  predicate Sorted(s: seq<int>)
  {
    forall a, b :: 0 <= a < b < |s| ==> s[a] <= s[b]
  }

  /** `x` put in front of the first element not below it. */
  function InsertSorted(x: int, s: seq<int>): seq<int>
  {
    if s == [] then [x]
    else if x <= s[0] then [x] + s
    else [s[0]] + InsertSorted(x, s[1..])
  }

  /** Inserting into a sorted sequence keeps it sorted and adds exactly
      `x`. */
  lemma {:induction false} InsertSortedSpec(x: int, s: seq<int>)
    requires Sorted(s)
    ensures Sorted(InsertSorted(x, s)) && multiset(InsertSorted(x, s)) == multiset(s) + multiset{x}
  {
    if s != [] {
      if x <= s[0] {
        InsertSortedFront(x, s);
      } else {
        SortedTail(s);
        InsertSortedSpec(x, s[1..]);
        InsertSortedBehind(x, s);
      }
    }
  }

  /** The tail of a sorted sequence is sorted and bounded below by the head. */
  lemma SortedTail(s: seq<int>)
    requires Sorted(s) && s != []
    ensures Sorted(s[1..]) && forall j :: 0 <= j < |s[1..]| ==> s[0] <= s[1..][j]
  {
    var t := s[1..];
    forall a, b | 0 <= a < b < |t|
      ensures t[a] <= t[b]
    {
      assert t[a] == s[a + 1] && t[b] == s[b + 1];
    }
    forall j | 0 <= j < |t|
      ensures s[0] <= t[j]
    {
      assert t[j] == s[j + 1];
    }
  }

  /** `x` no greater than the head goes in front. */
  lemma InsertSortedFront(x: int, s: seq<int>)
    requires Sorted(s) && s != [] && x <= s[0]
    ensures Sorted(InsertSorted(x, s)) && multiset(InsertSorted(x, s)) == multiset(s) + multiset{x}
  {
    assert forall j :: 0 <= j < |s| ==> s[0] <= s[j];
    SortedCons(x, s);
  }

  /** `x` above the head goes behind it, into the sorted tail. */
  lemma InsertSortedBehind(x: int, s: seq<int>)
    requires Sorted(s) && s != [] && s[0] < x
    requires Sorted(s[1..]) && forall j :: 0 <= j < |s[1..]| ==> s[0] <= s[1..][j]
    requires Sorted(InsertSorted(x, s[1..])) && multiset(InsertSorted(x, s[1..])) == multiset(s[1..]) + multiset{x}
    ensures Sorted(InsertSorted(x, s)) && multiset(InsertSorted(x, s)) == multiset(s) + multiset{x}
  {
    var t := s[1..];
    var r := InsertSorted(x, t);
    assert s == [s[0]] + t;
    assert InsertSorted(x, s) == [s[0]] + r;
    InsertedAbove(s[0], x, t, r);
    SortedCons(s[0], r);
    assert multiset([s[0]] + r) == multiset{s[0]} + multiset(r);
  }

  /** What is inserted after a head no greater than everything stays no
      smaller than it. */
  lemma InsertedAbove(h: int, x: int, t: seq<int>, r: seq<int>)
    requires h < x && (forall i :: 0 <= i < |t| ==> h <= t[i]) && multiset(r) == multiset(t) + multiset{x}
    ensures forall j :: 0 <= j < |r| ==> h <= r[j]
  {
    forall j | 0 <= j < |r|
      ensures h <= r[j]
    {
      assert r[j] in multiset(r);
      if r[j] != x {
        assert r[j] in multiset(t);
        var i :| 0 <= i < |t| && t[i] == r[j];
      }
    }
  }

  lemma SortedCons(h: int, t: seq<int>)
    requires Sorted(t) && (t != [] ==> h <= t[0]) && forall j :: 0 <= j < |t| ==> h <= t[j]
    ensures Sorted([h] + t)
  {
    var r := [h] + t;
    forall a, b | 0 <= a < b < |r|
      ensures r[a] <= r[b]
    {
      assert r[b] == t[b - 1];
      if a > 0 {
        assert r[a] == t[a - 1];
      }
    }
  }

  /** `std::sort` on integers: the ascending permutation. */
  function SortAsc(s: seq<int>): (r: seq<int>)
    ensures Sorted(r) && multiset(r) == multiset(s)
  {
    if s == [] then []
    else
      assert s == [s[0]] + s[1..];
      InsertSortedSpec(s[0], SortAsc(s[1..]));
      InsertSorted(s[0], SortAsc(s[1..]))
  }

  /** What `findMismatchedTags` returns: the recorded and the still open
      positions together, ascending. */
  function Mismatched(xml: string): seq<int>
  {
    var (m, p) := Locate(Scan(xml, 0), [], [], []);
    SortAsc(m + p)
  }

  /** Every position the walk reports is the start of a scanned tag it has
      consumed, and none is reported twice. */
  lemma {:induction false} LocateFromTags(ts: seq<Tag>, names: seq<string>, poss: seq<int>, mism: seq<int>)
    requires |names| == |poss|
    ensures multiset(Locate(ts, names, poss, mism).0 + Locate(ts, names, poss, mism).1)
      <= multiset(mism + poss) + multiset(Starts(ts))
    decreases |ts|
  {
    if ts != [] {
      var t := ts[0];
      var rest := ts[1..];
      var whole := Locate(ts, names, poss, mism);
      assert Starts(ts) == [t.start] + Starts(rest);
      assert multiset(Starts(ts)) == multiset{t.start} + multiset(Starts(rest));
      if t.closing {
        var j := LastIndexOf(names, t.name);
        if j >= 0 {
          var poss' := Remove(poss, j);
          assert whole == Locate(rest, Remove(names, j), poss', mism);
          LocateFromTags(rest, Remove(names, j), poss', mism);
          RemoveWithin(poss, j);
          assert multiset(mism + poss') <= multiset(mism + poss);
        } else {
          var mism' := mism + [t.start];
          assert whole == Locate(rest, names, poss, mism');
          LocateFromTags(rest, names, poss, mism');
          assert multiset(mism' + poss) == multiset(mism + poss) + multiset{t.start};
        }
      } else {
        var poss' := poss + [t.start];
        assert whole == Locate(rest, names + [t.name], poss', mism);
        LocateFromTags(rest, names + [t.name], poss', mism);
        assert multiset(mism + poss') == multiset(mism + poss) + multiset{t.start};
      }
    }
  }

  /** Taking one element out leaves a sub-multiset. */
  lemma RemoveWithin(s: seq<int>, j: nat)
    requires j < |s|
    ensures multiset(Remove(s, j)) <= multiset(s)
  {
    assert s == s[..j] + [s[j]] + s[j + 1..];
  }

  /** A sequence in which no value occurs twice. */
  ghost predicate Distinct(s: seq<int>)
  {
    forall x :: multiset(s)[x] <= 1
  }

  lemma IncreasingDistinct(s: seq<int>)
    requires Increasing(s)
    ensures Distinct(s)
    decreases |s|
  {
    if s != [] {
      IncreasingDistinct(s[1..]);
      assert s == [s[0]] + s[1..];
      assert s[0] !in multiset(s[1..]);
    }
  }

  lemma SubMultisetDistinct(a: seq<int>, b: seq<int>)
    requires multiset(a) <= multiset(b) && Distinct(b)
    ensures Distinct(a)
  {
    forall x
      ensures multiset(a)[x] <= 1
    {
      assert multiset(a)[x] <= multiset(b)[x];
    }
  }

  lemma SortedDistinctIncreasing(s: seq<int>)
    requires Sorted(s) && Distinct(s)
    ensures Increasing(s)
  {
    forall a, b | 0 <= a < b < |s|
      ensures s[a] < s[b]
    {
      assert s == s[..b] + s[b..];
      assert s[a] in multiset(s[..b]) && s[b] in multiset(s[b..]);
      assert s[a] == s[b] ==> multiset(s)[s[a]] >= 2;
    }
  }

  /** Offsets the corrector can work from: each is a `<` that `find` pairs
      with a `>`, and that `>` comes before every later offset. */
  predicate TagPositions(xml: string, ps: seq<int>)
  {
    (forall k :: 0 <= k < |ps| ==> 0 <= ps[k] < |xml| && xml[ps[k]] == '<' && Find(xml, '>', ps[k]).Some?)
    && (forall a, b :: 0 <= a < b < |ps| ==> Find(xml, '>', ps[a]).value < ps[b])
  }

  /** `findMismatchedTags` reports offsets of scanned `<`, strictly
      ascending, each tag ending before the next reported one. */
  lemma MismatchedAreTagStarts(xml: string)
    ensures Increasing(Mismatched(xml))
    ensures TagPositions(xml, Mismatched(xml))
  {
    MismatchedFromScan(xml);
    ScanInOrder(xml, 0);
    ScanAtFinds(xml, 0);
    ScanStartsIncrease(xml, 0);
    StartsArePositions(xml, Scan(xml, 0), Mismatched(xml));
  }

  lemma StartsArePositions(xml: string, ts: seq<Tag>, r: seq<int>)
    requires Increasing(r) && DrawnFrom(r, ts)
    requires InOrderFrom(xml, 0, ts) && AtFinds(xml, ts) && Increasing(Starts(ts))
    ensures TagPositions(xml, r)
  {
    forall k | 0 <= k < |r|
      ensures 0 <= r[k] < |xml| && xml[r[k]] == '<' && Find(xml, '>', r[k]).Some?
    {
      var a :| 0 <= a < |ts| && ts[a].start == r[k];
    }
    forall i, j | 0 <= i < j < |r|
      ensures Find(xml, '>', r[i]).Some? && Find(xml, '>', r[i]).value < r[j]
    {
      var a :| 0 <= a < |ts| && ts[a].start == r[i];
      var b :| 0 <= b < |ts| && ts[b].start == r[j];
      assert Starts(ts)[a] == r[i] && Starts(ts)[b] == r[j];
      assert a < b;
    }
  }

  /** The reported offsets are distinct starts of scanned tags. */
  lemma MismatchedFromScan(xml: string)
    ensures Increasing(Mismatched(xml)) && DrawnFrom(Mismatched(xml), Scan(xml, 0))
  {
    var ts := Scan(xml, 0);
    var (m, p) := Locate(ts, [], [], []);
    var r := Mismatched(xml);
    assert r == SortAsc(m + p);
    LocateFromTags(ts, [], [], []);
    var none: seq<int> := [];
    assert none + none == none;
    ScanStartsIncrease(xml, 0);
    SortedPartOfStarts(ts, r);
  }

  /** Every element of `r` is the start of one of the tags. */
  ghost predicate DrawnFrom(r: seq<int>, ts: seq<Tag>)
  {
    forall k :: 0 <= k < |r| ==> IsStart(ts, r[k])
  }

  /** `x` is the start of one of the tags. */
  ghost predicate IsStart(ts: seq<Tag>, x: int)
  {
    exists a :: 0 <= a < |ts| && ts[a].start == x
  }

  /** An ascending sequence drawn from the increasing starts, none taken twice,
      is itself increasing and made of starts. */
  lemma SortedPartOfStarts(ts: seq<Tag>, r: seq<int>)
    requires Sorted(r) && multiset(r) <= multiset(Starts(ts)) && Increasing(Starts(ts))
    ensures Increasing(r) && DrawnFrom(r, ts)
  {
    IncreasingDistinct(Starts(ts));
    SubMultisetDistinct(r, Starts(ts));
    SortedDistinctIncreasing(r);
    StartsDrawn(ts, r);
  }

  lemma StartsDrawn(ts: seq<Tag>, r: seq<int>)
    requires multiset(r) <= multiset(Starts(ts))
    ensures DrawnFrom(r, ts)
  {
    var st := Starts(ts);
    forall k | 0 <= k < |r|
      ensures IsStart(ts, r[k])
    {
      assert r[k] in multiset(r);
      assert r[k] in multiset(st);
      var a :| 0 <= a < |st| && st[a] == r[k];
      assert ts[a].start == r[k];
    }
  }

  /** A run the strict check accepts leaves nothing for the tolerant walk to
      report: a matching top is the last name of its value. */
  lemma {:induction false} RunLocatesNothing(ts: seq<Tag>, names: seq<string>, poss: seq<int>)
    requires |names| == |poss| && Run(ts, names) == Some([])
    ensures Locate(ts, names, poss, []) == ([], [])
    decreases |ts|
  {
    if ts != [] {
      var t := ts[0];
      if t.closing {
        var j := LastIndexOf(names, t.name);
        assert j == |names| - 1;
        assert Remove(names, j) == names[..|names| - 1];
        RunLocatesNothing(ts[1..], Remove(names, j), Remove(poss, j));
      } else {
        RunLocatesNothing(ts[1..], names + [t.name], poss + [t.start]);
      }
    }
  }

  /** A consistent document has no mismatched tags. */
  lemma ConsistentHasNoMismatch(xml: string)
    requires Balanced(Scan(xml, 0))
    ensures Mismatched(xml) == []
  {
    RunLocatesNothing(Scan(xml, 0), [], []);
  }

  /** The inner loop of `findMismatchedTags`: searches the open names from
      the top down and stops at the first that equals `x`. */
  method SearchFromTop(names: seq<string>, x: string) returns (j: int)
    ensures j == LastIndexOf(names, x)
  {
    j := |names| - 1;
    while j >= 0
      invariant -1 <= j < |names|
      invariant forall k :: j < k < |names| ==> names[k] != x
      decreases j
    {
      if names[j] == x {
        return;
      }
      j := j - 1;
    }
  }

  /** `findMismatchedTags`: two parallel vectors of open names and their
      offsets, searched from the top for the name a closing tag closes. */
  method FindMismatchedTags(xml: string) returns (r: seq<int>)
    requires Terminated(xml)
    ensures r == Mismatched(xml)
    ensures Increasing(r) && TagPositions(xml, r)
  {
    var tagStack: seq<string> := [];
    var positionStack: seq<int> := [];
    var mismatchedPositions: seq<int> := [];
    var i: nat := 0;
    var n := |xml|;
    ghost var goal := Locate(Scan(xml, 0), [], [], []);
    while i < n
      invariant i <= n && |tagStack| == |positionStack|
      invariant Locate(Scan(xml, i), tagStack, positionStack, mismatchedPositions) == goal
      decreases n - i
    {
      if xml[i] == '<' {
        var closePos := Find(xml, '>', i).value;
        tagStack, positionStack, mismatchedPositions := LocateTag(xml, i, closePos, tagStack, positionStack, mismatchedPositions);
        i := closePos + 1;
      } else {
        ScanAtText(xml, i);
        i := i + 1;
      }
    }
    mismatchedPositions := mismatchedPositions + positionStack;
    r := SortAsc(mismatchedPositions);
    MismatchedAreTagStarts(xml);
  }

  /** One tag of `findMismatchedTags`: a closing tag removes the topmost
      open name it matches and its offset, or is recorded when none
      matches; an opening tag is pushed with its offset. The walk goes on
      from after the tag as it would have from the tag. */
  method LocateTag(xml: string, i: nat, closePos: nat, tagStack: seq<string>, positionStack: seq<int>, mismatchedPositions: seq<int>)
    returns (tagStack': seq<string>, positionStack': seq<int>, mismatchedPositions': seq<int>)
    requires i < |xml| && xml[i] == '<' && Find(xml, '>', i) == Some(closePos) && |tagStack| == |positionStack|
    ensures |tagStack'| == |positionStack'|
    ensures Locate(Scan(xml, closePos + 1), tagStack', positionStack', mismatchedPositions')
      == Locate(Scan(xml, i), tagStack, positionStack, mismatchedPositions)
  {
    var tagContent := xml[i + 1..closePos];
    var isClosingTag := |tagContent| > 0 && tagContent[0] == '/';
    var tagName := if isClosingTag then tagContent[1..] else tagContent;
    var tagPosition := i;
    ghost var t := ReadTag(xml, i, closePos);
    assert t.closing == isClosingTag && t.name == tagName && t.start == tagPosition;
    ScanAtTag(xml, i, closePos);
    LocateCons(t, Scan(xml, closePos + 1), tagStack, positionStack, mismatchedPositions);
    tagStack', positionStack', mismatchedPositions' := tagStack, positionStack, mismatchedPositions;
    if isClosingTag {
      var j := SearchFromTop(tagStack, tagName);
      if j >= 0 {
        tagStack' := Remove(tagStack, j);
        positionStack' := Remove(positionStack, j);
      } else {
        mismatchedPositions' := mismatchedPositions + [tagPosition];
      }
    } else {
      tagStack' := tagStack + [tagName];
      positionStack' := positionStack + [tagPosition];
    }
  }

  /** Whether `readXMLFile` keeps the character at `i`: anything that is not
      whitespace, and whitespace next to a letter. The character before
      offset 0 is absent and the one after the end reads `'\0'`. */
  predicate KeepChar(content: string, i: nat)
    requires i < |content|
  {
    !IsSpace(content[i])
    || (i > 0 && IsAlpha(content[i - 1]))
    || (i + 1 < |content| && IsAlpha(content[i + 1]))
  }

  /** The characters below offset `n` that the filter keeps, in order. */
  function KeptUpTo(content: string, n: nat): string
    requires n <= |content|
  {
    if n == 0 then [] else KeptUpTo(content, n - 1) + (if KeepChar(content, n - 1) then [content[n - 1]] else [])
  }

  /** The filter loop of `readXMLFile`; the file itself is not modelled. */
  method CompressWhitespace(content: string) returns (out: string)
    ensures out == KeptUpTo(content, |content|)
    ensures NonSpace(out) == NonSpace(content)
    ensures |out| <= |content|
    ensures forall k :: 0 <= k < |out| ==> IsSpace(out[k]) ==> exists i :: 0 <= i < |content| && content[i] == out[k] && KeepChar(content, i)
  {
    out := [];
    var i := 0;
    while i < |content|
      invariant 0 <= i <= |content| && |out| <= i
      invariant out == KeptUpTo(content, i)
      invariant NonSpace(out) == NonSpace(content[..i])
      invariant forall k :: 0 <= k < |out| ==> IsSpace(out[k]) ==> exists j :: 0 <= j < i && content[j] == out[k] && KeepChar(content, j)
    {
      ghost var before := out;
      if KeepChar(content, i) {
        out := out + [content[i]];
      }
      FilterStep(content, i, before, out);
      i := i + 1;
    }
    assert content[..i] == content;
  }

  /** One character more through the filter keeps what the loop promises. */
  lemma FilterStep(content: string, i: nat, out: string, out': string)
    requires i < |content| && |out| <= i && out == KeptUpTo(content, i) && NonSpace(out) == NonSpace(content[..i])
    requires forall k :: 0 <= k < |out| ==> IsSpace(out[k]) ==> exists j :: 0 <= j < i && content[j] == out[k] && KeepChar(content, j)
    requires out' == if KeepChar(content, i) then out + [content[i]] else out
    ensures |out'| <= i + 1 && out' == KeptUpTo(content, i + 1) && NonSpace(out') == NonSpace(content[..i + 1])
    ensures forall k :: 0 <= k < |out'| ==> IsSpace(out'[k]) ==> exists j :: 0 <= j < i + 1 && content[j] == out'[k] && KeepChar(content, j)
  {
    assert out == out + [];
    FilterNonSpace(content, i, out, out');
    FilterWitness(content, i, out, out');
  }

  /** The non-whitespace characters behind the filter grow with the input's. */
  lemma FilterNonSpace(content: string, i: nat, out: string, out': string)
    requires i < |content| && NonSpace(out) == NonSpace(content[..i])
    requires out' == if KeepChar(content, i) then out + [content[i]] else out
    ensures NonSpace(out') == NonSpace(content[..i + 1])
  {
    assert content[..i + 1] == content[..i] + [content[i]];
    NonSpaceAppend(content[..i], [content[i]]);
    if KeepChar(content, i) {
      NonSpaceAppend(out, [content[i]]);
    } else {
      assert NonSpace([content[i]]) == [];
    }
  }

  /** Every whitespace character kept comes from a position the filter
      keeps. */
  lemma FilterWitness(content: string, i: nat, out: string, out': string)
    requires i < |content|
    requires forall k :: 0 <= k < |out| ==> IsSpace(out[k]) ==> exists j :: 0 <= j < i && content[j] == out[k] && KeepChar(content, j)
    requires out' == if KeepChar(content, i) then out + [content[i]] else out
    ensures forall k :: 0 <= k < |out'| ==> IsSpace(out'[k]) ==> exists j :: 0 <= j < i + 1 && content[j] == out'[k] && KeepChar(content, j)
  {
    forall k | 0 <= k < |out'| && IsSpace(out'[k])
      ensures exists j :: 0 <= j < i + 1 && content[j] == out'[k] && KeepChar(content, j)
    {
      if k < |out| {
        assert out'[k] == out[k];
      } else {
        assert content[i] == out'[k];
      }
    }
  }
}
