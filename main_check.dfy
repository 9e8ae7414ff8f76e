/** MAIN.cpp: a second linked stack of strings, whose `pop` and `peek` answer
    `""` on an empty stack, and a consistency check that collects each tag
    name up to the next `>` or the end of the document, so that it stops on
    every input. */
module MainCheck {
  import opened Base
  import opened TagScan
  import opened Nesting
  import opened XmlConsistency

  /** Where the name collected from `j` stops: the next `>`, or the end. */
  function NameEnd(xml: string, j: nat): (e: nat)
    requires j <= |xml|
    ensures j <= e <= |xml|
  {
    match Find(xml, '>', j)
    case None => |xml|
    case Some(k) => k
  }

  /** The tags the MAIN.cpp check acts on from offset `i`: an opening tag with
      an empty name is skipped, and a tag that runs to the end of the document
      ends there. `close` is the offset of the `>`, or the length. */
  function MainTokens(xml: string, i: nat): seq<Tag>
    decreases |xml| - i
  {
    if i >= |xml| then []
    else if xml[i] != '<' then MainTokens(xml, i + 1)
    else if CharAt(xml, i + 1) != '/' then
      var e := NameEnd(xml, i + 1);
      (if e == i + 1 then [] else [Tag(xml[i + 1..e], false, i, e)]) + MainTokens(xml, e + 1)
    else
      var e := NameEnd(xml, i + 2);
      [Tag(xml[i + 2..e], true, i, e)] + MainTokens(xml, e + 1)
  }

  /** `class Stack`: a linked list of string nodes, without a counter. */
  class StringStack {
    var top: Link<string>

    /** The values on the stack, bottom first. */
    ghost function Elements(): seq<string>
      reads this
    {
      Items(top)
    }

    constructor()
      ensures Elements() == []
    {
      top := Null;
    }

    method IsEmpty() returns (b: bool)
      ensures b <==> Elements() == []
    {
      b := top.Null?;
    }

    method Push(value: string)
      modifies this
      ensures Elements() == old(Elements()) + [value]
    {
      top := Node(value, top);
    }

    /** Removes and returns the top value; an empty stack stays empty and
        gives the empty string. */
    method Pop() returns (v: string)
      modifies this
      ensures old(Elements()) == [] ==> v == "" && Elements() == []
      ensures old(Elements()) != [] ==> v == Last(old(Elements())) && Elements() == old(Elements())[..|old(Elements())| - 1]
    {
      if top.Null? {
        return "";
      }
      v := top.data;
      top := top.next;
    }

    /** The top value, or the empty string on an empty stack. */
    method Peek() returns (v: string)
      ensures Elements() != [] ==> v == Last(Elements())
      ensures Elements() == [] ==> v == ""
    {
      if top.Null? {
        return "";
      }
      v := top.data;
    }
  }

  /** Pushing and then popping hands back the pushed value and restores the
      stack. */
  method PushThenPopString(s: StringStack, x: string) returns (y: string)
    modifies s
    ensures y == x && s.Elements() == old(s.Elements())
  {
    s.Push(x);
    y := s.Pop();
  }

  /** The collecting loop of the check: from `j`, the characters up to the
      next `>` or the end. */
  method CollectName(xml: string, j: nat) returns (tag: string, e: nat)
    requires j <= |xml|
    ensures e == NameEnd(xml, j) && tag == xml[j..e]
  {
    tag := "";
    e := j;
    while e < |xml| && xml[e] != '>'
      invariant j <= e <= |xml| && tag == xml[j..e]
      invariant Find(xml, '>', j) == Find(xml, '>', e)
      decreases |xml| - e
    {
      tag := tag + [xml[e]];
      e := e + 1;
    }
  }

  /** `checkXMLConsistency` of MAIN.cpp: the stack machine's verdict on the
      tags as this check reads them. */
  method CheckXmlConsistencyMain(xml: string) returns (ok: bool)
    ensures ok == Balanced(MainTokens(xml, 0))
  {
    var tagStack := new StringStack();
    var i: nat := 0;
    while i < |xml|
      invariant Run(MainTokens(xml, i), tagStack.Elements()) == Run(MainTokens(xml, 0), [])
      decreases |xml| - i
    {
      if xml[i] == '<' {
        var fine, next := MainTag(xml, i, tagStack);
        if !fine {
          return false;
        }
        i := next;
      } else {
        i := i + 1;
      }
    }
    ok := tagStack.IsEmpty();
  }

  /** One tag of the MAIN.cpp check: an opening tag with a name is pushed, a
      closing tag must match the top, which it pops. When the tag is fine,
      the run from after it is the run from it; otherwise the run fails. */
  method MainTag(xml: string, i: nat, tagStack: StringStack) returns (fine: bool, next: nat)
    requires i < |xml| && xml[i] == '<'
    modifies tagStack
    ensures i < next
    ensures fine ==> Run(MainTokens(xml, next), tagStack.Elements()) == Run(MainTokens(xml, i), old(tagStack.Elements()))
    ensures !fine ==> Run(MainTokens(xml, i), old(tagStack.Elements())) == None
  {
    if CharAt(xml, i + 1) != '/' {
      next := MainOpener(xml, i, tagStack);
      fine := true;
    } else {
      fine, next := MainCloser(xml, i, tagStack);
    }
  }

  /** An opening tag of the MAIN.cpp check: its name, when not empty, is
      pushed. */
  method MainOpener(xml: string, i: nat, tagStack: StringStack) returns (next: nat)
    requires i < |xml| && xml[i] == '<' && CharAt(xml, i + 1) != '/'
    modifies tagStack
    ensures i < next
    ensures Run(MainTokens(xml, next), tagStack.Elements()) == Run(MainTokens(xml, i), old(tagStack.Elements()))
  {
    ghost var st := tagStack.Elements();
    var tag, e := CollectName(xml, i + 1);
    ghost var rest := MainTokens(xml, e + 1);
    OpenerTokens(xml, i);
    if tag != "" {
      assert e != i + 1 && MainTokens(xml, i) == [Tag(tag, false, i, e)] + rest;
      RunOpener(Tag(tag, false, i, e), rest, st);
      tagStack.Push(tag);
    } else {
      assert MainTokens(xml, i) == rest;
    }
    next := e + 1;
  }

  /** A closing tag of the MAIN.cpp check: it must match the top, which it
      pops; otherwise the run fails. */
  method MainCloser(xml: string, i: nat, tagStack: StringStack) returns (fine: bool, next: nat)
    requires i < |xml| && xml[i] == '<' && CharAt(xml, i + 1) == '/'
    modifies tagStack
    ensures i < next
    ensures fine ==> Run(MainTokens(xml, next), tagStack.Elements()) == Run(MainTokens(xml, i), old(tagStack.Elements()))
    ensures !fine ==> Run(MainTokens(xml, i), old(tagStack.Elements())) == None
  {
    ghost var st := tagStack.Elements();
    var tag, e := CollectName(xml, i + 2);
    ghost var rest := MainTokens(xml, e + 1);
    CloserTokens(xml, i);
    RunHead(Tag(tag, true, i, e), rest, st);
    var empty := tagStack.IsEmpty();
    var top := tagStack.Peek();
    if empty || top != tag {
      return false, e + 1;
    }
    var _ := tagStack.Pop();
    assert tagStack.Elements() == st[..|st| - 1];
    fine, next := true, e + 1;
  }

  lemma RunOpener(t: Tag, rest: seq<Tag>, stack: seq<string>)
    requires !t.closing
    ensures Run([t] + rest, stack) == Run(rest, stack + [t.name])
  {
    assert ([t] + rest)[1..] == rest;
  }

  /** At an opening `<`, the tag read up to the next `>`, then the rest. */
  lemma OpenerTokens(xml: string, i: nat)
    requires i < |xml| && xml[i] == '<' && CharAt(xml, i + 1) != '/'
    ensures var e := NameEnd(xml, i + 1);
      MainTokens(xml, i) == (if e == i + 1 then [] else [Tag(xml[i + 1..e], false, i, e)]) + MainTokens(xml, e + 1)
  {
  }

  /** At a `</`, the closing tag read up to the next `>`, then the rest. */
  lemma CloserTokens(xml: string, i: nat)
    requires i < |xml| && xml[i] == '<' && CharAt(xml, i + 1) == '/'
    ensures var e := NameEnd(xml, i + 2);
      MainTokens(xml, i) == [Tag(xml[i + 2..e], true, i, e)] + MainTokens(xml, e + 1)
  {
  }

  /** The tags left once the opening tags with an empty name are dropped. */
  function DropEmptyOpeners(ts: seq<Tag>): (r: seq<Tag>)
    ensures |r| <= |ts|
  {
    if ts == [] then []
    else (if !ts[0].closing && ts[0].name == [] then [] else [ts[0]]) + DropEmptyOpeners(ts[1..])
  }

  /** On a document in which every `<` has a later `>`, the MAIN.cpp check
      reads the same tags as the strict scanner of XML_Consistency.cpp, less
      the empty openers `<>` that it never pushes. */
  lemma {:induction false} MainTokensOfTerminated(xml: string, i: nat)
    requires Terminated(xml)
    ensures MainTokens(xml, i) == DropEmptyOpeners(Scan(xml, i))
    decreases |xml| - i
  {
    if i < |xml| {
      if xml[i] != '<' {
        MainTokensOfTerminated(xml, i + 1);
        ScanAtText(xml, i);
      } else {
        assert Find(xml, '>', i).Some?;
        var c := Find(xml, '>', i).value;
        MainTokensOfTerminated(xml, c + 1);
        TerminatedTag(xml, i, c);
        ScanAtTag(xml, i, c);
        DropAppend([ReadTag(xml, i, c)], Scan(xml, c + 1));
      }
    }
  }

  /** At a `<` whose `>` is at `c`, both readers take the same tag, and
      MAIN.cpp drops it when it is an empty opener. */
  lemma TerminatedTag(xml: string, i: nat, c: nat)
    requires i < |xml| && xml[i] == '<' && Find(xml, '>', i) == Some(c)
    ensures MainTokens(xml, i) == DropEmptyOpeners([ReadTag(xml, i, c)]) + MainTokens(xml, c + 1)
  {
    assert Find(xml, '>', i) == Find(xml, '>', i + 1);
    if CharAt(xml, i + 1) == '/' {
      TerminatedCloser(xml, i, c);
    } else {
      TerminatedOpener(xml, i, c);
    }
  }

  lemma TerminatedCloser(xml: string, i: nat, c: nat)
    requires i < |xml| && xml[i] == '<' && CharAt(xml, i + 1) == '/' && Find(xml, '>', i + 1) == Some(c)
    ensures MainTokens(xml, i) == DropEmptyOpeners([ReadTag(xml, i, c)]) + MainTokens(xml, c + 1)
  {
    var t := ReadTag(xml, i, c);
    CloserAgrees(xml, i, c);
    CloserTokens(xml, i);
    DropOne(t);
    assert DropEmptyOpeners([t]) == [t];
  }

  lemma TerminatedOpener(xml: string, i: nat, c: nat)
    requires i < |xml| && xml[i] == '<' && CharAt(xml, i + 1) != '/' && Find(xml, '>', i + 1) == Some(c)
    ensures MainTokens(xml, i) == DropEmptyOpeners([ReadTag(xml, i, c)]) + MainTokens(xml, c + 1)
  {
    var t := ReadTag(xml, i, c);
    OpenerAgrees(xml, i, c);
    OpenerTokens(xml, i);
    DropOne(t);
    assert DropEmptyOpeners([t]) == if c == i + 1 then [] else [t];
  }

  lemma CloserAgrees(xml: string, i: nat, c: nat)
    requires i + 1 < |xml| && xml[i + 1] == '/' && Find(xml, '>', i + 1) == Some(c)
    ensures i < c && CharAt(xml, i + 1) == '/'
    ensures NameEnd(xml, i + 2) == c && ReadTag(xml, i, c) == Tag(xml[i + 2..c], true, i, c)
  {
    assert Find(xml, '>', i + 1) == Find(xml, '>', i + 2);
    assert xml[i + 1..c][1..] == xml[i + 2..c];
  }

  lemma OpenerAgrees(xml: string, i: nat, c: nat)
    requires i < c && CharAt(xml, i + 1) != '/' && Find(xml, '>', i + 1) == Some(c)
    ensures NameEnd(xml, i + 1) == c && ReadTag(xml, i, c) == Tag(xml[i + 1..c], false, i, c)
  {
  }

  /** One tag, dropped or kept. */
  lemma DropOne(t: Tag)
    ensures DropEmptyOpeners([t]) == if !t.closing && t.name == [] then [] else [t]
  {
    assert [t][1..] == [];
  }

  /** Dropping distributes over concatenation. */
  lemma {:induction false} DropAppend(a: seq<Tag>, b: seq<Tag>)
    ensures DropEmptyOpeners(a + b) == DropEmptyOpeners(a) + DropEmptyOpeners(b)
    decreases |a|
  {
    if a == [] {
      assert a + b == b;
    } else {
      var h := if !a[0].closing && a[0].name == [] then [] else [a[0]];
      assert (a + b)[0] == a[0] && (a + b)[1..] == a[1..] + b;
      DropAppend(a[1..], b);
      assert DropEmptyOpeners(a + b) == h + DropEmptyOpeners(a[1..] + b);
      assert DropEmptyOpeners(a) == h + DropEmptyOpeners(a[1..]);
    }
  }

  /** Without empty openers the two checks give the same verdict. */
  lemma {:induction false} DropNoEmptyOpeners(ts: seq<Tag>)
    requires forall k :: 0 <= k < |ts| ==> ts[k].closing || ts[k].name != []
    ensures DropEmptyOpeners(ts) == ts
  {
    if ts != [] {
      DropNoEmptyOpeners(ts[1..]);
    }
  }

  /** The MAIN.cpp check accepts a closing tag that the end of the document
      cuts short, such as `<a></a`. */
  lemma AcceptsCutCloser()
    ensures Balanced(MainTokens("<a></a", 0))
  {
    var s := "<a></a";
    assert NameEnd(s, 5) == 6 && s[5..6] == "a" && CharAt(s, 4) == '/';
    assert MainTokens(s, 7) == [];
    assert MainTokens(s, 3) == [Tag("a", true, 3, 6)];
    assert NameEnd(s, 1) == 2 && s[1..2] == "a" && CharAt(s, 1) == 'a';
    assert MainTokens(s, 0) == [Tag("a", false, 0, 2)] + MainTokens(s, 3);
  }

  /** It rejects an opening tag that the end of the document cuts short. */
  lemma RejectsCutOpener()
    ensures !Balanced(MainTokens("<a", 0))
  {
    var s := "<a";
    assert NameEnd(s, 1) == 2 && s[1..2] == "a" && CharAt(s, 1) == 'a';
    assert MainTokens(s, 3) == [];
    assert MainTokens(s, 0) == [Tag("a", false, 0, 2)];
  }
}
