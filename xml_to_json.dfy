/** xml2json.cpp (copied into MAIN.cpp): the recursive JSON renderer of a
    node tree, the character-driven tree builder `convertToJson`, its `trim`,
    and the whitespace filter of `readXMLFile`. */
module XmlToJson {
  import opened Base

  /** `struct JsonNode`: a tag, a text value and the child nodes in order. */
  datatype JsonNode = JsonNode(tag: string, value: string, children: seq<JsonNode>)

  /** The `"tag": ` key after `indent` blanks; nothing for an empty tag. */
  function Key(tag: string, indent: nat): string
  {
    if tag == [] then "" else Spaces(indent) + "\"" + tag + "\": "
  }

  /** `toJson(indent)`: the key, then a leaf's quoted value, or the children
      inside braces one per line, each at `indent + 2`. */
  function ToJson(n: JsonNode, indent: nat): string
    decreases n, 1
  {
    Key(n.tag, indent)
    + if n.children == [] then "\"" + n.value + "\""
      else "{\n" + ChildLines(n.children, |n.children|, indent + 2) + Spaces(indent) + "}"
  }

  /** The lines of the first `k` children. */
  function ChildLines(cs: seq<JsonNode>, k: nat, indent: nat): string
    requires k <= |cs|
    decreases cs, k
  {
    if k == 0 then "" else ChildLines(cs, k - 1, indent) + ChildLine(cs, k - 1, indent)
  }

  /** The line of child `i`: its rendering, a comma unless it is the last
      child, and a line break. */
  function ChildLine(cs: seq<JsonNode>, i: nat, indent: nat): string
    requires i < |cs|
    decreases cs, 0
  {
    ToJson(cs[i], indent) + (if i < |cs| - 1 then "," else "") + "\n"
  }

  /** The renderer as the C++ runs it: a recursive call per child inside a
      loop that appends to `result`. */
  method RenderJson(n: JsonNode, indent: nat) returns (r: string)
    ensures r == ToJson(n, indent)
    decreases n
  {
    var padding := Spaces(indent);
    r := "";
    if n.tag != [] {
      r := r + padding + "\"" + n.tag + "\": ";
    }
    assert r == Key(n.tag, indent);
    if n.children != [] {
      r := r + "{\n";
      ghost var pre := r;
      var i := 0;
      while i < |n.children|
        invariant i <= |n.children|
        invariant r == pre + ChildLines(n.children, i, indent + 2)
      {
        var child := RenderJson(n.children[i], indent + 2);
        var sep := if i < |n.children| - 1 then "," else "";
        var line := child + sep + "\n";
        assert line == ChildLine(n.children, i, indent + 2);
        ConcatAssoc(pre, ChildLines(n.children, i, indent + 2), line);
        r := r + line;
        i := i + 1;
      }
      r := r + padding + "}";
      ToJsonParent(n, indent);
    } else {
      r := r + "\"" + n.value + "\"";
    }
  }


  lemma ToJsonParent(n: JsonNode, indent: nat)
    requires n.children != []
    ensures ToJson(n, indent) == Key(n.tag, indent) + "{\n" + ChildLines(n.children, |n.children|, indent + 2) + Spaces(indent) + "}"
  {
  }

  /** The strings of `ps` with `sep` between neighbours and nowhere else. */
  function Join(ps: seq<string>, sep: string): string
  {
    if ps == [] then ""
    else if |ps| == 1 then ps[0]
    else Join(ps[..|ps| - 1], sep) + sep + Last(ps)
  }

  /** The renderings of the children, in order. */
  function Renders(cs: seq<JsonNode>, indent: nat): (r: seq<string>)
    ensures |r| == |cs| && forall k :: 0 <= k < |cs| ==> r[k] == ToJson(cs[k], indent)
  {
    seq(|cs|, k requires 0 <= k < |cs| => ToJson(cs[k], indent))
  }

  lemma {:induction false} ChildLinesPrefix(cs: seq<JsonNode>, k: nat, indent: nat)
    requires 0 < k < |cs|
    ensures ChildLines(cs, k, indent) == Join(Renders(cs, indent)[..k], ",\n") + ",\n"
  {
    var rs := Renders(cs, indent);
    var line := ChildLine(cs, k - 1, indent);
    assert line == rs[k - 1] + ",\n";
    if k > 1 {
      ChildLinesPrefix(cs, k - 1, indent);
      var front := rs[..k - 1];
      assert rs[..k][..k - 1] == front;
      var j := Join(front, ",\n");
      assert Join(rs[..k], ",\n") == j + ",\n" + rs[k - 1];
      assert ChildLines(cs, k, indent) == j + ",\n" + line;
    } else {
      assert rs[..1] == [rs[0]];
    }
  }

  /** The children come out joined by `",\n"` and closed by a line break:
      there is a comma after every child except the last. */
  lemma ChildLinesJoin(cs: seq<JsonNode>, indent: nat)
    requires cs != []
    ensures ChildLines(cs, |cs|, indent) == Join(Renders(cs, indent), ",\n") + "\n"
  {
    var rs := Renders(cs, indent);
    var k := |cs|;
    if k > 1 {
      ChildLinesPrefix(cs, k - 1, indent);
      assert rs[..k - 1] == rs[..|rs| - 1];
    }
  }

  /** A node with children renders without its value. */
  lemma ValueDropped(n: JsonNode, v: string, indent: nat)
    requires n.children != []
    ensures ToJson(n.(value := v), indent) == ToJson(n, indent)
  {
  }

  /** The rendering starts with the key at `indent` blanks (none for an
      empty tag); a leaf ends in its quoted value and a parent in `}` after
      `indent` blanks. */
  lemma ToJsonShape(n: JsonNode, indent: nat)
    ensures var r := ToJson(n, indent); var key := Key(n.tag, indent);
      |key| <= |r| && r[..|key|] == key
      && (n.children == [] ==> r[|key|..] == "\"" + n.value + "\"")
      && (n.children != [] ==> |r| >= |key| + 2 + indent + 1 && r[|r| - indent - 1..] == Spaces(indent) + "}")
  {
  }

  /** Where the first loop of `trim` stops: the first offset from `k` on
      that is not C whitespace, or the length. */
  function TrimStart(s: string, k: nat): (a: nat)
    requires k <= |s|
    ensures k <= a <= |s|
    decreases |s| - k
  {
    if k < |s| && IsSpace(s[k]) then TrimStart(s, k + 1) else k
  }

  /** Where the second loop stops: going down from `e`, the end of the last
      character above `a` that is not C whitespace. */
  function TrimEnd(s: string, a: nat, e: nat): (b: nat)
    requires a <= e <= |s|
    ensures a <= b <= e
    decreases e
  {
    if e > a && IsSpace(s[e - 1]) then TrimEnd(s, a, e - 1) else e
  }

  /** `trim`: the input less its leading and trailing whitespace. */
  function Trim(s: string): string
  {
    var a := TrimStart(s, 0);
    s[a..TrimEnd(s, a, |s|)]
  }

  /** The two index loops of `trim` and the final `substr`. */
  method TrimInPlace(str: string) returns (r: string)
    ensures r == Trim(str)
  {
    var start, end := 0, |str|;
    while start < end && IsSpace(str[start])
      invariant start <= end == |str|
      invariant TrimStart(str, start) == TrimStart(str, 0)
    {
      start := start + 1;
    }
    while end > start && IsSpace(str[end - 1])
      invariant start <= end <= |str|
      invariant TrimEnd(str, start, end) == TrimEnd(str, start, |str|)
    {
      end := end - 1;
    }
    r := str[start..end];
  }

  lemma {:induction false} TrimStartSpaces(s: string, k: nat)
    requires k <= |s|
    ensures forall j :: k <= j < TrimStart(s, k) ==> IsSpace(s[j])
    ensures TrimStart(s, k) < |s| ==> !IsSpace(s[TrimStart(s, k)])
    decreases |s| - k
  {
    if k < |s| && IsSpace(s[k]) {
      TrimStartSpaces(s, k + 1);
    }
  }

  lemma {:induction false} TrimEndSpaces(s: string, a: nat, e: nat)
    requires a <= e <= |s|
    ensures forall j :: TrimEnd(s, a, e) <= j < e ==> IsSpace(s[j])
    ensures TrimEnd(s, a, e) > a ==> !IsSpace(s[TrimEnd(s, a, e) - 1])
    decreases e
  {
    if e > a && IsSpace(s[e - 1]) {
      TrimEndSpaces(s, a, e - 1);
    }
  }

  /** `trim` gives a contiguous piece of its input with only whitespace cut
      away on either side. */
  lemma TrimSlice(s: string)
    ensures var a := TrimStart(s, 0); var b := TrimEnd(s, a, |s|);
      Trim(s) == s[a..b]
      && (forall k :: 0 <= k < a ==> IsSpace(s[k]))
      && (forall k :: b <= k < |s| ==> IsSpace(s[k]))
  {
    TrimStartSpaces(s, 0);
    TrimEndSpaces(s, TrimStart(s, 0), |s|);
  }

  /** What `trim` leaves has no whitespace at either end. */
  lemma TrimEdges(s: string)
    ensures Trim(s) == [] || (!IsSpace(Trim(s)[0]) && !IsSpace(Last(Trim(s))))
  {
    var a := TrimStart(s, 0);
    var b := TrimEnd(s, a, |s|);
    TrimStartSpaces(s, 0);
    TrimEndSpaces(s, a, |s|);
    if a < b {
      assert Trim(s)[0] == s[a] && Last(Trim(s)) == s[b - 1];
    }
  }

  /** Trimming twice is trimming once. */
  lemma TrimIdempotent(s: string)
    ensures Trim(Trim(s)) == Trim(s)
  {
    TrimEdges(s);
    var t := Trim(s);
    assert TrimStart(t, 0) == 0;
    assert TrimEnd(t, 0, |t|) == |t|;
  }

  /** Whatever `trim` cuts away is whitespace: the two sides keep the same
      non-whitespace characters. */
  lemma TrimKeepsNonSpace(s: string)
    ensures NonSpace(Trim(s)) == NonSpace(s)
  {
    TrimSlice(s);
    var a := TrimStart(s, 0);
    var b := TrimEnd(s, a, |s|);
    var x, y, z := s[..a], s[a..b], s[b..];
    assert s == x + y + z;
    NonSpaceAppend(x + y, z);
    NonSpaceAppend(x, y);
    NoneKept(x);
    NoneKept(z);
  }

  lemma {:induction false} NoneKept(s: string)
    requires forall k :: 0 <= k < |s| ==> IsSpace(s[k])
    ensures NonSpace(s) == []
  {
    if s != [] {
      NoneKept(s[..|s| - 1]);
    }
  }

  /** The state of `convertToJson` between two characters: the stack of open
      nodes (top last), the last completed outermost node, the tag and text
      buffers and the two flags. */
  datatype Builder = Builder(nodes: seq<JsonNode>, root: JsonNode, tag: string, value: string, insideTag: bool, closingTag: bool)

  const Start := Builder([], JsonNode("", "", []), "", "", false, false)

  /** The top node, with a new text value. */
  function SetTopValue(nodes: seq<JsonNode>, v: string): seq<JsonNode>
    requires nodes != []
  {
    nodes[..|nodes| - 1] + [Last(nodes).(value := v)]
  }

  /** The top node, with one more child. */
  function AddChild(nodes: seq<JsonNode>, c: JsonNode): seq<JsonNode>
    requires nodes != []
  {
    nodes[..|nodes| - 1] + [Last(nodes).(children := Last(nodes).children + [c])]
  }

  /** One character of the document. `None` is `nodes.top()` on an empty
      stack, at a closing `>` that has no open node. */
  function Step(b: Builder, ch: char): Option<Builder>
  {
    if ch == '<' then
      var v := Trim(b.value);
      var b1 := if b.value == [] then b
        else if v != [] && b.nodes != [] then b.(nodes := SetTopValue(b.nodes, v), value := [])
        else b.(value := []);
      Some(b1.(insideTag := true, closingTag := false))
    else if ch == '>' then
      if !b.closingTag then Some(b.(insideTag := false, nodes := b.nodes + [JsonNode(b.tag, "", [])], tag := []))
      else if b.nodes == [] then None
      else
        var completed := Last(b.nodes);
        var rest := b.nodes[..|b.nodes| - 1];
        if rest != [] then Some(b.(insideTag := false, nodes := AddChild(rest, completed), tag := []))
        else Some(b.(insideTag := false, nodes := rest, root := completed, tag := []))
    else if b.insideTag then
      if ch == '/' then Some(b.(closingTag := true)) else Some(b.(tag := b.tag + [ch]))
    else Some(b.(value := b.value + [ch]))
  }

  /** The builder after the characters of `s`. */
  function Feed(b: Builder, s: string): Option<Builder>
  {
    if s == [] then Some(b)
    else match Feed(b, s[..|s| - 1])
      case None => None
      case Some(m) => Step(m, Last(s))
  }

  /** `convertToJson`: the root rendered at indent 2 inside braces. */
  function Convert(xml: string): (r: Option<string>)
    ensures r.Some? ==> |r.value| >= 4 && r.value[..2] == "{\n" && r.value[|r.value| - 2..] == "\n}"
  {
    match Feed(Start, xml)
    case None => None
    case Some(b) => Some("{\n" + ToJson(b.root, 2) + "\n}")
  }

  /** The character loop of `convertToJson`, with the stack kept as a
      sequence that the loop reassigns. */
  method ConvertToJson(xml: string) returns (r: Option<string>)
    ensures r == Convert(xml)
  {
    var nodes: seq<JsonNode> := [];
    var root := JsonNode("", "", []);
    var tag, value := "", "";
    var insideTag, closingTag := false, false;
    for i := 0 to |xml|
      invariant Feed(Start, xml[..i]) == Some(Builder(nodes, root, tag, value, insideTag, closingTag))
    {
      var ch := xml[i];
      assert xml[..i + 1][..i] == xml[..i];
      if ch == '<' {
        if value != [] {
          var v := TrimInPlace(value);
          if v != [] && nodes != [] {
            nodes := nodes[..|nodes| - 1] + [Last(nodes).(value := v)];
          }
          value := [];
        }
        insideTag := true;
        closingTag := false;
      } else if ch == '>' {
        insideTag := false;
        if closingTag {
          if nodes == [] {
            assert Feed(Start, xml[..i + 1]) == None;
            FeedFailed(Start, xml[..i + 1], xml[i + 1..]);
            assert xml[..i + 1] + xml[i + 1..] == xml;
            return None;
          }
          var completed := Last(nodes);
          nodes := nodes[..|nodes| - 1];
          if nodes != [] {
            nodes := nodes[..|nodes| - 1] + [Last(nodes).(children := Last(nodes).children + [completed])];
          } else {
            root := completed;
          }
        } else {
          nodes := nodes + [JsonNode(tag, "", [])];
        }
        tag := [];
      } else if insideTag {
        if ch == '/' {
          closingTag := true;
        } else {
          tag := tag + [ch];
        }
      } else {
        value := value + [ch];
      }
    }
    assert xml[..|xml|] == xml;
    r := Some("{\n" + ToJson(root, 2) + "\n}");
  }

  /** Feeding two pieces one after the other. */
  lemma {:induction false} FeedThen(b: Builder, x: string, y: string, m: Builder)
    requires Feed(b, x) == Some(m)
    ensures Feed(b, x + y) == Feed(m, y)
    decreases |y|
  {
    if y == [] {
      assert x + y == x;
    } else {
      assert (x + y)[..|x + y| - 1] == x + y[..|y| - 1];
      FeedThen(b, x, y[..|y| - 1], m);
    }
  }

  /** Once the builder has failed, it stays failed. */
  lemma {:induction false} FeedFailed(b: Builder, x: string, y: string)
    requires Feed(b, x) == None
    ensures Feed(b, x + y) == None
    decreases |y|
  {
    if y == [] {
      assert x + y == x;
    } else {
      assert (x + y)[..|x + y| - 1] == x + y[..|y| - 1];
      FeedFailed(b, x, y[..|y| - 1]);
    }
  }

  lemma FeedOne(b: Builder, c: char)
    ensures Feed(b, [c]) == Step(b, c)
  {
    assert [c][..0] == [];
  }

  /** A character that may stand in a tag name: `/` would mark the tag as
      closing, `<` and `>` would end it. */
  predicate NameChar(c: char)
  {
    c != '<' && c != '>' && c != '/'
  }

  /** A character that may stand in text between tags. */
  predicate TextChar(c: char)
  {
    c != '<' && c != '>'
  }

  /** Inside a tag, name characters go to the tag buffer. */
  lemma {:induction false} FeedName(b: Builder, s: string)
    requires b.insideTag && forall k :: 0 <= k < |s| ==> NameChar(s[k])
    ensures Feed(b, s) == Some(b.(tag := b.tag + s))
  {
    if s != [] {
      FeedName(b, s[..|s| - 1]);
      assert b.tag + s[..|s| - 1] + [Last(s)] == b.tag + s;
    } else {
      assert b.tag + s == b.tag;
    }
  }

  /** Outside a tag, text characters go to the text buffer. */
  lemma {:induction false} FeedText(b: Builder, s: string)
    requires !b.insideTag && forall k :: 0 <= k < |s| ==> TextChar(s[k])
    ensures Feed(b, s) == Some(b.(value := b.value + s))
  {
    if s != [] {
      FeedText(b, s[..|s| - 1]);
      assert b.value + s[..|s| - 1] + [Last(s)] == b.value + s;
    } else {
      assert b.value + s == b.value;
    }
  }

  /** Every node's tag is made of name characters, every leaf's value of
      text characters with no whitespace at either end, and a parent has no
      value. These are the trees that a document can spell out. */
  ghost predicate WellFormed(t: JsonNode)
    decreases t
  {
    (forall k :: 0 <= k < |t.tag| ==> NameChar(t.tag[k]))
    && (if t.children == [] then (forall k :: 0 <= k < |t.value| ==> TextChar(t.value[k])) && Trim(t.value) == t.value
        else t.value == [] && forall k :: 0 <= k < |t.children| ==> WellFormed(t.children[k]))
  }

  /** The document that spells out a tree: the opening tag, the leaf's text
      or the children's documents, and the closing tag. */
  function Serialize(t: JsonNode): string
    decreases t, 1
  {
    "<" + t.tag + ">" + Body(t) + "</" + t.tag + ">"
  }

  function Body(t: JsonNode): string
    decreases t, 0
  {
    if t.children == [] then t.value else SerializeAll(t.children, |t.children|)
  }

  function SerializeAll(cs: seq<JsonNode>, k: nat): string
    requires k <= |cs|
    decreases cs, k
  {
    if k == 0 then "" else SerializeAll(cs, k - 1) + Serialize(cs[k - 1])
  }

  /** No character is pending between two tags. */
  predicate Between(b: Builder)
  {
    b.tag == [] && b.value == [] && !b.insideTag
  }

  /** What closing node `t` does to the builder: it joins the children of
      the open node on top, or becomes the root when none is open. */
  function Attach(b: Builder, t: JsonNode): Builder
  {
    (if b.nodes == [] then b.(root := t) else b.(nodes := AddChild(b.nodes, t))).(closingTag := true)
  }

  /** The node on top, with the given children. */
  function SetChildren(nodes: seq<JsonNode>, cs: seq<JsonNode>): seq<JsonNode>
    requires nodes != []
  {
    nodes[..|nodes| - 1] + [Last(nodes).(children := cs)]
  }

  /** An opening tag pushes a fresh node. */
  lemma FeedOpen(b: Builder, name: string)
    requires Between(b) && forall k :: 0 <= k < |name| ==> NameChar(name[k])
    ensures Feed(b, "<" + name + ">") == Some(b.(nodes := b.nodes + [JsonNode(name, "", [])], closingTag := false))
  {
    var b1 := b.(insideTag := true, closingTag := false);
    FeedOne(b, '<');
    FeedName(b1, name);
    FeedThen(b, "<", name, b1);
    var b2 := b1.(tag := name);
    assert b1.(tag := b1.tag + name) == b2;
    FeedOne(b2, '>');
    FeedThen(b, "<" + name, ">", b2);
  }

  /** `/name>` after the `<` of a closing tag pops the top node and attaches
      it. */
  lemma FeedClose(b: Builder, name: string)
    requires b.insideTag && !b.closingTag && b.tag == [] && b.value == [] && b.nodes != []
    requires forall k :: 0 <= k < |name| ==> NameChar(name[k])
    ensures Feed(b, "/" + name + ">") == Some(Attach(b.(nodes := b.nodes[..|b.nodes| - 1], insideTag := false), Last(b.nodes)))
  {
    var b1 := b.(closingTag := true);
    FeedOne(b, '/');
    FeedName(b1, name);
    FeedThen(b, "/", name, b1);
    var b2 := b1.(tag := name);
    assert b1.(tag := b1.tag + name) == b2;
    FeedOne(b2, '>');
    FeedThen(b, "/" + name, ">", b2);
  }

  /** A leaf's opening tag, text and `<`: the leaf, with its value, is on
      top. */
  lemma LeafUpToClose(b: Builder, t: JsonNode)
    requires Between(b) && WellFormed(t) && t.children == []
    ensures Feed(b, "<" + t.tag + ">" + Body(t) + "<") == Some(b.(nodes := b.nodes + [t], insideTag := true, closingTag := false))
  {
    var open := "<" + t.tag + ">";
    var b1 := b.(nodes := b.nodes + [JsonNode(t.tag, "", [])], closingTag := false);
    FeedOpen(b, t.tag);
    FeedText(b1, t.value);
    var b2 := b1.(value := t.value);
    assert b1.(value := b1.value + t.value) == b2;
    FeedThen(b, open, t.value, b1);
    FeedOne(b2, '<');
    if t.value != [] {
      assert SetTopValue(b2.nodes, t.value) == b.nodes + [t];
    }
    FeedThen(b, open + t.value, "<", b2);
  }

  /** A parent's opening tag, children and `<`: the parent, with all its
      children, is on top. */
  lemma {:induction false} ParentUpToClose(b: Builder, t: JsonNode)
    requires Between(b) && WellFormed(t) && t.children != []
    ensures Feed(b, "<" + t.tag + ">" + Body(t) + "<") == Some(b.(nodes := b.nodes + [t], insideTag := true, closingTag := false))
    decreases t, 0
  {
    var open := "<" + t.tag + ">";
    var b1 := b.(nodes := b.nodes + [JsonNode(t.tag, "", [])], closingTag := false);
    FeedOpen(b, t.tag);
    ParseChildren(b1, t.children, |t.children|);
    assert t.children[..|t.children|] == t.children;
    var b2 := b1.(nodes := SetChildren(b1.nodes, t.children), closingTag := true);
    assert b2.nodes == b.nodes + [t];
    FeedThen(b, open, Body(t), b1);
    FeedOne(b2, '<');
    FeedThen(b, open + Body(t), "<", b2);
  }

  /** Feeding the document of a tree attaches that tree. */
  lemma {:induction false} ParseTree(b: Builder, t: JsonNode)
    requires Between(b) && WellFormed(t)
    ensures Feed(b, Serialize(t)) == Some(Attach(b, t))
    decreases t, 1
  {
    var head := "<" + t.tag + ">" + Body(t) + "<";
    var b3 := b.(nodes := b.nodes + [t], insideTag := true, closingTag := false);
    if t.children == [] {
      LeafUpToClose(b, t);
    } else {
      ParentUpToClose(b, t);
    }
    FeedClose(b3, t.tag);
    assert Serialize(t) == head + ("/" + t.tag + ">");
    FeedThen(b, head, "/" + t.tag + ">", b3);
    assert (b.nodes + [t])[..|b.nodes|] == b.nodes;
  }

  /** Feeding the documents of the first `k` children, with their parent
      open on top, makes them its children. */
  lemma {:induction false} ParseChildren(b: Builder, cs: seq<JsonNode>, k: nat)
    requires Between(b) && b.nodes != [] && !b.closingTag && Last(b.nodes).children == []
    requires k <= |cs| && forall j :: 0 <= j < |cs| ==> WellFormed(cs[j])
    ensures Feed(b, SerializeAll(cs, k)) == Some(if k == 0 then b else b.(nodes := SetChildren(b.nodes, cs[..k]), closingTag := true))
    decreases cs, k
  {
    if k > 0 {
      ParseChildren(b, cs, k - 1);
      var m := if k - 1 == 0 then b else b.(nodes := SetChildren(b.nodes, cs[..k - 1]), closingTag := true);
      ParseTree(m, cs[k - 1]);
      FeedThen(b, SerializeAll(cs, k - 1), Serialize(cs[k - 1]), m);
      ChildrenGrow(b.nodes, cs, k);
    }
  }

  lemma ChildrenGrow(nodes: seq<JsonNode>, cs: seq<JsonNode>, k: nat)
    requires nodes != [] && Last(nodes).children == [] && 0 < k <= |cs|
    ensures AddChild(if k == 1 then nodes else SetChildren(nodes, cs[..k - 1]), cs[k - 1]) == SetChildren(nodes, cs[..k])
  {
    assert cs[..k - 1] + [cs[k - 1]] == cs[..k];
    if k == 1 {
      assert [] + [cs[0]] == cs[..1];
    }
  }

  /** `convertToJson` rebuilds every tree from the document that spells it
      out, and renders exactly that tree. */
  lemma ConvertSerialized(t: JsonNode)
    requires WellFormed(t)
    ensures Convert(Serialize(t)) == Some("{\n" + ToJson(t, 2) + "\n}")
  {
    ParseTree(Start, t);
  }

  /** A closing tag with no open node is where the C++ calls `top()` on an
      empty stack. */
  lemma CloserFirstFails()
    ensures Convert("</a>") == None
  {
    var b1 := Start.(insideTag := true);
    var b2 := b1.(closingTag := true);
    var b3 := b2.(tag := b2.tag + ['a']);
    FeedOne(Start, '<');
    FeedOne(b1, '/');
    FeedOne(b2, 'a');
    FeedOne(b3, '>');
    FeedThen(Start, "<", "/", b1);
    assert "<" + "/" == "</";
    FeedThen(Start, "</", "a", b2);
    assert "</" + "a" == "</a";
    FeedThen(Start, "</a", ">", b3);
    assert "</a" + ">" == "</a>";
  }

  /** The `readXMLFile` filter: every non-whitespace character, appended in
      order. */
  method StripWhitespace(content: string) returns (r: string)
    ensures r == NonSpace(content)
  {
    r := "";
    for i := 0 to |content|
      invariant r == NonSpace(content[..i])
    {
      assert content[..i + 1][..i] == content[..i];
      if !IsSpace(content[i]) {
        r := r + [content[i]];
      }
    }
    assert content[..|content|] == content;
  }

  /** The filter keeps every other character as often as it occurs and
      drops whitespace entirely. */
  lemma {:induction false} NonSpaceCount(s: string, c: char)
    ensures Count(NonSpace(s), c) == if IsSpace(c) then 0 else Count(s, c)
  {
    if s != [] {
      NonSpaceCount(s[..|s| - 1], c);
      var p := NonSpace(s[..|s| - 1]);
      if !IsSpace(Last(s)) {
        assert (p + [Last(s)])[..|p|] == p;
      }
    }
  }
}
