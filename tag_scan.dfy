/** The tag scanner shared by the scanners of XML_Consistency.cpp: from a `<`
    at offset i, `xml.find('>', i)` gives the closing `>`, the text between is
    the tag content, and a leading `/` marks a closing tag. Scanning resumes
    just after the `>`; every other character is skipped. */
module TagScan {
  import opened Base

  /** One scanned tag: its name (without the `/`), whether it closes, the
      offset of its `<` and the offset of its `>`. */
  datatype Tag = Tag(name: string, closing: bool, start: nat, close: nat)

  /** Every `<` has a later `>`. Without it `find` returns npos, the scan index
      `closePos + 1` wraps to 0 and the C++ loops start over. */
  predicate Terminated(xml: string)
  {
    forall i {:trigger Find(xml, '>', i)} :: 0 <= i < |xml| && xml[i] == '<' ==> Find(xml, '>', i).Some?
  }

  /** The tag whose `<` is at i and whose `>` is at c. An empty content reads
      `'\0'` at index 0, so `<>` is an opening tag with the empty name. */
  function ReadTag(xml: string, i: nat, c: nat): (t: Tag)
    requires i < c <= |xml|
    ensures t.start == i && t.close == c
    ensures t.closing <==> (i + 1 < c && xml[i + 1] == '/')
  {
    var content := xml[i + 1..c];
    var closing := |content| > 0 && content[0] == '/';
    Tag(if closing then content[1..] else content, closing, i, c)
  }

  /** The tags the scan meets from offset i on, in document order. */
  function Scan(xml: string, i: nat): seq<Tag>
    decreases |xml| - i
  {
    if i >= |xml| then []
    else if xml[i] != '<' then Scan(xml, i + 1)
    else match Find(xml, '>', i)
      case None => []
      case Some(c) => [ReadTag(xml, i, c)] + Scan(xml, c + 1)
  }

  /** Scanned tags lie at or after `i`, in order and disjoint. */
  predicate InOrderFrom(xml: string, i: nat, ts: seq<Tag>)
  {
    WithinFrom(xml, i, ts) && Disjoint(ts)
  }

  /** Each scanned tag spans a `<` and the first `>` that `find` gives. */
  predicate AtFinds(xml: string, ts: seq<Tag>)
  {
    forall k :: 0 <= k < |ts| ==> ts[k].start < |xml| && xml[ts[k].start] == '<' && Find(xml, '>', ts[k].start) == Some(ts[k].close)
  }

  /** Each scanned tag is what `ReadTag` reads between its `<` and `>`. */
  predicate ReadBack(xml: string, ts: seq<Tag>)
  {
    forall k :: 0 <= k < |ts| ==> ts[k].start < ts[k].close <= |xml| && ts[k] == ReadTag(xml, ts[k].start, ts[k].close)
  }

  /** The scanned tags lie at or after `i` and inside the text. */
  predicate WithinFrom(xml: string, i: nat, ts: seq<Tag>)
  {
    forall k :: 0 <= k < |ts| ==> i <= ts[k].start < ts[k].close < |xml|
  }

  lemma {:induction false} ScanWithin(xml: string, i: nat)
    ensures WithinFrom(xml, i, Scan(xml, i))
    decreases |xml| - i
  {
    if i < |xml| {
      if xml[i] != '<' {
        ScanWithin(xml, i + 1);
        ScanAtText(xml, i);
        WithinLower(xml, i, i + 1, Scan(xml, i + 1));
      } else if Find(xml, '>', i).Some? {
        var c := Find(xml, '>', i).value;
        ScanWithin(xml, c + 1);
        WithinStep(xml, i, c);
      }
    }
  }

  lemma WithinStep(xml: string, i: nat, c: nat)
    requires i < |xml| && xml[i] == '<' && Find(xml, '>', i) == Some(c)
    requires WithinFrom(xml, c + 1, Scan(xml, c + 1))
    ensures WithinFrom(xml, i, Scan(xml, i))
  {
    assert i <= c < |xml|;
    ScanAtTag(xml, i, c);
    var t := ReadTag(xml, i, c);
    WithinLower(xml, i, c + 1, Scan(xml, c + 1));
    WithinCons(xml, i, t, Scan(xml, c + 1));
  }

  lemma WithinLower(xml: string, i: nat, j: nat, ts: seq<Tag>)
    requires i <= j && WithinFrom(xml, j, ts)
    ensures WithinFrom(xml, i, ts)
  {
  }

  lemma WithinCons(xml: string, i: nat, t: Tag, rest: seq<Tag>)
    requires i <= t.start < t.close < |xml| && WithinFrom(xml, i, rest)
    ensures WithinFrom(xml, i, [t] + rest)
  {
    var ts := [t] + rest;
    forall k | 0 <= k < |ts|
      ensures i <= ts[k].start < ts[k].close < |xml|
    {
      if k > 0 {
        assert ts[k] == rest[k - 1];
      }
    }
  }

  /** Each scanned tag ends before the next one starts. */
  predicate Disjoint(ts: seq<Tag>)
  {
    forall a, b :: 0 <= a < b < |ts| ==> ts[a].close < ts[b].start
  }

  lemma {:induction false} ScanDisjoint(xml: string, i: nat)
    ensures Disjoint(Scan(xml, i))
    decreases |xml| - i
  {
    if i < |xml| {
      if xml[i] != '<' {
        ScanDisjoint(xml, i + 1);
        ScanAtText(xml, i);
      } else if Find(xml, '>', i).Some? {
        var c := Find(xml, '>', i).value;
        ScanDisjoint(xml, c + 1);
        ScanWithin(xml, c + 1);
        DisjointStep(xml, i, c);
      }
    }
  }

  lemma DisjointStep(xml: string, i: nat, c: nat)
    requires i < |xml| && xml[i] == '<' && Find(xml, '>', i) == Some(c)
    requires WithinFrom(xml, c + 1, Scan(xml, c + 1)) && Disjoint(Scan(xml, c + 1))
    ensures Disjoint(Scan(xml, i))
  {
    assert i < c < |xml|;
    ScanAtTag(xml, i, c);
    DisjointCons(xml, c + 1, ReadTag(xml, i, c), Scan(xml, c + 1));
  }

  lemma DisjointCons(xml: string, j: nat, t: Tag, rest: seq<Tag>)
    requires t.close < j && WithinFrom(xml, j, rest) && Disjoint(rest)
    ensures Disjoint([t] + rest)
  {
    var ts := [t] + rest;
    forall a, b | 0 <= a < b < |ts|
      ensures ts[a].close < ts[b].start
    {
      assert ts[b] == rest[b - 1];
      if a > 0 {
        assert ts[a] == rest[a - 1];
      }
    }
  }

  lemma ScanInOrder(xml: string, i: nat)
    ensures InOrderFrom(xml, i, Scan(xml, i))
  {
    ScanWithin(xml, i);
    ScanDisjoint(xml, i);
  }

  lemma {:induction false} ScanAtFinds(xml: string, i: nat)
    ensures AtFinds(xml, Scan(xml, i))
    decreases |xml| - i
  {
    if i < |xml| {
      if xml[i] != '<' {
        ScanAtFinds(xml, i + 1);
        ScanAtText(xml, i);
      } else if Find(xml, '>', i).Some? {
        var c := Find(xml, '>', i).value;
        ScanAtFinds(xml, c + 1);
        ScanAtTag(xml, i, c);
        AtFindsCons(xml, ReadTag(xml, i, c), Scan(xml, c + 1));
      }
    }
  }

  lemma AtFindsCons(xml: string, t: Tag, rest: seq<Tag>)
    requires t.start < |xml| && xml[t.start] == '<' && Find(xml, '>', t.start) == Some(t.close) && AtFinds(xml, rest)
    ensures AtFinds(xml, [t] + rest)
  {
    var ts := [t] + rest;
    forall k | 0 < k < |ts|
      ensures ts[k] == rest[k - 1]
    {
    }
  }

  lemma {:induction false} ScanReadBack(xml: string, i: nat)
    ensures ReadBack(xml, Scan(xml, i))
    decreases |xml| - i
  {
    if i < |xml| {
      if xml[i] != '<' {
        ScanReadBack(xml, i + 1);
        ScanAtText(xml, i);
      } else if Find(xml, '>', i).Some? {
        var c := Find(xml, '>', i).value;
        ScanReadBack(xml, c + 1);
        ScanAtTag(xml, i, c);
        ReadBackCons(xml, ReadTag(xml, i, c), Scan(xml, c + 1));
      }
    }
  }

  lemma ReadBackCons(xml: string, t: Tag, rest: seq<Tag>)
    requires t.start < t.close <= |xml| && t == ReadTag(xml, t.start, t.close) && ReadBack(xml, rest)
    ensures ReadBack(xml, [t] + rest)
  {
    var ts := [t] + rest;
    forall k | 0 < k < |ts|
      ensures ts[k] == rest[k - 1]
    {
    }
  }

  /** The scan at a `<` reads one tag and resumes after its `>`. */
  lemma ScanAtTag(xml: string, i: nat, c: nat)
    requires i < |xml| && xml[i] == '<' && Find(xml, '>', i) == Some(c)
    ensures Scan(xml, i) == [ReadTag(xml, i, c)] + Scan(xml, c + 1)
  {
  }

  /** One scan step, with the tag read and the tags after it given. */
  lemma ScanReads(xml: string, i: nat, c: nat, t: Tag, rest: seq<Tag>)
    requires i < |xml| && xml[i] == '<' && Find(xml, '>', i) == Some(c)
    requires ReadTag(xml, i, c) == t && Scan(xml, c + 1) == rest
    ensures Scan(xml, i) == [t] + rest
  {
    ScanAtTag(xml, i, c);
  }

  /** The scan skips any other character. */
  lemma ScanAtText(xml: string, i: nat)
    requires i < |xml| && xml[i] != '<'
    ensures Scan(xml, i) == Scan(xml, i + 1)
  {
  }

  /** A stretch of text without `<` is skipped. */
  lemma {:induction false} ScanOverText(xml: string, i: nat, j: nat)
    requires i <= j <= |xml| && forall k :: i <= k < j ==> xml[k] != '<'
    ensures Scan(xml, i) == Scan(xml, j)
    decreases j - i
  {
    if i < j {
      ScanAtText(xml, i);
      ScanOverText(xml, i + 1, j);
    }
  }

  /** The offsets of the tags' `<`, in order. */
  function Starts(ts: seq<Tag>): (r: seq<int>)
    ensures |r| == |ts| && forall k :: 0 <= k < |ts| ==> r[k] == ts[k].start
  {
    seq(|ts|, k requires 0 <= k < |ts| => ts[k].start)
  }

  /** Tags come out in the order of their `<`, and no two share one. */
  lemma ScanStartsIncrease(xml: string, i: nat)
    ensures Increasing(Starts(Scan(xml, i)))
  {
    ScanInOrder(xml, i);
  }

  /** A string ending in `>` is terminated: its last `>` follows every `<`. */
  lemma EndsWithCloseTerminated(t: string)
    requires |t| > 0 && Last(t) == '>'
    ensures Terminated(t)
  {
    forall q | 0 <= q < |t| && t[q] == '<'
      ensures Find(t, '>', q).Some?
    {
      FindSome(t, '>', q, |t| - 1);
    }
  }

  /** Splicing a string that ends in `>` into a terminated string, in place of
      `x[a..b]`, keeps it terminated. */
  lemma TerminatedSplice(x: string, a: nat, b: nat, t: string)
    requires a <= b <= |x| && Terminated(x)
    requires |t| > 0 && Last(t) == '>'
    ensures Terminated(x[..a] + t + x[b..])
  {
    var y := x[..a] + t + x[b..];
    forall q | 0 <= q < |y| && y[q] == '<'
      ensures Find(y, '>', q).Some?
    {
      if q < a {
        assert x[q] == '<';
        var j := Find(x, '>', q).value;
        if j < a {
          assert y[j] == '>';
          FindSome(y, '>', q, j);
        } else {
          assert y[a + |t| - 1] == '>';
          FindSome(y, '>', q, a + |t| - 1);
        }
      } else if q < a + |t| {
        assert y[a + |t| - 1] == '>';
        FindSome(y, '>', q, a + |t| - 1);
      } else {
        var q' := q - a - |t| + b;
        assert x[q'] == '<';
        var j := Find(x, '>', q').value;
        assert y[j - b + a + |t|] == '>';
        FindSome(y, '>', q, j - b + a + |t|);
      }
    }
  }
}
