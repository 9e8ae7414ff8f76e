/** The discipline a consistent document obeys: every closing tag closes the
    most recently opened tag that is still open, and nothing is left open.
    `Run` is that discipline as the stack machine of `checkXMLConsistency`
    executes it; `Nested` is the same language written as a grammar. */
module Nesting {
  import opened Base
  import opened TagScan

  /** Feeds the tags to a stack of open names whose top is its last element.
      A closing tag must match the top and pops it; an opening tag pushes
      its name. The result is the final stack, or `None` at the first
      closing tag that does not match. */
  function Run(ts: seq<Tag>, stack: seq<string>): Option<seq<string>>
    decreases |ts|
  {
    if ts == [] then Some(stack)
    else if ts[0].closing then
      if stack != [] && Last(stack) == ts[0].name then Run(ts[1..], stack[..|stack| - 1]) else None
    else Run(ts[1..], stack + [ts[0].name])
  }

  /** Consistent: the run never fails and ends with nothing open. */
  predicate Balanced(ts: seq<Tag>)
  {
    Run(ts, []) == Some([])
  }

  /** Properly nested tags: empty, or an opening tag, a nested body, the
      closing tag of the same name, and a nested remainder. Offsets play no
      part. */
  ghost predicate Nested(ts: seq<Tag>)
    decreases |ts|
  {
    ts == [] || (!ts[0].closing && exists k :: NestedSplit(ts, k))
  }

  /** `ts[k]` closes `ts[0]` and both stretches it leaves are nested. */
  ghost predicate NestedSplit(ts: seq<Tag>, k: int)
    decreases |ts|, 0
  {
    0 < k < |ts| && ts[k].closing && ts[k].name == ts[0].name
    && Nested(ts[1..k]) && Nested(ts[k + 1..])
  }

  /** Tags that close the open names of `stack`, top first: for each open
      name, a nested stretch and then that name's closing tag. */
  ghost predicate Closes(ts: seq<Tag>, stack: seq<string>)
    decreases |stack|
  {
    if stack == [] then Nested(ts) else exists k :: ClosesSplit(ts, stack, k)
  }

  /** `ts[k]` closes the top of `stack` after a nested stretch, and the rest
      closes the names below it. */
  ghost predicate ClosesSplit(ts: seq<Tag>, stack: seq<string>, k: int)
    requires stack != []
    decreases |stack|, 0
  {
    0 <= k < |ts| && ts[k].closing && ts[k].name == Last(stack)
    && Nested(ts[..k]) && Closes(ts[k + 1..], stack[..|stack| - 1])
  }

  /** A nested stretch leaves the stack as it found it. */
  lemma {:induction false} NestedRunsThrough(ts: seq<Tag>, rest: seq<Tag>, stack: seq<string>)
    requires Nested(ts)
    ensures Run(ts + rest, stack) == Run(rest, stack)
    decreases |ts|
  {
    if ts == [] {
      assert ts + rest == rest;
    } else {
      var k :| NestedSplit(ts, k);
      var a := ts[0].name;
      var after := [ts[k]] + (ts[k + 1..] + rest);
      assert (ts + rest)[1..] == ts[1..k] + after;
      NestedRunsThrough(ts[1..k], after, stack + [a]);
      assert after[1..] == ts[k + 1..] + rest;
      assert (stack + [a])[..|stack + [a]| - 1] == stack;
      NestedRunsThrough(ts[k + 1..], rest, stack);
    }
  }

  lemma {:induction false} NestedConcat(x: seq<Tag>, y: seq<Tag>)
    requires Nested(x) && Nested(y)
    ensures Nested(x + y)
    decreases |x|
  {
    if x == [] {
      assert x + y == y;
    } else {
      var k :| NestedSplit(x, k);
      NestedConcat(x[k + 1..], y);
      assert (x + y)[1..k] == x[1..k];
      assert (x + y)[k + 1..] == x[k + 1..] + y;
      assert NestedSplit(x + y, k);
    }
  }

  lemma {:induction false} PrependNested(p: seq<Tag>, b: seq<Tag>, stack: seq<string>)
    requires Nested(p) && Closes(b, stack)
    ensures Closes(p + b, stack)
  {
    if stack == [] {
      NestedConcat(p, b);
    } else {
      var k :| ClosesSplit(b, stack, k);
      NestedConcat(p, b[..k]);
      var k' := |p| + k;
      assert (p + b)[..k'] == p + b[..k];
      assert (p + b)[k' + 1..] == b[k + 1..];
      assert (p + b)[k'] == b[k];
      assert ClosesSplit(p + b, stack, k');
    }
  }

  /** A run that ends with nothing open closes what was open at its start. */
  lemma {:induction false} RunCloses(ts: seq<Tag>, stack: seq<string>)
    requires Run(ts, stack) == Some([])
    ensures Closes(ts, stack)
    decreases |ts|
  {
    if ts == [] {
    } else if ts[0].closing {
      RunCloses(ts[1..], stack[..|stack| - 1]);
      assert ts[..0] == [];
      assert ts[1..] == ts[0 + 1..];
      assert ClosesSplit(ts, stack, 0);
    } else {
      var a := ts[0].name;
      var s' := stack + [a];
      RunCloses(ts[1..], s');
      assert Last(s') == a && s'[..|s'| - 1] == stack;
      var u := ts[1..];
      var k :| ClosesSplit(u, s', k);
      var p := ts[..k + 2];
      assert p[1..k + 1] == u[..k];
      assert p[k + 2..] == [];
      assert p[k + 1] == u[k];
      assert NestedSplit(p, k + 1);
      assert ts[k + 2..] == u[k + 1..];
      assert ts == p + ts[k + 2..];
      PrependNested(p, ts[k + 2..], stack);
    }
  }

  /** The stack machine accepts exactly the properly nested tag sequences. */
  lemma BalancedIffNested(ts: seq<Tag>)
    ensures Balanced(ts) <==> Nested(ts)
  {
    if Balanced(ts) {
      RunCloses(ts, []);
    }
    if Nested(ts) {
      NestedRunsThrough(ts, [], []);
      assert ts + [] == ts;
    }
  }
}
