/** Shared vocabulary: optional values, the character classes of the C and
    Python runtimes, string search, and the small sequence functions every
    other module uses. */
module Base {

  datatype Option<T> = None | Some(value: T)

  datatype Result<T, E> = Ok(value: T) | Err(error: E)

  /** `isspace` of the C library in the "C" locale. */
  predicate IsSpace(c: char)
  {
    c == ' ' || c == '\t' || c == '\n' || c == '\U{B}' || c == '\U{C}' || c == '\r'
  }

  /** `isalpha` of the C library in the "C" locale. */
  predicate IsAlpha(c: char)
  {
    ('a' <= c <= 'z') || ('A' <= c <= 'Z')
  }

  /** Python's `str.isspace` for one character (the whitespace table of CPython). */
  predicate PyIsSpace(c: char)
  {
    ('\t' <= c <= '\r') || ('\U{1C}' <= c <= '\U{1F}') || c == ' ' || c == '\U{85}' || c == '\U{A0}'
    || c == '\U{1680}' || ('\U{2000}' <= c <= '\U{200A}') || c == '\U{2028}' || c == '\U{2029}'
    || c == '\U{202F}' || c == '\U{205F}' || c == '\U{3000}'
  }

  /** The characters at which Python's `str.splitlines` breaks a line. */
  predicate PyLineBreak(c: char)
  {
    c == '\n' || c == '\r' || c == '\U{B}' || c == '\U{C}' || ('\U{1C}' <= c <= '\U{1E}')
    || c == '\U{85}' || c == '\U{2028}' || c == '\U{2029}'
  }

  lemma LineBreakIsSpace(c: char)
    ensures PyLineBreak(c) ==> PyIsSpace(c)
  {
  }

  /** `s.find(c, from)`: the first index at or after `from` holding `c`. */
  function Find(s: string, c: char, from: nat): (r: Option<nat>)
    ensures r.Some? ==> from <= r.value < |s| && s[r.value] == c
    decreases |s| - from
  {
    if from >= |s| then None
    else if s[from] == c then Some(from)
    else Find(s, c, from + 1)
  }

  /** `find` gives the first occurrence, and none when there is none. */
  lemma {:induction false} FindFirst(s: string, c: char, from: nat)
    ensures Find(s, c, from).Some? ==> forall j :: from <= j < Find(s, c, from).value ==> s[j] != c
    ensures Find(s, c, from).None? ==> forall j :: from <= j < |s| ==> s[j] != c
    decreases |s| - from
  {
    if from < |s| && s[from] != c {
      FindFirst(s, c, from + 1);
    }
  }

  /** An occurrence at or after `from` means `find` succeeds, at or before it. */
  lemma FindSome(s: string, c: char, from: nat, j: nat)
    requires from <= j < |s| && s[j] == c
    ensures Find(s, c, from).Some? && Find(s, c, from).value <= j
  {
    FindFirst(s, c, from);
  }

  /** `s.find(c, from)` as the C++ callers see it once stored in an `int`: a
      negative start converts to a huge `size_t` and finds nothing, and
      `npos` reads back as -1. */
  function FindPos(s: string, c: char, from: int): (r: int)
    ensures r == -1 || (0 <= from <= r < |s| && s[r] == c)
    ensures r == -1 <==> (from < 0 || forall j :: from <= j < |s| ==> s[j] != c)
  {
    if from < 0 then -1
    else
      FindFirst(s, c, from);
      match Find(s, c, from)
      case None => -1
      case Some(k) => k
  }

  /** `s.insert(q, t)` for a position inside the string. */
  function InsertAt(s: string, q: nat, t: string): (r: string)
    requires q <= |s|
    ensures |r| == |s| + |t| && r[..q] == s[..q] && r[q..q + |t|] == t && r[q + |t|..] == s[q..]
  {
    s[..q] + t + s[q..]
  }

  /** Two strings that agree from `a` and from `b` on give shifted search results. */
  lemma {:induction false} FindShift(s: string, t: string, c: char, a: nat, b: nat, k: nat)
    requires a <= |s| && b <= |t| && s[a..] == t[b..]
    ensures Find(s, c, a + k).Some? == Find(t, c, b + k).Some?
    ensures Find(s, c, a + k).Some? ==> Find(s, c, a + k).value - a == Find(t, c, b + k).value - b
    decreases |s| - (a + k)
  {
    if a + k < |s| {
      assert s[a + k] == s[a..][k] == t[b..][k] == t[b + k];
      if s[a + k] != c {
        FindShift(s, t, c, a, b, k + 1);
      }
    }
  }

  /** A run of `n` blanks, as `std::string(n, ' ')` and Python's `" " * n`. */
  function Spaces(n: int): (r: string)
    ensures |r| == (if n < 0 then 0 else n)
    ensures forall k :: 0 <= k < |r| ==> r[k] == ' '
    decreases n
  {
    if n <= 0 then "" else Spaces(n - 1) + " "
  }

  /** `s[k]` as `std::string` reads it, up to the terminating `'\0'` at
      index `size()`. */
  function CharAt(s: string, k: nat): char
  {
    if k < |s| then s[k] else '\0'
  }

  /** `s.substr(pos, len)`: at most `len` characters from `pos`. A negative
      `len` stands for a `size_t` length that wrapped around below zero,
      which `substr` caps at the end of the string. */
  function Substr(s: string, pos: nat, len: int): (r: string)
    requires pos <= |s|
    ensures |r| <= |s| - pos
  {
    if len < 0 || pos + len > |s| then s[pos..] else s[pos..pos + len]
  }

  /** A sequence is its part before `m`, its element at `m` and its part after. */
  lemma SplitAt<T>(s: seq<T>, m: nat)
    requires m < |s|
    ensures s == s[..m] + [s[m]] + s[m + 1..]
  {
  }

  /** What one element more than `b` holds: that element and all of `b`. */
  lemma MultisetPlusOne<T>(a: seq<T>, b: seq<T>, t: T)
    requires multiset(a) == multiset(b) + multiset{t}
    ensures t in a && forall x :: x in b ==> x in a
  {
    assert t in multiset(a);
    forall x | x in b
      ensures x in a
    {
      assert x in multiset(b);
      assert x in multiset(a);
    }
  }

  lemma ConcatAssoc<T>(a: seq<T>, b: seq<T>, c: seq<T>)
    ensures (a + b) + c == a + (b + c)
  {
  }

  function Last<T>(s: seq<T>): T
    requires |s| > 0
  {
    s[|s| - 1]
  }

  /** The characters of `s` that are not C whitespace, in order. */
  function NonSpace(s: string): (r: string)
    ensures |r| <= |s|
    ensures forall k :: 0 <= k < |r| ==> !IsSpace(r[k])
  {
    if s == [] then []
    else if IsSpace(Last(s)) then NonSpace(s[..|s| - 1])
    else NonSpace(s[..|s| - 1]) + [Last(s)]
  }

  lemma {:induction false} NonSpaceAppend(a: string, b: string)
    ensures NonSpace(a + b) == NonSpace(a) + NonSpace(b)
    decreases |b|
  {
    if b == [] {
      assert a + b == a;
    } else {
      var b' := b[..|b| - 1];
      assert (a + b)[..|a + b| - 1] == a + b';
      NonSpaceAppend(a, b');
    }
  }

  lemma NonSpaceOfSpaces(n: int)
    ensures NonSpace(Spaces(n)) == []
    decreases n
  {
    if n > 0 {
      NonSpaceAppend(Spaces(n - 1), " ");
      NonSpaceOfSpaces(n - 1);
    }
  }

  lemma {:induction false} NonSpaceIdempotent(s: string)
    ensures NonSpace(NonSpace(s)) == NonSpace(s)
  {
    NonSpaceFixed(NonSpace(s));
  }

  /** A string free of whitespace is its own filter image. */
  lemma {:induction false} NonSpaceFixed(s: string)
    requires forall k :: 0 <= k < |s| ==> !IsSpace(s[k])
    ensures NonSpace(s) == s
  {
    if s != [] {
      NonSpaceFixed(s[..|s| - 1]);
      assert s[..|s| - 1] + [Last(s)] == s;
    }
  }

  /** The index of an element of least weight `w`: where a min-heap's `top`
      or pop takes its element from. Which one among equal weights is left
      open. */
  method ArgMinBy<T>(xs: seq<T>, w: T -> int) returns (m: nat)
    requires xs != []
    ensures m < |xs| && forall j :: 0 <= j < |xs| ==> w(xs[m]) <= w(xs[j])
  {
    m := 0;
    for i := 1 to |xs|
      invariant m < i && forall j :: 0 <= j < i ==> w(xs[m]) <= w(xs[j])
    {
      if w(xs[i]) < w(xs[m]) {
        m := i;
      }
    }
  }

  function Sum(s: seq<int>): int
  {
    if s == [] then 0 else Sum(s[..|s| - 1]) + Last(s)
  }

  lemma {:induction false} SumAppend(a: seq<int>, b: seq<int>)
    ensures Sum(a + b) == Sum(a) + Sum(b)
    decreases |b|
  {
    if b == [] {
      assert a + b == a;
    } else {
      assert (a + b)[..|a + b| - 1] == a + b[..|b| - 1];
      SumAppend(a, b[..|b| - 1]);
    }
  }

  /** Number of occurrences of `x` in `s`. */
  function Count<T(==)>(s: seq<T>, x: T): nat
  {
    if s == [] then 0 else Count(s[..|s| - 1], x) + (if Last(s) == x then 1 else 0)
  }

  /** `s` strictly increasing. */
  predicate Increasing(s: seq<int>)
  {
    forall a, b :: 0 <= a < b < |s| ==> s[a] < s[b]
  }
}
