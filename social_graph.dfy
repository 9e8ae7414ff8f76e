/** Graph.cpp: the social network as a directed graph on an adjacency
    matrix. Vertices are users; an edge F -> U of weight 1 says that F
    follows U. The user records are read line by line from the XML file. */
module SocialGraph {
  import opened Base

  /** A user record: id, name, posts and the ids of its followers. */
  datatype User = User(id: string, name: string, posts: seq<string>, followers: seq<string>)

  /** The vertex created for a follower id that names no known user. */
  function Unknown(id: string): User
  {
    User(id, "Unknown User", [], [])
  }

  /** The first index whose user has the id, or -1: the other fields are
      ignored. */
  function IdIndex(us: seq<User>, id: string): (k: int)
    ensures -1 <= k < |us|
    ensures k >= 0 ==> us[k].id == id
  {
    if us == [] then -1
    else
      var k := IdIndex(us[..|us| - 1], id);
      if k != -1 then k else if Last(us).id == id then |us| - 1 else -1
  }

  /** No user before the one found has the id, and -1 means that none
      has it. */
  lemma {:induction false} IdIndexFirst(us: seq<User>, id: string)
    ensures forall j :: 0 <= j < IdIndex(us, id) ==> us[j].id != id
    ensures IdIndex(us, id) == -1 <==> forall j :: 0 <= j < |us| ==> us[j].id != id
  {
    if us != [] {
      var p := us[..|us| - 1];
      IdIndexFirst(p, id);
      assert forall j :: 0 <= j < |p| ==> p[j] == us[j];
    }
  }

  /** An id found stays at its index when users are appended; an id not
      found is found at the first appended user that has it. */
  lemma IdIndexAppend(us: seq<User>, vs: seq<User>, id: string)
    ensures IdIndex(us, id) != -1 ==> IdIndex(us + vs, id) == IdIndex(us, id)
    ensures IdIndex(us, id) == -1 && IdIndex(vs, id) != -1 ==> IdIndex(us + vs, id) == |us| + IdIndex(vs, id)
    ensures IdIndex(us, id) == -1 && IdIndex(vs, id) == -1 ==> IdIndex(us + vs, id) == -1
  {
    var k := IdIndex(us, id);
    var w := us + vs;
    IdIndexFirst(us, id);
    IdIndexFirst(vs, id);
    IdIndexFirst(w, id);
    if k != -1 {
      assert w[k] == us[k];
    } else if IdIndex(vs, id) != -1 {
      assert w[|us| + IdIndex(vs, id)] == vs[IdIndex(vs, id)];
    } else {
      forall j | 0 <= j < |w|
        ensures w[j].id != id
      {
        if j < |us| {
          assert w[j] == us[j];
        } else {
          assert w[j] == vs[j - |us|];
        }
      }
    }
  }

  /** The first `n` users of `s`, as a graph with room for `n` keeps. */
  function Capped(s: seq<User>, n: nat): (r: seq<User>)
    ensures |r| <= n && r <= s
    ensures |s| <= n ==> r == s
    ensures |s| >= n ==> |r| == n
  {
    if |s| <= n then s else s[..n]
  }

  lemma CappedAppend(s: seq<User>, u: User, n: nat)
    ensures Capped(s + [u], n) == if |Capped(s, n)| < n then Capped(s, n) + [u] else Capped(s, n)
  {
    if |s| > n {
      assert (s + [u])[..n] == s[..n];
    } else if |s| == n {
      assert (s + [u])[..n] == s;
    }
  }

  /** Some user before index `j` lists `id` among its followers. */
  ghost predicate FollowedBefore(us: seq<User>, j: int, id: string)
    requires j <= |us|
  {
    exists i, k :: 0 <= i < j && 0 <= k < |us[i].followers| && us[i].followers[k] == id
  }

  /** From index `from` on, each user is an unknown user whose id no
      earlier user has and some earlier user lists as a follower. */
  ghost predicate AddedFrom(us: seq<User>, from: int)
  {
    forall j :: 0 <= from <= j < |us| ==>
      us[j] == Unknown(us[j].id) && IdIndex(us[..j], us[j].id) == -1 && FollowedBefore(us, j, us[j].id)
  }

  /** Appending an unknown user for a follower id that no user has keeps
      that so. */
  lemma AddedAppend(us: seq<User>, followerId: string, room: bool, from: int)
    requires AddedFrom(us, from) && FollowedBefore(us, |us|, followerId)
    ensures AddedFrom(us + if IdIndex(us, followerId) == -1 && room then [Unknown(followerId)] else [], from)
  {
    var vs := us + if IdIndex(us, followerId) == -1 && room then [Unknown(followerId)] else [];
    forall j | 0 <= from <= j < |vs|
      ensures vs[j] == Unknown(vs[j].id) && IdIndex(vs[..j], vs[j].id) == -1 && FollowedBefore(vs, j, vs[j].id)
    {
      if j < |us| {
        assert vs[j] == us[j] && vs[..j] == us[..j];
        var i, k :| 0 <= i < j && 0 <= k < |us[i].followers| && us[i].followers[k] == us[j].id;
        assert vs[i] == us[i];
      } else {
        assert vs[..j] == us;
        var i, k :| 0 <= i < |us| && 0 <= k < |us[i].followers| && us[i].followers[k] == followerId;
        assert vs[i] == us[i];
      }
    }
  }

  /** Cell `(r, c)` links one of `u`'s followers to `u`: `c` is the
      first index of `u`'s id and `r` that of one of its follower ids. */
  ghost predicate CellOf(us: seq<User>, u: User, r: int, c: int)
  {
    c == IdIndex(us, u.id) && exists k :: 0 <= k < |u.followers| && r == IdIndex(us, u.followers[k])
  }

  /** Cell `(r, c)` links a follower to one of the users below `n`. */
  ghost predicate FollowCell(us: seq<User>, n: int, r: int, c: int)
    requires n <= |us|
  {
    exists i :: 0 <= i < n && CellOf(us, us[i], r, c)
  }

  /** A link cell inside the matrix stays one as users are appended. */
  lemma CellOfGrow(us: seq<User>, vs: seq<User>, u: User, r: int, c: int)
    requires us <= vs && 0 <= r && 0 <= c && CellOf(us, u, r, c)
    ensures CellOf(vs, u, r, c)
  {
    var k :| 0 <= k < |u.followers| && r == IdIndex(us, u.followers[k]);
    assert vs == us + vs[|us|..];
    IdIndexAppend(us, vs[|us|..], u.id);
    IdIndexAppend(us, vs[|us|..], u.followers[k]);
  }

  lemma FollowCellGrow(us: seq<User>, vs: seq<User>, n: int, n': int, r: int, c: int)
    requires us <= vs && n <= n' <= |vs| && n <= |us| && 0 <= r && 0 <= c && FollowCell(us, n, r, c)
    ensures FollowCell(vs, n', r, c)
  {
    var i :| 0 <= i < n && CellOf(us, us[i], r, c);
    assert vs[i] == us[i];
    CellOfGrow(us, vs, us[i], r, c);
  }

  // ---------------------------------------------------------------------
  // Reading the user records line by line

  /** `s.find(pat, from)`: the first position at or after `from` where
      `pat` occurs, or -1 for `npos`. */
  function SearchFrom(s: string, pat: string, from: nat): (r: int)
    ensures r == -1 || (from <= r && r + |pat| <= |s| && s[r..r + |pat|] == pat)
    decreases |s| - from
  {
    if from + |pat| > |s| then -1
    else if s[from..from + |pat|] == pat then from
    else SearchFrom(s, pat, from + 1)
  }

  /** `pat` occurs in `s` at `k`. */
  predicate OccursAt(s: string, pat: string, k: int)
  {
    0 <= k && k + |pat| <= |s| && s[k..k + |pat|] == pat
  }

  /** The search finds the first occurrence, and -1 means that there is
      none. */
  lemma {:induction false} SearchFirst(s: string, pat: string, from: nat)
    ensures forall k :: from <= k && OccursAt(s, pat, k) ==> SearchFrom(s, pat, from) != -1 && SearchFrom(s, pat, from) <= k
    decreases |s| - from
  {
    if from + |pat| <= |s| && s[from..from + |pat|] != pat {
      SearchFirst(s, pat, from + 1);
    }
  }

  function Search(s: string, pat: string): int
  {
    SearchFrom(s, pat, 0)
  }

  /** `line.find(pat) != string::npos`. */
  predicate Has(line: string, pat: string)
  {
    Search(line, pat) != -1
  }

  lemma HasOccurs(line: string, pat: string)
    ensures Has(line, pat) <==> exists k :: OccursAt(line, pat, k)
  {
    SearchFirst(line, pat, 0);
    if Has(line, pat) {
      assert OccursAt(line, pat, Search(line, pat));
    }
  }

  /** `line.substr(line.find(open) + |open|, line.find(close) - line.find(open) - |open|)`:
      the text after `open` up to `close`. The count is unsigned, so when
      `close` is missing or comes earlier it wraps to a huge value and the
      rest of the line is taken. */
  function Field(line: string, open: string, close: string): (r: string)
    requires Has(line, open)
  {
    var p, q := Search(line, open), Search(line, close);
    Substr(line, p + |open|, q - p - |open|)
  }

  /** The loop's variables between two lines. `users` are the records
      completed so far, before `AddVertex` drops what does not fit. */
  datatype Reader = Reader(id: string, name: string, posts: seq<string>, followers: seq<string>,
                           readingPosts: bool, readingFollowers: bool, readingId: bool, users: seq<User>)

  const Start := Reader("", "", [], [], false, false, false, [])

  /** `<user>` clears the posts and the followers and expects an id. */
  function OpenUser(st: Reader, line: string): (r: Reader)
    ensures r.id == st.id && r.name == st.name && r.readingPosts == st.readingPosts && r.readingFollowers == st.readingFollowers && r.users == st.users
  {
    if Has(line, "<user>") then st.(posts := [], followers := [], readingId := true) else st
  }

  /** The first `<id>` after `<user>` is the user's own; `</id>` ends the
      wait for it. */
  function TakeId(st: Reader, line: string): (r: Reader)
    ensures r.name == st.name && r.posts == st.posts && r.followers == st.followers && r.readingPosts == st.readingPosts && r.readingFollowers == st.readingFollowers && r.users == st.users
  {
    var a := if st.readingId && Has(line, "<id>") then st.(id := Field(line, "<id>", "</id>"), readingId := false) else st;
    if Has(line, "</id>") then a.(readingId := false) else a
  }

  function TakeName(st: Reader, line: string): (r: Reader)
    ensures r.(name := st.name) == st
  {
    if Has(line, "<name>") then st.(name := Field(line, "<name>", "</name>")) else st
  }

  /** Posts are collected between `<posts>` and `</posts>`. */
  function TakePosts(st: Reader, line: string): (r: Reader)
    ensures r.readingPosts == ((st.readingPosts || Has(line, "<posts>")) && !Has(line, "</posts>"))
    ensures r.id == st.id && r.name == st.name && r.followers == st.followers && r.readingFollowers == st.readingFollowers && r.readingId == st.readingId && r.users == st.users
  {
    var a := if Has(line, "<posts>") then st.(readingPosts := true) else st;
    var b := if a.readingPosts && Has(line, "<post>") then a.(posts := a.posts + [Field(line, "<post>", "</post>")]) else a;
    if Has(line, "</posts>") then b.(readingPosts := false) else b
  }

  /** Follower ids are collected between `<followers>` and `</followers>`. */
  function TakeFollowers(st: Reader, line: string): (r: Reader)
    ensures r.readingFollowers == ((st.readingFollowers || Has(line, "<followers>")) && !Has(line, "</followers>"))
    ensures r.id == st.id && r.name == st.name && r.posts == st.posts && r.readingPosts == st.readingPosts && r.readingId == st.readingId && r.users == st.users
  {
    var a := if Has(line, "<followers>") then st.(readingFollowers := true) else st;
    var b := if a.readingFollowers && Has(line, "<id>") then a.(followers := a.followers + [Field(line, "<id>", "</id>")]) else a;
    if Has(line, "</followers>") then b.(readingFollowers := false) else b
  }

  /** `</user>` completes a record with the fields read so far. */
  function CloseUser(st: Reader, line: string): (r: Reader)
    ensures r.(users := st.users) == st && st.users <= r.users
    ensures |r.users| == |st.users| + if Has(line, "</user>") then 1 else 0
  {
    if Has(line, "</user>") then st.(users := st.users + [User(st.id, st.name, st.posts, st.followers)]) else st
  }

  /** One line of the `while (getline(...))` loop; an empty line is
      skipped. */
  function ReadLine(st: Reader, line: string): (r: Reader)
    ensures st.users <= r.users && |r.users| == |st.users| + if Has(line, "</user>") then 1 else 0
  {
    if line == [] then st
    else CloseUser(TakeFollowers(TakePosts(TakeName(TakeId(OpenUser(st, line), line), line), line), line), line)
  }

  /** The loop's variables after the lines of `lines`. */
  function Read(lines: seq<string>): Reader
  {
    if lines == [] then Start else ReadLine(Read(lines[..|lines| - 1]), Last(lines))
  }

  /** The number of lines that contain `pat`. */
  function Lines(lines: seq<string>, pat: string): nat
  {
    if lines == [] then 0 else Lines(lines[..|lines| - 1], pat) + if Has(Last(lines), pat) then 1 else 0
  }

  /** A record is completed on exactly the lines that contain `</user>`. */
  lemma {:induction false} ReadUsersCount(lines: seq<string>)
    ensures |Read(lines).users| == Lines(lines, "</user>")
  {
    if lines != [] {
      ReadUsersCount(lines[..|lines| - 1]);
    }
  }

  /** Completed records are never changed or dropped by later lines. */
  lemma {:induction false} ReadUsersGrow(lines: seq<string>, more: seq<string>)
    ensures Read(lines).users <= Read(lines + more).users
    decreases |more|
  {
    if more == [] {
      assert lines + more == lines;
    } else {
      var m := more[..|more| - 1];
      ReadUsersGrow(lines, m);
      var all := lines + more;
      assert all[..|all| - 1] == lines + m;
      PrefixTrans(Read(lines).users, Read(lines + m).users, Read(all).users);
    }
  }

  lemma PrefixTrans<T>(a: seq<T>, b: seq<T>, c: seq<T>)
    requires a <= b && b <= c
    ensures a <= c
  {
    assert c[..|b|][..|a|] == c[..|a|];
  }

  /** Any line with `<user>` starts afresh: the posts and the followers of
      the previous record do not carry over. */
  lemma UserLineResets(st: Reader, line: string)
    requires Has(line, "<user>")
    ensures ReadLine(st, line) == ReadLine(st.(posts := [], followers := [], readingId := true), line)
  {
  }

  /** Outside `<posts>`...`</posts>` no post is collected, outside
      `<followers>`...`</followers>` no follower id, and once the user's id
      is read no later `<id>` replaces it, until the next `<user>`. */
  lemma CollectedOnlyInside(st: Reader, line: string)
    requires !Has(line, "<user>")
    ensures !st.readingPosts && !Has(line, "<posts>") ==> ReadLine(st, line).posts == st.posts
    ensures !st.readingFollowers && !Has(line, "<followers>") ==> ReadLine(st, line).followers == st.followers
    ensures !st.readingId ==> ReadLine(st, line).id == st.id
  {
  }

  /** Some line at or before the last one opens with `a` and no line from
      there on closes with `b`. */
  ghost predicate OpenRegion(lines: seq<string>, a: string, b: string)
  {
    exists k :: 0 <= k < |lines| && Has(lines[k], a) && forall j :: k <= j < |lines| ==> !Has(lines[j], b)
  }

  lemma RegionSnoc(lines: seq<string>, line: string, a: string, b: string)
    ensures OpenRegion(lines + [line], a, b) <==> (OpenRegion(lines, a, b) || Has(line, a)) && !Has(line, b)
  {
    var all := lines + [line];
    if OpenRegion(all, a, b) {
      var k :| 0 <= k < |all| && Has(all[k], a) && forall j :: k <= j < |all| ==> !Has(all[j], b);
      assert !Has(all[|lines|], b);
      if k < |lines| {
        assert forall j :: k <= j < |lines| ==> all[j] == lines[j];
        assert OpenRegion(lines, a, b);
      }
    }
    if OpenRegion(lines, a, b) && !Has(line, b) {
      var k :| 0 <= k < |lines| && Has(lines[k], a) && forall j :: k <= j < |lines| ==> !Has(lines[j], b);
      assert all[k] == lines[k];
      assert forall j :: k <= j < |all| ==> !Has(all[j], b);
    }
    if Has(line, a) && !Has(line, b) {
      assert all[|lines|] == line;
    }
  }

  /** A line changes a flag only through its opening and closing tags, the
      closing one winning when both are on the line. */
  lemma FlagsStep(st: Reader, line: string)
    ensures ReadLine(st, line).readingPosts == ((st.readingPosts || Has(line, "<posts>")) && !Has(line, "</posts>"))
    ensures ReadLine(st, line).readingFollowers == ((st.readingFollowers || Has(line, "<followers>")) && !Has(line, "</followers>"))
  {
  }

  /** The posts flag is set exactly inside a `<posts>` region and the
      followers flag exactly inside a `<followers>` region. */
  lemma {:induction false} FlagsTrackRegions(lines: seq<string>)
    ensures Read(lines).readingPosts <==> OpenRegion(lines, "<posts>", "</posts>")
    ensures Read(lines).readingFollowers <==> OpenRegion(lines, "<followers>", "</followers>")
  {
    if lines != [] {
      var p := lines[..|lines| - 1];
      FlagsTrackRegions(p);
      assert p + [Last(lines)] == lines;
      FlagsStep(Read(p), Last(lines));
      RegionSnoc(p, Last(lines), "<posts>", "</posts>");
      RegionSnoc(p, Last(lines), "<followers>", "</followers>");
    }
  }

  /** The body of the loop up to `</user>`, in three parts. */
  method ScanLine(st: Reader, line: string) returns (r: Reader)
    ensures r == TakeFollowers(TakePosts(TakeName(TakeId(OpenUser(st, line), line), line), line), line)
  {
    r := ScanHead(st, line);
    r := ScanPosts(r, line);
    r := ScanFollowers(r, line);
  }

  /** `<user>`, the user's `<id>` and `<name>`. */
  method ScanHead(st: Reader, line: string) returns (r: Reader)
    ensures r == TakeName(TakeId(OpenUser(st, line), line), line)
  {
    var currentId, currentName, currentPosts, currentFollowers := st.id, st.name, st.posts, st.followers;
    var readingID := st.readingId;
    if Has(line, "<user>") {
      currentPosts := [];
      currentFollowers := [];
      readingID := true;
    }
    if readingID && Has(line, "<id>") {
      currentId := Field(line, "<id>", "</id>");
      readingID := false;
    }
    if Has(line, "</id>") {
      readingID := false;
    }
    if Has(line, "<name>") {
      currentName := Field(line, "<name>", "</name>");
    }
    r := st.(id := currentId, name := currentName, posts := currentPosts, followers := currentFollowers, readingId := readingID);
  }

  /** `<posts>`, each `<post>` inside, and `</posts>`. */
  method ScanPosts(st: Reader, line: string) returns (r: Reader)
    ensures r == TakePosts(st, line)
  {
    var currentPosts, readingPosts := st.posts, st.readingPosts;
    if Has(line, "<posts>") {
      readingPosts := true;
    }
    if readingPosts && Has(line, "<post>") {
      var post := Field(line, "<post>", "</post>");
      currentPosts := currentPosts + [post];
    }
    if Has(line, "</posts>") {
      readingPosts := false;
    }
    r := st.(posts := currentPosts, readingPosts := readingPosts);
  }

  /** `<followers>`, each `<id>` inside, and `</followers>`. */
  method ScanFollowers(st: Reader, line: string) returns (r: Reader)
    ensures r == TakeFollowers(st, line)
  {
    var currentFollowers, readingFollowers := st.followers, st.readingFollowers;
    if Has(line, "<followers>") {
      readingFollowers := true;
    }
    if readingFollowers && Has(line, "<id>") {
      var followerId := Field(line, "<id>", "</id>");
      currentFollowers := currentFollowers + [followerId];
    }
    if Has(line, "</followers>") {
      readingFollowers := false;
    }
    r := st.(followers := currentFollowers, readingFollowers := readingFollowers);
  }

  class Graph {
    var numVer: int
    var maxVer: int
    var vertices: array<User>
    var edges: array2<int>
    var marks: array<bool>

    /** The counts and the sizes of the three arrays agree. */
    ghost predicate Valid()
      reads this
    {
      0 <= numVer <= maxVer && vertices.Length == maxVer
      && edges.Length0 == maxVer && edges.Length1 == maxVer && marks.Length == maxVer
    }

    /** The users added so far, in order. */
    ghost function Users(): seq<User>
      reads this, vertices
      requires Valid()
    {
      vertices[..numVer]
    }

    /** The arrays and the capacity stay the objects they were. */
    twostate predicate Kept()
      reads this
    {
      vertices == old(vertices) && edges == old(edges) && marks == old(marks) && maxVer == old(maxVer)
    }

    /** `Graph(max)`: no user, an all-zero matrix and no mark. */
    constructor (max: int)
      requires 0 <= max
      ensures Valid() && maxVer == max && Users() == []
      ensures forall r, c :: 0 <= r < max && 0 <= c < max ==> edges[r, c] == 0
      ensures forall r :: 0 <= r < max ==> !marks[r]
      ensures fresh(vertices) && fresh(edges) && fresh(marks)
    {
      numVer := 0;
      maxVer := max;
      vertices := new User[max](_ => User("", "", [], []));
      var e := new int[max, max];
      for i := 0 to max
        invariant forall r, c :: 0 <= r < i && 0 <= c < max ==> e[r, c] == 0
      {
        for j := 0 to max
          invariant forall r, c :: 0 <= r < i && 0 <= c < max ==> e[r, c] == 0
          invariant forall c :: 0 <= c < j ==> e[i, c] == 0
        {
          e[i, j] := 0;
        }
      }
      edges := e;
      var m := new bool[max];
      for i := 0 to max
        invariant forall r :: 0 <= r < i ==> !m[r]
        invariant forall r, c :: 0 <= r < max && 0 <= c < max ==> e[r, c] == 0
      {
        m[i] := false;
      }
      assert forall r, c :: 0 <= r < max && 0 <= c < max ==> e[r, c] == 0;
      marks := m;
    }

    /** Stores the user at `numVer` while there is room; a full graph is
        left as it is. */
    method AddVertex(vertex: User)
      requires Valid()
      modifies this, vertices
      ensures Valid() && Kept()
      ensures Users() == if old(numVer) < maxVer then old(Users()) + [vertex] else old(Users())
    {
      if numVer < maxVer {
        vertices[numVer] := vertex;
        numVer := numVer + 1;
        assert Users() == old(Users()) + [vertex];
      }
    }

    /** `indexOf`: the first user with the same id, or -1. */
    method IndexOf(vertex: User) returns (k: int)
      requires Valid()
      ensures k == IdIndex(Users(), vertex.id)
    {
      for i := 0 to numVer
        invariant forall j :: 0 <= j < i ==> vertices[j].id != vertex.id
      {
        if vertices[i].id == vertex.id {
          IdIndexFirst(Users(), vertex.id);
          return i;
        }
      }
      IdIndexFirst(Users(), vertex.id);
      return -1;
    }

    /** Writes `weight` into the one cell of the two users' ids, when both
        are found; every other cell, and every cell when one of them is
        missing, keeps its value. */
    method AddEdge(fromVertex: User, toVertex: User, weight: int)
      requires Valid()
      modifies edges
      ensures Valid()
      ensures forall r, c :: 0 <= r < maxVer && 0 <= c < maxVer ==>
        edges[r, c] == if r == IdIndex(Users(), fromVertex.id) && c == IdIndex(Users(), toVertex.id) then weight else old(edges[r, c])
    {
      var row := IndexOf(fromVertex);
      var col := IndexOf(toVertex);
      if row != -1 && col != -1 {
        edges[row, col] := weight;
      }
    }

    /** `clearMarks`: the marks of the users are reset, the rest kept. */
    method ClearMarks()
      requires Valid()
      modifies marks
      ensures forall r :: 0 <= r < numVer ==> !marks[r]
      ensures forall r :: numVer <= r < maxVer ==> marks[r] == old(marks[r])
    {
      for i := 0 to numVer
        invariant forall r :: 0 <= r < i ==> !marks[r]
        invariant forall r :: i <= r < maxVer ==> marks[r] == old(marks[r])
      {
        marks[i] := false;
      }
    }

    /** The edge from id `f` to id `u` is in place, or `f` has no vertex
        because the graph is full. */
    ghost predicate Linked(f: string, u: string)
      reads this, vertices, edges
      requires Valid()
    {
      var r, c := IdIndex(Users(), f), IdIndex(Users(), u);
      c != -1 && ((r == -1 && numVer == maxVer) || (r != -1 && edges[r, c] == 1))
    }

    /** Users are only appended and cells only set to 1. */
    twostate predicate Grown()
      reads this, vertices, edges
      requires old(Valid()) && Valid()
    {
      Kept() && old(Users()) <= Users()
      && forall r, c :: 0 <= r < maxVer && 0 <= c < maxVer ==> edges[r, c] == old(edges[r, c]) || edges[r, c] == 1
    }

    /** The users from index `from` on were added for unknown follower
        ids. */
    ghost predicate AddedUnknown(from: int)
      reads this, vertices
      requires Valid()
    {
      AddedFrom(Users(), from)
    }

    /** A link in place stays in place while the graph only grows. */
    twostate lemma GrownKeepsLinks()
      requires old(Valid()) && Valid() && Grown()
      ensures forall f, u :: old(Linked(f, u)) ==> Linked(f, u)
    {
      var us, vs := old(Users()), Users();
      assert vs == us + vs[|us|..];
      forall f, u | old(Linked(f, u))
        ensures Linked(f, u)
      {
        IdIndexAppend(us, vs[|us|..], f);
        IdIndexAppend(us, vs[|us|..], u);
        if IdIndex(us, f) == -1 {
          assert |vs| == |us|;
        }
      }
    }

    /** The users are those before and, when there was room and no user had
        the follower id, an unknown user for it. */
    twostate predicate AppendedFor(followerId: string)
      reads this, vertices
      requires old(Valid()) && Valid()
    {
      Users() == old(Users()) + if old(IdIndex(Users(), followerId)) == -1 && old(numVer) < maxVer then [Unknown(followerId)] else []
    }

    /** The body of the inner loop of `addEdgesBetweenUsers`: the edge from
        the follower to the user, adding the follower as an unknown user
        first when no user has its id. */
    method LinkFollower(followerId: string, currentUser: User)
      requires Valid() && IdIndex(Users(), currentUser.id) != -1
      modifies this, vertices, edges
      ensures Valid() && Kept() && AppendedFor(followerId)
      ensures forall r, c :: 0 <= r < maxVer && 0 <= c < maxVer ==>
        edges[r, c] == if r == IdIndex(Users(), followerId) && c == IdIndex(Users(), currentUser.id) then 1 else old(edges[r, c])
      ensures Linked(followerId, currentUser.id)
    {
      var probe := User(followerId, "---", [], []);
      var followerIndex := IndexOf(probe);
      if followerIndex != -1 {
        var newFollower := vertices[followerIndex];
        AddEdge(newFollower, currentUser, 1);
        assert Users() == old(Users()) + [];
      } else {
        var newFollower := Unknown(followerId);
        AddVertex(newFollower);
        IdIndexAppend(old(Users()), Users()[|old(Users())|..], currentUser.id);
        IdIndexAppend(old(Users()), Users()[|old(Users())|..], followerId);
        AddEdge(newFollower, currentUser, 1);
      }
    }

    /** Every follower id of every user below `n` is linked to it. */
    ghost predicate AllLinked(n: int)
      reads this, vertices, edges
      requires Valid() && n <= numVer
    {
      forall i, k :: 0 <= i < n && 0 <= k < |vertices[i].followers| ==> Linked(vertices[i].followers[k], vertices[i].id)
    }

    /** One round of the inner loop: the `k`-th follower id of the user at
        `i` linked to it, links in place kept, and the one cell set linking
        a follower of that user to it. */
    method LinkFollowerAt(currentUser: User, k: int, ghost i: int, ghost from: int)
      requires Valid() && 0 <= i < numVer && vertices[i] == currentUser && 0 <= k < |currentUser.followers|
      requires AddedUnknown(from)
      modifies this, vertices, edges
      ensures Valid() && Grown() && AddedUnknown(from) && i < numVer && vertices[i] == currentUser
      ensures Linked(currentUser.followers[k], currentUser.id)
      ensures forall f, u :: old(Linked(f, u)) ==> Linked(f, u)
      ensures forall r, c :: 0 <= r < maxVer && 0 <= c < maxVer && edges[r, c] != old(edges[r, c]) ==> CellOf(Users(), currentUser, r, c)
      ensures forall r, c :: 0 <= r < maxVer && 0 <= c < maxVer && CellOf(old(Users()), currentUser, r, c) ==> CellOf(Users(), currentUser, r, c)
    {
      IdIndexFirst(Users(), currentUser.id);
      assert Users()[i] == currentUser;
      assert Users()[i].followers[k] == currentUser.followers[k];
      LinkFollower(currentUser.followers[k], currentUser);
      GrownKeepsLinks();
      AddedAppend(old(Users()), currentUser.followers[k], old(numVer) < maxVer, from);
      forall r, c | 0 <= r < maxVer && 0 <= c < maxVer && edges[r, c] != old(edges[r, c])
        ensures CellOf(Users(), currentUser, r, c)
      {
        assert r == IdIndex(Users(), currentUser.followers[k]);
      }
      forall r, c | 0 <= r < maxVer && 0 <= c < maxVer && CellOf(old(Users()), currentUser, r, c)
        ensures CellOf(Users(), currentUser, r, c)
      {
        CellOfGrow(old(Users()), Users(), currentUser, r, c);
      }
      assert Users()[i] == old(Users())[i];
    }

    /** The inner loop: every follower id of the user at `i` linked, every
        link already in place kept, and no cell set but one linking a
        follower of that user to it. */
    method LinkFollowers(i: int, ghost from: int)
      requires Valid() && 0 <= i < numVer && AddedUnknown(from)
      modifies this, vertices, edges
      ensures Valid() && Grown() && AddedUnknown(from)
      ensures forall k :: 0 <= k < |old(vertices[i]).followers| ==> Linked(old(vertices[i]).followers[k], old(vertices[i]).id)
      ensures forall r, c :: 0 <= r < maxVer && 0 <= c < maxVer && edges[r, c] != old(edges[r, c]) ==> CellOf(Users(), old(vertices[i]), r, c)
    {
      var currentUser := vertices[i];
      for k := 0 to |currentUser.followers|
        invariant Valid() && Grown() && AddedUnknown(from)
        invariant i < numVer && vertices[i] == currentUser
        invariant forall k' :: 0 <= k' < k ==> Linked(currentUser.followers[k'], currentUser.id)
        invariant forall r, c :: 0 <= r < maxVer && 0 <= c < maxVer && edges[r, c] != old(edges[r, c]) ==> CellOf(Users(), currentUser, r, c)
      {
        LinkFollowerAt(currentUser, k, i, from);
      }
    }

    /** `addEdgesBetweenUsers`: afterwards every follower id of every user
        is linked to it; the users are those before followed by unknown
        users for follower ids no user had, and the only cells changed are
        set to 1 and link a follower to a user. */
    method AddEdgesBetweenUsers()
      requires Valid()
      modifies this, vertices, edges
      ensures Valid() && Grown() && AddedUnknown(old(numVer))
      ensures AllLinked(numVer)
      ensures forall r, c :: 0 <= r < maxVer && 0 <= c < maxVer && edges[r, c] != old(edges[r, c]) ==> FollowCell(Users(), numVer, r, c)
    {
      var i := 0;
      while i < numVer
        invariant Valid() && Grown() && AddedUnknown(old(numVer)) && 0 <= i <= numVer
        invariant AllLinked(i)
        invariant forall r, c :: 0 <= r < maxVer && 0 <= c < maxVer && edges[r, c] != old(edges[r, c]) ==> FollowCell(Users(), i, r, c)
        decreases maxVer - i
      {
        label L:
        LinkFollowers(i, old(numVer));
        GrownKeepsLinks@L();
        forall i', k | 0 <= i' <= i && 0 <= k < |vertices[i'].followers|
          ensures Linked(vertices[i'].followers[k], vertices[i'].id)
        {
          assert old@L(Users())[i'] == Users()[i'];
        }
        assert Users()[i] == old@L(vertices[i]);
        forall r, c | 0 <= r < maxVer && 0 <= c < maxVer && edges[r, c] != old(edges[r, c])
          ensures FollowCell(Users(), i + 1, r, c)
        {
          if edges[r, c] != old@L(edges[r, c]) {
            assert CellOf(Users(), Users()[i], r, c);
          } else {
            FollowCellGrow(old@L(Users()), Users(), i, i + 1, r, c);
          }
        }
        i := i + 1;
      }
    }

    /** The `while (getline(...))` loop: every completed record is added
        as a vertex, as far as there is room. */
    method ReadUsers(lines: seq<string>)
      requires Valid()
      modifies this, vertices
      ensures Valid() && Kept()
      ensures Users() == Capped(old(Users()) + Read(lines).users, maxVer)
    {
      var st := Start;
      for n := 0 to |lines|
        invariant Valid() && Kept()
        invariant Read(lines[..n]) == st
        invariant Users() == Capped(old(Users()) + st.users, maxVer)
      {
        var line := lines[n];
        assert lines[..n + 1][..n] == lines[..n];
        if line == [] {
          continue;
        }
        st := ScanLine(st, line);
        if Has(line, "</user>") {
          var newUser := User(st.id, st.name, st.posts, st.followers);
          CappedAppend(old(Users()) + st.users, newUser, maxVer);
          ConcatAssoc(old(Users()), st.users, [newUser]);
          AddVertex(newUser);
          st := st.(users := st.users + [newUser]);
        }
      }
      assert lines[..|lines|] == lines;
    }

    /** `parseXML` over the lines of the file: nothing happens when the
        file does not open; otherwise the records read are added as far
        as there is room, and then the follower edges. */
    method ParseXML(isOpen: bool, lines: seq<string>)
      requires Valid()
      modifies this, vertices, edges
      ensures Valid() && Grown()
      ensures !isOpen ==> Users() == old(Users()) && forall r, c :: 0 <= r < maxVer && 0 <= c < maxVer ==> edges[r, c] == old(edges[r, c])
      ensures isOpen ==> Capped(old(Users()) + Read(lines).users, maxVer) <= Users()
      ensures isOpen ==> AddedFrom(Users(), |Capped(old(Users()) + Read(lines).users, maxVer)|)
      ensures isOpen ==> AllLinked(numVer)
      ensures forall r, c :: 0 <= r < maxVer && 0 <= c < maxVer && edges[r, c] != old(edges[r, c]) ==> FollowCell(Users(), numVer, r, c)
    {
      if !isOpen {
        return;
      }
      ReadUsers(lines);
      AddEdgesBetweenUsers();
    }
  }
}
