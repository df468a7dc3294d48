/** Which trees share their hashed stream with another one: the stream does not mark where a path ends. */
module SourceTwins {
  import opened StableSort
  import opened SourceIdentity

  // ---- names and paths ----

  predicate Continues(s: Bytes, n: nat) {
    |s| > n && forall i | 1 <= i <= n :: 0x80 <= s[i] <= 0xBF
  }

  /** How many bytes the first character takes, as in section 4 of RFC 3629; 0 when there is none. */
  function Width(s: Bytes): (n: nat)
    ensures n <= |s|
  {
    if s == [] then 0
    else if s[0] < 0x80 then 1
    else if 0xC2 <= s[0] <= 0xDF && Continues(s, 1) then 2
    else if 0xE0 <= s[0] <= 0xEF && Continues(s, 2) && (s[0] == 0xE0 ==> s[1] >= 0xA0)
      && (s[0] == 0xED ==> s[1] <= 0x9F)
    then 3
    else if 0xF0 <= s[0] <= 0xF4 && Continues(s, 3) && (s[0] == 0xF0 ==> s[1] >= 0x90)
      && (s[0] == 0xF4 ==> s[1] <= 0x8F)
    then 4
    else 0
  }

  predicate IsText(s: Bytes) {
    s == [] || (Width(s) > 0 && IsText(s[Width(s)..]))
  }

  /** What a directory entry may be called. */
  predicate IsFileName(name: Bytes) {
    name != [] && name != [0x2E] && name != [0x2E, 0x2E] && 0 !in name && SLASH !in name && IsText(name)
  }

  ghost predicate WfNode(node: Node)
    decreases node
  {
    IsFileName(node.name) && (node.Dir? ==> WfTree(node.entries))
  }

  /** A directory tree as a file system holds it. */
  ghost predicate WfTree(entries: seq<Node>)
    decreases entries
  {
    DistinctNames(entries) && forall n | n in entries :: WfNode(n)
  }

  function Segments(path: Bytes): (r: seq<Bytes>)
    ensures r != []
  {
    if path == [] then [[]]
    else
      var rest := Segments(path[1..]);
      if path[0] == SLASH then [[]] + rest else [[path[0]] + rest[0]] + rest[1..]
  }

  function Join(segments: seq<Bytes>): Bytes {
    if segments == [] then []
    else if |segments| == 1 then segments[0]
    else segments[0] + [SLASH] + Join(segments[1..])
  }

  predicate AreNames(segments: seq<Bytes>) {
    forall s | s in segments :: IsFileName(s)
  }

  predicate AreRust(segments: seq<Bytes>) {
    segments != [] && AreNames(segments) && IsRust(segments[|segments| - 1])
  }

  /** A relative path that can name a Rust source. */
  predicate IsRustPath(path: Bytes) {
    AreRust(Segments(path))
  }

  lemma {:induction false} JoinOfSegments(path: Bytes)
    ensures Join(Segments(path)) == path
  {
    if path != [] {
      var rest, all := Segments(path[1..]), Segments(path);
      JoinOfSegments(path[1..]);
      assert path == [path[0]] + path[1..];
      assert all[1..] == if path[0] == SLASH then rest else rest[1..];
    }
  }

  lemma {:induction false} SegmentsOfName(name: Bytes)
    requires SLASH !in name
    ensures Segments(name) == [name]
  {
    if name != [] {
      SegmentsOfName(name[1..]);
      assert name == [name[0]] + name[1..];
    }
  }

  lemma {:induction false} SegmentsOfLonger(name: Bytes, rest: Bytes)
    requires SLASH !in name
    ensures Segments(name + [SLASH] + rest) == [name] + Segments(rest)
  {
    var path := name + [SLASH] + rest;
    if name == [] {
      assert path[1..] == rest;
    } else {
      SegmentsOfLonger(name[1..], rest);
      assert path[1..] == name[1..] + [SLASH] + rest;
      assert name == [name[0]] + name[1..];
    }
  }

  lemma {:induction false} SegmentsOfJoin(segments: seq<Bytes>)
    requires segments != [] && AreNames(segments)
    ensures Segments(Join(segments)) == segments
  {
    assert segments[0] in segments;
    if |segments| == 1 {
      SegmentsOfName(segments[0]);
    } else {
      SegmentsOfJoin(segments[1..]);
      SegmentsOfLonger(segments[0], Join(segments[1..]));
    }
  }

  /** Entering a directory appends its name to the path. */
  lemma {:induction false} PathOfJoin(dirs: seq<Bytes>, name: Bytes)
    requires AreNames(dirs)
    ensures PathOf(Join(dirs), name) == Join(dirs + [name])
  {
    var all := dirs + [name];
    if dirs != [] {
      assert dirs[0] in dirs;
      assert all[1..] == dirs[1..] + [name];
      PathOfJoin(dirs[1..], name);
      if |dirs| > 1 {
        assert dirs[1..][0] in dirs;
        JoinIsNotEmpty(dirs[1..]);
        assert dirs[0] + [SLASH] + (Join(dirs[1..]) + [SLASH] + name)
          == dirs[0] + [SLASH] + Join(dirs[1..]) + [SLASH] + name;
      }
    }
  }

  lemma JoinIsNotEmpty(dirs: seq<Bytes>)
    requires dirs != [] && AreNames(dirs)
    ensures Join(dirs) != []
  {
    assert dirs[0] in dirs;
  }

  // ---- the order of the walk ----

  predicate NameLess(a: Bytes, b: Bytes) {
    a != b && NameLe(a, b)
  }

  /** The second path is walked after the first, and neither passes through the other. */
  predicate Follows(first: seq<Bytes>, second: seq<Bytes>) {
    first != [] && second != []
      && (NameLess(first[0], second[0]) || (first[0] == second[0] && Follows(first[1..], second[1..])))
  }

  lemma {:induction false} FollowsBelow(dirs: seq<Bytes>, first: seq<Bytes>, second: seq<Bytes>)
    requires |dirs| < |first| && |dirs| < |second| && dirs == first[..|dirs|] == second[..|dirs|]
    requires NameLess(first[|dirs|], second[|dirs|])
    ensures Follows(first, second)
  {
    if dirs != [] {
      assert first[0] == dirs[0] == second[0];
      assert first[1..][..|dirs| - 1] == dirs[1..] == second[1..][..|dirs| - 1];
      FollowsBelow(dirs[1..], first[1..], second[1..]);
    }
  }

  /** A source below these directories. */
  predicate Below(dirs: seq<Bytes>, s: Source) {
    var path := Segments(s.path);
    AreRust(path) && |dirs| <= |path| && path[..|dirs|] == dirs
  }

  ghost predicate InOrder(sources: seq<Source>) {
    forall i, j | 0 <= i < j < |sources| :: Follows(Segments(sources[i].path), Segments(sources[j].path))
  }

  ghost predicate AllBelow(dirs: seq<Bytes>, sources: seq<Source>) {
    forall s | s in sources :: Below(dirs, s)
  }

  /** Below these directories, in an entry named no earlier than `name`. */
  predicate From(dirs: seq<Bytes>, name: Bytes, s: Source) {
    Below(dirs, s) && |dirs| < |Segments(s.path)| && NameLe(name, Segments(s.path)[|dirs|])
  }

  lemma BelowEntry(dirs: seq<Bytes>, name: Bytes, s: Source)
    requires Below(dirs + [name], s)
    ensures From(dirs, name, s) && Segments(s.path)[|dirs|] == name
  {
    var path := Segments(s.path);
    assert path[|dirs|] == (dirs + [name])[|dirs|];
    assert path[..|dirs|] == (dirs + [name])[..|dirs|] == dirs;
    NamesAreComparable(name, name);
  }

  lemma {:induction false} NodeInOrder(node: Node, dirs: seq<Bytes>)
    requires WfNode(node) && AreNames(dirs)
    ensures AllBelow(dirs + [node.name], NodeSources(node, Join(dirs))) && InOrder(NodeSources(node, Join(dirs)))
    decreases node, 1
  {
    var all := dirs + [node.name];
    PathOfJoin(dirs, node.name);
    match node
    case File(name, content) =>
      SegmentsOfJoin(all);
    case Dir(name, entries) =>
      TreeInOrder(entries, all);
  }

  /** The sources of a tree are Rust paths below it, in the order of the walk. */
  lemma {:induction false} TreeInOrder(entries: seq<Node>, dirs: seq<Bytes>)
    requires WfTree(entries) && AreNames(dirs)
    ensures AllBelow(dirs, TreeSources(entries, Join(dirs))) && InOrder(TreeSources(entries, Join(dirs)))
    decreases entries, 0
  {
    NodeOrderIsTotal();
    SortKeepsMembers(entries, NodeLe);
    SortIsSorted(entries, NodeLe);
    PermutedNamesStayDistinct(entries);
    SortedInOrder(entries, Sort(entries, NodeLe), dirs);
  }

  lemma {:induction false} SortedInOrder(entries: seq<Node>, sorted: seq<Node>, dirs: seq<Bytes>)
    requires (forall n | n in sorted :: n in entries && WfNode(n)) && AreNames(dirs)
    requires SortedBy(sorted, NodeLe) && DistinctNames(sorted)
    ensures var r := SourcesOf(entries, sorted, Join(dirs));
      InOrder(r) && forall s | s in r :: From(dirs, sorted[0].name, s)
    decreases entries, 0, |sorted|
  {
    if sorted != [] {
      var node, rest := sorted[0], sorted[1..];
      assert node in sorted && forall n | n in rest :: n in sorted;
      NodeInOrder(node, dirs);
      SortedInOrder(entries, rest, dirs);
      OneMoreNode(dirs, node, rest, NodeSources(node, Join(dirs)), SourcesOf(entries, rest, Join(dirs)));
    }
  }

  lemma OneMoreNode(dirs: seq<Bytes>, node: Node, rest: seq<Node>, own: seq<Source>, others: seq<Source>)
    requires SortedBy([node] + rest, NodeLe) && DistinctNames([node] + rest)
    requires AllBelow(dirs + [node.name], own) && InOrder(own) && InOrder(others)
    requires rest == [] ==> others == []
    requires forall s | s in others :: From(dirs, rest[0].name, s)
    ensures InOrder(own + others) && forall s | s in own + others :: From(dirs, node.name, s)
  {
    var all := [node] + rest;
    forall s | s in own ensures From(dirs, node.name, s) && Segments(s.path)[|dirs|] == node.name {
      BelowEntry(dirs, node.name, s);
    }
    forall s | s in others ensures From(dirs, node.name, s) && NameLess(node.name, Segments(s.path)[|dirs|]) {
      assert NodeLe(all[0], all[1]) && all[0].name != all[1].name;
      LaterName(node.name, rest[0].name, Segments(s.path)[|dirs|]);
    }
    forall s, t | s in own && t in others ensures Follows(Segments(s.path), Segments(t.path)) {
      FollowsBelow(dirs, Segments(s.path), Segments(t.path));
    }
    Appended(own, others);
  }

  lemma Appended(a: seq<Source>, b: seq<Source>)
    requires InOrder(a) && InOrder(b) && forall s, t | s in a && t in b :: Follows(Segments(s.path), Segments(t.path))
    ensures InOrder(a + b)
  {
    var all := a + b;
    forall i, j | 0 <= i < j < |all| ensures Follows(Segments(all[i].path), Segments(all[j].path)) {
      if i < |a| <= j {
        assert all[i] in a && all[j] in b;
      } else if j < |a| {
        assert all[i] == a[i] && all[j] == a[j];
      } else {
        assert all[i] == b[i - |a|] && all[j] == b[j - |a|];
      }
    }
  }

  lemma LaterName(a: Bytes, b: Bytes, c: Bytes)
    requires NameLess(a, b) && NameLe(b, c)
    ensures NameLess(a, c)
  {
    NameOrderIsTransitive(a, b, c);
    if a == c {
      NameOrderIsAntisymmetric(a, b);
    }
  }

  // ---- trees of one source and of two ----

  /** The tree that holds one file. */
  function OneFile(path: seq<Bytes>, content: Bytes): (r: seq<Node>)
    requires path != []
    ensures |r| == 1 && r[0].name == path[0]
  {
    if |path| == 1 then [File(path[0], content)] else [Dir(path[0], OneFile(path[1..], content))]
  }

  /** The tree that holds two. */
  function TwoFiles(first: seq<Bytes>, c: Bytes, second: seq<Bytes>, d: Bytes): seq<Node>
    requires Follows(first, second)
  {
    if first[0] == second[0] then [Dir(first[0], TwoFiles(first[1..], c, second[1..], d))]
    else OneFile(first, c) + OneFile(second, d)
  }

  lemma SingleNode(node: Node, parent: Bytes)
    ensures TreeSources([node], parent) == NodeSources(node, parent)
  {
    SortOfSorted([node], NodeLe);
    assert [node][1..] == [];
    assert SourcesOf([node], [], parent) == [];
    assert SourcesOf([node], [node], parent) == NodeSources(node, parent) + [];
  }

  lemma TwoNodes(x: Node, y: Node, parent: Bytes)
    requires NodeLe(x, y)
    ensures TreeSources([x, y], parent) == NodeSources(x, parent) + NodeSources(y, parent)
  {
    var s := [x, y];
    SortOfSorted(s, NodeLe);
    assert s[1..] == [y] && [y][1..] == [];
    assert SourcesOf(s, [], parent) == [];
    assert SourcesOf(s, [y], parent) == NodeSources(y, parent);
    assert SourcesOf(s, s, parent) == NodeSources(x, parent) + SourcesOf(s, [y], parent);
  }

  lemma {:induction false} OneFileSources(dirs: seq<Bytes>, path: seq<Bytes>, content: Bytes)
    requires AreNames(dirs) && AreRust(path)
    ensures WfTree(OneFile(path, content))
    ensures TreeSources(OneFile(path, content), Join(dirs)) == [Source(Join(dirs + path), content)]
    decreases |path|
  {
    assert path[0] in path;
    PathOfJoin(dirs, path[0]);
    SingleNode(OneFile(path, content)[0], Join(dirs));
    assert OneFile(path, content) == [OneFile(path, content)[0]];
    if |path| == 1 {
      assert path == [path[0]];
    } else {
      OneFileSources(dirs + [path[0]], path[1..], content);
      assert dirs + [path[0]] + path[1..] == dirs + path;
    }
  }

  lemma ApartSources(dirs: seq<Bytes>, first: seq<Bytes>, c: Bytes, second: seq<Bytes>, d: Bytes)
    requires AreNames(dirs) && AreRust(first) && AreRust(second) && NameLess(first[0], second[0])
    ensures var u := OneFile(first, c) + OneFile(second, d);
      WfTree(u) && TreeSources(u, Join(dirs)) == [Source(Join(dirs + first), c), Source(Join(dirs + second), d)]
  {
    var a, b := OneFile(first, c), OneFile(second, d);
    OneFileSources(dirs, first, c);
    OneFileSources(dirs, second, d);
    SingleNode(a[0], Join(dirs));
    SingleNode(b[0], Join(dirs));
    assert a == [a[0]] && b == [b[0]] && a + b == [a[0], b[0]];
    TwoNodes(a[0], b[0], Join(dirs));
  }

  lemma {:induction false} TwoFilesSources(dirs: seq<Bytes>, first: seq<Bytes>, c: Bytes, second: seq<Bytes>, d: Bytes)
    requires AreNames(dirs) && AreRust(first) && AreRust(second) && Follows(first, second)
    ensures WfTree(TwoFiles(first, c, second, d))
    ensures TreeSources(TwoFiles(first, c, second, d), Join(dirs))
      == [Source(Join(dirs + first), c), Source(Join(dirs + second), d)]
    decreases |first|
  {
    assert first[0] in first;
    if first[0] == second[0] {
      var inner, deeper := TwoFiles(first[1..], c, second[1..], d), dirs + [first[0]];
      TwoFilesSources(deeper, first[1..], c, second[1..], d);
      assert deeper + first[1..] == dirs + first && deeper + second[1..] == dirs + second;
      PathOfJoin(dirs, first[0]);
      SingleNode(Dir(first[0], inner), Join(dirs));
    } else {
      ApartSources(dirs, first, c, second, d);
    }
  }

  // ---- twins ----

  /** Another tree with the same stream, whose sources are not the same. */
  ghost predicate IsTwin(t: seq<Node>, u: seq<Node>) {
    WfTree(u) && TreeSources(u, []) != TreeSources(t, []) && TreeStream(u, []) == TreeStream(t, [])
  }

  ghost predicate HasTwin(t: seq<Node>) {
    exists u :: IsTwin(t, u)
  }

  /** The path of the only source could end earlier, */
  ghost predicate CanShrink(s: Source) {
    exists k :: 0 < k < |s.path| && IsRustPath(s.path[..k])
  }

  /** or later, inside the content, */
  ghost predicate CanGrow(s: Source) {
    exists k :: 0 < k <= |s.content| && IsRustPath(s.path + s.content[..k])
  }

  /** or the content could hold the path of a source walked after it. */
  ghost predicate CanSplit(s: Source) {
    exists i, j ::
      0 <= i < j <= |s.content| && IsRustPath(s.content[i..j]) && Follows(Segments(s.path), Segments(s.content[i..j]))
  }

  lemma TreesInOrder(t: seq<Node>)
    requires WfTree(t)
    ensures InOrder(TreeSources(t, [])) && forall s | s in TreeSources(t, []) :: IsRustPath(s.path)
  {
    assert Join([]) == [];
    TreeInOrder(t, []);
    forall s | s in TreeSources(t, []) ensures IsRustPath(s.path) {
      assert Below([], s);
    }
  }

  lemma OneFileTree(path: Bytes, content: Bytes)
    requires IsRustPath(path)
    ensures var u := OneFile(Segments(path), content);
      WfTree(u) && TreeSources(u, []) == [Source(path, content)] && TreeStream(u, []) == path + content
  {
    var u := OneFile(Segments(path), content);
    assert Join([]) == [] && [] + Segments(path) == Segments(path);
    JoinOfSegments(path);
    OneFileSources([], Segments(path), content);
    TreeStreamIsSources(u, []);
    OneStreamed(Source(path, content));
  }

  lemma TwoFileTree(first: Bytes, c: Bytes, second: Bytes, d: Bytes)
    requires IsRustPath(first) && IsRustPath(second) && Follows(Segments(first), Segments(second))
    ensures var u := TwoFiles(Segments(first), c, Segments(second), d);
      && WfTree(u) && TreeSources(u, []) == [Source(first, c), Source(second, d)]
      && TreeStream(u, []) == first + c + (second + d)
  {
    var u := TwoFiles(Segments(first), c, Segments(second), d);
    assert Join([]) == [] && [] + Segments(first) == Segments(first) && [] + Segments(second) == Segments(second);
    JoinOfSegments(first);
    JoinOfSegments(second);
    TwoFilesSources([], Segments(first), c, Segments(second), d);
    TreeStreamIsSources(u, []);
    OneStreamed(Source(second, d));
    var both := [Source(first, c), Source(second, d)];
    assert both[1..] == [Source(second, d)];
  }

  // ---- exactly which trees have a twin ----

  /** The rest of the stream can always be the content of its first source. */
  lemma ManySourcesHaveATwin(t: seq<Node>)
    requires WfTree(t) && |TreeSources(t, [])| >= 2
    ensures HasTwin(t)
  {
    var all := TreeSources(t, []);
    TreesInOrder(t);
    assert all[0] in all;
    TreeStreamIsSources(t, []);
    var rest := all[0].content + Streamed(all[1..]);
    OneFileTree(all[0].path, rest);
    assert all[0].path + rest == all[0].path + all[0].content + Streamed(all[1..]);
    assert IsTwin(t, OneFile(Segments(all[0].path), rest));
  }

  lemma CutElsewhere(t: seq<Node>, s: Source, path: Bytes, content: Bytes)
    requires WfTree(t) && TreeSources(t, []) == [s]
    requires IsRustPath(path) && path != s.path && path + content == s.path + s.content
    ensures HasTwin(t)
  {
    TreeStreamIsSources(t, []);
    OneStreamed(s);
    OneFileTree(path, content);
    assert [Source(path, content)][0] != [s][0];
    assert IsTwin(t, OneFile(Segments(path), content));
  }

  lemma CutInTwo(t: seq<Node>, s: Source, c: Bytes, second: Bytes, d: Bytes)
    requires WfTree(t) && TreeSources(t, []) == [s] && IsRustPath(s.path)
    requires IsRustPath(second) && Follows(Segments(s.path), Segments(second)) && c + (second + d) == s.content
    ensures HasTwin(t)
  {
    TreeStreamIsSources(t, []);
    OneStreamed(s);
    TwoFileTree(s.path, c, second, d);
    assert s.path + c + (second + d) == s.path + (c + (second + d));
    assert |[Source(s.path, c), Source(second, d)]| != |[s]|;
    assert IsTwin(t, TwoFiles(Segments(s.path), c, Segments(second), d));
  }

  lemma ShrinkingHasATwin(t: seq<Node>, s: Source, k: nat)
    requires WfTree(t) && TreeSources(t, []) == [s] && 0 < k < |s.path| && IsRustPath(s.path[..k])
    ensures HasTwin(t)
  {
    assert s.path[..k] + (s.path[k..] + s.content) == s.path + s.content;
    CutElsewhere(t, s, s.path[..k], s.path[k..] + s.content);
  }

  lemma GrowingHasATwin(t: seq<Node>, s: Source, k: nat)
    requires WfTree(t) && TreeSources(t, []) == [s] && 0 < k <= |s.content| && IsRustPath(s.path + s.content[..k])
    ensures HasTwin(t)
  {
    var path := s.path + s.content[..k];
    assert path + s.content[k..] == s.path + s.content && |path| > |s.path|;
    CutElsewhere(t, s, path, s.content[k..]);
  }

  lemma SplittingHasATwin(t: seq<Node>, s: Source, i: nat, j: nat)
    requires WfTree(t) && TreeSources(t, []) == [s] && i < j <= |s.content| && IsRustPath(s.content[i..j])
    requires Follows(Segments(s.path), Segments(s.content[i..j]))
    ensures HasTwin(t)
  {
    TreesInOrder(t);
    assert s in TreeSources(t, []);
    assert s.content[..i] + (s.content[i..j] + s.content[j..]) == s.content;
    CutInTwo(t, s, s.content[..i], s.content[i..j], s.content[j..]);
  }

  lemma RecutHasATwin(t: seq<Node>, s: Source)
    requires WfTree(t) && TreeSources(t, []) == [s] && (CanShrink(s) || CanGrow(s) || CanSplit(s))
    ensures HasTwin(t)
  {
    if CanShrink(s) {
      var k :| 0 < k < |s.path| && IsRustPath(s.path[..k]);
      ShrinkingHasATwin(t, s, k);
    } else if CanGrow(s) {
      var k :| 0 < k <= |s.content| && IsRustPath(s.path + s.content[..k]);
      GrowingHasATwin(t, s, k);
    } else {
      var i, j :| 0 <= i < j <= |s.content| && IsRustPath(s.content[i..j])
        && Follows(Segments(s.path), Segments(s.content[i..j]));
      SplittingHasATwin(t, s, i, j);
    }
  }

  lemma EmptyIsNoPath()
    ensures !IsRustPath([])
  {
    assert Segments([]) == [[]];
  }

  lemma StreamIsNotEmpty(t: seq<Node>)
    requires WfTree(t) && TreeSources(t, []) != []
    ensures TreeStream(t, []) != []
  {
    var all := TreeSources(t, []);
    TreesInOrder(t);
    TreeStreamIsSources(t, []);
    assert all[0] in all;
    EmptyIsNoPath();
  }

  /** Where the twin cuts the stream first tells which of the three it is. */
  lemma TwinRecuts(t: seq<Node>, s: Source, u: seq<Node>)
    requires WfTree(t) && TreeSources(t, []) == [s] && IsTwin(t, u)
    ensures CanShrink(s) || CanGrow(s) || CanSplit(s)
  {
    var all := TreeSources(u, []);
    TreesInOrder(u);
    StreamIsNotEmpty(t);
    TreeStreamIsSources(t, []);
    TreeStreamIsSources(u, []);
    OneStreamed(s);
    assert all != [];
    var path, rest := all[0].path, all[0].content + Streamed(all[1..]);
    assert all[0] in all;
    assert Streamed(all) == path + rest && path + rest == s.path + s.content;
    FirstCut(s, path, rest);
    if path == s.path && rest == s.content {
      if |all| == 1 {
        OneSourceLeft(s, all);
      } else {
        SamePathSplits(s, all);
      }
    }
  }

  lemma FirstCut(s: Source, path: Bytes, rest: Bytes)
    requires path + rest == s.path + s.content && IsRustPath(path)
    ensures CanShrink(s) || CanGrow(s) || (path == s.path && rest == s.content)
  {
    var stream := s.path + s.content;
    assert path == stream[..|path|] && rest == stream[|path|..];
    if |path| < |s.path| {
      assert path == s.path[..|path|];
      EmptyIsNoPath();
    } else if |path| > |s.path| {
      assert path == s.path + s.content[..|path| - |s.path|];
    } else {
      assert path == s.path && rest == s.content;
    }
  }

  lemma OneSourceLeft(s: Source, all: seq<Source>)
    requires |all| == 1 && all[0].path == s.path && all[0].content + Streamed(all[1..]) == s.content
    ensures all == [s]
  {
    assert all[1..] == [] && all[0].content + [] == all[0].content;
  }

  lemma SamePathSplits(s: Source, all: seq<Source>)
    requires InOrder(all) && (forall x | x in all :: IsRustPath(x.path)) && |all| >= 2
    requires all[0].path == s.path && all[0].content + Streamed(all[1..]) == s.content
    ensures CanSplit(s)
  {
    var second := all[1];
    assert second in all && all[1..][0] == second;
    var i := |all[0].content|;
    var j := i + |second.path|;
    assert s.content == all[0].content + (second.path + second.content + Streamed(all[1..][1..]));
    assert s.content[i..j] == second.path;
    EmptyIsNoPath();
  }

  /** A tree shares its stream with another one exactly when it has two sources or more, or its
      only source could be cut in another place. */
  lemma HasTwinExactly(t: seq<Node>)
    requires WfTree(t)
    ensures var all := TreeSources(t, []);
      HasTwin(t) <==> |all| >= 2 || (|all| == 1 && (CanShrink(all[0]) || CanGrow(all[0]) || CanSplit(all[0])))
  {
    var all := TreeSources(t, []);
    if |all| >= 2 {
      ManySourcesHaveATwin(t);
    } else if |all| == 1 {
      assert all == [all[0]];
      if CanShrink(all[0]) || CanGrow(all[0]) || CanSplit(all[0]) {
        RecutHasATwin(t, all[0]);
      }
      if HasTwin(t) {
        var u :| IsTwin(t, u);
        TwinRecuts(t, all[0], u);
      }
    } else if HasTwin(t) {
      var u :| IsTwin(t, u);
      TreeStreamIsSources(t, []);
      StreamIsNotEmpty(u);
    }
  }
}
