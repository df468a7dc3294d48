/** The staleness check of a bridge archive: a worklist over the local path dependencies of its
    crate, which may be cyclic. */
module BridgeSources {
  import opened Wrappers

  // ---- the world the check reads ----

  /** A directory entry. Links count as leaves, with the time of what they lead to; an entry whose
      kind cannot be read is skipped. */
  datatype Entry =
    | Leaf(name: string, modified: Option<nat>)
    | Dir(name: string, entries: seq<Entry>)
    | Unreadable(name: string)

  datatype Dependency = Dependency(name: string, fromWorkspace: bool, path: Option<string>)

  /** The dependency tables of a manifest, or of one of its targets; a missing table is empty. */
  datatype Tables = Tables(normal: seq<Dependency>, build: seq<Dependency>, dev: seq<Dependency>)

  datatype Manifest = Manifest(own: Tables, targets: seq<Tables>)

  /** `canonical` resolves the paths that exist; `contents` and `manifests` belong to canonical directories. */
  datatype World = World(
    workspace: string,
    configs: seq<Option<nat>>,
    inherited: map<string, Dependency>,
    canonical: map<string, string>,
    contents: map<string, seq<Entry>>,
    manifests: map<string, Manifest>)

  function Join(base: string, path: string): string {
    if path != "" && path[0] == '/' then path else base + "/" + path
  }

  predicate Newer(modified: Option<nat>, builtAt: nat) {
    modified.Some? && modified.value > builtAt
  }

  // ---- files of a directory ----

  datatype FileAt = FileAt(dirs: seq<string>, modified: Option<nat>)

  /** Every file below a directory, with the names of the directories on the way to it. */
  function FilesUnder(entries: seq<Entry>, dirs: seq<string>): seq<FileAt>
    decreases entries
  {
    if entries == [] then []
    else
      (match entries[0]
       case Leaf(_, modified) => [FileAt(dirs, modified)]
       case Dir(name, inner) => FilesUnder(inner, dirs + [name])
       case Unreadable(_) => [])
      + FilesUnder(entries[1..], dirs)
  }

  predicate Counts(f: FileAt, builtAt: nat) {
    "target" !in f.dirs && Newer(f.modified, builtAt)
  }

  predicate AnyCounts(files: seq<FileAt>, builtAt: nat) {
    exists i :: 0 <= i < |files| && Counts(files[i], builtAt)
  }

  lemma AnyCountsConcat(a: seq<FileAt>, b: seq<FileAt>, builtAt: nat)
    ensures AnyCounts(a + b, builtAt) <==> AnyCounts(a, builtAt) || AnyCounts(b, builtAt)
  {
    var c := a + b;
    if i :| 0 <= i < |a| && Counts(a[i], builtAt) {
      assert Counts(c[i], builtAt);
    }
    if i :| 0 <= i < |b| && Counts(b[i], builtAt) {
      assert Counts(c[|a| + i], builtAt);
    }
    if i :| 0 <= i < |c| && Counts(c[i], builtAt) {
      if i < |a| {
        assert Counts(a[i], builtAt);
      } else {
        assert Counts(b[i - |a|], builtAt);
      }
    }
  }

  /** Nothing below a directory named `target` counts. */
  lemma {:induction false} TargetHidesAll(entries: seq<Entry>, dirs: seq<string>, builtAt: nat)
    requires "target" in dirs
    ensures !AnyCounts(FilesUnder(entries, dirs), builtAt)
    decreases entries
  {
    if entries != [] {
      TargetHidesAll(entries[1..], dirs, builtAt);
      match entries[0]
      case Dir(name, inner) =>
        assert "target" in dirs + [name];
        TargetHidesAll(inner, dirs + [name], builtAt);
        AnyCountsConcat(FilesUnder(inner, dirs + [name]), FilesUnder(entries[1..], dirs), builtAt);
      case Leaf(_, modified) => AnyCountsConcat([FileAt(dirs, modified)], FilesUnder(entries[1..], dirs), builtAt);
      case Unreadable(_) => assert [] + FilesUnder(entries[1..], dirs) == FilesUnder(entries[1..], dirs);
    }
  }

  /** Walks a directory, skipping build output, and stops at the first newer file. */
  method AnyFileNewer(entries: seq<Entry>, builtAt: nat, ghost dirs: seq<string>) returns (newer: bool)
    requires "target" !in dirs
    ensures newer <==> AnyCounts(FilesUnder(entries, dirs), builtAt)
    decreases entries
  {
    var i := 0;
    while i < |entries|
      invariant 0 <= i <= |entries|
      invariant AnyCounts(FilesUnder(entries, dirs), builtAt) <==> AnyCounts(FilesUnder(entries[i..], dirs), builtAt)
    {
      var rest := entries[i..];
      assert rest[1..] == entries[i + 1..];
      match rest[0] {
        case Leaf(_, modified) =>
          AnyCountsConcat([FileAt(dirs, modified)], FilesUnder(rest[1..], dirs), builtAt);
          if Newer(modified, builtAt) {
            assert Counts([FileAt(dirs, modified)][0], builtAt);
            return true;
          }
        case Dir(name, inner) =>
          AnyCountsConcat(FilesUnder(inner, dirs + [name]), FilesUnder(rest[1..], dirs), builtAt);
          if name == "target" {
            TargetHidesAll(inner, dirs + [name], builtAt);
          } else {
            assert entries[i] == Dir(name, inner);
            var found := AnyFileNewer(inner, builtAt, dirs + [name]);
            if found {
              return true;
            }
          }
        case Unreadable(_) =>
          assert [] + FilesUnder(rest[1..], dirs) == FilesUnder(rest[1..], dirs);
      }
      i := i + 1;
    }
    return false;
  }

  // ---- dependencies ----

  /** The directory a dependency is built from, when it is a path dependency. */
  function DependencyPath(w: World, directory: string, d: Dependency): Option<string> {
    if d.fromWorkspace then
      if d.name in w.inherited then
        match w.inherited[d.name].path case Some(p) => Some(Join(w.workspace, p)) case None => None
      else None
    else match d.path case Some(p) => Some(Join(directory, p)) case None => None
  }

  function TablePaths(w: World, directory: string, table: seq<Dependency>): seq<string> {
    if table == [] then []
    else
      (match DependencyPath(w, directory, table[0]) case Some(p) => [p] case None => [])
        + TablePaths(w, directory, table[1..])
  }

  lemma {:induction false} TablePathsConcat(w: World, directory: string, a: seq<Dependency>, b: seq<Dependency>)
    ensures TablePaths(w, directory, a + b) == TablePaths(w, directory, a) + TablePaths(w, directory, b)
  {
    if a == [] {
      assert a + b == b;
    } else {
      assert (a + b)[1..] == a[1..] + b;
      TablePathsConcat(w, directory, a[1..], b);
    }
  }

  /** A dependency the archive is built from: normal or build, of the crate itself or of one of its targets. */
  predicate BuiltFrom(m: Manifest, d: Dependency) {
    || d in m.own.normal || d in m.own.build
    || exists i :: 0 <= i < |m.targets| && (d in m.targets[i].normal || d in m.targets[i].build)
  }

  function TablesPaths(w: World, directory: string, t: Tables): seq<string> {
    TablePaths(w, directory, t.normal) + TablePaths(w, directory, t.build)
  }

  method AddTable(w: World, directory: string, table: seq<Dependency>, pending: seq<string>) returns (more: seq<string>)
    ensures more == pending + TablePaths(w, directory, table)
  {
    more := pending;
    var i := 0;
    while i < |table|
      invariant 0 <= i <= |table|
      invariant more == pending + TablePaths(w, directory, table[..i])
    {
      assert table[..i + 1] == table[..i] + [table[i]] && [table[i]][1..] == [];
      TablePathsConcat(w, directory, table[..i], [table[i]]);
      var path := DependencyPath(w, directory, table[i]);
      if path.Some? {
        more := more + [path.value];
      }
      i := i + 1;
    }
    assert table[..i] == table;
  }

  method AddDependencies(w: World, directory: string, t: Tables, pending: seq<string>) returns (more: seq<string>)
    ensures more == pending + TablesPaths(w, directory, t)
  {
    more := AddTable(w, directory, t.normal, pending);
    more := AddTable(w, directory, t.build, more);
  }

  function TargetsPaths(w: World, directory: string, targets: seq<Tables>): seq<string> {
    if targets == [] then [] else TablesPaths(w, directory, targets[0]) + TargetsPaths(w, directory, targets[1..])
  }

  lemma {:induction false} TargetsPathsStep(w: World, directory: string, targets: seq<Tables>, i: nat)
    requires i < |targets|
    ensures TargetsPaths(w, directory, targets[..i + 1])
      == TargetsPaths(w, directory, targets[..i]) + TablesPaths(w, directory, targets[i])
  {
    if i == 0 {
      assert targets[..1][1..] == [] && targets[..0] == [];
    } else {
      assert targets[..i + 1][1..] == targets[1..][..i] && targets[..i][1..] == targets[1..][..i - 1];
      TargetsPathsStep(w, directory, targets[1..], i - 1);
    }
  }

  function ManifestPaths(w: World, directory: string): seq<string> {
    if directory !in w.manifests then []
    else
      var m := w.manifests[directory];
      TablesPaths(w, directory, m.own) + TargetsPaths(w, directory, m.targets)
  }

  lemma {:induction false} InTablePaths(w: World, directory: string, table: seq<Dependency>, p: string)
    ensures p in TablePaths(w, directory, table)
      <==> exists d :: d in table && DependencyPath(w, directory, d) == Some(p)
  {
    if table != [] {
      InTablePaths(w, directory, table[1..], p);
      if d :| d in table && DependencyPath(w, directory, d) == Some(p) {
        if d != table[0] {
          assert d in table[1..];
        }
      }
    }
  }

  lemma {:induction false} InTargetsPaths(w: World, directory: string, targets: seq<Tables>, p: string)
    ensures p in TargetsPaths(w, directory, targets)
      <==> exists i :: 0 <= i < |targets| && p in TablesPaths(w, directory, targets[i])
  {
    if targets != [] {
      InTargetsPaths(w, directory, targets[1..], p);
      if p in TargetsPaths(w, directory, targets[1..]) {
        var i :| 0 <= i < |targets[1..]| && p in TablesPaths(w, directory, targets[1..][i]);
        assert p in TablesPaths(w, directory, targets[i + 1]);
      }
      if i :| 0 <= i < |targets| && p in TablesPaths(w, directory, targets[i]) {
        if i > 0 {
          assert p in TablesPaths(w, directory, targets[1..][i - 1]);
        }
      }
    }
  }

  // ---- reachability ----

  /** One canonical directory depends on another. */
  predicate DependsOn(w: World, a: string, b: string) {
    exists p :: p in ManifestPaths(w, a) && p in w.canonical && w.canonical[p] == b
  }

  ghost predicate IsChain(w: World, chain: seq<string>) {
    chain != [] && forall i | 0 <= i < |chain| - 1 :: DependsOn(w, chain[i], chain[i + 1])
  }

  function CratePath(w: World, crate: string): string {
    Join(Join(w.workspace, "crates"), crate)
  }

  ghost predicate Reachable(w: World, crate: string, d: string) {
    exists chain :: ReachedBy(w, crate, chain, d)
  }

  ghost predicate ReachedBy(w: World, crate: string, chain: seq<string>, d: string) {
    && IsChain(w, chain) && chain[|chain| - 1] == d
    && CratePath(w, crate) in w.canonical && chain[0] == w.canonical[CratePath(w, crate)]
  }

  lemma ReachStep(w: World, crate: string, a: string, b: string)
    requires Reachable(w, crate, a) && DependsOn(w, a, b)
    ensures Reachable(w, crate, b)
  {
    var chain :| ReachedBy(w, crate, chain, a);
    assert ReachedBy(w, crate, chain + [b], b);
  }

  /** A set of directories that holds the start and is closed under dependencies holds all that is reachable. */
  lemma {:induction false} ClosedCovers(w: World, crate: string, visited: set<string>, chain: seq<string>, d: string)
    requires ReachedBy(w, crate, chain, d) && w.canonical[CratePath(w, crate)] in visited
    requires forall a, b | a in visited && DependsOn(w, a, b) :: b in visited
    ensures d in visited
    decreases |chain|
  {
    if |chain| > 1 {
      var shorter := chain[..|chain| - 1];
      var last := chain[|chain| - 2];
      assert DependsOn(w, last, chain[|chain| - 1]);
      assert ReachedBy(w, crate, shorter, last);
      ClosedCovers(w, crate, visited, shorter, last);
    }
  }

  function Contents(w: World, d: string): seq<Entry> {
    if d in w.contents then w.contents[d] else []
  }

  predicate DirectoryIsNewer(w: World, d: string, builtAt: nat) {
    AnyCounts(FilesUnder(Contents(w, d), []), builtAt)
  }

  predicate ConfigIsNewer(w: World, builtAt: nat) {
    exists i :: 0 <= i < |w.configs| && Newer(w.configs[i], builtAt)
  }

  /** The archive is stale: a workspace configuration file or a source it is built from is newer. */
  ghost predicate Stale(w: World, crate: string, builtAt: nat) {
    ConfigIsNewer(w, builtAt) || exists d :: Reachable(w, crate, d) && DirectoryIsNewer(w, d, builtAt)
  }

  // ---- the worklist ----

  /** What is known between two rounds. */
  ghost predicate Progress(w: World, crate: string, builtAt: nat, pending: seq<string>, visited: set<string>) {
    && (forall p | p in pending && p in w.canonical :: Reachable(w, crate, w.canonical[p]))
    && (forall d | d in visited :: Reachable(w, crate, d) && !DirectoryIsNewer(w, d, builtAt))
    && (forall a, b | a in visited && DependsOn(w, a, b) :: b in visited || Awaits(w, pending, b))
    && (CratePath(w, crate) in w.canonical ==>
          w.canonical[CratePath(w, crate)] in visited || Awaits(w, pending, w.canonical[CratePath(w, crate)]))
    && visited <= w.canonical.Values
  }

  predicate Awaits(w: World, pending: seq<string>, d: string) {
    exists p :: p in pending && p in w.canonical && w.canonical[p] == d
  }

  lemma StartProgress(w: World, crate: string, builtAt: nat)
    ensures Progress(w, crate, builtAt, [CratePath(w, crate)], {})
  {
    var start := CratePath(w, crate);
    if start in w.canonical {
      assert ReachedBy(w, crate, [w.canonical[start]], w.canonical[start]);
    }
  }

  /** A popped path that does not exist, or was visited, can be dropped. */
  lemma DropProgress(w: World, crate: string, builtAt: nat, pending: seq<string>, visited: set<string>)
    requires Progress(w, crate, builtAt, pending, visited) && pending != []
    requires pending[|pending| - 1] in w.canonical ==> w.canonical[pending[|pending| - 1]] in visited
    ensures Progress(w, crate, builtAt, pending[..|pending| - 1], visited)
  {
    var rest := pending[..|pending| - 1];
    forall d | Awaits(w, pending, d) && d !in visited
      ensures Awaits(w, rest, d)
    {
      var p :| p in pending && p in w.canonical && w.canonical[p] == d;
      assert p in rest;
    }
  }

  /** Visiting a directory adds it, and its dependencies to what is pending. */
  lemma VisitProgress(w: World, crate: string, builtAt: nat, pending: seq<string>, visited: set<string>, d: string)
    requires Progress(w, crate, builtAt, pending, visited) && pending != []
    requires pending[|pending| - 1] in w.canonical && d == w.canonical[pending[|pending| - 1]]
      && !DirectoryIsNewer(w, d, builtAt)
    ensures Progress(w, crate, builtAt, pending[..|pending| - 1] + ManifestPaths(w, d), visited + {d})
  {
    var more := pending[..|pending| - 1] + ManifestPaths(w, d);
    assert Reachable(w, crate, d);
    forall x | Awaits(w, pending, x) && x != d
      ensures Awaits(w, more, x)
    {
      var p :| p in pending && p in w.canonical && w.canonical[p] == x;
      assert p in more;
    }
    forall b | DependsOn(w, d, b)
      ensures Awaits(w, more, b)
    {
      var p :| p in ManifestPaths(w, d) && p in w.canonical && w.canonical[p] == b;
      assert p in more;
    }
    forall p | p in more && p in w.canonical
      ensures Reachable(w, crate, w.canonical[p])
    {
      if p in ManifestPaths(w, d) {
        assert DependsOn(w, d, w.canonical[p]);
        ReachStep(w, crate, d, w.canonical[p]);
      } else {
        assert p in pending;
      }
    }
  }

  lemma NothingLeft(w: World, crate: string, builtAt: nat, visited: set<string>)
    requires Progress(w, crate, builtAt, [], visited)
    ensures !exists d :: Reachable(w, crate, d) && DirectoryIsNewer(w, d, builtAt)
  {
    forall d | Reachable(w, crate, d)
      ensures d in visited
    {
      var chain :| ReachedBy(w, crate, chain, d);
      ClosedCovers(w, crate, visited, chain, d);
    }
  }

  method AnyConfigNewer(w: World, builtAt: nat) returns (newer: bool)
    ensures newer <==> ConfigIsNewer(w, builtAt)
  {
    var c := 0;
    while c < |w.configs|
      invariant 0 <= c <= |w.configs|
      invariant forall i | 0 <= i < c :: !Newer(w.configs[i], builtAt)
    {
      if Newer(w.configs[c], builtAt) {
        return true;
      }
      c := c + 1;
    }
    return false;
  }

  /** Pushes everything a directory's manifest is built from, its targets' tables last. */
  method AddManifest(w: World, directory: string, pending: seq<string>) returns (more: seq<string>)
    ensures more == pending + ManifestPaths(w, directory)
  {
    if directory !in w.manifests {
      assert pending + [] == pending;
      return pending;
    }
    var manifest := w.manifests[directory];
    more := AddDependencies(w, directory, manifest.own, pending);
    var i := 0;
    while i < |manifest.targets|
      invariant 0 <= i <= |manifest.targets|
      invariant more
        == pending + TablesPaths(w, directory, manifest.own) + TargetsPaths(w, directory, manifest.targets[..i])
    {
      TargetsPathsStep(w, directory, manifest.targets, i);
      more := AddDependencies(w, directory, manifest.targets[i], more);
      i := i + 1;
    }
    assert manifest.targets[..i] == manifest.targets;
  }

  /** The check terminates on cyclic dependencies, and answers exactly whether the archive is stale. */
  method LocalInputsNewerThan(w: World, crate: string, builtAt: nat) returns (newer: bool)
    ensures newer <==> Stale(w, crate, builtAt)
  {
    var config := AnyConfigNewer(w, builtAt);
    if config {
      return true;
    }
    var pending := [CratePath(w, crate)];
    var visited: set<string> := {};
    StartProgress(w, crate, builtAt);
    while pending != []
      invariant Progress(w, crate, builtAt, pending, visited)
      decreases w.canonical.Values - visited, |pending|
    {
      var path := pending[|pending| - 1];
      var rest := pending[..|pending| - 1];
      if path !in w.canonical || w.canonical[path] in visited {
        DropProgress(w, crate, builtAt, pending, visited);
        pending := rest;
        continue;
      }
      var directory := w.canonical[path];
      var found := AnyFileNewer(Contents(w, directory), builtAt, []);
      if found {
        assert Reachable(w, crate, directory) && DirectoryIsNewer(w, directory, builtAt);
        return true;
      }
      VisitProgress(w, crate, builtAt, pending, visited, directory);
      visited := visited + {directory};
      pending := AddManifest(w, directory, rest);
    }
    NothingLeft(w, crate, builtAt, visited);
    return false;
  }

  // ---- which dependencies count ----

  /** A path read from a file in `base`: absolute, or below it. */
  predicate LiesAt(base: string, path: string, place: string) {
    if path != "" && path[0] == '/' then place == path else place == base + "/" + path
  }

  /** Where a dependency of the manifest in `directory` is looked up: its own path from there, or the
      path of the workspace's entry of its name from the workspace. */
  predicate IsPlaceOf(w: World, directory: string, d: Dependency, place: string) {
    if d.fromWorkspace then
      && d.name in w.inherited && w.inherited[d.name].path.Some?
      && LiesAt(w.workspace, w.inherited[d.name].path.value, place)
    else d.path.Some? && LiesAt(directory, d.path.value, place)
  }

  lemma PlaceOfDependency(w: World, directory: string, d: Dependency, place: string)
    ensures IsPlaceOf(w, directory, d, place) <==> DependencyPath(w, directory, d) == Some(place)
  {
  }

  /** A directory depends exactly on the existing path dependencies it is built from: normal, build
      and target-specific ones, workspace-inherited ones included, and no development ones. */
  lemma DependsOnExactly(w: World, a: string, b: string)
    ensures DependsOn(w, a, b) <==>
      a in w.manifests && exists d, place ::
        BuiltFrom(w.manifests[a], d) && IsPlaceOf(w, a, d, place) && place in w.canonical && w.canonical[place] == b
  {
    if a in w.manifests {
      var m := w.manifests[a];
      if DependsOn(w, a, b) {
        var p :| p in ManifestPaths(w, a) && p in w.canonical && w.canonical[p] == b;
        PathIsBuiltFrom(w, a, m, p);
        var d :| BuiltFrom(m, d) && DependencyPath(w, a, d) == Some(p);
        PlaceOfDependency(w, a, d, p);
      }
      if d, place :|
        BuiltFrom(m, d) && IsPlaceOf(w, a, d, place) && place in w.canonical && w.canonical[place] == b
      {
        PlaceOfDependency(w, a, d, place);
        PathIsBuiltFrom(w, a, m, place);
      }
    }
  }

  /** A chain of directories from the crate's own one, each depending on the next. */
  ghost predicate IsRoute(w: World, crate: string, route: seq<string>) {
    && route != []
    && (exists place :: LiesAt(w.workspace + "/crates", crate, place)
          && place in w.canonical && w.canonical[place] == route[0])
    && forall i | 0 <= i < |route| - 1 :: DependsOn(w, route[i], route[i + 1])
  }

  /** A file or configuration written after the archive was built. */
  predicate WrittenAfter(modified: Option<nat>, builtAt: nat) {
    modified.Some? && builtAt < modified.value
  }

  /** The k-th file of the last directory of a route lies in no directory named `target` and was written
      after the archive. */
  ghost predicate StaleBy(w: World, crate: string, builtAt: nat, route: seq<string>, k: int) {
    && IsRoute(w, crate, route) && route[|route| - 1] in w.contents
    && var files := FilesUnder(w.contents[route[|route| - 1]], []);
       0 <= k < |files| && "target" !in files[k].dirs && WrittenAfter(files[k].modified, builtAt)
  }

  /** The archive is stale exactly when a configuration file was written after it, or some file of a
      directory on a route from its crate was. */
  lemma StaleExactly(w: World, crate: string, builtAt: nat)
    ensures Stale(w, crate, builtAt) <==>
      || (exists i :: 0 <= i < |w.configs| && WrittenAfter(w.configs[i], builtAt))
      || exists route, k :: StaleBy(w, crate, builtAt, route, k)
  {
    var start := CratePath(w, crate);
    assert LiesAt(w.workspace + "/crates", crate, start);
    forall i | 0 <= i < |w.configs| ensures Newer(w.configs[i], builtAt) <==> WrittenAfter(w.configs[i], builtAt) {}
    if d :| Reachable(w, crate, d) && DirectoryIsNewer(w, d, builtAt) {
      var route :| ReachedBy(w, crate, route, d);
      var files := FilesUnder(Contents(w, d), []);
      var k :| 0 <= k < |files| && Counts(files[k], builtAt);
      assert IsRoute(w, crate, route) && StaleBy(w, crate, builtAt, route, k);
    }
    if route, k :| StaleBy(w, crate, builtAt, route, k) {
      var d := route[|route| - 1];
      assert ReachedBy(w, crate, route, d);
      assert Counts(FilesUnder(Contents(w, d), [])[k], builtAt);
      assert DirectoryIsNewer(w, d, builtAt);
    }
  }

  lemma PathIsBuiltFrom(w: World, a: string, m: Manifest, p: string)
    requires a in w.manifests && w.manifests[a] == m
    ensures p in ManifestPaths(w, a) <==> exists d :: BuiltFrom(m, d) && DependencyPath(w, a, d) == Some(p)
  {
    InTablePaths(w, a, m.own.normal, p);
    InTablePaths(w, a, m.own.build, p);
    InTargetsPaths(w, a, m.targets, p);
    forall i | 0 <= i < |m.targets|
      ensures p in TablesPaths(w, a, m.targets[i]) <==>
        exists d :: (d in m.targets[i].normal || d in m.targets[i].build) && DependencyPath(w, a, d) == Some(p)
    {
      InTablePaths(w, a, m.targets[i].normal, p);
      InTablePaths(w, a, m.targets[i].build, p);
    }
  }
}
