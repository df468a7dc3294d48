/** Paths in the call graph, and what it means for a layering of it to measure the longest ones. */
module GraphPaths {

  datatype Edge = Edge(src: nat, dst: nat)

  predicate ValidEdges(n: nat, edges: seq<Edge>) {
    forall e | e in edges :: e.src < n && e.dst < n
  }

  predicate IsPath(edges: seq<Edge>, p: seq<nat>) {
    p != [] && forall i | 0 <= i < |p| - 1 :: Edge(p[i], p[i + 1]) in edges
  }

  predicate Leads(edges: seq<Edge>, p: seq<nat>, a: nat, b: nat) {
    IsPath(edges, p) && p[0] == a && p[|p| - 1] == b
  }

  ghost predicate Reaches(edges: seq<Edge>, a: nat, b: nat) {
    exists p :: Leads(edges, p, a, b)
  }

  /** No path of at least one edge comes back to where it starts. */
  ghost predicate Acyclic(edges: seq<Edge>) {
    forall p | IsPath(edges, p) && |p| >= 2 :: p[0] != p[|p| - 1]
  }

  lemma ReachesItself(edges: seq<Edge>, a: nat)
    ensures Reaches(edges, a, a)
  {
    assert Leads(edges, [a], a, a);
  }

  lemma JoinPaths(edges: seq<Edge>, p: seq<nat>, q: seq<nat>, a: nat, b: nat, c: nat)
    requires Leads(edges, p, a, b) && Leads(edges, q, b, c)
    ensures Leads(edges, p + q[1..], a, c)
  {
    var r := p + q[1..];
    forall i | 0 <= i < |r| - 1
      ensures Edge(r[i], r[i + 1]) in edges
    {
      if i >= |p| - 1 {
        var j := i - (|p| - 1);
        assert r[i] == q[j] && r[i + 1] == q[j + 1];
      }
    }
    assert r[|r| - 1] == c;
  }

  lemma ReachesTransitively(edges: seq<Edge>, a: nat, b: nat, c: nat)
    requires Reaches(edges, a, b) && Reaches(edges, b, c)
    ensures Reaches(edges, a, c)
  {
    var p :| Leads(edges, p, a, b);
    var q :| Leads(edges, q, b, c);
    JoinPaths(edges, p, q, a, b, c);
  }

  lemma EdgeReaches(edges: seq<Edge>, a: nat, b: nat)
    requires Edge(a, b) in edges
    ensures Reaches(edges, a, b)
  {
    assert Leads(edges, [a, b], a, b);
  }

  /** A path that is longer than nothing starts with an edge. */
  lemma FirstStep(edges: seq<Edge>, a: nat, b: nat) returns (w: nat)
    requires Reaches(edges, a, b) && a != b
    ensures Edge(a, w) in edges && Reaches(edges, w, b)
  {
    var p :| Leads(edges, p, a, b);
    assert |p| > 1;
    w := p[1];
    assert Leads(edges, p[1..], w, b);
  }

  predicate Distinct(p: seq<nat>) {
    forall i, j | 0 <= i < j < |p| :: p[i] != p[j]
  }

  lemma AcyclicPathsAreSimple(edges: seq<Edge>, p: seq<nat>)
    requires Acyclic(edges) && IsPath(edges, p)
    ensures Distinct(p)
  {
    forall i, j | 0 <= i < j < |p|
      ensures p[i] != p[j]
    {
      var q := p[i..j + 1];
      assert IsPath(edges, q) && q[0] == p[i] && q[|q| - 1] == p[j];
    }
  }

  function Below(n: nat): (s: set<nat>)
    ensures |s| == n
    ensures forall i :: i in s <==> 0 <= i < n
  {
    if n == 0 then {} else Below(n - 1) + {n - 1}
  }

  function SetOf(p: seq<nat>): set<nat> {
    set x | x in p
  }

  lemma {:induction false} DistinctCount(p: seq<nat>)
    requires Distinct(p)
    ensures |SetOf(p)| == |p|
  {
    if p != [] {
      var front := p[..|p| - 1];
      DistinctCount(front);
      assert p == front + [p[|p| - 1]];
      assert SetOf(p) == SetOf(front) + {p[|p| - 1]};
      assert p[|p| - 1] !in front;
    }
  }

  lemma {:induction false} SubsetCount<T>(a: set<T>, b: set<T>)
    requires a <= b
    ensures |a| <= |b|
  {
    if a != {} {
      var x :| x in a;
      SubsetCount(a - {x}, b - {x});
    }
  }

  /** A simple path visits no more nodes than there are. */
  lemma SimplePathIsShort(n: nat, p: seq<nat>)
    requires Distinct(p) && forall i | 0 <= i < |p| :: p[i] < n
    ensures |p| <= n
  {
    DistinctCount(p);
    assert SetOf(p) <= Below(n);
    SubsetCount(SetOf(p), Below(n));
  }

  predicate IsSource(edges: seq<Edge>, v: nat) {
    forall e | e in edges :: e.dst != v
  }

  predicate OnNodes(n: nat, p: seq<nat>) {
    forall i | 0 <= i < |p| :: p[i] < n
  }

  lemma PathOnNodes(n: nat, edges: seq<Edge>, p: seq<nat>)
    requires ValidEdges(n, edges) && IsPath(edges, p) && p[0] < n
    ensures OnNodes(n, p)
  {
    forall i | 0 <= i < |p|
      ensures p[i] < n
    {
      if i > 0 {
        assert Edge(p[i - 1], p[i]) in edges;
      }
    }
  }

  /** In an acyclic graph every node lies below a source. */
  lemma {:induction false} SourceAbove(n: nat, edges: seq<Edge>, p: seq<nat>) returns (s: nat)
    requires ValidEdges(n, edges) && Acyclic(edges) && IsPath(edges, p) && p[0] < n
    ensures s < n && IsSource(edges, s) && Reaches(edges, s, p[|p| - 1])
    decreases n - |p|
  {
    if IsSource(edges, p[0]) {
      s := p[0];
      assert Leads(edges, p, s, p[|p| - 1]);
    } else {
      var e :| e in edges && e.dst == p[0];
      var q := [e.src] + p;
      assert forall i | 1 <= i < |q| :: q[i] == p[i - 1];
      assert e == Edge(q[0], q[1]);
      AcyclicPathsAreSimple(edges, q);
      PathOnNodes(n, edges, q);
      SimplePathIsShort(n, q);
      s := SourceAbove(n, edges, q);
    }
  }

  // ---- layerings ----

  /** Each layer is the length of some path to the node. */
  ghost predicate Witnessed(edges: seq<Edge>, layer: seq<nat>) {
    forall u | 0 <= u < |layer| :: LayerIsAPath(edges, layer[u], u)
  }

  ghost predicate LayerIsAPath(edges: seq<Edge>, k: nat, u: nat) {
    exists p :: IsPath(edges, p) && p[|p| - 1] == u && |p| == k + 1
  }

  /** Every edge goes strictly downward. */
  predicate Downward(n: nat, edges: seq<Edge>, layer: seq<nat>)
    requires ValidEdges(n, edges) && |layer| == n
  {
    forall e | e in edges :: layer[e.dst] >= layer[e.src] + 1
  }

  /** The layer of a node is the length of a longest path from a source to it. */
  ghost predicate IsLongest(edges: seq<Edge>, k: nat, u: nat) {
    && (exists p :: IsPath(edges, p) && IsSource(edges, p[0]) && p[|p| - 1] == u && |p| == k + 1)
    && (forall p | IsPath(edges, p) && p[|p| - 1] == u :: |p| <= k + 1)
  }

  lemma {:induction false} PathsAreShorter(n: nat, edges: seq<Edge>, layer: seq<nat>, p: seq<nat>)
    requires ValidEdges(n, edges) && |layer| == n && Downward(n, edges, layer) && IsPath(edges, p) && p[|p| - 1] < n
    ensures |p| <= layer[p[|p| - 1]] + 1
    decreases |p|
  {
    if |p| > 1 {
      var q := p[..|p| - 1];
      assert Edge(p[|p| - 2], p[|p| - 1]) in edges;
      assert IsPath(edges, q);
      PathsAreShorter(n, edges, layer, q);
    }
  }

  /** A downward layering witnessed by paths measures the longest ones. */
  lemma DownwardIsLongest(n: nat, edges: seq<Edge>, layer: seq<nat>, u: nat)
    requires ValidEdges(n, edges) && |layer| == n && Downward(n, edges, layer) && Witnessed(edges, layer) && u < n
    ensures IsLongest(edges, layer[u], u)
  {
    assert LayerIsAPath(edges, layer[u], u);
    var p :| IsPath(edges, p) && p[|p| - 1] == u && |p| == layer[u] + 1;
    if !IsSource(edges, p[0]) {
      var e :| e in edges && e.dst == p[0];
      var q := [e.src] + p;
      assert forall i | 1 <= i < |q| :: q[i] == p[i - 1];
      assert e == Edge(q[0], q[1]);
      assert IsPath(edges, q);
      PathsAreShorter(n, edges, layer, q);
      assert false;
    }
    forall q | IsPath(edges, q) && q[|q| - 1] == u
      ensures |q| <= layer[u] + 1
    {
      PathsAreShorter(n, edges, layer, q);
    }
  }

  // ---- relaxation below a node ----

  ghost predicate RelaxedBelow(edges: seq<Edge>, layer: seq<nat>, v: nat) {
    forall x: nat, y: nat | Reaches(edges, v, x) && Edge(x, y) in edges && x < |layer| && y < |layer| ::
      layer[y] >= layer[x] + 1
  }

  predicate Grows(before: seq<nat>, after: seq<nat>) {
    |before| == |after| && forall u | 0 <= u < |before| :: after[u] >= before[u]
  }

  ghost predicate ChangesBelow(edges: seq<Edge>, before: seq<nat>, after: seq<nat>, v: nat) {
    |before| == |after| && forall u | 0 <= u < |before| && after[u] != before[u] :: Reaches(edges, v, u)
  }

  /** Raising layers below `w`, and relaxing everything there again, undoes no other relaxation. */
  lemma RelaxationSurvives(edges: seq<Edge>, before: seq<nat>, after: seq<nat>, u: nat, w: nat)
    requires RelaxedBelow(edges, before, u) && Grows(before, after) && ChangesBelow(edges, before, after, w)
      && RelaxedBelow(edges, after, w)
    ensures RelaxedBelow(edges, after, u)
  {
    forall x: nat, y: nat | Reaches(edges, u, x) && Edge(x, y) in edges && x < |after| && y < |after|
      ensures after[y] >= after[x] + 1
    {
      if after[x] == before[x] {
        assert before[y] >= before[x] + 1;
      }
    }
  }

  lemma ChangesAdd(edges: seq<Edge>, a: seq<nat>, b: seq<nat>, c: seq<nat>, v: nat, w: nat)
    requires ChangesBelow(edges, a, b, v) && ChangesBelow(edges, b, c, w) && Reaches(edges, v, w)
    ensures ChangesBelow(edges, a, c, v)
  {
    forall u | 0 <= u < |a| && c[u] != a[u]
      ensures Reaches(edges, v, u)
    {
      if c[u] != b[u] {
        ReachesTransitively(edges, v, w, u);
      }
    }
  }

  /** A node is relaxed when its own edges and everything below them are. */
  lemma RelaxedFromChildren(edges: seq<Edge>, layer: seq<nat>, v: nat)
    requires v < |layer|
    requires forall w: nat | Edge(v, w) in edges && w < |layer| :: layer[w] >= layer[v] + 1
    requires forall w: nat | Edge(v, w) in edges :: RelaxedBelow(edges, layer, w)
    ensures RelaxedBelow(edges, layer, v)
  {
    forall x: nat, y: nat | Reaches(edges, v, x) && Edge(x, y) in edges && x < |layer| && y < |layer|
      ensures layer[y] >= layer[x] + 1
    {
      if x != v {
        var w := FirstStep(edges, v, x);
        assert RelaxedBelow(edges, layer, w);
      }
    }
  }
}
