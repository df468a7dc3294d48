/** The layers of the call-graph page: the depth-first visit that puts every callee below its caller. */
module CallGraphLayers {
  import opened GraphPaths

  // ---- adjacency lists ----

  function Targets(edges: seq<Edge>, v: nat): seq<nat> {
    if edges == [] then []
    else
      var k := |edges| - 1;
      Targets(edges[..k], v) + if edges[k].src == v then [edges[k].dst] else []
  }

  function Origins(edges: seq<Edge>, v: nat): seq<nat> {
    if edges == [] then []
    else
      var k := |edges| - 1;
      Origins(edges[..k], v) + if edges[k].dst == v then [edges[k].src] else []
  }

  lemma {:induction false} TargetsAreEdges(edges: seq<Edge>, v: nat)
    ensures forall w: nat :: w in Targets(edges, v) <==> Edge(v, w) in edges
  {
    if edges != [] {
      var k := |edges| - 1;
      TargetsAreEdges(edges[..k], v);
      assert edges == edges[..k] + [edges[k]];
    }
  }

  lemma {:induction false} OriginsAreEdges(edges: seq<Edge>, v: nat)
    ensures forall u: nat :: u in Origins(edges, v) <==> Edge(u, v) in edges
  {
    if edges != [] {
      var k := |edges| - 1;
      OriginsAreEdges(edges[..k], v);
      assert edges == edges[..k] + [edges[k]];
    }
  }

  lemma SourceHasNoOrigin(edges: seq<Edge>, v: nat)
    ensures Origins(edges, v) == [] <==> IsSource(edges, v)
  {
    OriginsAreEdges(edges, v);
    if Origins(edges, v) == [] {
      forall e | e in edges
        ensures e.dst != v
      {
        assert e == Edge(e.src, e.dst);
      }
    } else {
      assert Origins(edges, v)[0] in Origins(edges, v);
    }
  }

  method Adjacency(n: nat, edges: seq<Edge>) returns (incoming: seq<seq<nat>>, outgoing: seq<seq<nat>>)
    requires ValidEdges(n, edges)
    ensures |incoming| == |outgoing| == n
    ensures forall v | 0 <= v < n :: incoming[v] == Origins(edges, v) && outgoing[v] == Targets(edges, v)
  {
    incoming, outgoing := seq(n, i => []), seq(n, i => []);
    var k := 0;
    while k < |edges|
      invariant 0 <= k <= |edges|
      invariant |incoming| == |outgoing| == n
      invariant forall v | 0 <= v < n :: incoming[v] == Origins(edges[..k], v) && outgoing[v] == Targets(edges[..k], v)
    {
      var e := edges[k];
      assert e in edges;
      assert edges[..k + 1][..k] == edges[..k];
      outgoing := outgoing[e.src := outgoing[e.src] + [e.dst]];
      incoming := incoming[e.dst := incoming[e.dst] + [e.src]];
      k := k + 1;
    }
    assert edges[..k] == edges;
  }

  // ---- depth-first layering ----

  /** The stack holds exactly the nodes of a simple path to the node being visited. */
  predicate StackIsPath(edges: seq<Edge>, stack: set<nat>, trail: seq<nat>, v: nat) {
    IsPath(edges, trail) && Distinct(trail) && trail[|trail| - 1] == v && stack == SetOf(trail)
  }

  lemma PushStack(edges: seq<Edge>, stack: set<nat>, trail: seq<nat>, v: nat, w: nat)
    requires StackIsPath(edges, stack, trail, v) && Edge(v, w) in edges && w !in stack
    ensures StackIsPath(edges, stack + {w}, trail + [w], w)
  {
    var q := trail + [w];
    assert forall i | 0 <= i < |trail| :: trail[i] in SetOf(trail);
  }

  /** In an acyclic graph no edge leads back into the stack. */
  lemma NoBackEdge(edges: seq<Edge>, stack: set<nat>, trail: seq<nat>, v: nat, w: nat)
    requires StackIsPath(edges, stack, trail, v) && Edge(v, w) in edges && Acyclic(edges)
    ensures w !in stack
  {
    if w in stack {
      var i :| 0 <= i < |trail| && trail[i] == w;
      CloseTrail(edges, trail, i);
    }
  }

  lemma CloseTrail(edges: seq<Edge>, trail: seq<nat>, i: nat)
    requires IsPath(edges, trail) && i < |trail| && Edge(trail[|trail| - 1], trail[i]) in edges
    ensures var q := trail[i..] + [trail[i]]; IsPath(edges, q) && |q| >= 2 && q[0] == q[|q| - 1]
  {
  }

  lemma ExtendWitness(edges: seq<Edge>, layer: seq<nat>, v: nat, w: nat)
    requires Witnessed(edges, layer) && Edge(v, w) in edges && v < |layer| && w < |layer|
    ensures Witnessed(edges, layer[w := layer[v] + 1])
  {
    assert LayerIsAPath(edges, layer[v], v);
    var p :| IsPath(edges, p) && p[|p| - 1] == v && |p| == layer[v] + 1;
    var q := p + [w];
    assert IsPath(edges, q) && q[|q| - 1] == w && |q| == layer[v] + 2;
    assert LayerIsAPath(edges, layer[v] + 1, w);
  }

  lemma TakeOneMore<T>(s: seq<T>, k: nat)
    requires k < |s|
    ensures s[..k + 1] == s[..k] + [s[k]]
  {
  }

  /** What a visit of `v` leaves behind in an acyclic graph. */
  ghost predicate Visited(edges: seq<Edge>, before: seq<nat>, after: seq<nat>, v: nat) {
    ChangesBelow(edges, before, after, v) && RelaxedBelow(edges, after, v)
  }

  /** Puts a child at least one layer below its parent. */
  method Raise(ghost edges: seq<Edge>, layer: array<nat>, v: nat, w: nat)
    requires v < layer.Length && w < layer.Length && Edge(v, w) in edges && Witnessed(edges, layer[..])
    modifies layer
    ensures layer[..] == if old(layer[w]) < old(layer[v]) + 1 then old(layer[..])[w := old(layer[v]) + 1]
      else old(layer[..])
    ensures Witnessed(edges, layer[..]) && Grows(old(layer[..]), layer[..])
  {
    ghost var start := layer[..];
    if layer[w] < layer[v] + 1 {
      ExtendWitness(edges, start, v, w);
      layer[w] := layer[v] + 1;
      assert layer[..] == start[w := start[v] + 1];
    }
  }

  ghost predicate Lists(n: nat, edges: seq<Edge>, outgoing: seq<seq<nat>>) {
    ValidEdges(n, edges) && |outgoing| == n && forall u | 0 <= u < n :: outgoing[u] == Targets(edges, u)
  }

  ghost predicate Unmoved(stack: set<nat>, before: seq<nat>, after: seq<nat>) {
    |before| == |after| && forall u | u in stack && u < |before| :: after[u] == before[u]
  }

  ghost predicate StaysSeen(before: seq<bool>, after: seq<bool>) {
    |before| == |after| && forall u | 0 <= u < |before| && before[u] :: after[u]
  }

  /** Visits one callee that is not on the stack. */
  method VisitCallee(n: nat, edges: seq<Edge>, outgoing: seq<seq<nat>>, layer: array<nat>, seen: array<bool>, v: nat,
      w: nat, stack: set<nat>, ghost trail: seq<nat>, ghost before: seq<nat>, ghost children: seq<nat>)
    requires Lists(n, edges, outgoing) && layer.Length == n && seen.Length == n && v < n && w < n
    requires StackIsPath(edges, stack, trail, v) && v in stack && stack <= Below(n) && w !in stack
    requires Edge(v, w) in edges && Witnessed(edges, layer[..]) && |before| == n
    requires Acyclic(edges) ==> ChangesBelow(edges, before, layer[..], v) && Done(edges, layer[..], children, v)
    modifies layer, seen
    ensures Witnessed(edges, layer[..]) && Grows(old(layer[..]), layer[..])
    ensures Unmoved(stack, old(layer[..]), layer[..]) && StaysSeen(old(seen[..]), seen[..])
    ensures Acyclic(edges)
      ==> ChangesBelow(edges, before, layer[..], v) && Done(edges, layer[..], children + [w], v)
    decreases Below(n) - stack, 0
  {
    ghost var start := layer[..];
    Raise(edges, layer, v, w);
    ghost var raised := layer[..];
    PushStack(edges, stack, trail, v, w);
    Dfs(n, edges, outgoing, layer, seen, w, stack + {w}, trail + [w]);
    assert Unmoved(stack, start, raised) && Unmoved(stack + {w}, raised, layer[..]);
    if Acyclic(edges) {
      VisitChild(edges, before, start, raised, layer[..], v, w, children);
    }
  }

  method Dfs(n: nat, edges: seq<Edge>, outgoing: seq<seq<nat>>, layer: array<nat>, seen: array<bool>, v: nat,
      stack: set<nat>, ghost trail: seq<nat>)
    requires Lists(n, edges, outgoing) && layer.Length == n && seen.Length == n && v < n
    requires StackIsPath(edges, stack, trail, v) && v in stack && stack <= Below(n)
    requires Witnessed(edges, layer[..])
    modifies layer, seen
    ensures Witnessed(edges, layer[..]) && Grows(old(layer[..]), layer[..])
    ensures Unmoved(stack, old(layer[..]), layer[..])
    ensures seen[v] && StaysSeen(old(seen[..]), seen[..])
    ensures Acyclic(edges) ==> Visited(edges, old(layer[..]), layer[..], v)
    decreases Below(n) - stack, 1
  {
    seen[v] := true;
    TargetsAreEdges(edges, v);
    ghost var before := layer[..];
    var k := 0;
    while k < |outgoing[v]|
      invariant 0 <= k <= |outgoing[v]|
      invariant Witnessed(edges, layer[..]) && Grows(before, layer[..]) && Unmoved(stack, before, layer[..])
      invariant seen[v] && StaysSeen(old(seen[..]), seen[..])
      invariant Acyclic(edges) ==> ChangesBelow(edges, before, layer[..], v)
      invariant Acyclic(edges) ==> Done(edges, layer[..], outgoing[v][..k], v)
    {
      var w := outgoing[v][k];
      assert w in outgoing[v] && Edge(v, w) in edges;
      TakeOneMore(outgoing[v], k);
      if w !in stack {
        VisitCallee(n, edges, outgoing, layer, seen, v, w, stack, trail, before, outgoing[v][..k]);
      } else if Acyclic(edges) {
        NoBackEdge(edges, stack, trail, v, w);
      }
      k := k + 1;
    }
    if Acyclic(edges) {
      assert outgoing[v][..k] == outgoing[v];
      RelaxedFromChildren(edges, layer[..], v);
    }
  }

  /** The children visited so far are below their parent and relaxed. */
  ghost predicate Done(edges: seq<Edge>, layer: seq<nat>, children: seq<nat>, v: nat) {
    v < |layer| && forall w | w in children && w < |layer| :: layer[w] >= layer[v] + 1 && RelaxedBelow(edges, layer, w)
  }

  lemma VisitChild(edges: seq<Edge>, before: seq<nat>, start: seq<nat>, raised: seq<nat>, after: seq<nat>, v: nat,
      w: nat, children: seq<nat>)
    requires |before| == |start| == |raised| == |after| && v < |before| && w < |before|
    requires ChangesBelow(edges, before, start, v) && Done(edges, start, children, v) && Edge(v, w) in edges
    requires raised == start || raised == start[w := start[v] + 1]
    requires Grows(start, raised) && Grows(raised, after) && raised[w] >= start[v] + 1
    requires Visited(edges, raised, after, w) && after[v] == start[v]
    ensures ChangesBelow(edges, before, after, v) && Done(edges, after, children + [w], v)
  {
    EdgeReaches(edges, v, w);
    ReachesItself(edges, w);
    assert ChangesBelow(edges, start, after, w) by {
      forall u | 0 <= u < |start| && after[u] != start[u]
        ensures Reaches(edges, w, u)
      {
        assert raised[u] != start[u] ==> u == w;
      }
    }
    ChangesAdd(edges, before, start, after, v, w);
    forall x | x in children + [w] && x < |after|
      ensures after[x] >= after[v] + 1 && RelaxedBelow(edges, after, x)
    {
      if x != w {
        assert x in children;
        RelaxationSurvives(edges, start, after, x, w);
      }
    }
  }

  /** Everything below the sources among the first `k` nodes is relaxed. */
  ghost predicate SourcesDone(n: nat, edges: seq<Edge>, layer: seq<nat>, k: nat) {
    forall u | 0 <= u < k && u < n && IsSource(edges, u) :: RelaxedBelow(edges, layer, u)
  }

  lemma SourcesSurvive(n: nat, edges: seq<Edge>, before: seq<nat>, after: seq<nat>, k: nat, v: nat)
    requires SourcesDone(n, edges, before, k) && Grows(before, after) && Visited(edges, before, after, v)
    ensures SourcesDone(n, edges, after, k)
  {
    forall u | 0 <= u < k && u < n && IsSource(edges, u)
      ensures RelaxedBelow(edges, after, u)
    {
      RelaxationSurvives(edges, before, after, u, v);
    }
  }

  lemma SourcesCoverAll(n: nat, edges: seq<Edge>, layer: seq<nat>)
    requires ValidEdges(n, edges) && |layer| == n && Acyclic(edges) && SourcesDone(n, edges, layer, n)
    ensures Downward(n, edges, layer)
  {
    forall e | e in edges
      ensures layer[e.dst] >= layer[e.src] + 1
    {
      var s := SourceAbove(n, edges, [e.src]);
      assert RelaxedBelow(edges, layer, s);
      assert e == Edge(e.src, e.dst);
    }
  }

  lemma InitialWitness(edges: seq<Edge>, layer: seq<nat>)
    requires forall u | 0 <= u < |layer| :: layer[u] == 0
    ensures Witnessed(edges, layer)
  {
    forall u | 0 <= u < |layer|
      ensures LayerIsAPath(edges, layer[u], u)
    {
      assert IsPath(edges, [u]) && [u][0] == u;
    }
  }

  lemma StartStack(edges: seq<Edge>, v: nat)
    ensures StackIsPath(edges, {v}, [v], v)
  {
  }

  /** One visit from the top: the sources done before stay done, and `v` becomes done. */
  method Visit(n: nat, edges: seq<Edge>, outgoing: seq<seq<nat>>, layer: array<nat>, seen: array<bool>, v: nat,
      ghost k: nat)
    requires Lists(n, edges, outgoing) && layer.Length == n && seen.Length == n && v < n
    requires Witnessed(edges, layer[..])
    requires Acyclic(edges) ==> SourcesDone(n, edges, layer[..], k)
    modifies layer, seen
    ensures Witnessed(edges, layer[..]) && seen[v] && StaysSeen(old(seen[..]), seen[..])
    ensures Acyclic(edges) ==> SourcesDone(n, edges, layer[..], k) && RelaxedBelow(edges, layer[..], v)
  {
    StartStack(edges, v);
    ghost var before := layer[..];
    Dfs(n, edges, outgoing, layer, seen, v, {v}, [v]);
    if Acyclic(edges) {
      SourcesSurvive(n, edges, before, layer[..], k, v);
    }
  }

  lemma OneMoreSource(n: nat, edges: seq<Edge>, layer: seq<nat>, k: nat)
    requires SourcesDone(n, edges, layer, k) && (IsSource(edges, k) ==> RelaxedBelow(edges, layer, k))
    ensures SourcesDone(n, edges, layer, k + 1)
  {
  }

  lemma LayersAreLongest(n: nat, edges: seq<Edge>, layer: seq<nat>)
    requires ValidEdges(n, edges) && |layer| == n && Acyclic(edges) && SourcesDone(n, edges, layer, n)
      && Witnessed(edges, layer)
    ensures Downward(n, edges, layer) && forall u | 0 <= u < n :: IsLongest(edges, layer[u], u)
  {
    SourcesCoverAll(n, edges, layer);
    forall u | 0 <= u < n
      ensures IsLongest(edges, layer[u], u)
    {
      DownwardIsLongest(n, edges, layer, u);
    }
  }

  /** The layers of all nodes: from the sources first, then from whatever was not reached. */
  method Layering(n: nat, edges: seq<Edge>, incoming: seq<seq<nat>>, outgoing: seq<seq<nat>>) returns (result: seq<nat>)
    requires ValidEdges(n, edges) && |incoming| == |outgoing| == n
    requires forall v | 0 <= v < n :: incoming[v] == Origins(edges, v) && outgoing[v] == Targets(edges, v)
    ensures |result| == n && Witnessed(edges, result)
    ensures Acyclic(edges) ==> Downward(n, edges, result)
    ensures Acyclic(edges) ==> forall u | 0 <= u < n :: IsLongest(edges, result[u], u)
  {
    var layer := new nat[n](i => 0);
    var seen := new bool[n](i => false);
    InitialWitness(edges, layer[..]);
    var v := 0;
    while v < n
      invariant 0 <= v <= n
      invariant Witnessed(edges, layer[..])
      invariant Acyclic(edges) ==> SourcesDone(n, edges, layer[..], v)
    {
      SourceHasNoOrigin(edges, v);
      if incoming[v] == [] {
        Visit(n, edges, outgoing, layer, seen, v, v);
      }
      if Acyclic(edges) {
        OneMoreSource(n, edges, layer[..], v);
      }
      v := v + 1;
    }
    v := 0;
    while v < n
      invariant 0 <= v <= n
      invariant Witnessed(edges, layer[..])
      invariant Acyclic(edges) ==> SourcesDone(n, edges, layer[..], n)
    {
      if !seen[v] {
        Visit(n, edges, outgoing, layer, seen, v, n);
      }
      v := v + 1;
    }
    result := layer[..];
    if Acyclic(edges) {
      LayersAreLongest(n, edges, result);
    }
  }
}
