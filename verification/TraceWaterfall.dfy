/** The distributed-trace chart: the depth-first walk that nests each span under its caller, and the
    time axis its bars are laid out on. */
module TraceWaterfall {
  import opened Wrappers
  import opened GraphPaths

  /** One span of a trace; `start` is in microseconds, `total` in nanoseconds. */
  datatype Span = Span(id: string, parent: string, start: Option<nat>, total: nat)

  // ---- the forest of a trace ----

  predicate UniqueIds(ms: seq<Span>) {
    forall i, j | 0 <= i < j < |ms| :: ms[i].id != ms[j].id
  }

  /** The first span of an id, when it was collected. */
  function Lookup(ms: seq<Span>, id: string): (r: Option<nat>)
    ensures r.Some? ==> r.value < |ms| && ms[r.value].id == id
    ensures r.None? ==> forall i | 0 <= i < |ms| :: ms[i].id != id
  {
    if ms == [] then None
    else if ms[0].id == id then Some(0)
    else match Lookup(ms[1..], id) case Some(i) => Some(i + 1) case None => None
  }

  /** A span without a caller, or whose caller was not collected. */
  predicate Root(ms: seq<Span>, i: nat)
    requires i < |ms|
  {
    ms[i].parent == "" || Lookup(ms, ms[i].parent).None?
  }

  /** The spans among the first `n` that are called by the span of that id, in collection order. */
  function Called(ms: seq<Span>, id: string, n: nat): seq<nat>
    requires n <= |ms|
  {
    if n == 0 then []
    else Called(ms, id, n - 1) + if !Root(ms, n - 1) && ms[n - 1].parent == id then [n - 1] else []
  }

  function Children(ms: seq<Span>, i: nat): seq<nat>
    requires i < |ms|
  {
    Called(ms, ms[i].id, |ms|)
  }

  function Roots(ms: seq<Span>, n: nat): seq<nat>
    requires n <= |ms|
  {
    if n == 0 then [] else Roots(ms, n - 1) + if Root(ms, n - 1) then [n - 1] else []
  }

  lemma {:induction false} CalledExactly(ms: seq<Span>, id: string, n: nat)
    requires n <= |ms|
    ensures forall k: nat :: k in Called(ms, id, n) <==> k < n && !Root(ms, k) && ms[k].parent == id
    ensures Distinct(Called(ms, id, n)) && Increasing(Called(ms, id, n))
  {
    if n > 0 {
      CalledExactly(ms, id, n - 1);
      AppendKeepsDistinct(Called(ms, id, n - 1), n - 1);
      AppendIncreases(Called(ms, id, n - 1), n - 1);
    }
  }

  lemma {:induction false} RootsExactly(ms: seq<Span>, n: nat)
    requires n <= |ms|
    ensures forall k: nat :: k in Roots(ms, n) <==> k < n && Root(ms, k)
    ensures Distinct(Roots(ms, n)) && Increasing(Roots(ms, n))
  {
    if n > 0 {
      RootsExactly(ms, n - 1);
      AppendKeepsDistinct(Roots(ms, n - 1), n - 1);
      AppendIncreases(Roots(ms, n - 1), n - 1);
    }
  }

  predicate Increasing(s: seq<nat>) {
    forall i, j | 0 <= i < j < |s| :: s[i] < s[j]
  }

  lemma AppendIncreases(s: seq<nat>, x: nat)
    requires Increasing(s) && forall k | k in s :: k < x
    ensures Increasing(s + [x])
  {
    assert forall i | 0 <= i < |s| :: s[i] in s;
  }

  lemma AppendKeepsDistinct(s: seq<nat>, x: nat)
    requires Distinct(s) && x !in s
    ensures Distinct(s + [x])
  {
  }

  // ---- depth: the number of collected ancestors ----

  function ParentOf(ms: seq<Span>, i: nat): (p: nat)
    requires i < |ms| && !Root(ms, i)
    ensures p < |ms| && ms[p].id == ms[i].parent
  {
    Lookup(ms, ms[i].parent).value
  }

  /** The k-th caller above a span. */
  function Up(ms: seq<Span>, i: nat, k: nat): Option<nat>
    requires i < |ms|
    decreases k
  {
    if k == 0 then Some(i)
    else if Root(ms, i) then None
    else Up(ms, ParentOf(ms, i), k - 1)
  }

  /** A span at depth `d` has `d` collected callers above it, the last of them a root. */
  predicate AtDepth(ms: seq<Span>, i: nat, d: nat)
    requires i < |ms|
    decreases d
  {
    if Root(ms, i) then d == 0 else d > 0 && AtDepth(ms, ParentOf(ms, i), d - 1)
  }

  ghost predicate Grounded(ms: seq<Span>, i: nat) {
    i < |ms| && exists d :: AtDepth(ms, i, d)
  }

  lemma {:induction false} DepthIsUnique(ms: seq<Span>, i: nat, d: nat, e: nat)
    requires i < |ms| && AtDepth(ms, i, d) && AtDepth(ms, i, e)
    ensures d == e
    decreases d
  {
    if !Root(ms, i) {
      DepthIsUnique(ms, ParentOf(ms, i), d - 1, e - 1);
    }
  }

  function Ancestry(ms: seq<Span>, i: nat, d: nat): seq<nat>
    requires i < |ms| && AtDepth(ms, i, d)
    decreases d
  {
    if d == 0 then [i] else Ancestry(ms, ParentOf(ms, i), d - 1) + [i]
  }

  lemma {:induction false} AncestryIsSimple(ms: seq<Span>, i: nat, d: nat)
    requires i < |ms| && AtDepth(ms, i, d)
    ensures var a := Ancestry(ms, i, d); |a| == d + 1 && forall k | 0 <= k <= d :: a[k] < |ms| && AtDepth(ms, a[k], k)
    decreases d
  {
    if d > 0 {
      AncestryIsSimple(ms, ParentOf(ms, i), d - 1);
    }
  }

  /** There are at most as many callers as spans: the depth stays below their number. */
  lemma DepthIsBounded(ms: seq<Span>, i: nat, d: nat)
    requires i < |ms| && AtDepth(ms, i, d)
    ensures d < |ms|
  {
    AncestryIsSimple(ms, i, d);
    var a := Ancestry(ms, i, d);
    forall j, k | 0 <= j < k < |a|
      ensures a[j] != a[k]
    {
      if a[j] == a[k] {
        DepthIsUnique(ms, a[j], j, k);
      }
    }
    SimplePathIsShort(|ms|, a);
  }

  lemma ChildrenAreBelow(ms: seq<Span>, i: nat, k: nat, d: nat)
    requires UniqueIds(ms) && i < |ms| && AtDepth(ms, i, d) && k in Children(ms, i)
    ensures k < |ms| && !Root(ms, k) && ParentOf(ms, k) == i && AtDepth(ms, k, d + 1)
  {
    CalledExactly(ms, ms[i].id, |ms|);
    var p := ParentOf(ms, k);
    assert ms[p].id == ms[i].id;
  }

  // ---- preorder ----

  datatype Row = Row(span: nat, depth: nat)

  /** A span and everything under it, callers first. */
  function Subtree(ms: seq<Span>, i: nat, d: nat, fuel: nat): seq<Row>
    requires i < |ms|
    decreases fuel, 1, 0
  {
    if fuel == 0 then []
    else
      CalledExactly(ms, ms[i].id, |ms|);
      [Row(i, d)] + Forest(ms, Children(ms, i), d + 1, fuel - 1)
  }

  function Forest(ms: seq<Span>, spans: seq<nat>, d: nat, fuel: nat): seq<Row>
    requires forall k | k in spans :: k < |ms|
    decreases fuel, 2, |spans|
  {
    if spans == [] then []
    else
      assert spans[0] in spans && forall k | k in spans[1..] :: k in spans;
      Subtree(ms, spans[0], d, fuel) + Forest(ms, spans[1..], d, fuel)
  }

  /** The whole chart: every root with its subtree, in collection order. */
  function Preorder(ms: seq<Span>): seq<Row> {
    RootsExactly(ms, |ms|);
    Forest(ms, Roots(ms, |ms|), 0, |ms|)
  }

  const GUARD: nat := 4097

  predicate Stacked(ms: seq<Span>, stack: seq<Row>) {
    forall i | 0 <= i < |stack| :: stack[i].span < |ms| && AtDepth(ms, stack[i].span, stack[i].depth)
  }

  /** What is still to be emitted: the stack from its top down. */
  function Pending(ms: seq<Span>, stack: seq<Row>): seq<Row>
    requires Stacked(ms, stack)
  {
    if stack == [] then []
    else
      var top := stack[|stack| - 1];
      DepthIsBounded(ms, top.span, top.depth);
      Subtree(ms, top.span, top.depth, |ms| - top.depth) + Pending(ms, stack[..|stack| - 1])
  }

  function Pushed(spans: seq<nat>, d: nat): (r: seq<Row>)
    ensures |r| == |spans|
  {
    seq(|spans|, i requires 0 <= i < |spans| => Row(spans[|spans| - 1 - i], d))
  }

  predicate AllAtDepth(ms: seq<Span>, spans: seq<nat>, d: nat) {
    forall k | k in spans :: k < |ms| && AtDepth(ms, k, d)
  }

  lemma PushedIsStacked(ms: seq<Span>, stack: seq<Row>, spans: seq<nat>, d: nat)
    requires Stacked(ms, stack) && AllAtDepth(ms, spans, d)
    ensures Stacked(ms, stack + Pushed(spans, d))
  {
    var all := stack + Pushed(spans, d);
    forall i | 0 <= i < |all|
      ensures all[i].span < |ms| && AtDepth(ms, all[i].span, all[i].depth)
    {
      if i >= |stack| {
        var k := |spans| - 1 - (i - |stack|);
        assert all[i] == Row(spans[k], d) && spans[k] in spans;
      }
    }
  }

  lemma PushedTop(stack: seq<Row>, spans: seq<nat>, d: nat)
    requires spans != []
    ensures var all := stack + Pushed(spans, d);
      all[|all| - 1] == Row(spans[0], d) && all[..|all| - 1] == stack + Pushed(spans[1..], d)
  {
  }

  /** Pushing siblings in reverse makes them pop in order. */
  lemma {:induction false} PendingOfPushed(ms: seq<Span>, stack: seq<Row>, spans: seq<nat>, d: nat)
    requires Stacked(ms, stack) && AllAtDepth(ms, spans, d) && d <= |ms|
    ensures Stacked(ms, stack + Pushed(spans, d))
    ensures Pending(ms, stack + Pushed(spans, d)) == Forest(ms, spans, d, |ms| - d) + Pending(ms, stack)
    decreases |spans|
  {
    PushedIsStacked(ms, stack, spans, d);
    if spans == [] {
      assert stack + Pushed(spans, d) == stack;
    } else {
      assert spans[0] in spans && forall k | k in spans[1..] :: k in spans;
      PendingOfPushed(ms, stack, spans[1..], d);
      PushedTop(stack, spans, d);
      RegroupTwo(Subtree(ms, spans[0], d, |ms| - d), Forest(ms, spans[1..], d, |ms| - d), Pending(ms, stack));
    }
  }

  lemma RegroupTwo<T>(a: seq<T>, b: seq<T>, c: seq<T>)
    ensures (a + b) + c == a + (b + c)
  {
  }

  lemma SiblingsAreBelow(ms: seq<Span>, i: nat, d: nat)
    requires UniqueIds(ms) && i < |ms| && AtDepth(ms, i, d)
    ensures AllAtDepth(ms, Children(ms, i), d + 1)
  {
    forall k | k in Children(ms, i)
      ensures k < |ms| && AtDepth(ms, k, d + 1)
    {
      ChildrenAreBelow(ms, i, k, d);
    }
  }

  lemma Regroup<T>(x: T, f: seq<T>, p: seq<T>)
    ensures ([x] + f) + p == [x] + (f + p)
  {
  }

  /** The stack once its top is replaced by the top's children. */
  function Opened(ms: seq<Span>, stack: seq<Row>): seq<Row>
    requires stack != [] && stack[|stack| - 1].span < |ms|
  {
    var top := stack[|stack| - 1];
    stack[..|stack| - 1] + Pushed(Children(ms, top.span), top.depth + 1)
  }

  lemma PendingSplits(ms: seq<Span>, stack: seq<Row>)
    requires Stacked(ms, stack) && stack != []
    ensures var top := stack[|stack| - 1];
      && top.span < |ms| && AtDepth(ms, top.span, top.depth) && top.depth < |ms|
      && Pending(ms, stack)
        == Subtree(ms, top.span, top.depth, |ms| - top.depth) + Pending(ms, stack[..|stack| - 1])
  {
    var top := stack[|stack| - 1];
    DepthIsBounded(ms, top.span, top.depth);
  }

  lemma PendingOfTop(ms: seq<Span>, stack: seq<Row>)
    requires Stacked(ms, stack) && stack != []
    ensures var top, rest := stack[|stack| - 1], stack[..|stack| - 1];
      && top.depth < |ms| && (forall k | k in Children(ms, top.span) :: k < |ms|)
      && Pending(ms, stack)
        == [top] + (Forest(ms, Children(ms, top.span), top.depth + 1, |ms| - top.depth - 1) + Pending(ms, rest))
  {
    var top, rest := stack[|stack| - 1], stack[..|stack| - 1];
    PendingSplits(ms, stack);
    SubtreeUnfolds(ms, top.span, top.depth, |ms| - top.depth);
    assert Row(top.span, top.depth) == top;
    Regroup(top, Forest(ms, Children(ms, top.span), top.depth + 1, |ms| - top.depth - 1), Pending(ms, rest));
  }

  lemma PopTop(ms: seq<Span>, stack: seq<Row>)
    requires UniqueIds(ms) && Stacked(ms, stack) && stack != []
    ensures Stacked(ms, Opened(ms, stack))
      && Pending(ms, stack) == [stack[|stack| - 1]] + Pending(ms, Opened(ms, stack))
  {
    var top, rest := stack[|stack| - 1], stack[..|stack| - 1];
    PendingOfTop(ms, stack);
    SiblingsAreBelow(ms, top.span, top.depth);
    PendingOfPushed(ms, rest, Children(ms, top.span), top.depth + 1);
  }

  /** The part of the chart the guard lets through. */
  function Cut(rows: seq<Row>): seq<Row> {
    if |rows| <= GUARD then rows else rows[..GUARD]
  }

  function Kids(children: map<string, seq<nat>>, id: string): seq<nat> {
    if id in children then children[id] else []
  }

  /** The map holds the called spans of every id, as far as the first `n` go. */
  ghost predicate Indexed(ms: seq<Span>, children: map<string, seq<nat>>, n: nat) {
    n <= |ms| && forall id: string :: Kids(children, id) == Called(ms, id, n)
  }

  lemma IndexOne(ms: seq<Span>, children: map<string, seq<nat>>, n: nat)
    requires Indexed(ms, children, n) && n < |ms|
    ensures var parent := ms[n].parent;
      Indexed(ms, if Root(ms, n) then children else children[parent := Kids(children, parent) + [n]], n + 1)
  {
    var parent := ms[n].parent;
    var more := if Root(ms, n) then children else children[parent := Kids(children, parent) + [n]];
    forall id: string
      ensures Kids(more, id) == Called(ms, id, n + 1)
    {
      assert Kids(children, id) == Called(ms, id, n);
    }
  }

  /** Sorts the spans into roots and the children of each collected caller. */
  method Adjoin(ms: seq<Span>) returns (roots: seq<nat>, children: map<string, seq<nat>>)
    ensures roots == Roots(ms, |ms|) && Indexed(ms, children, |ms|)
  {
    var present := set i | 0 <= i < |ms| :: ms[i].id;
    roots, children := [], map[];
    for i := 0 to |ms|
      invariant roots == Roots(ms, i) && Indexed(ms, children, i)
    {
      var parent := ms[i].parent;
      assert parent in present <==> Lookup(ms, parent).Some?;
      IndexOne(ms, children, i);
      if parent == "" || parent !in present {
        roots := roots + [i];
      } else {
        children := children[parent := Kids(children, parent) + [i]];
      }
    }
  }

  /** Replaces the top of the stack by its children, the first on top. */
  method Open(ms: seq<Span>, children: map<string, seq<nat>>, stack: seq<Row>) returns (r: seq<Row>)
    requires stack != [] && stack[|stack| - 1].span < |ms| && Indexed(ms, children, |ms|)
    ensures r == Opened(ms, stack)
  {
    var top := stack[|stack| - 1];
    r := stack[..|stack| - 1] + Pushed(Kids(children, ms[top.span].id), top.depth + 1);
  }

  /** The explicit-stack walk emits the preorder, cut off only by its guard. */
  method Walk(ms: seq<Span>) returns (emitted: seq<Row>)
    requires UniqueIds(ms)
    ensures emitted == Cut(Preorder(ms))
  {
    RootsExactly(ms, |ms|);
    var roots, children := Adjoin(ms);
    var stack := Pushed(roots, 0);
    PendingOfPushed(ms, [], roots, 0);
    assert [] + stack == stack;
    emitted := [];
    ghost var full := Preorder(ms);
    var guard := 0;
    while stack != []
      invariant 0 <= guard <= GUARD && |emitted| == guard
      invariant Stacked(ms, stack) && full == emitted + Pending(ms, stack)
      decreases GUARD - guard, |stack|
    {
      var top := stack[|stack| - 1];
      PopTop(ms, stack);
      ghost var rest := Pending(ms, Opened(ms, stack));
      if guard > 4096 {
        CutHere(full, emitted, [top] + rest);
        return;
      }
      guard := guard + 1;
      Regroup2(emitted, top, rest);
      stack := Open(ms, children, stack);
      emitted := emitted + [top];
    }
    assert emitted + [] == emitted;
  }

  lemma Regroup2<T>(e: seq<T>, x: T, rest: seq<T>)
    ensures e + ([x] + rest) == (e + [x]) + rest
  {
  }

  lemma CutHere(full: seq<Row>, emitted: seq<Row>, rest: seq<Row>)
    requires full == emitted + rest && |emitted| == GUARD
    ensures emitted == Cut(full)
  {
    if rest == [] {
      assert full == emitted;
    }
  }

  // ---- what the preorder is ----

  /** Every row of a forest is one of its spans or lies under one of them, at its own depth. */
  lemma {:induction false} RowsAreAtDepth(ms: seq<Span>, spans: seq<nat>, d: nat, fuel: nat)
    requires UniqueIds(ms) && AllAtDepth(ms, spans, d)
    ensures forall r | r in Forest(ms, spans, d, fuel) :: r.depth >= d && r.span < |ms| && AtDepth(ms, r.span, r.depth)
    decreases fuel, |spans|
  {
    if spans != [] {
      assert spans[0] in spans;
      assert AllAtDepth(ms, spans[1..], d);
      RowsAreAtDepth(ms, spans[1..], d, fuel);
      if fuel > 0 {
        SiblingsAreBelow(ms, spans[0], d);
        RowsAreAtDepth(ms, Children(ms, spans[0]), d + 1, fuel - 1);
      }
    }
  }

  /** Each emitted depth is the number of the span's collected ancestors. */
  lemma DepthCountsAncestors(ms: seq<Span>, r: Row)
    requires UniqueIds(ms) && r in Preorder(ms)
    ensures r.span < |ms| && AtDepth(ms, r.span, r.depth)
  {
    RootsExactly(ms, |ms|);
    RowsAreAtDepth(ms, Roots(ms, |ms|), 0, |ms|);
  }

  lemma {:induction false} ForestContains(ms: seq<Span>, spans: seq<nat>, d: nat, fuel: nat, k: nat, r: Row)
    requires (forall x | x in spans :: x < |ms|) && k in spans && r in Subtree(ms, k, d, fuel)
    ensures r in Forest(ms, spans, d, fuel)
    decreases |spans|
  {
    assert spans[0] in spans && forall x | x in spans[1..] :: x in spans;
    if k != spans[0] {
      assert k in spans[1..];
      ForestContains(ms, spans[1..], d, fuel, k, r);
    }
  }

  /** Where a span of a forest is found, its children are found too. */
  lemma {:induction false} ForestIsClosed(ms: seq<Span>, spans: seq<nat>, d: nat, fuel: nat, p: Row, k: nat)
    requires UniqueIds(ms) && AllAtDepth(ms, spans, d) && p in Forest(ms, spans, d, fuel)
    requires p.span < |ms| && k in Children(ms, p.span) && p.depth + 1 < d + fuel
    ensures Row(k, p.depth + 1) in Forest(ms, spans, d, fuel)
    decreases fuel, 1, |spans|
  {
    assert spans != [] && spans[0] in spans && AllAtDepth(ms, spans[1..], d);
    if p in Forest(ms, spans[1..], d, fuel) {
      ForestIsClosed(ms, spans[1..], d, fuel, p, k);
    } else {
      SubtreeIsClosed(ms, spans[0], d, fuel, p, k);
    }
  }

  lemma {:induction false} SubtreeIsClosed(ms: seq<Span>, i: nat, d: nat, fuel: nat, p: Row, k: nat)
    requires UniqueIds(ms) && i < |ms| && AtDepth(ms, i, d) && p in Subtree(ms, i, d, fuel)
    requires p.span < |ms| && k in Children(ms, p.span) && p.depth + 1 < d + fuel
    ensures Row(k, p.depth + 1) in Subtree(ms, i, d, fuel)
    decreases fuel, 0, 0
  {
    var kids := Children(ms, i);
    SiblingsAreBelow(ms, i, d);
    if p == Row(i, d) {
      RowOfSpan(ms, k, d + 1, fuel - 1);
      ForestContains(ms, kids, d + 1, fuel - 1, k, Row(k, d + 1));
    } else {
      ForestIsClosed(ms, kids, d + 1, fuel - 1, p, k);
    }
  }

  lemma RowOfSpan(ms: seq<Span>, k: nat, d: nat, fuel: nat)
    requires k < |ms| && fuel > 0
    ensures Row(k, d) in Subtree(ms, k, d, fuel)
  {
    assert Subtree(ms, k, d, fuel)[0] == Row(k, d);
  }

  /** Every span that hangs from a root is in the chart. */
  lemma {:induction false} GroundedIsEmitted(ms: seq<Span>, i: nat, d: nat)
    requires UniqueIds(ms) && i < |ms| && AtDepth(ms, i, d)
    ensures Row(i, d) in Preorder(ms)
    decreases d
  {
    RootsExactly(ms, |ms|);
    DepthIsBounded(ms, i, d);
    if Root(ms, i) {
      RowOfSpan(ms, i, 0, |ms|);
      ForestContains(ms, Roots(ms, |ms|), 0, |ms|, i, Row(i, 0));
    } else {
      var p := ParentOf(ms, i);
      GroundedIsEmitted(ms, p, d - 1);
      CalledExactly(ms, ms[p].id, |ms|);
      ForestIsClosed(ms, Roots(ms, |ms|), 0, |ms|, Row(p, d - 1), i);
    }
  }

  // ---- once each, and nested under the caller ----

  lemma {:induction false} UpStep(ms: seq<Span>, x: nat, k: nat, c: nat)
    requires x < |ms| && c < |ms| && Up(ms, x, k) == Some(c) && !Root(ms, c)
    ensures Up(ms, x, k + 1) == Some(ParentOf(ms, c))
    decreases k
  {
    if k > 0 {
      UpStep(ms, ParentOf(ms, x), k - 1, c);
    } else {
      assert Up(ms, ParentOf(ms, c), 0) == Some(ParentOf(ms, c));
    }
  }

  /** The row lies at or under one of the spans at depth `d`. */
  predicate Under(ms: seq<Span>, r: Row, spans: seq<nat>, d: nat) {
    && r.span < |ms| && r.depth >= d && AtDepth(ms, r.span, r.depth)
    && Up(ms, r.span, r.depth - d).Some? && Up(ms, r.span, r.depth - d).value in spans
  }

  predicate AllUnder(ms: seq<Span>, rows: seq<Row>, spans: seq<nat>, d: nat) {
    forall k | 0 <= k < |rows| :: Under(ms, rows[k], spans, d)
  }

  predicate OnceEach(rows: seq<Row>) {
    forall j, k | 0 <= j < k < |rows| :: rows[j].span != rows[k].span
  }

  lemma {:induction false} ForestIsUnder(ms: seq<Span>, spans: seq<nat>, d: nat, fuel: nat)
    requires UniqueIds(ms) && AllAtDepth(ms, spans, d)
    ensures AllUnder(ms, Forest(ms, spans, d, fuel), spans, d)
    decreases fuel, 1, |spans|
  {
    if spans != [] {
      assert spans[0] in spans && AllAtDepth(ms, spans[1..], d);
      ForestIsUnder(ms, spans[1..], d, fuel);
      SubtreeIsUnder(ms, spans[0], d, fuel);
      var a, b := Subtree(ms, spans[0], d, fuel), Forest(ms, spans[1..], d, fuel);
      forall k | 0 <= k < |a + b|
        ensures Under(ms, (a + b)[k], spans, d)
      {
        if k < |a| {
          assert Under(ms, a[k], [spans[0]], d);
        } else {
          assert Under(ms, b[k - |a|], spans[1..], d);
        }
      }
    }
  }

  lemma {:induction false} SubtreeIsUnder(ms: seq<Span>, i: nat, d: nat, fuel: nat)
    requires UniqueIds(ms) && i < |ms| && AtDepth(ms, i, d)
    ensures AllUnder(ms, Subtree(ms, i, d, fuel), [i], d)
    decreases fuel, 0, 0
  {
    if fuel > 0 {
      SiblingsAreBelow(ms, i, d);
      ForestIsUnder(ms, Children(ms, i), d + 1, fuel - 1);
      var f := Forest(ms, Children(ms, i), d + 1, fuel - 1);
      forall k | 0 <= k < |f|
        ensures Under(ms, f[k], [i], d)
      {
        UnderParent(ms, f[k], i, d);
      }
      assert Under(ms, Row(i, d), [i], d);
    }
  }

  lemma UnderParent(ms: seq<Span>, r: Row, i: nat, d: nat)
    requires UniqueIds(ms) && i < |ms| && AtDepth(ms, i, d) && Under(ms, r, Children(ms, i), d + 1)
    ensures Under(ms, r, [i], d)
  {
    var c := Up(ms, r.span, r.depth - d - 1).value;
    ChildrenAreBelow(ms, i, c, d);
    UpStep(ms, r.span, r.depth - d - 1, c);
  }

  /** Rows under different siblings are different spans. */
  lemma SiblingsApart(ms: seq<Span>, a: Row, b: Row, i: nat, rest: seq<nat>, d: nat)
    requires Under(ms, a, [i], d) && Under(ms, b, rest, d) && i !in rest
    ensures a.span != b.span
  {
    if a.span == b.span {
      DepthIsUnique(ms, a.span, a.depth, b.depth);
    }
  }

  lemma {:induction false} ForestIsOnceEach(ms: seq<Span>, spans: seq<nat>, d: nat, fuel: nat)
    requires UniqueIds(ms) && AllAtDepth(ms, spans, d) && Distinct(spans)
    ensures OnceEach(Forest(ms, spans, d, fuel))
    decreases fuel, 1, |spans|
  {
    if spans != [] {
      assert spans[0] in spans && AllAtDepth(ms, spans[1..], d) && spans[0] !in spans[1..];
      ForestIsOnceEach(ms, spans[1..], d, fuel);
      SubtreeIsOnceEach(ms, spans[0], d, fuel);
      SubtreeIsUnder(ms, spans[0], d, fuel);
      ForestIsUnder(ms, spans[1..], d, fuel);
      var a, b := Subtree(ms, spans[0], d, fuel), Forest(ms, spans[1..], d, fuel);
      forall j, k | 0 <= j < |a| && 0 <= k < |b|
        ensures a[j].span != b[k].span
      {
        SiblingsApart(ms, a[j], b[k], spans[0], spans[1..], d);
      }
    }
  }

  lemma {:induction false} SubtreeIsOnceEach(ms: seq<Span>, i: nat, d: nat, fuel: nat)
    requires UniqueIds(ms) && i < |ms| && AtDepth(ms, i, d)
    ensures OnceEach(Subtree(ms, i, d, fuel))
    decreases fuel, 0, 0
  {
    if fuel > 0 {
      var kids := Children(ms, i);
      SiblingsAreBelow(ms, i, d);
      CalledExactly(ms, ms[i].id, |ms|);
      ForestIsOnceEach(ms, kids, d + 1, fuel - 1);
      ForestIsUnder(ms, kids, d + 1, fuel - 1);
      var f := Forest(ms, kids, d + 1, fuel - 1);
      forall k | 0 <= k < |f|
        ensures f[k].span != i
      {
        assert Under(ms, f[k], kids, d + 1);
        if f[k].span == i {
          DepthIsUnique(ms, i, d, f[k].depth);
        }
      }
    }
  }

  /** No span is emitted twice, whether or not the guard cuts the chart off. */
  lemma NoSpanTwice(ms: seq<Span>)
    requires UniqueIds(ms)
    ensures OnceEach(Preorder(ms)) && OnceEach(Cut(Preorder(ms)))
  {
    RootsExactly(ms, |ms|);
    ForestIsOnceEach(ms, Roots(ms, |ms|), 0, |ms|);
  }

  /** The nearest row above of smaller depth is the caller's. */
  predicate CallerAt(ms: seq<Span>, rows: seq<Row>, m: nat, k: nat) {
    && m < k < |rows| && rows[k].span < |ms| && !Root(ms, rows[k].span) && rows[k].depth > 0
    && rows[m] == Row(ParentOf(ms, rows[k].span), rows[k].depth - 1)
    && forall q | m < q < k :: rows[q].depth >= rows[k].depth
  }

  ghost predicate HasCaller(ms: seq<Span>, rows: seq<Row>, k: nat) {
    exists m: nat :: CallerAt(ms, rows, m, k)
  }

  ghost predicate Nested(ms: seq<Span>, rows: seq<Row>, d: nat) {
    forall k: nat | k < |rows| :: rows[k].depth == d || HasCaller(ms, rows, k)
  }

  lemma CallerPrefix(ms: seq<Span>, a: seq<Row>, b: seq<Row>, k: nat)
    requires HasCaller(ms, a, k)
    ensures HasCaller(ms, a + b, k)
  {
    var m: nat :| CallerAt(ms, a, m, k);
    assert CallerAt(ms, a + b, m, k);
  }

  lemma CallerShift(ms: seq<Span>, a: seq<Row>, b: seq<Row>, k: nat)
    requires HasCaller(ms, b, k)
    ensures HasCaller(ms, a + b, |a| + k)
  {
    var m: nat :| CallerAt(ms, b, m, k);
    var c := a + b;
    assert c[|a| + k] == b[k] && c[|a| + m] == b[m];
    forall q | |a| + m < q < |a| + k
      ensures c[q].depth >= c[|a| + k].depth
    {
      assert c[q] == b[q - |a|];
    }
    assert CallerAt(ms, c, |a| + m, |a| + k);
  }

  lemma NestedConcat(ms: seq<Span>, a: seq<Row>, b: seq<Row>, d: nat)
    requires Nested(ms, a, d) && Nested(ms, b, d)
    ensures Nested(ms, a + b, d)
  {
    var c := a + b;
    forall k: nat | k < |c| && c[k].depth != d
      ensures HasCaller(ms, c, k)
    {
      CallerInConcat(ms, a, b, d, k);
    }
  }

  lemma NestedAt(ms: seq<Span>, rows: seq<Row>, d: nat, k: nat)
    requires Nested(ms, rows, d) && k < |rows| && rows[k].depth != d
    ensures HasCaller(ms, rows, k)
  {
  }

  lemma CallerInConcat(ms: seq<Span>, a: seq<Row>, b: seq<Row>, d: nat, k: nat)
    requires Nested(ms, a, d) && Nested(ms, b, d) && k < |a + b| && (a + b)[k].depth != d
    ensures HasCaller(ms, a + b, k)
  {
    if k < |a| {
      NestedAt(ms, a, d, k);
      CallerPrefix(ms, a, b, k);
    } else {
      NestedAt(ms, b, d, k - |a|);
      CallerShift(ms, a, b, k - |a|);
    }
  }

  lemma NoShallowerRow(ms: seq<Span>, i: nat, d: nat, f: seq<Row>, spans: seq<nat>, q: nat)
    requires AllUnder(ms, f, spans, d + 1) && 0 < q <= |f|
    ensures ([Row(i, d)] + f)[q].depth >= d + 1
  {
    assert Under(ms, f[q - 1], spans, d + 1);
  }

  lemma ChildRow(ms: seq<Span>, i: nat, d: nat, r: Row)
    requires UniqueIds(ms) && i < |ms| && AtDepth(ms, i, d) && Under(ms, r, Children(ms, i), d + 1) && r.depth == d + 1
    ensures r.span < |ms| && !Root(ms, r.span) && ParentOf(ms, r.span) == i
  {
    ChildrenAreBelow(ms, i, r.span, d);
  }

  /** The rows right under a span have it as their caller. */
  lemma FirstIsCaller(ms: seq<Span>, i: nat, d: nat, f: seq<Row>, k: nat)
    requires UniqueIds(ms) && i < |ms| && AtDepth(ms, i, d) && k < |f| && f[k].depth == d + 1
    requires AllUnder(ms, f, Children(ms, i), d + 1)
    ensures HasCaller(ms, [Row(i, d)] + f, k + 1)
  {
    var c := [Row(i, d)] + f;
    ChildRow(ms, i, d, f[k]);
    forall q | 0 < q < k + 1
      ensures c[q].depth >= d + 1
    {
      NoShallowerRow(ms, i, d, f, Children(ms, i), q);
    }
    assert c[k + 1] == f[k];
    assert c[0] == Row(i, d);
    assert CallerAt(ms, c, 0, k + 1);
  }

  lemma NestedPrepend(ms: seq<Span>, i: nat, d: nat, f: seq<Row>)
    requires UniqueIds(ms) && i < |ms| && AtDepth(ms, i, d)
    requires Nested(ms, f, d + 1) && AllUnder(ms, f, Children(ms, i), d + 1)
    ensures Nested(ms, [Row(i, d)] + f, d)
  {
    var c := [Row(i, d)] + f;
    forall k: nat | k < |c| && c[k].depth != d
      ensures HasCaller(ms, c, k)
    {
      assert c[k] == f[k - 1];
      if f[k - 1].depth == d + 1 {
        FirstIsCaller(ms, i, d, f, k - 1);
      } else {
        assert HasCaller(ms, f, k - 1);
        CallerShift(ms, [Row(i, d)], f, k - 1);
      }
    }
  }

  lemma SubtreeUnfolds(ms: seq<Span>, i: nat, d: nat, fuel: nat)
    requires i < |ms| && fuel > 0
    ensures (forall k | k in Children(ms, i) :: k < |ms|)
    ensures Subtree(ms, i, d, fuel) == [Row(i, d)] + Forest(ms, Children(ms, i), d + 1, fuel - 1)
  {
    CalledExactly(ms, ms[i].id, |ms|);
  }

  lemma {:induction false} SubtreeIsNested(ms: seq<Span>, i: nat, d: nat, fuel: nat)
    requires UniqueIds(ms) && i < |ms| && AtDepth(ms, i, d)
    ensures Nested(ms, Subtree(ms, i, d, fuel), d)
    decreases fuel, 0, 0
  {
    if fuel > 0 {
      SubtreeUnfolds(ms, i, d, fuel);
      BelowIsNested(ms, i, d, fuel);
    }
  }

  lemma {:induction false} BelowIsNested(ms: seq<Span>, i: nat, d: nat, fuel: nat)
    requires UniqueIds(ms) && i < |ms| && AtDepth(ms, i, d) && fuel > 0
    requires forall k | k in Children(ms, i) :: k < |ms|
    ensures Nested(ms, [Row(i, d)] + Forest(ms, Children(ms, i), d + 1, fuel - 1), d)
    decreases fuel - 1, 3, 0
  {
    ChildrenAreNested(ms, i, d, fuel);
    ChildrenAreUnder(ms, i, d, fuel);
    NestedPrepend(ms, i, d, Forest(ms, Children(ms, i), d + 1, fuel - 1));
  }

  lemma {:induction false} ChildrenAreNested(ms: seq<Span>, i: nat, d: nat, fuel: nat)
    requires UniqueIds(ms) && i < |ms| && AtDepth(ms, i, d) && fuel > 0
    requires forall k | k in Children(ms, i) :: k < |ms|
    ensures Nested(ms, Forest(ms, Children(ms, i), d + 1, fuel - 1), d + 1)
    decreases fuel - 1, 2, 0
  {
    SiblingsAreBelow(ms, i, d);
    ForestIsNested(ms, Children(ms, i), d + 1, fuel - 1);
  }

  lemma ChildrenAreUnder(ms: seq<Span>, i: nat, d: nat, fuel: nat)
    requires UniqueIds(ms) && i < |ms| && AtDepth(ms, i, d) && fuel > 0
    requires forall k | k in Children(ms, i) :: k < |ms|
    ensures AllUnder(ms, Forest(ms, Children(ms, i), d + 1, fuel - 1), Children(ms, i), d + 1)
  {
    SiblingsAreBelow(ms, i, d);
    ForestIsUnder(ms, Children(ms, i), d + 1, fuel - 1);
  }

  lemma {:induction false} ForestIsNested(ms: seq<Span>, spans: seq<nat>, d: nat, fuel: nat)
    requires UniqueIds(ms) && AllAtDepth(ms, spans, d)
    ensures Nested(ms, Forest(ms, spans, d, fuel), d)
    decreases fuel, 1, |spans|
  {
    if spans != [] {
      assert spans[0] in spans && AllAtDepth(ms, spans[1..], d);
      SubtreeIsNested(ms, spans[0], d, fuel);
      ForestIsNested(ms, spans[1..], d, fuel);
      NestedConcat(ms, Subtree(ms, spans[0], d, fuel), Forest(ms, spans[1..], d, fuel), d);
    }
  }

  lemma PreorderIsNested(ms: seq<Span>)
    requires UniqueIds(ms)
    ensures Nested(ms, Preorder(ms), 0)
  {
    RootsExactly(ms, |ms|);
    ForestIsNested(ms, Roots(ms, |ms|), 0, |ms|);
  }

  lemma CallerInPrefix(ms: seq<Span>, rows: seq<Row>, n: nat, k: nat)
    requires k < n <= |rows| && HasCaller(ms, rows, k)
    ensures HasCaller(ms, rows[..n], k)
  {
    var m: nat :| CallerAt(ms, rows, m, k);
    assert CallerAt(ms, rows[..n], m, k);
  }

  /** Reading the indentation of the emitted rows gives each span's caller back. */
  lemma IndentationShowsTheCaller(ms: seq<Span>, k: nat)
    requires UniqueIds(ms) && k < |Cut(Preorder(ms))|
    ensures var rows := Cut(Preorder(ms)); rows[k].depth == 0 || HasCaller(ms, rows, k)
  {
    var full := Preorder(ms);
    PreorderIsNested(ms);
    assert full[k].depth == 0 || HasCaller(ms, full, k);
    if full[k].depth != 0 && |full| > GUARD {
      CallerInPrefix(ms, full, GUARD, k);
    }
  }

  function SpansOf(rows: seq<Row>): seq<nat> {
    seq(|rows|, k requires 0 <= k < |rows| => rows[k].span)
  }

  // ---- siblings stand in the order they were collected ----

  /** Two spans of one caller, or two without a collected one. */
  predicate Brothers(ms: seq<Span>, a: nat, b: nat)
    requires a < |ms| && b < |ms|
  {
    (Root(ms, a) && Root(ms, b)) || (!Root(ms, a) && !Root(ms, b) && ms[a].parent == ms[b].parent)
  }

  predicate InCollectionOrder(ms: seq<Span>, rows: seq<Row>) {
    forall j, k | 0 <= j < k < |rows| :: OrderedPair(ms, rows[j].span, rows[k].span)
  }

  predicate OrderedPair(ms: seq<Span>, a: nat, b: nat) {
    a < |ms| && b < |ms| && Brothers(ms, a, b) ==> a < b
  }

  lemma BrothersAreLevel(ms: seq<Span>, a: nat, b: nat, d: nat, e: nat)
    requires a < |ms| && b < |ms| && Brothers(ms, a, b) && AtDepth(ms, a, d) && AtDepth(ms, b, e)
    ensures d == e
  {
    if !Root(ms, a) {
      DepthIsUnique(ms, ParentOf(ms, a), d - 1, e - 1);
    }
  }

  /** Brothers have the same callers from the first on. */
  lemma BrothersMeet(ms: seq<Span>, a: nat, b: nat, k: nat)
    requires a < |ms| && b < |ms| && Brothers(ms, a, b) && k > 0
    ensures Up(ms, a, k) == Up(ms, b, k)
  {
    assert Root(ms, a) ==> Up(ms, a, k) == None && Up(ms, b, k) == None;
    assert !Root(ms, a) ==> ParentOf(ms, a) == ParentOf(ms, b);
  }

  lemma AcrossSiblings(ms: seq<Span>, a: Row, b: Row, i: nat, rest: seq<nat>, d: nat)
    requires Under(ms, a, [i], d) && Under(ms, b, rest, d) && Increasing([i] + rest)
    ensures OrderedPair(ms, a.span, b.span)
  {
    if Brothers(ms, a.span, b.span) {
      BrothersAreLevel(ms, a.span, b.span, a.depth, b.depth);
      FirstIsLeast(i, rest);
      if a.depth > d {
        BrothersMeet(ms, a.span, b.span, a.depth - d);
      }
    }
  }

  lemma FirstIsLeast(i: nat, rest: seq<nat>)
    requires Increasing([i] + rest)
    ensures Increasing(rest) && forall k | k in rest :: i < k
  {
    var all := [i] + rest;
    assert forall k | 0 <= k < |rest| :: all[k + 1] == rest[k] && all[0] < all[k + 1];
  }

  lemma {:induction false} ForestIsInOrder(ms: seq<Span>, spans: seq<nat>, d: nat, fuel: nat)
    requires UniqueIds(ms) && AllAtDepth(ms, spans, d) && Increasing(spans)
    ensures InCollectionOrder(ms, Forest(ms, spans, d, fuel))
    decreases fuel, 1, |spans|
  {
    if spans != [] {
      var i, rest := spans[0], spans[1..];
      assert spans == [i] + rest && i in spans && AllAtDepth(ms, rest, d);
      FirstIsLeast(i, rest);
      ForestIsInOrder(ms, rest, d, fuel);
      SubtreeIsInOrder(ms, i, d, fuel);
      SubtreeIsUnder(ms, i, d, fuel);
      ForestIsUnder(ms, rest, d, fuel);
      OrderConcat(ms, Subtree(ms, i, d, fuel), Forest(ms, rest, d, fuel), i, rest, d);
    }
  }

  lemma OrderConcat(ms: seq<Span>, a: seq<Row>, b: seq<Row>, i: nat, rest: seq<nat>, d: nat)
    requires InCollectionOrder(ms, a) && InCollectionOrder(ms, b)
    requires AllUnder(ms, a, [i], d) && AllUnder(ms, b, rest, d) && Increasing([i] + rest)
    ensures InCollectionOrder(ms, a + b)
  {
    forall j, k | 0 <= j < |a| && 0 <= k < |b|
      ensures OrderedPair(ms, a[j].span, b[k].span)
    {
      AcrossSiblings(ms, a[j], b[k], i, rest, d);
    }
  }

  lemma ChildrenIncrease(ms: seq<Span>, i: nat)
    requires i < |ms|
    ensures Increasing(Children(ms, i)) && forall k | k in Children(ms, i) :: k < |ms|
  {
    CalledExactly(ms, ms[i].id, |ms|);
  }

  lemma {:induction false} SubtreeIsInOrder(ms: seq<Span>, i: nat, d: nat, fuel: nat)
    requires UniqueIds(ms) && i < |ms| && AtDepth(ms, i, d)
    ensures InCollectionOrder(ms, Subtree(ms, i, d, fuel))
    decreases fuel, 0, 0
  {
    if fuel > 0 {
      ChildrenIncrease(ms, i);
      SiblingsAreBelow(ms, i, d);
      BelowIsInOrder(ms, i, d, fuel);
      SubtreeUnfolds(ms, i, d, fuel);
    }
  }

  lemma {:induction false} BelowIsInOrder(ms: seq<Span>, i: nat, d: nat, fuel: nat)
    requires UniqueIds(ms) && i < |ms| && AtDepth(ms, i, d) && fuel > 0
    requires Increasing(Children(ms, i)) && AllAtDepth(ms, Children(ms, i), d + 1)
    ensures InCollectionOrder(ms, [Row(i, d)] + Forest(ms, Children(ms, i), d + 1, fuel - 1))
    decreases fuel - 1, 2, 0
  {
    var kids := Children(ms, i);
    ForestIsInOrder(ms, kids, d + 1, fuel - 1);
    ForestIsUnder(ms, kids, d + 1, fuel - 1);
    CallerInOrder(ms, i, d, Forest(ms, kids, d + 1, fuel - 1), kids);
  }

  lemma CallerInOrder(ms: seq<Span>, i: nat, d: nat, f: seq<Row>, kids: seq<nat>)
    requires i < |ms| && AtDepth(ms, i, d) && AllUnder(ms, f, kids, d + 1) && InCollectionOrder(ms, f)
    ensures InCollectionOrder(ms, [Row(i, d)] + f)
  {
    forall k | 0 <= k < |f|
      ensures OrderedPair(ms, i, f[k].span)
    {
      assert Under(ms, f[k], kids, d + 1);
      if Brothers(ms, i, f[k].span) {
        BrothersAreLevel(ms, i, f[k].span, d, f[k].depth);
      }
    }
  }

  /** Spans of one caller, and the roots, have their rows in the order they were collected. */
  lemma SiblingsStayInOrder(ms: seq<Span>)
    requires UniqueIds(ms)
    ensures InCollectionOrder(ms, Preorder(ms)) && InCollectionOrder(ms, Cut(Preorder(ms)))
  {
    RootsExactly(ms, |ms|);
    ForestIsInOrder(ms, Roots(ms, |ms|), 0, |ms|);
  }

  /** A row is flush left exactly when its span names no caller, or one that was not collected. */
  lemma FlushLeftExactly(ms: seq<Span>, r: Row)
    requires UniqueIds(ms) && r in Preorder(ms)
    ensures r.span < |ms| && (r.depth == 0
      <==> ms[r.span].parent == "" || forall i | 0 <= i < |ms| :: ms[i].id != ms[r.span].parent)
  {
    DepthCountsAncestors(ms, r);
  }

  // ---- traces whose callers form no cycle ----

  /** No span is its own caller, however far up. */
  ghost predicate NoCycle(ms: seq<Span>) {
    forall i: nat, k: nat | i < |ms| && k > 0 :: Up(ms, i, k) != Some(i)
  }

  lemma {:induction false} UpStays(ms: seq<Span>, i: nat, k: nat)
    requires i < |ms|
    ensures Up(ms, i, k).Some? ==> Up(ms, i, k).value < |ms|
    decreases k
  {
    if k > 0 && !Root(ms, i) {
      UpStays(ms, ParentOf(ms, i), k - 1);
    }
  }

  lemma {:induction false} UpAdds(ms: seq<Span>, i: nat, j: nat, k: nat)
    requires i < |ms| && Up(ms, i, j).Some? && Up(ms, i, j).value < |ms|
    ensures Up(ms, i, j + k) == Up(ms, Up(ms, i, j).value, k)
    decreases j
  {
    if j > 0 {
      UpAdds(ms, ParentOf(ms, i), j - 1, k);
    }
  }

  lemma {:induction false} UpShorter(ms: seq<Span>, i: nat, j: nat, k: nat)
    requires i < |ms| && j <= k && Up(ms, i, k).Some?
    ensures Up(ms, i, j).Some?
    decreases j
  {
    if j > 0 {
      UpShorter(ms, ParentOf(ms, i), j - 1, k - 1);
    }
  }

  /** A span whose callers run out hangs from a root. */
  lemma {:induction false} EndedIsGrounded(ms: seq<Span>, i: nat, k: nat) returns (d: nat)
    requires i < |ms| && Up(ms, i, k).None?
    ensures AtDepth(ms, i, d)
    decreases k
  {
    if Root(ms, i) {
      d := 0;
    } else {
      d := EndedIsGrounded(ms, ParentOf(ms, i), k - 1);
      d := d + 1;
    }
  }

  function Callers(ms: seq<Span>, i: nat, n: nat): (r: seq<nat>)
    requires i < |ms| && forall k | 0 <= k < n :: Up(ms, i, k).Some?
    ensures |r| == n
  {
    seq(n, k requires 0 <= k < n => Up(ms, i, k).value)
  }

  lemma CallersApart(ms: seq<Span>, i: nat, j: nat, k: nat)
    requires NoCycle(ms) && i < |ms| && j < k && Up(ms, i, j).Some? && Up(ms, i, k).Some?
    ensures Up(ms, i, j) != Up(ms, i, k)
  {
    UpStays(ms, i, j);
    UpAdds(ms, i, j, k - j);
    assert Up(ms, Up(ms, i, j).value, k - j) != Some(Up(ms, i, j).value);
  }

  /** Without a cycle the callers run out before there are as many as spans. */
  lemma CallersRunOut(ms: seq<Span>, i: nat)
    requires NoCycle(ms) && i < |ms|
    ensures Up(ms, i, |ms|).None?
  {
    if Up(ms, i, |ms|).Some? {
      forall k: nat | k <= |ms| ensures Up(ms, i, k).Some? {
        UpShorter(ms, i, k, |ms|);
      }
      var p := Callers(ms, i, |ms| + 1);
      forall j, k | 0 <= j < k < |p| ensures p[j] != p[k] {
        CallersApart(ms, i, j, k);
      }
      forall k | 0 <= k < |p| ensures p[k] < |ms| {
        UpStays(ms, i, k);
      }
      SimplePathIsShort(|ms|, p);
    }
  }

  lemma {:induction false} UpIsShallower(ms: seq<Span>, i: nat, d: nat, k: nat)
    requires i < |ms| && AtDepth(ms, i, d) && Up(ms, i, k).Some?
    ensures k <= d && Up(ms, i, k).value < |ms| && AtDepth(ms, Up(ms, i, k).value, d - k)
    decreases k
  {
    if k > 0 {
      UpIsShallower(ms, ParentOf(ms, i), d - 1, k - 1);
    }
  }

  lemma GroundedIsNoLoop(ms: seq<Span>, i: nat, k: nat)
    requires Grounded(ms, i) && k > 0
    ensures Up(ms, i, k) != Some(i)
  {
    var d: nat :| AtDepth(ms, i, d);
    if Up(ms, i, k) == Some(i) {
      UpIsShallower(ms, i, d, k);
      DepthIsUnique(ms, i, d, d - k);
    }
  }

  /** Every span hangs from a root exactly when no span is its own caller. */
  lemma GroundedExactlyWithoutCycle(ms: seq<Span>)
    ensures (forall i: nat | i < |ms| :: Grounded(ms, i)) <==> NoCycle(ms)
  {
    if NoCycle(ms) {
      forall i: nat | i < |ms| ensures Grounded(ms, i) {
        CallersRunOut(ms, i);
        var d := EndedIsGrounded(ms, i, |ms|);
      }
    }
    if forall i: nat | i < |ms| :: Grounded(ms, i) {
      forall i: nat, k: nat | i < |ms| && k > 0 ensures Up(ms, i, k) != Some(i) {
        GroundedIsNoLoop(ms, i, k);
      }
    }
  }

  lemma ShownExactly(ms: seq<Span>, i: nat)
    requires UniqueIds(ms) && i < |ms|
    ensures i in SpansOf(Preorder(ms)) <==> Grounded(ms, i)
  {
    var rows := Preorder(ms);
    if Grounded(ms, i) {
      var d :| AtDepth(ms, i, d);
      GroundedIsEmitted(ms, i, d);
      var k :| 0 <= k < |rows| && rows[k] == Row(i, d);
      assert SpansOf(rows)[k] == i;
    }
    if i in SpansOf(rows) {
      var k :| 0 <= k < |rows| && SpansOf(rows)[k] == i;
      DepthCountsAncestors(ms, rows[k]);
    }
  }

  lemma EqualCount<T>(a: set<T>, b: set<T>)
    requires a <= b && |a| == |b|
    ensures a == b
  {
    if x :| x in b && x !in a {
      SubsetCount(a, b - {x});
    }
  }

  lemma FullListHoldsAll(s: seq<nat>, n: nat)
    requires Distinct(s) && |s| == n && forall i | i in s :: i < n
    ensures forall i: nat | i < n :: i in s
  {
    DistinctCount(s);
    assert SetOf(s) <= Below(n);
    EqualCount(SetOf(s), Below(n));
    forall i: nat | i < n ensures i in s {
      assert i in Below(n) && i in SetOf(s);
    }
  }

  lemma AllHeldIsFull(s: seq<nat>, n: nat)
    requires Distinct(s) && (forall i | i in s :: i < n) && forall i: nat | i < n :: i in s
    ensures |s| == n
  {
    DistinctCount(s);
    assert forall i :: i in SetOf(s) <==> i in Below(n);
    assert SetOf(s) == Below(n);
  }

  /** Distinct numbers below `n` are as many as `n` exactly when none is missing. */
  lemma CountDecides(s: seq<nat>, n: nat)
    requires Distinct(s) && forall i | i in s :: i < n
    ensures |s| == n <==> forall i: nat | i < n :: i in s
  {
    if |s| == n {
      FullListHoldsAll(s, n);
    } else if forall i: nat | i < n :: i in s {
      AllHeldIsFull(s, n);
    }
  }

  lemma SpansAreCollected(ms: seq<Span>)
    requires UniqueIds(ms)
    ensures Distinct(SpansOf(Preorder(ms))) && forall i | i in SpansOf(Preorder(ms)) :: i < |ms|
  {
    NoSpanTwice(ms);
    var rows := Preorder(ms);
    forall i | i in SpansOf(rows) ensures i < |ms| {
      var k :| 0 <= k < |rows| && SpansOf(rows)[k] == i;
      DepthCountsAncestors(ms, rows[k]);
    }
  }

  /** The chart has as many rows as spans exactly when no span is its own caller; within the guard
      all of them are emitted. */
  lemma WholeTraceIsShown(ms: seq<Span>)
    requires UniqueIds(ms)
    ensures |Preorder(ms)| == |ms| <==> NoCycle(ms)
    ensures NoCycle(ms) && |ms| <= 4097 ==> |Cut(Preorder(ms))| == |ms|
    ensures |Cut(Preorder(ms))| <= 4097
  {
    var spans := SpansOf(Preorder(ms));
    SpansAreCollected(ms);
    CountDecides(spans, |ms|);
    GroundedExactlyWithoutCycle(ms);
    forall i: nat | i < |ms| ensures i in spans <==> Grounded(ms, i) {
      ShownExactly(ms, i);
    }
  }
}
