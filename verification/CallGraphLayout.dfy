/** The layered layout of the call-graph page: the barycenter sweeps that reorder each row, and the
    boxes the rows become. */
module CallGraphLayout {
  import opened CallGraphLayers
  import opened GraphPaths
  import opened StableSort

  // ---- rows ----

  /** Each node stands in the row of its layer, and nowhere else, and only once. */
  ghost predicate Arranged(layer: seq<nat>, rows: seq<seq<nat>>) {
    && (forall v: nat | v < |layer| :: layer[v] < |rows| && v in rows[layer[v]])
    && (forall l | 0 <= l < |rows| :: RowOf(layer, rows[l], l))
  }

  ghost predicate RowOf(layer: seq<nat>, row: seq<nat>, l: nat) {
    Distinct(row) && forall v | v in row :: v < |layer| && layer[v] == l
  }

  function MaxOf(layer: seq<nat>): (m: nat)
    ensures forall v | 0 <= v < |layer| :: layer[v] <= m
    ensures m == 0 || exists v :: 0 <= v < |layer| && layer[v] == m
  {
    if layer == [] then 0
    else
      var k := |layer| - 1;
      if layer[k] > MaxOf(layer[..k]) then layer[k] else MaxOf(layer[..k])
  }

  lemma AppendToRow(layer: seq<nat>, row: seq<nat>, v: nat)
    requires v < |layer| && RowOf(layer, row, layer[v]) && forall u | u in row :: u < v
    ensures RowOf(layer, row + [v], layer[v])
  {
    assert forall i | 0 <= i < |row| :: row[i] in row;
  }

  method Rows(layer: seq<nat>) returns (rows: seq<seq<nat>>)
    ensures |rows| == MaxOf(layer) + 1 && Arranged(layer, rows)
  {
    rows := seq(MaxOf(layer) + 1, l => []);
    var v := 0;
    while v < |layer|
      invariant 0 <= v <= |layer| && |rows| == MaxOf(layer) + 1
      invariant forall u: nat | u < v :: u in rows[layer[u]]
      invariant forall l | 0 <= l < |rows| :: RowOf(layer, rows[l], l)
      invariant forall l | 0 <= l < |rows| :: forall u | u in rows[l] :: u < v
    {
      ghost var before := rows;
      AppendToRow(layer, rows[layer[v]], v);
      rows := rows[layer[v] := rows[layer[v]] + [v]];
      assert forall u: nat | u < v :: u in before[layer[u]];
      v := v + 1;
    }
  }

  /** The positions after a row was numbered from left to right. */
  function Position(row: seq<nat>, pos: seq<nat>): (r: seq<nat>)
    ensures |r| == |pos|
  {
    if row == [] then pos
    else
      var k := |row| - 1;
      var before := Position(row[..k], pos);
      if row[k] < |pos| then before[row[k] := k] else before
  }

  /** The nodes of a row have their places in it, and all others stay where they were. */
  lemma {:induction false} PositionsOfRow(row: seq<nat>, pos: seq<nat>)
    requires Distinct(row)
    ensures forall i | 0 <= i < |row| && row[i] < |pos| :: Position(row, pos)[row[i]] == i
    ensures forall v | 0 <= v < |pos| && v !in row :: Position(row, pos)[v] == pos[v]
  {
    if row != [] {
      var k := |row| - 1;
      PositionsOfRow(row[..k], pos);
      assert row == row[..k] + [row[k]];
    }
  }

  function SumOf(vs: seq<nat>, pos: seq<nat>): nat {
    if vs == [] then 0 else (if vs[0] < |pos| then pos[vs[0]] else 0) + SumOf(vs[1..], pos)
  }

  /** The mean of the positions of some nodes. */
  function Mean(vs: seq<nat>, pos: seq<nat>): real
    requires vs != []
  {
    SumOf(vs, pos) as real / |vs| as real
  }

  /** The sum is the position itself for one node, and adds up over two groups. */
  lemma {:induction false} SumIsAdditive(a: seq<nat>, b: seq<nat>, pos: seq<nat>)
    ensures SumOf(a + b, pos) == SumOf(a, pos) + SumOf(b, pos)
    ensures |a| == 1 && a[0] < |pos| ==> SumOf(a, pos) == pos[a[0]]
  {
    if a == [] {
      assert a + b == b;
    } else {
      assert (a + b)[1..] == a[1..] + b;
      SumIsAdditive(a[1..], b, pos);
    }
  }

  lemma Quotient(x: real, n: real)
    requires n > 0.0
    ensures x / n * n == x
  {
  }

  lemma MeanTimesSize(vs: seq<nat>, pos: seq<nat>)
    requires vs != []
    ensures Mean(vs, pos) * |vs| as real == SumOf(vs, pos) as real
  {
    Quotient(SumOf(vs, pos) as real, |vs| as real);
  }

  /** The mean position of a node's neighbours, or its own when it has none. */
  function Bary(v: nat, adj: seq<seq<nat>>, pos: seq<nat>): real {
    if v < |adj| && v < |pos| then if adj[v] == [] then pos[v] as real else Mean(adj[v], pos) else 0.0
  }

  function ByBary(adj: seq<seq<nat>>, pos: seq<nat>): (nat, nat) -> bool {
    (a: nat, b: nat) => Bary(a, adj, pos) <= Bary(b, adj, pos)
  }

  lemma ByBaryIsAnOrder(adj: seq<seq<nat>>, pos: seq<nat>)
    ensures TotalPreorder(ByBary(adj, pos))
  {
  }

  lemma SortedRow(layer: seq<nat>, row: seq<nat>, l: nat, le: (nat, nat) -> bool)
    requires RowOf(layer, row, l)
    ensures RowOf(layer, Sort(row, le), l) && forall v :: v in Sort(row, le) <==> v in row
  {
    SortKeepsMembers(row, le);
    assert DistinctBy(row, (v: nat) => v);
    SortKeepsDistinct(row, le, (v: nat) => v);
  }

  lemma RearrangeRow(layer: seq<nat>, rows: seq<seq<nat>>, l: nat, le: (nat, nat) -> bool)
    requires Arranged(layer, rows) && l < |rows|
    ensures Arranged(layer, rows[l := Sort(rows[l], le)])
  {
    SortedRow(layer, rows[l], l, le);
    var more := rows[l := Sort(rows[l], le)];
    forall v: nat | v < |layer|
      ensures layer[v] < |more| && v in more[layer[v]]
    {
      assert v in rows[layer[v]];
    }
  }

  // ---- the sweeps ----

  datatype Drawing = Drawing(rows: seq<seq<nat>>, pos: seq<nat>)

  /** One row put in barycenter order and numbered again. */
  function Reordered(d: Drawing, l: nat, adj: seq<seq<nat>>): (r: Drawing)
    ensures |r.rows| == |d.rows| && |r.pos| == |d.pos|
  {
    if l < |d.rows| then
      var row := Sort(d.rows[l], ByBary(adj, d.pos));
      Drawing(d.rows[l := row], Position(row, d.pos))
    else d
  }

  /** The sweep downwards, from the second row up to and without row `l`. */
  function Down(d: Drawing, incoming: seq<seq<nat>>, l: nat): (r: Drawing)
    ensures |r.rows| == |d.rows| && |r.pos| == |d.pos|
  {
    if l <= 1 then d else Reordered(Down(d, incoming, l - 1), l - 1, incoming)
  }

  /** The sweep upwards, from the last row but one to row `l`. */
  function Up(d: Drawing, outgoing: seq<seq<nat>>, l: nat): (r: Drawing)
    ensures |r.rows| == |d.rows| && |r.pos| == |d.pos|
    decreases |d.rows| - l
  {
    if l + 1 >= |d.rows| then d else Reordered(Up(d, outgoing, l + 1), l, outgoing)
  }

  function Rounds(d: Drawing, incoming: seq<seq<nat>>, outgoing: seq<seq<nat>>, k: nat): (r: Drawing)
    ensures |r.rows| == |d.rows| && |r.pos| == |d.pos|
  {
    if k == 0 then d
    else
      var before := Rounds(d, incoming, outgoing, k - 1);
      Up(Down(before, incoming, |d.rows|), outgoing, 0)
  }

  ghost predicate SameNodes(rows: seq<seq<nat>>, result: seq<seq<nat>>) {
    |result| == |rows| && forall l | 0 <= l < |rows| :: multiset(result[l]) == multiset(rows[l])
  }

  /** Numbers a row from left to right. */
  method Number(row: seq<nat>, pos: seq<nat>) returns (newPos: seq<nat>)
    requires forall v | v in row :: v < |pos|
    ensures newPos == Position(row, pos)
  {
    newPos := pos;
    var i := 0;
    while i < |row|
      invariant 0 <= i <= |row| && newPos == Position(row[..i], pos)
    {
      assert row[i] in row && row[..i + 1][..i] == row[..i];
      newPos := newPos[row[i] := i];
      i := i + 1;
    }
    assert row[..i] == row;
  }

  lemma ReorderedRow(layer: seq<nat>, d: Drawing, l: nat, adj: seq<seq<nat>>)
    requires Arranged(layer, d.rows) && l < |d.rows| && |d.pos| == |layer|
    ensures var r := Reordered(d, l, adj);
      && Arranged(layer, r.rows) && SameNodes(d.rows, r.rows) && SortedBy(r.rows[l], ByBary(adj, d.pos))
      && forall i | 0 <= i < |r.rows[l]| :: r.rows[l][i] < |r.pos| && r.pos[r.rows[l][i]] == i
  {
    var le := ByBary(adj, d.pos);
    var row := Sort(d.rows[l], le);
    RearrangeRow(layer, d.rows, l, le);
    SortedRow(layer, d.rows[l], l, le);
    ByBaryIsAnOrder(adj, d.pos);
    SortIsSorted(d.rows[l], le);
    SortIsPermutation(d.rows[l], le);
    PositionsOfRow(row, d.pos);
    assert forall i | 0 <= i < |row| :: row[i] in row;
  }

  /** Reorders one row by barycenter: the row stays a permutation of itself, now in barycenter order. */
  method SortRow(layer: seq<nat>, rows: seq<seq<nat>>, l: nat, adj: seq<seq<nat>>, pos: seq<nat>)
    returns (newRows: seq<seq<nat>>, newPos: seq<nat>)
    requires Arranged(layer, rows) && l < |rows| && |pos| == |layer|
    ensures Drawing(newRows, newPos) == Reordered(Drawing(rows, pos), l, adj)
    ensures Arranged(layer, newRows) && SameNodes(rows, newRows) && |newPos| == |pos|
    ensures forall k | 0 <= k < |rows| && k != l :: newRows[k] == rows[k]
    ensures SortedBy(newRows[l], ByBary(adj, pos))
    ensures forall i | 0 <= i < |newRows[l]| :: newRows[l][i] < |newPos| && newPos[newRows[l][i]] == i
  {
    newRows := rows[l := Sort(rows[l], ByBary(adj, pos))];
    ReorderedRow(layer, Drawing(rows, pos), l, adj);
    assert RowOf(layer, newRows[l], l);
    newPos := Number(newRows[l], pos);
  }

  lemma SameNodesTwice(rows: seq<seq<nat>>, middle: seq<seq<nat>>, result: seq<seq<nat>>)
    requires SameNodes(rows, middle) && SameNodes(middle, result)
    ensures SameNodes(rows, result)
  {
  }

  lemma {:induction false} DownRearranges(layer: seq<nat>, d: Drawing, incoming: seq<seq<nat>>, l: nat)
    requires Arranged(layer, d.rows) && |d.pos| == |layer| && l <= |d.rows|
    ensures Arranged(layer, Down(d, incoming, l).rows) && SameNodes(d.rows, Down(d, incoming, l).rows)
  {
    if l > 1 {
      var e := Down(d, incoming, l - 1);
      DownRearranges(layer, d, incoming, l - 1);
      ReorderedRow(layer, e, l - 1, incoming);
      SameNodesTwice(d.rows, e.rows, Reordered(e, l - 1, incoming).rows);
    }
  }

  lemma {:induction false} UpRearranges(layer: seq<nat>, d: Drawing, outgoing: seq<seq<nat>>, l: nat)
    requires Arranged(layer, d.rows) && |d.pos| == |layer|
    ensures Arranged(layer, Up(d, outgoing, l).rows) && SameNodes(d.rows, Up(d, outgoing, l).rows)
    decreases |d.rows| - l
  {
    if l + 1 < |d.rows| {
      var e := Up(d, outgoing, l + 1);
      UpRearranges(layer, d, outgoing, l + 1);
      ReorderedRow(layer, e, l, outgoing);
      SameNodesTwice(d.rows, e.rows, Reordered(e, l, outgoing).rows);
    }
  }

  method SweepDown(layer: seq<nat>, rows: seq<seq<nat>>, incoming: seq<seq<nat>>, pos: seq<nat>)
    returns (result: seq<seq<nat>>, current: seq<nat>)
    requires Arranged(layer, rows) && |rows| >= 1 && |pos| == |layer|
    ensures Drawing(result, current) == Down(Drawing(rows, pos), incoming, |rows|)
    ensures Arranged(layer, result) && SameNodes(rows, result) && |current| == |layer|
  {
    result, current := rows, pos;
    var l := 1;
    while l < |rows|
      invariant 1 <= l <= |rows| && Drawing(result, current) == Down(Drawing(rows, pos), incoming, l)
    {
      DownRearranges(layer, Drawing(rows, pos), incoming, l);
      result, current := SortRow(layer, result, l, incoming, current);
      l := l + 1;
    }
    DownRearranges(layer, Drawing(rows, pos), incoming, l);
  }

  method SweepUp(layer: seq<nat>, rows: seq<seq<nat>>, outgoing: seq<seq<nat>>, pos: seq<nat>)
    returns (result: seq<seq<nat>>, current: seq<nat>)
    requires Arranged(layer, rows) && |rows| >= 1 && |pos| == |layer|
    ensures Drawing(result, current) == Up(Drawing(rows, pos), outgoing, 0)
    ensures Arranged(layer, result) && SameNodes(rows, result) && |current| == |layer|
  {
    result, current := rows, pos;
    ghost var d := Drawing(rows, pos);
    var l := |rows| - 1;
    while l > 0
      invariant 0 <= l < |rows| && Drawing(result, current) == Up(d, outgoing, l)
    {
      UpRearranges(layer, d, outgoing, l);
      l := l - 1;
      result, current := SortRow(layer, result, l, outgoing, current);
      assert Up(d, outgoing, l) == Reordered(Up(d, outgoing, l + 1), l, outgoing);
    }
    UpRearranges(layer, d, outgoing, l);
  }

  /** Four rounds of downward and upward sweeps. */
  method Sweep(layer: seq<nat>, rows: seq<seq<nat>>, incoming: seq<seq<nat>>, outgoing: seq<seq<nat>>, pos: seq<nat>)
    returns (result: seq<seq<nat>>, current: seq<nat>)
    requires Arranged(layer, rows) && |rows| >= 1 && |pos| == |layer|
    ensures Drawing(result, current) == Rounds(Drawing(rows, pos), incoming, outgoing, 4)
    ensures Arranged(layer, result) && SameNodes(rows, result) && |current| == |layer|
  {
    result, current := rows, pos;
    var p := 0;
    while p < 4
      invariant 0 <= p <= 4 && Arranged(layer, result) && SameNodes(rows, result) && |current| == |layer|
      invariant Drawing(result, current) == Rounds(Drawing(rows, pos), incoming, outgoing, p)
    {
      result, current := SweepDown(layer, result, incoming, current);
      result, current := SweepUp(layer, result, outgoing, current);
      p := p + 1;
    }
  }

  // ---- what the sweeps achieve ----

  /** The positions are the places of the nodes in their rows. */
  ghost predicate InPlace(d: Drawing) {
    forall l, i | 0 <= l < |d.rows| && 0 <= i < |d.rows[l]| :: d.rows[l][i] < |d.pos| && d.pos[d.rows[l][i]] == i
  }

  ghost predicate Kept(layer: seq<nat>, d: Drawing) {
    Arranged(layer, d.rows) && |d.pos| == |layer| && InPlace(d)
  }

  lemma ReorderedIsKept(layer: seq<nat>, d: Drawing, l: nat, adj: seq<seq<nat>>)
    requires Kept(layer, d)
    ensures Kept(layer, Reordered(d, l, adj))
  {
    if l < |d.rows| {
      var le := ByBary(adj, d.pos);
      var row := Sort(d.rows[l], le);
      RearrangeRow(layer, d.rows, l, le);
      SortedRow(layer, d.rows[l], l, le);
      PositionsOfRow(row, d.pos);
      forall m, i | 0 <= m < |d.rows| && m != l && 0 <= i < |d.rows[m]|
        ensures d.rows[m][i] !in row
      {
        assert RowOf(layer, d.rows[m], m) && d.rows[m][i] in d.rows[m];
      }
      assert forall i | 0 <= i < |row| :: row[i] in row;
    }
  }

  lemma {:induction false} DownIsKept(layer: seq<nat>, d: Drawing, incoming: seq<seq<nat>>, l: nat)
    requires Kept(layer, d)
    ensures Kept(layer, Down(d, incoming, l))
  {
    if l > 1 {
      DownIsKept(layer, d, incoming, l - 1);
      ReorderedIsKept(layer, Down(d, incoming, l - 1), l - 1, incoming);
    }
  }

  lemma {:induction false} UpIsKept(layer: seq<nat>, d: Drawing, outgoing: seq<seq<nat>>, l: nat)
    requires Kept(layer, d)
    ensures Kept(layer, Up(d, outgoing, l))
    decreases |d.rows| - l
  {
    if l + 1 < |d.rows| {
      UpIsKept(layer, d, outgoing, l + 1);
      ReorderedIsKept(layer, Up(d, outgoing, l + 1), l, outgoing);
    }
  }

  lemma {:induction false} RoundsAreKept(layer: seq<nat>, d: Drawing, incoming: seq<seq<nat>>, outgoing: seq<seq<nat>>,
      k: nat)
    requires Kept(layer, d)
    ensures Kept(layer, Rounds(d, incoming, outgoing, k))
  {
    if k > 0 {
      RoundsAreKept(layer, d, incoming, outgoing, k - 1);
      var before := Rounds(d, incoming, outgoing, k - 1);
      DownIsKept(layer, before, incoming, |d.rows|);
      UpIsKept(layer, Down(before, incoming, |d.rows|), outgoing, 0);
    }
  }

  ghost predicate AllBelow(layer: seq<nat>, vs: seq<nat>, k: nat) {
    forall w | w in vs :: w < |layer| && layer[w] > k
  }

  /** Every node calls only nodes of later layers. */
  ghost predicate CallsBelow(layer: seq<nat>, outgoing: seq<seq<nat>>) {
    |outgoing| == |layer| && forall v | 0 <= v < |layer| :: AllBelow(layer, outgoing[v], layer[v])
  }

  /** Of two nodes of a row that both call something, the left one has its callees no further right
      on the mean. */
  ghost predicate InMeanOrder(outgoing: seq<seq<nat>>, row: seq<nat>, pos: seq<nat>) {
    forall i, j | 0 <= i < j < |row| :: MeansOrdered(outgoing, pos, row[i], row[j])
  }

  ghost predicate MeansOrdered(outgoing: seq<seq<nat>>, pos: seq<nat>, u: nat, v: nat) {
    u < |outgoing| && v < |outgoing| && outgoing[u] != [] && outgoing[v] != []
    ==> Mean(outgoing[u], pos) <= Mean(outgoing[v], pos)
  }

  lemma {:induction false} SumIgnoresOthers(vs: seq<nat>, pos: seq<nat>, other: seq<nat>)
    requires |pos| == |other| && forall v | v in vs && v < |pos| :: pos[v] == other[v]
    ensures SumOf(vs, pos) == SumOf(vs, other)
  {
    if vs != [] {
      assert vs[0] in vs && forall v | v in vs[1..] :: v in vs;
      SumIgnoresOthers(vs[1..], pos, other);
    }
  }

  /** Moving nodes of one row changes no mean over later rows. */
  lemma MeanSurvives(layer: seq<nat>, d: Drawing, outgoing: seq<seq<nat>>, l: nat, adj: seq<seq<nat>>, v: nat)
    requires Arranged(layer, d.rows) && |d.pos| == |layer| && CallsBelow(layer, outgoing)
    requires v < |layer| && layer[v] >= l && outgoing[v] != [] && l < |d.rows|
    ensures Mean(outgoing[v], Reordered(d, l, adj).pos) == Mean(outgoing[v], d.pos)
  {
    var row := Sort(d.rows[l], ByBary(adj, d.pos));
    SortedRow(layer, d.rows[l], l, ByBary(adj, d.pos));
    PositionsOfRow(row, d.pos);
    assert AllBelow(layer, outgoing[v], layer[v]);
    forall w | w in outgoing[v]
      ensures w < |layer| && Reordered(d, l, adj).pos[w] == d.pos[w]
    {
      assert w !in row;
    }
    SumIgnoresOthers(outgoing[v], d.pos, Reordered(d, l, adj).pos);
  }

  lemma ReorderedRowIsOrdered(layer: seq<nat>, d: Drawing, outgoing: seq<seq<nat>>, l: nat)
    requires Arranged(layer, d.rows) && |d.pos| == |layer| && CallsBelow(layer, outgoing) && l < |d.rows|
    ensures var r := Reordered(d, l, outgoing); InMeanOrder(outgoing, r.rows[l], r.pos)
  {
    var r := Reordered(d, l, outgoing);
    var le := ByBary(outgoing, d.pos);
    ByBaryIsAnOrder(outgoing, d.pos);
    SortIsSorted(d.rows[l], le);
    SortedRow(layer, d.rows[l], l, le);
    forall i, j | 0 <= i < j < |r.rows[l]|
      ensures MeansOrdered(outgoing, r.pos, r.rows[l][i], r.rows[l][j])
    {
      var u, v := r.rows[l][i], r.rows[l][j];
      assert u in r.rows[l] && v in r.rows[l] && le(u, v);
      if outgoing[u] != [] && outgoing[v] != [] {
        MeanSurvives(layer, d, outgoing, l, outgoing, u);
        MeanSurvives(layer, d, outgoing, l, outgoing, v);
      }
    }
  }

  lemma LaterRowStaysOrdered(layer: seq<nat>, d: Drawing, outgoing: seq<seq<nat>>, l: nat, m: nat)
    requires Arranged(layer, d.rows) && |d.pos| == |layer| && CallsBelow(layer, outgoing) && l < m < |d.rows|
    requires InMeanOrder(outgoing, d.rows[m], d.pos)
    ensures var r := Reordered(d, l, outgoing); InMeanOrder(outgoing, r.rows[m], r.pos)
  {
    var row := d.rows[m];
    assert RowOf(layer, row, m);
    forall i, j | 0 <= i < j < |row|
      ensures MeansOrdered(outgoing, Reordered(d, l, outgoing).pos, row[i], row[j])
    {
      assert row[i] in row && row[j] in row && MeansOrdered(outgoing, d.pos, row[i], row[j]);
      if outgoing[row[i]] != [] && outgoing[row[j]] != [] {
        MeanSurvives(layer, d, outgoing, l, outgoing, row[i]);
        MeanSurvives(layer, d, outgoing, l, outgoing, row[j]);
      }
    }
  }

  lemma NothingBelow(layer: seq<nat>, rows: seq<seq<nat>>, vs: seq<nat>, k: nat)
    requires Arranged(layer, rows) && AllBelow(layer, vs, k) && k + 1 == |rows|
    ensures vs == []
  {
    var w := if vs != [] then vs[0] else 0;
    assert vs != [] ==> w in vs;
  }

  lemma LastRowCallsNothing(layer: seq<nat>, d: Drawing, outgoing: seq<seq<nat>>, m: nat)
    requires Arranged(layer, d.rows) && CallsBelow(layer, outgoing) && m + 1 == |d.rows|
    ensures InMeanOrder(outgoing, d.rows[m], d.pos)
  {
    var row := d.rows[m];
    assert RowOf(layer, row, m);
    forall i, j | 0 <= i < j < |row|
      ensures MeansOrdered(outgoing, d.pos, row[i], row[j])
    {
      assert row[i] in row && AllBelow(layer, outgoing[row[i]], layer[row[i]]);
      NothingBelow(layer, d.rows, outgoing[row[i]], m);
    }
  }

  ghost predicate OrderedFrom(outgoing: seq<seq<nat>>, d: Drawing, l: nat) {
    forall m | l <= m < |d.rows| :: InMeanOrder(outgoing, d.rows[m], d.pos)
  }

  lemma ReorderedFrom(layer: seq<nat>, d: Drawing, outgoing: seq<seq<nat>>, l: nat)
    requires Arranged(layer, d.rows) && |d.pos| == |layer| && CallsBelow(layer, outgoing) && l < |d.rows|
    requires OrderedFrom(outgoing, d, l + 1)
    ensures OrderedFrom(outgoing, Reordered(d, l, outgoing), l)
  {
    ReorderedRowIsOrdered(layer, d, outgoing, l);
    forall m | l < m < |d.rows|
      ensures InMeanOrder(outgoing, Reordered(d, l, outgoing).rows[m], Reordered(d, l, outgoing).pos)
    {
      LaterRowStaysOrdered(layer, d, outgoing, l, m);
    }
  }

  lemma {:induction false} UpOrders(layer: seq<nat>, d: Drawing, outgoing: seq<seq<nat>>, l: nat)
    requires Arranged(layer, d.rows) && |d.pos| == |layer| && CallsBelow(layer, outgoing)
    ensures OrderedFrom(outgoing, Up(d, outgoing, l), l)
    decreases |d.rows| - l
  {
    if l + 1 == |d.rows| {
      LastRowCallsNothing(layer, d, outgoing, l);
    } else if l + 1 < |d.rows| {
      UpOrders(layer, d, outgoing, l + 1);
      UpRearranges(layer, d, outgoing, l + 1);
      ReorderedFrom(layer, Up(d, outgoing, l + 1), outgoing, l);
    }
  }

  lemma {:induction false} RoundsRearrange(layer: seq<nat>, d: Drawing, incoming: seq<seq<nat>>,
      outgoing: seq<seq<nat>>, k: nat)
    requires Arranged(layer, d.rows) && |d.pos| == |layer|
    ensures Arranged(layer, Rounds(d, incoming, outgoing, k).rows)
  {
    if k > 0 {
      RoundsRearrange(layer, d, incoming, outgoing, k - 1);
      var before := Rounds(d, incoming, outgoing, k - 1);
      DownRearranges(layer, before, incoming, |d.rows|);
      UpRearranges(layer, Down(before, incoming, |d.rows|), outgoing, 0);
    }
  }

  /** After one round or more, every row is in order of the mean place of the callees. */
  lemma RoundsOrder(layer: seq<nat>, d: Drawing, incoming: seq<seq<nat>>, outgoing: seq<seq<nat>>, k: nat)
    requires Arranged(layer, d.rows) && |d.pos| == |layer| && CallsBelow(layer, outgoing) && k > 0
    ensures OrderedFrom(outgoing, Rounds(d, incoming, outgoing, k), 0)
  {
    var before := Rounds(d, incoming, outgoing, k - 1);
    RoundsRearrange(layer, d, incoming, outgoing, k - 1);
    DownRearranges(layer, before, incoming, |d.rows|);
    UpOrders(layer, Down(before, incoming, |d.rows|), outgoing, 0);
  }

  // ---- boxes ----

  const W: real := 190.0
  const H: real := 46.0
  const GAPX: real := 34.0
  const GAPY: real := 78.0

  datatype Point = Point(x: real, y: real)

  function Widest(rows: seq<seq<nat>>): (m: nat)
    ensures m >= 1 && forall l | 0 <= l < |rows| :: |rows[l]| <= m
    ensures m == 1 || exists l :: 0 <= l < |rows| && |rows[l]| == m
  {
    if rows == [] then 1
    else
      var k := |rows| - 1;
      if |rows[k]| > Widest(rows[..k]) then |rows[k]| else Widest(rows[..k])
  }

  /** The corner of the i-th box of a row. */
  function CornerAt(rows: seq<seq<nat>>, l: nat, i: nat): Point
    requires l < |rows|
  {
    Point(i as real * (W + GAPX) + (Widest(rows) as real * (W + GAPX) - |rows[l]| as real * (W + GAPX)) / 2.0,
      l as real * (H + GAPY))
  }

  /** Two boxes 190 wide and 46 high with at least 34 between them sideways, or at least 78 above. */
  predicate Apart(a: Point, b: Point) {
    b.x - (a.x + 190.0) >= 34.0 || a.x - (b.x + 190.0) >= 34.0
    || b.y - (a.y + 46.0) >= 78.0 || a.y - (b.y + 46.0) >= 78.0
  }

  lemma CornersApart(rows: seq<seq<nat>>, l: nat, i: nat, m: nat, j: nat)
    requires l < |rows| && m < |rows| && (l != m || i != j)
    ensures Apart(CornerAt(rows, l, i), CornerAt(rows, m, j))
  {
    RealOrder(i, j);
    RealOrder(l, m);
  }

  lemma RealOrder(i: nat, j: nat)
    ensures i < j ==> j as real >= i as real + 1.0
    ensures j < i ==> i as real >= j as real + 1.0
  {
  }

  /** Every node has its own box, in the row of its layer and inside the drawing's width. */
  ghost predicate Boxed(layer: seq<nat>, rows: seq<seq<nat>>, xy: seq<Point>) {
    |xy| == |layer| && forall l, i | 0 <= l < |rows| && 0 <= i < |rows[l]| ::
      rows[l][i] < |xy| && xy[rows[l][i]] == CornerAt(rows, l, i)
  }

  method Corners(layer: seq<nat>, rows: seq<seq<nat>>) returns (xy: seq<Point>)
    requires Arranged(layer, rows)
    ensures Boxed(layer, rows, xy)
  {
    xy := seq(|layer|, v => Point(0.0, 0.0));
    var l := 0;
    while l < |rows|
      invariant 0 <= l <= |rows| && |xy| == |layer|
      invariant forall k, i | 0 <= k < l && 0 <= i < |rows[k]| ::
        rows[k][i] < |xy| && xy[rows[k][i]] == CornerAt(rows, k, i)
    {
      var i := 0;
      assert RowOf(layer, rows[l], l);
      while i < |rows[l]|
        invariant 0 <= i <= |rows[l]| && |xy| == |layer|
        invariant forall k, j | 0 <= k < l && 0 <= j < |rows[k]| ::
          rows[k][j] < |xy| && xy[rows[k][j]] == CornerAt(rows, k, j)
        invariant forall j | 0 <= j < i :: rows[l][j] < |xy| && xy[rows[l][j]] == CornerAt(rows, l, j)
      {
        assert rows[l][i] in rows[l];
        forall k, j | 0 <= k < l && 0 <= j < |rows[k]|
          ensures rows[k][j] != rows[l][i]
        {
          assert RowOf(layer, rows[k], k) && rows[k][j] in rows[k];
        }
        xy := xy[rows[l][i] := CornerAt(rows, l, i)];
        i := i + 1;
      }
      l := l + 1;
    }
  }

  /** No two boxes of a drawing come closer than the gaps between columns or rows. */
  lemma BoxesNeverOverlap(layer: seq<nat>, rows: seq<seq<nat>>, xy: seq<Point>, u: nat, v: nat)
    requires Arranged(layer, rows) && Boxed(layer, rows, xy) && u < |layer| && v < |layer| && u != v
    ensures Apart(xy[u], xy[v])
    ensures xy[u].x >= xy[v].x + 224.0 || xy[v].x >= xy[u].x + 224.0 || xy[u].y >= xy[v].y + 124.0
      || xy[v].y >= xy[u].y + 124.0
  {
    var i :| 0 <= i < |rows[layer[u]]| && rows[layer[u]][i] == u;
    var j :| 0 <= j < |rows[layer[v]]| && rows[layer[v]][j] == v;
    CornersApart(rows, layer[u], i, layer[v], j);
  }

  /** Every box lies within the width of the widest row, and its height tells its layer. */
  lemma BoxesStayInside(layer: seq<nat>, rows: seq<seq<nat>>, xy: seq<Point>, u: nat)
    requires Arranged(layer, rows) && Boxed(layer, rows, xy) && u < |layer|
    ensures 0.0 <= xy[u].x && xy[u].x + W <= Widest(rows) as real * (W + GAPX)
    ensures xy[u].y == layer[u] as real * (H + GAPY)
  {
    var l := layer[u];
    var i :| 0 <= i < |rows[l]| && rows[l][i] == u;
    var step, n, m := W + GAPX, |rows[l]| as real, Widest(rows) as real;
    var offset := (m * step - n * step) / 2.0;
    assert n <= m && i as real + 1.0 <= n;
    assert (m - n) * step >= 0.0 && (n - i as real - 1.0) * step >= 0.0;
  }

  /** The positions that the rows give their nodes, before any sweep. */
  method Positions(layer: seq<nat>, rows: seq<seq<nat>>) returns (pos: seq<nat>)
    requires Arranged(layer, rows)
    ensures Kept(layer, Drawing(rows, pos))
  {
    pos := seq(|layer|, v => 0);
    var l := 0;
    while l < |rows|
      invariant 0 <= l <= |rows| && |pos| == |layer|
      invariant InPlace(Drawing(rows[..l], pos))
    {
      ghost var before := pos;
      assert RowOf(layer, rows[l], l);
      PositionsOfRow(rows[l], pos);
      pos := Number(rows[l], pos);
      RowsApart(layer, rows, l);
      l := l + 1;
    }
    assert rows[..l] == rows;
  }

  lemma RowsApart(layer: seq<nat>, rows: seq<seq<nat>>, l: nat)
    requires Arranged(layer, rows) && l < |rows|
    ensures forall m, i | 0 <= m < |rows| && m != l && 0 <= i < |rows[m]| :: rows[m][i] !in rows[l]
    ensures forall i | 0 <= i < |rows[l]| :: rows[l][i] < |layer|
  {
    forall m, i | 0 <= m < |rows| && 0 <= i < |rows[m]|
      ensures rows[m][i] < |layer| && (m != l ==> rows[m][i] !in rows[l])
    {
      assert RowOf(layer, rows[m], m) && rows[m][i] in rows[m] && RowOf(layer, rows[l], l);
    }
  }

  /** In the finished drawing of an acyclic graph, two nodes of a row that both call something stand
      in the order of the mean places of what they call. */
  ghost predicate Untangled(edges: seq<Edge>, rows: seq<seq<nat>>, pos: seq<nat>) {
    InPlace(Drawing(rows, pos)) && forall l, i, j | 0 <= l < |rows| && 0 <= i < j < |rows[l]| ::
      CalleesOrdered(edges, pos, rows[l][i], rows[l][j])
  }

  ghost predicate CalleesOrdered(edges: seq<Edge>, pos: seq<nat>, u: nat, v: nat) {
    Targets(edges, u) != [] && Targets(edges, v) != [] ==> Mean(Targets(edges, u), pos) <= Mean(Targets(edges, v), pos)
  }

  lemma SweptIsUntangled(n: nat, edges: seq<Edge>, outgoing: seq<seq<nat>>, layer: seq<nat>, rows: seq<seq<nat>>,
      pos: seq<nat>)
    requires Lists(n, edges, outgoing) && Kept(layer, Drawing(rows, pos)) && |layer| == n
    requires OrderedFrom(outgoing, Drawing(rows, pos), 0)
    ensures Untangled(edges, rows, pos)
  {
    forall l, i, j | 0 <= l < |rows| && 0 <= i < j < |rows[l]|
      ensures CalleesOrdered(edges, pos, rows[l][i], rows[l][j])
    {
      var row := rows[l];
      assert RowOf(layer, row, l) && InMeanOrder(outgoing, row, pos);
      assert row[i] in row && row[j] in row && MeansOrdered(outgoing, pos, row[i], row[j]);
    }
  }

  lemma CalleesAreBelow(n: nat, edges: seq<Edge>, outgoing: seq<seq<nat>>, layer: seq<nat>)
    requires Lists(n, edges, outgoing) && |layer| == n && Downward(n, edges, layer)
    ensures CallsBelow(layer, outgoing)
  {
    forall v | 0 <= v < n
      ensures AllBelow(layer, outgoing[v], layer[v])
    {
      TargetsAreEdges(edges, v);
      forall w | w in outgoing[v]
        ensures w < n && layer[w] > layer[v]
      {
        assert Edge(v, w) in edges && Edge(v, w).dst == w;
      }
    }
  }

  /** Neighbours in a row are a box and a gap apart, rows too, and each row has the same room on both sides. */
  lemma RowsAreCentered(layer: seq<nat>, rows: seq<seq<nat>>, xy: seq<Point>, l: nat)
    requires Arranged(layer, rows) && Boxed(layer, rows, xy) && l < |rows| && rows[l] != []
    ensures var row := rows[l]; var last := |row| - 1;
      && xy[row[0]].x == Widest(rows) as real * 224.0 - (xy[row[last]].x + 224.0)
      && (forall i | 0 <= i < |row| :: xy[row[i]] == Point(xy[row[0]].x + 224.0 * i as real, 124.0 * l as real))
  {
    var row := rows[l];
    assert xy[row[0]] == CornerAt(rows, l, 0) && xy[row[|row| - 1]] == CornerAt(rows, l, |row| - 1);
    assert (|row| - 1) as real == |row| as real - 1.0;
  }

  method ComputeLayout(n: nat, edges: seq<Edge>)
    returns (layer: seq<nat>, rows: seq<seq<nat>>, pos: seq<nat>, xy: seq<Point>)
    requires ValidEdges(n, edges)
    ensures |layer| == |xy| == n && Arranged(layer, rows) && Boxed(layer, rows, xy)
    ensures Witnessed(edges, layer)
    ensures Acyclic(edges) ==> forall u | 0 <= u < n :: IsLongest(edges, layer[u], u)
    ensures Acyclic(edges) ==> Untangled(edges, rows, pos)
    ensures Acyclic(edges) ==> forall e | e in edges :: xy[e.dst].y >= xy[e.src].y + H + GAPY
    ensures forall u, v | 0 <= u < n && 0 <= v < n && u != v :: Apart(xy[u], xy[v])
  {
    var incoming, outgoing := Adjacency(n, edges);
    layer := Layering(n, edges, incoming, outgoing);
    rows := Rows(layer);
    pos := Positions(layer, rows);
    ghost var d := Drawing(rows, pos);
    rows, pos := Sweep(layer, rows, incoming, outgoing, pos);
    xy := Corners(layer, rows);
    BoxesApart(layer, rows, xy);
    if Acyclic(edges) {
      CalleesAreBelow(n, edges, outgoing, layer);
      RoundsAreKept(layer, d, incoming, outgoing, 4);
      RoundsOrder(layer, d, incoming, outgoing, 4);
      SweptIsUntangled(n, edges, outgoing, layer, rows, pos);
      EdgesGoDown(n, edges, layer, rows, xy);
    }
  }

  lemma BoxesApart(layer: seq<nat>, rows: seq<seq<nat>>, xy: seq<Point>)
    requires Arranged(layer, rows) && Boxed(layer, rows, xy)
    ensures forall u, v | 0 <= u < |layer| && 0 <= v < |layer| && u != v :: Apart(xy[u], xy[v])
  {
    forall u, v | 0 <= u < |layer| && 0 <= v < |layer| && u != v
      ensures Apart(xy[u], xy[v])
    {
      BoxesNeverOverlap(layer, rows, xy, u, v);
    }
  }

  lemma EdgesGoDown(n: nat, edges: seq<Edge>, layer: seq<nat>, rows: seq<seq<nat>>, xy: seq<Point>)
    requires ValidEdges(n, edges) && |layer| == n && Downward(n, edges, layer)
    requires Arranged(layer, rows) && Boxed(layer, rows, xy)
    ensures forall e | e in edges :: xy[e.dst].y >= xy[e.src].y + H + GAPY
  {
    forall e | e in edges
      ensures xy[e.dst].y >= xy[e.src].y + H + GAPY
    {
      BoxesStayInside(layer, rows, xy, e.src);
      BoxesStayInside(layer, rows, xy, e.dst);
      RealOrder(layer[e.src], layer[e.dst]);
    }
  }
}
