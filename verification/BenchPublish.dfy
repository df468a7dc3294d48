/** Publishing to a shared `main`: any number of publishers fetch, re-merge and push without
    force, retrying when another commit landed first. */
module BenchPublish {
  import opened Wrappers
  import opened BenchRecords
  import opened BenchMerge
  import opened BenchFetch

  /** The files of one commit that publishers write. A history file may not exist yet. */
  datatype Tree = Tree(histories: Histories, imports: Manifest, stats: map<string, string>, assets: string)

  /** What one publisher brings: validated histories, its import manifest and its statistics. */
  datatype Source = Source(histories: Histories, imports: Manifest, stats: map<string, string>)

  type Renderer = Histories -> string

  const BRANCH := "main"

  // ---- one re-merge ----

  function Load(t: Tree, suite: Suite): History {
    if suite in t.histories then t.histories[suite] else EmptyHistory(suite, BRANCH, false)
  }

  /** `merge`, then the provenance of a migrated history if `main` has none yet. */
  function CombineHistory(current: History, incoming: History): History {
    var combined := Merged(current, incoming.series);
    if combined.legacySource.None? then combined.(legacySource := incoming.legacySource) else combined
  }

  /** The tree a publisher prepares on top of a checkout. */
  function Combine(t: Tree, s: Source, render: Renderer): Tree {
    var histories := map suite | suite in t.histories.Keys + s.histories.Keys ::
      if suite in s.histories then CombineHistory(Load(t, suite), s.histories[suite]) else t.histories[suite];
    Tree(histories, t.imports + s.imports, t.stats + s.stats, render(histories))
  }

  /** What a re-merge holds: the files of either side, histories merged where the publisher has one,
      the publisher's imports and statistics over those of `main`, the provenance `main` had before
      that of the publisher, and the report of just these histories. */
  lemma CombinedFiles(t: Tree, s: Source, render: Renderer)
    ensures var c := Combine(t, s, render);
      && c.histories.Keys == t.histories.Keys + s.histories.Keys
      && (forall suite | suite in t.histories && suite !in s.histories :: c.histories[suite] == t.histories[suite])
      && c.imports.Keys == t.imports.Keys + s.imports.Keys
      && (forall id | id in s.imports :: c.imports[id] == s.imports[id])
      && (forall id | id in t.imports && id !in s.imports :: c.imports[id] == t.imports[id])
      && c.stats.Keys == t.stats.Keys + s.stats.Keys
      && (forall name | name in s.stats :: c.stats[name] == s.stats[name])
      && (forall name | name in t.stats && name !in s.stats :: c.stats[name] == t.stats[name])
      && c.assets == render(c.histories)
  {
  }

  lemma CombinedHistory(t: Tree, s: Source, render: Renderer, suite: Suite)
    requires suite in s.histories
    ensures var had := if suite in t.histories then t.histories[suite]
        else History(suite, "main", false, 0, [], None);
      var c := Combine(t, s, render).histories[suite];
      && c.suite == had.suite && c.branch == had.branch && c.allRuns == had.allRuns
      && c.series == Merged(had, s.histories[suite].series).series && c.points == |c.series|
      && c.legacySource == if had.legacySource != None then had.legacySource else s.histories[suite].legacySource
  {
  }

  ghost predicate WfHistory(h: History, suite: Suite) {
    Loadable(h, suite, BRANCH, false)
  }

  ghost predicate WfTree(t: Tree) {
    forall suite | suite in t.histories :: WfHistory(t.histories[suite], suite)
  }

  ghost predicate WfSource(s: Source) {
    forall suite | suite in s.histories :: WfHistory(s.histories[suite], suite)
  }

  /** Everything `old_` holds, `new_` holds at least as new. */
  ghost predicate HistoryCovers(new_: History, old_: History) {
    forall r | r in old_.series :: Covers(new_, r)
  }

  ghost predicate TreeCovers(new_: Tree, old_: Tree) {
    && (forall suite | suite in old_.histories ::
      suite in new_.histories && HistoryCovers(new_.histories[suite], old_.histories[suite]))
    && old_.imports.Keys <= new_.imports.Keys
  }

  ghost predicate TreeCoversSource(t: Tree, s: Source) {
    && (forall suite | suite in s.histories ::
      suite in t.histories && HistoryCovers(t.histories[suite], s.histories[suite]))
    && s.imports.Keys <= t.imports.Keys
  }

  lemma CoversItself(h: History)
    ensures HistoryCovers(h, h)
  {
    forall r | r in h.series ensures Covers(h, r) {
      OrderIsTotal(OrderOf(r), OrderOf(r), OrderOf(r));
    }
  }

  lemma CoversCompose(c: History, b: History, a: History)
    requires HistoryCovers(c, b) && HistoryCovers(b, a) && a.allRuns == b.allRuns == c.allRuns
    ensures HistoryCovers(c, a)
  {
    forall r | r in a.series ensures Covers(c, r) {
      assert Covers(b, r);
      var m :| m in b.series && KeyOf(m, b.allRuns) == KeyOf(r, b.allRuns) && AtMost(OrderOf(r), OrderOf(m));
      CoversIsTransitive(c, m, r);
    }
  }

  lemma TreeCoversCompose(c: Tree, b: Tree, a: Tree)
    requires WfTree(a) && WfTree(b) && WfTree(c)
    requires TreeCovers(c, b) && TreeCovers(b, a)
    ensures TreeCovers(c, a)
  {
    forall suite | suite in a.histories ensures HistoryCovers(c.histories[suite], a.histories[suite]) {
      assert WfHistory(a.histories[suite], suite) && WfHistory(b.histories[suite], suite)
        && WfHistory(c.histories[suite], suite);
      CoversCompose(c.histories[suite], b.histories[suite], a.histories[suite]);
    }
  }

  lemma TreeCoversSourceCompose(c: Tree, b: Tree, s: Source)
    requires WfTree(c) && WfTree(b) && WfSource(s)
    requires TreeCovers(c, b) && TreeCoversSource(b, s)
    ensures TreeCoversSource(c, s)
  {
    forall suite | suite in s.histories ensures HistoryCovers(c.histories[suite], s.histories[suite]) {
      assert WfHistory(c.histories[suite], suite) && WfHistory(b.histories[suite], suite)
        && WfHistory(s.histories[suite], suite);
      CoversCompose(c.histories[suite], b.histories[suite], s.histories[suite]);
    }
  }

  lemma CombineHistoryFacts(current: History, incoming: History, suite: Suite)
    requires WfHistory(current, suite) && WfHistory(incoming, suite)
    ensures WfHistory(CombineHistory(current, incoming), suite)
    ensures HistoryCovers(CombineHistory(current, incoming), current)
    ensures HistoryCovers(CombineHistory(current, incoming), incoming)
  {
    var merged := Merged(current, incoming.series);
    var combined := CombineHistory(current, incoming);
    MergeKeepsLoadable(current, incoming.series, suite, BRANCH, false);
    MergeCovers(current, incoming.series);
    forall r | r in current.series || r in incoming.series ensures Covers(combined, r) {
      assert Covers(merged, r);
    }
  }

  /** A re-merge is well formed again, and covers both the checkout and the publisher's data. */
  lemma CombineFacts(t: Tree, s: Source, render: Renderer)
    requires WfTree(t) && WfSource(s)
    ensures WfTree(Combine(t, s, render))
    ensures TreeCovers(Combine(t, s, render), t)
    ensures TreeCoversSource(Combine(t, s, render), s)
  {
    var c := Combine(t, s, render);
    forall suite | suite in c.histories
      ensures WfHistory(c.histories[suite], suite)
      ensures suite in t.histories ==> HistoryCovers(c.histories[suite], t.histories[suite])
      ensures suite in s.histories ==> HistoryCovers(c.histories[suite], s.histories[suite])
    {
      assert suite in t.histories ==> WfHistory(t.histories[suite], suite);
      if suite in s.histories {
        assert WfHistory(s.histories[suite], suite);
        CombineHistoryFacts(Load(t, suite), s.histories[suite], suite);
      } else {
        CoversItself(t.histories[suite]);
      }
    }
  }

  lemma CombineHistoryTwice(current: History, incoming: History)
    requires DistinctKeys(current.series, current.allRuns)
    ensures CombineHistory(CombineHistory(current, incoming), incoming) == CombineHistory(current, incoming)
  {
    var merged := Merged(current, incoming.series);
    var combined := CombineHistory(current, incoming);
    MergeIsIdempotent(current, incoming.series);
    assert MergedSamples(combined, incoming.series) == MergedSamples(merged, incoming.series);
  }

  /** Publishing the same data on top of itself changes nothing, so the second run finds the
      generated files already current. */
  lemma CombineIsIdempotent(t: Tree, s: Source, render: Renderer)
    requires WfTree(t) && WfSource(s)
    ensures Combine(Combine(t, s, render), s, render) == Combine(t, s, render)
  {
    var c := Combine(t, s, render);
    var cc := Combine(c, s, render);
    assert cc.histories.Keys == c.histories.Keys;
    forall suite | suite in c.histories ensures cc.histories[suite] == c.histories[suite] {
      if suite in s.histories {
        CombinedTwice(t, s, suite);
      }
    }
    assert cc.histories == c.histories;
    assert cc.imports == c.imports && cc.stats == c.stats;
  }

  lemma CombinedTwice(t: Tree, s: Source, suite: Suite)
    requires WfTree(t) && suite in s.histories
    ensures var once := CombineHistory(Load(t, suite), s.histories[suite]);
      CombineHistory(once, s.histories[suite]) == once
  {
    assert suite in t.histories ==> WfHistory(t.histories[suite], suite);
    CombineHistoryTwice(Load(t, suite), s.histories[suite]);
  }

  // ---- the protocol ----

  /** Where a publisher is. Attempts count from 1; `base` is the position of the checkout in
      `main`'s log. */
  datatype Phase =
    | Ready(attempt: nat)
    | CheckedOut(attempt: nat, base: nat)
    | Committed(attempt: nat, base: nat, tree: Tree)
    | Pushed(at: nat)
    | AlreadyCurrent(at: nat)
    | GaveUp

  /** The fixed part of a run: the retry bound, each publisher's data, and the report generator. */
  datatype Config = Config(attempts: nat, sources: map<nat, Source>, render: Renderer)

  /** `main` as the sequence of its commits, and every publisher's phase. */
  datatype World = World(log: seq<Tree>, phases: map<nat, Phase>)

  function Main(w: World): Tree
    requires w.log != []
  {
    w.log[|w.log| - 1]
  }

  datatype Event =
    | Fetch(pid: nat)
    | Regenerate(pid: nat)
    | Push(pid: nat)
    | Breakdown(pid: nat)
    | Unrelated

  /** The attempt after a push that did not get through, if there is one. */
  function Retry(c: Config, attempt: nat): Phase {
    if attempt < c.attempts then Ready(attempt + 1) else GaveUp
  }

  /** One event. A push is refused unless its checkout is still the tip of `main`, and may break down
      for reasons of its own; an unrelated commit moves the tip and leaves the published files alone. */
  function Next(c: Config, w: World, e: Event): World
    requires w.log != []
  {
    match e
    case Unrelated => w.(log := w.log + [Main(w)])
    case Fetch(p) =>
      if p in w.phases && w.phases[p].Ready? then
        w.(phases := w.phases[p := CheckedOut(w.phases[p].attempt, |w.log| - 1)])
      else w
    case Regenerate(p) =>
      if p in w.phases && p in c.sources && w.phases[p].CheckedOut? && w.phases[p].base < |w.log| then
        var checkout := w.log[w.phases[p].base];
        var combined := Combine(checkout, c.sources[p], c.render);
        w.(phases := w.phases[p :=
          if combined == checkout then AlreadyCurrent(w.phases[p].base)
          else Committed(w.phases[p].attempt, w.phases[p].base, combined)])
      else w
    case Push(p) =>
      if p in w.phases && w.phases[p].Committed? then
        var phase := w.phases[p];
        if phase.base == |w.log| - 1 then
          World(w.log + [phase.tree], w.phases[p := Pushed(|w.log|)])
        else w.(phases := w.phases[p := Retry(c, phase.attempt)])
      else w
    case Breakdown(p) =>
      if p in w.phases && w.phases[p].Committed? then w.(phases := w.phases[p := Retry(c, w.phases[p].attempt)]) else w
  }

  function After(c: Config, w: World, events: seq<Event>): (r: World)
    requires w.log != []
    ensures r.log != [] && w.log <= r.log
  {
    if events == [] then w
    else
      var n := |events| - 1;
      Next(c, After(c, w, events[..n]), events[n])
  }

  ghost predicate WfConfig(c: Config) {
    c.attempts >= 1 && forall p | p in c.sources :: WfSource(c.sources[p])
  }

  ghost predicate WfLog(log: seq<Tree>) {
    log != [] && forall t | t in log :: WfTree(t)
  }

  /** Every commit covers the ones before it. */
  ghost predicate Growing(log: seq<Tree>) {
    forall i, j | 0 <= i <= j < |log| :: TreeCovers(log[j], log[i])
  }

  ghost predicate Initial(c: Config, w: World) {
    && WfLog(w.log) && Growing(w.log)
    && w.phases.Keys == c.sources.Keys
    && forall p | p in w.phases :: w.phases[p] == Ready(1)
  }

  /** How many of a publisher's pushes broke down. */
  function Breakdowns(events: seq<Event>, pid: nat): nat {
    if events == [] then 0
    else
      var n := |events| - 1;
      Breakdowns(events[..n], pid) + if events[n] == Breakdown(pid) then 1 else 0
  }

  /** What a phase promises about `main`'s log. `start` is the log's length when publishing began,
      less the pushes of this publisher that broke down. */
  ghost predicate PhaseInv(c: Config, log: seq<Tree>, start: int, s: Source, phase: Phase) {
    match phase
    case Ready(k) => start + k - 1 <= |log| && 1 <= k <= c.attempts
    case CheckedOut(k, base) => start + k - 1 <= base + 1 && base < |log| && 1 <= k <= c.attempts
    case Committed(k, base, tree) =>
      start + k - 1 <= base + 1 && base < |log| && 1 <= k <= c.attempts && tree == Combine(log[base], s, c.render)
    case Pushed(at) => 0 < at < |log| && log[at] == Combine(log[at - 1], s, c.render)
    case AlreadyCurrent(at) => at < |log| && log[at] == Combine(log[at], s, c.render)
    case GaveUp => start + c.attempts <= |log|
  }

  /** The invariant after these events. */
  ghost predicate Inv(c: Config, start: nat, w: World, events: seq<Event>) {
    && WfLog(w.log) && Growing(w.log)
    && w.phases.Keys == c.sources.Keys
    && forall p | p in w.phases :: PhaseInv(c, w.log, start - Breakdowns(events, p), c.sources[p], w.phases[p])
  }

  /** Appending a commit that covers the tip keeps the log well formed and growing. */
  lemma LogGrows(log: seq<Tree>, t: Tree)
    requires WfLog(log) && Growing(log) && WfTree(t)
    requires TreeCovers(t, log[|log| - 1])
    ensures WfLog(log + [t]) && Growing(log + [t])
  {
    var all := log + [t];
    forall i, j | 0 <= i <= j < |all| ensures TreeCovers(all[j], all[i]) {
      if i == |log| {
        TreeCoversItself(t);
      } else if j == |log| {
        assert log[i] in log && log[|log| - 1] in log;
        TreeCoversCompose(t, log[|log| - 1], log[i]);
      }
    }
  }

  /** A longer log keeps what every phase promises. */
  lemma PhasesSurvive(c: Config, log: seq<Tree>, longer: seq<Tree>, start: int, now: int, s: Source, phase: Phase)
    requires log <= longer && now <= start && PhaseInv(c, log, start, s, phase)
    ensures PhaseInv(c, longer, now, s, phase)
  {
  }

  /** The log after an event is well formed, growing and an extension of the one before. */
  lemma NextKeepsLog(c: Config, start: nat, w: World, before: seq<Event>, e: Event)
    requires WfConfig(c) && Inv(c, start, w, before)
    ensures var log := Next(c, w, e).log; WfLog(log) && Growing(log) && w.log <= log
  {
    if e.Unrelated? {
      var tip := Main(w);
      assert tip in w.log;
      TreeCoversItself(tip);
      LogGrows(w.log, tip);
    } else if e.Push? && Next(c, w, e).log != w.log {
      assert PhaseInv(c, w.log, start - Breakdowns(before, e.pid), c.sources[e.pid], w.phases[e.pid]);
      PushLands(w.log, c.sources[e.pid], c.render);
    }
  }

  lemma BreakdownsStep(before: seq<Event>, e: Event, p: nat)
    ensures Breakdowns(before + [e], p) == Breakdowns(before, p) + if e == Breakdown(p) then 1 else 0
  {
    assert (before + [e])[..|before|] == before;
  }

  /** The phase an event gives to the publisher it concerns. */
  lemma ConcernedKeepsPhase(c: Config, start: int, w: World, e: Event, p: nat)
    requires w.log != [] && p in w.phases && p in c.sources && PhaseInv(c, w.log, start, c.sources[p], w.phases[p])
    requires e == Fetch(p) || e == Regenerate(p) || e == Push(p) || e == Breakdown(p)
    ensures var n := Next(c, w, e);
      p in n.phases && PhaseInv(c, n.log, start - if e == Breakdown(p) then 1 else 0, c.sources[p], n.phases[p])
  {
  }

  lemma OthersKeepPhase(c: Config, w: World, e: Event, p: nat)
    requires w.log != [] && p in w.phases && !(e == Fetch(p) || e == Regenerate(p) || e == Push(p) || e == Breakdown(p))
    ensures var n := Next(c, w, e); p in n.phases && n.phases[p] == w.phases[p]
  {
  }

  /** A phase that the event leaves alone survives it, and the one it changes keeps its promise. */
  lemma NextKeepsPhase(c: Config, start: nat, w: World, before: seq<Event>, e: Event, p: nat)
    requires WfConfig(c) && Inv(c, start, w, before) && p in w.phases
    ensures var n := Next(c, w, e);
      p in n.phases && PhaseInv(c, n.log, start - Breakdowns(before + [e], p), c.sources[p], n.phases[p])
  {
    var from := start - Breakdowns(before, p);
    BreakdownsStep(before, e, p);
    assert PhaseInv(c, w.log, from, c.sources[p], w.phases[p]);
    if e == Fetch(p) || e == Regenerate(p) || e == Push(p) || e == Breakdown(p) {
      ConcernedKeepsPhase(c, from, w, e, p);
    } else {
      NextKeepsLog(c, start, w, before, e);
      OthersKeepPhase(c, w, e, p);
      PhasesSurvive(c, w.log, Next(c, w, e).log, from, from, c.sources[p], w.phases[p]);
    }
  }

  lemma NextKeepsInv(c: Config, start: nat, w: World, before: seq<Event>, e: Event)
    requires WfConfig(c) && Inv(c, start, w, before)
    ensures Inv(c, start, Next(c, w, e), before + [e])
  {
    var n := Next(c, w, e);
    NextKeepsLog(c, start, w, before, e);
    forall p | p in n.phases
      ensures PhaseInv(c, n.log, start - Breakdowns(before + [e], p), c.sources[p], n.phases[p])
    {
      NextKeepsPhase(c, start, w, before, e, p);
    }
  }

  /** An accepted push appends a commit that covers the tip and the publisher's data. */
  lemma PushLands(log: seq<Tree>, s: Source, render: Renderer)
    requires WfLog(log) && Growing(log) && WfSource(s)
    ensures var t := Combine(log[|log| - 1], s, render); WfLog(log + [t]) && Growing(log + [t])
  {
    var tip := log[|log| - 1];
    assert tip in log;
    CombineFacts(tip, s, render);
    LogGrows(log, Combine(tip, s, render));
  }

  lemma {:induction false} AfterKeepsInv(c: Config, start: nat, w: World, events: seq<Event>)
    requires WfConfig(c) && Inv(c, start, w, [])
    ensures Inv(c, start, After(c, w, events), events)
  {
    if events != [] {
      var n := |events| - 1;
      AfterKeepsInv(c, start, w, events[..n]);
      NextKeepsInv(c, start, After(c, w, events[..n]), events[..n], events[n]);
      assert events[..n] + [events[n]] == events;
    }
  }

  /** Over any interleaving, `main` only grows: at the end it covers every commit it ever had.
      No key disappears, and no key's sample gets older. */
  lemma MainNeverLosesASample(c: Config, w: World, events: seq<Event>, later: seq<Event>)
    requires WfConfig(c) && Initial(c, w)
    ensures TreeCovers(Main(After(c, w, events + later)), Main(After(c, w, events)))
    ensures WfTree(Main(After(c, w, events + later)))
  {
    AfterKeepsInv(c, |w.log|, w, events + later);
    AfterExtends(c, w, events, later);
    var first, last := After(c, w, events), After(c, w, events + later);
    assert Main(first) == last.log[|first.log| - 1];
    assert Main(last) in last.log;
  }

  lemma {:induction false} AfterExtends(c: Config, w: World, events: seq<Event>, later: seq<Event>)
    requires w.log != []
    ensures After(c, w, events).log <= After(c, w, events + later).log
  {
    if later == [] {
      assert events + later == events;
    } else {
      var n := |later| - 1;
      assert (events + later)[..|events| + n] == events + later[..n];
      AfterExtends(c, w, events, later[..n]);
    }
  }

  /** When a publisher is done, whether it pushed or found nothing to do, `main` holds every one
      of its samples at least as new, and keeps doing so. */
  lemma DoneMeansCovered(c: Config, w: World, events: seq<Event>, pid: nat)
    requires WfConfig(c) && Initial(c, w) && pid in c.sources
    requires var r := After(c, w, events); pid in r.phases && (r.phases[pid].Pushed? || r.phases[pid].AlreadyCurrent?)
    ensures TreeCoversSource(Main(After(c, w, events)), c.sources[pid])
  {
    var r := After(c, w, events);
    AfterKeepsInv(c, |w.log|, w, events);
    InvLog(c, |w.log|, r, events, pid);
    CommitOfDone(c, |w.log|, r, events, pid);
    StaysCovered(r, r.phases[pid].at, c.sources[pid]);
  }

  lemma InvLog(c: Config, start: nat, w: World, before: seq<Event>, pid: nat)
    requires WfConfig(c) && Inv(c, start, w, before) && pid in w.phases
    ensures pid in c.sources && WfSource(c.sources[pid]) && WfLog(w.log) && Growing(w.log)
  {
  }

  /** A publisher that is done points at a commit with its own data. */
  lemma CommitOfDone(c: Config, start: nat, w: World, before: seq<Event>, pid: nat)
    requires WfConfig(c) && Inv(c, start, w, before)
    requires pid in w.phases && (w.phases[pid].Pushed? || w.phases[pid].AlreadyCurrent?)
    ensures pid in c.sources && w.phases[pid].at < |w.log| && TreeCoversSource(w.log[w.phases[pid].at], c.sources[pid])
  {
    var phase := w.phases[pid];
    assert PhaseInv(c, w.log, start - Breakdowns(before, pid), c.sources[pid], phase);
    CommitCovers(w.log, if phase.Pushed? then phase.at - 1 else phase.at, phase.at, c.sources[pid], c.render);
  }

  lemma CommitCovers(log: seq<Tree>, before: nat, at: nat, s: Source, render: Renderer)
    requires WfLog(log) && WfSource(s) && before < |log| && at < |log| && log[at] == Combine(log[before], s, render)
    ensures TreeCoversSource(log[at], s)
  {
    assert log[before] in log;
    CombineFacts(log[before], s, render);
  }

  /** What a commit of a growing log covers, its tip covers. */
  lemma StaysCovered(w: World, at: nat, s: Source)
    requires WfLog(w.log) && Growing(w.log) && WfSource(s)
    requires at < |w.log| && TreeCoversSource(w.log[at], s)
    ensures TreeCoversSource(Main(w), s)
  {
    var tip := Main(w);
    assert w.log[at] in w.log && tip in w.log;
    assert TreeCovers(tip, w.log[at]);
    TreeCoversSourceCompose(tip, w.log[at], s);
  }

  /** A publisher gives up only after every attempt failed: each time another commit landed on
      `main` or its own push broke down. */
  lemma GivingUpMeansOthersProgressed(c: Config, w: World, events: seq<Event>, pid: nat)
    requires WfConfig(c) && Initial(c, w)
    requires var r := After(c, w, events); pid in r.phases && r.phases[pid].GaveUp?
    ensures |After(c, w, events).log| - |w.log| + Breakdowns(events, pid) >= c.attempts
  {
    AfterKeepsInv(c, |w.log|, w, events);
    assert PhaseInv(c, After(c, w, events).log, |w.log| - Breakdowns(events, pid), c.sources[pid],
      After(c, w, events).phases[pid]);
  }

  /** How many pushes of a publisher did not get through: refused, or broken down. */
  function FailedPushes(c: Config, w: World, events: seq<Event>, pid: nat): nat
    requires w.log != []
  {
    if events == [] then 0
    else
      var n := |events| - 1;
      var before := After(c, w, events[..n]);
      FailedPushes(c, w, events[..n], pid) + if Fails(before, events[n], pid) then 1 else 0
  }

  /** The event is a push by this publisher that does not get through. */
  predicate Fails(w: World, e: Event, pid: nat) {
    && pid in w.phases && w.phases[pid].Committed?
    && (e == Breakdown(pid) || (e == Push(pid) && w.phases[pid].base != |w.log| - 1))
  }

  /** The publisher is in its `failed + 1`-st attempt, or gave up at the last one. */
  predicate Counted(c: Config, phase: Phase, failed: nat) {
    match phase
    case Ready(k) => k == failed + 1
    case CheckedOut(k, _) => k == failed + 1
    case Committed(k, _, _) => k == failed + 1
    case GaveUp => failed == c.attempts
    case _ => failed < c.attempts
  }

  lemma NextCounts(c: Config, w: World, e: Event, pid: nat, failed: nat)
    requires w.log != [] && pid in w.phases && failed <= c.attempts && Counted(c, w.phases[pid], failed)
    requires !w.phases[pid].GaveUp? ==> failed < c.attempts
    ensures var after := Next(c, w, e).phases; var now := failed + if Fails(w, e, pid) then 1 else 0;
      && pid in after && now <= c.attempts && Counted(c, after[pid], now)
      && (!after[pid].GaveUp? ==> now < c.attempts)
  {
  }

  /** A publisher makes one attempt more than it had pushes that failed, and gives up exactly when as
      many failed as it has attempts. */
  lemma {:induction false} AttemptsAreCounted(c: Config, w: World, events: seq<Event>, pid: nat)
    requires WfConfig(c) && Initial(c, w) && pid in c.sources
    ensures pid in After(c, w, events).phases
    ensures var failed := FailedPushes(c, w, events, pid); var phase := After(c, w, events).phases[pid];
      Counted(c, phase, failed) && failed <= c.attempts && (phase.GaveUp? <==> failed == c.attempts)
  {
    if events != [] {
      var n := |events| - 1;
      AttemptsAreCounted(c, w, events[..n], pid);
      NextCounts(c, After(c, w, events[..n]), events[n], pid, FailedPushes(c, w, events[..n], pid));
    }
  }

  /** Without the refusal of stale pushes samples are lost: a commit prepared on an old checkout
      need not cover what another publisher pushed meanwhile. */
  lemma StaleTreeLosesKeys(base: Tree, mine: Source, theirs: Source, render: Renderer, suite: Suite, r: Record)
    requires WfTree(base) && WfSource(mine) && WfSource(theirs)
    requires suite in mine.histories && suite in theirs.histories && r in theirs.histories[suite].series
    requires !HasKey(Load(base, suite), KeyOf(r, false)) && !HasKey(mine.histories[suite], KeyOf(r, false))
    ensures !TreeCovers(Combine(base, mine, render), Combine(base, theirs, render))
  {
    var stale, winner := Combine(base, mine, render), Combine(base, theirs, render);
    assert suite in base.histories ==> WfHistory(base.histories[suite], suite);
    assert WfHistory(mine.histories[suite], suite) && WfHistory(theirs.histories[suite], suite);
    KeyOnlyInTheirs(Load(base, suite), mine.histories[suite], theirs.histories[suite], r);
    if TreeCovers(stale, winner) {
      CoversKeepsKeys(stale.histories[suite], winner.histories[suite], KeyOf(r, false));
    }
  }

  lemma KeyOnlyInTheirs(current: History, mine: History, theirs: History, r: Record)
    requires DistinctKeys(current.series, false) && !current.allRuns && r in theirs.series
    requires !HasKey(current, KeyOf(r, false)) && !mine.allRuns && !HasKey(mine, KeyOf(r, false))
    ensures HasKey(CombineHistory(current, theirs), KeyOf(r, false))
    ensures !HasKey(CombineHistory(current, mine), KeyOf(r, false))
  {
    var k := KeyOf(r, false);
    MergeKeys(current, mine.series, k);
    MergeKeys(current, theirs.series, k);
    assert HasKey(CombineHistory(current, mine), k) == HasKey(Merged(current, mine.series), k);
    assert HasKey(CombineHistory(current, theirs), k) == HasKey(Merged(current, theirs.series), k);
  }

  lemma CoversKeepsKeys(new_: History, old_: History, k: Key)
    requires HistoryCovers(new_, old_) && HasKey(old_, k) && new_.allRuns == old_.allRuns
    ensures HasKey(new_, k)
  {
    var m :| m in old_.series && KeyOf(m, old_.allRuns) == k;
    assert Covers(new_, m);
  }

  // ---- publish() itself ----

  /** The remote branch, and a push that git refuses when it is not a fast-forward or cannot reach it. */
  class Remote {
    var log: seq<Tree>

    constructor (log: seq<Tree>)
      requires log != []
      ensures this.log == log
    {
      this.log := log;
    }

    method Push(base: nat, tree: Tree, reached: bool) returns (accepted: bool)
      requires log != []
      modifies this
      ensures accepted <==> reached && base == |old(log)| - 1
      ensures log == if accepted then old(log) + [tree] else old(log)
    {
      accepted := reached && base == |log| - 1;
      if accepted {
        log := log + [tree];
      }
    }

    /** Other publishers' commits landing while this one prepares its own. */
    method OthersPush(sources: seq<Source>, render: Renderer)
      requires WfLog(log) && forall s | s in sources :: WfSource(s)
      modifies this
      ensures WfLog(log) && old(log) <= log && |log| == |old(log)| + |sources|
      ensures TreeCovers(log[|log| - 1], old(log)[|old(log)| - 1])
    {
      ghost var tip := log[|log| - 1];
      TreeCoversItself(tip);
      for i := 0 to |sources|
        invariant WfLog(log) && old(log) <= log && |log| == |old(log)| + i
        invariant TreeCovers(log[|log| - 1], tip)
      {
        var t := Combine(log[|log| - 1], sources[i], render);
        assert log[|log| - 1] in log && sources[i] in sources && tip in old(log);
        CombineFacts(log[|log| - 1], sources[i], render);
        TreeCoversCompose(t, log[|log| - 1], tip);
        log := log + [t];
      }
    }
  }

  lemma TreeCoversItself(t: Tree)
    ensures TreeCovers(t, t)
  {
    forall suite | suite in t.histories ensures HistoryCovers(t.histories[suite], t.histories[suite]) {
      CoversItself(t.histories[suite]);
    }
  }

  datatype Published = PushedTrue | CurrentFalse | Raised

  /** The last commit is the publisher's own, on top of the one before it, and changes something. */
  predicate LandedLast(log: seq<Tree>, s: Source, render: Renderer) {
    |log| >= 2 && log[|log| - 1] == Combine(log[|log| - 2], s, render) && log[|log| - 1] != log[|log| - 2]
  }

  /** One attempt on a fresh checkout; `None` when the push did not get through. */
  method PublishOnce(remote: Remote, s: Source, others: seq<Source>, reached: bool, render: Renderer)
    returns (r: Option<Published>)
    requires WfLog(remote.log) && WfSource(s) && forall o | o in others :: WfSource(o)
    modifies remote
    ensures WfLog(remote.log) && old(remote.log) <= remote.log
    ensures TreeCovers(remote.log[|remote.log| - 1], old(remote.log)[|old(remote.log)| - 1])
    ensures r.Some? ==> r.value != Raised && TreeCoversSource(remote.log[|remote.log| - 1], s)
    ensures r.None? ==> others != [] || !reached
    ensures r.Some? ==> Combine(remote.log[|remote.log| - 1], s, render) == remote.log[|remote.log| - 1]
    ensures var tip := old(remote.log)[|old(remote.log)| - 1]; var mine := Combine(tip, s, render);
      && (r == Some(CurrentFalse) <==> mine == tip) && (r == Some(CurrentFalse) ==> remote.log == old(remote.log))
      && (r == Some(PushedTrue) ==> remote.log == old(remote.log) + [mine])
  {
    var base := |remote.log| - 1;
    var checkout := remote.log[base];
    assert checkout in remote.log;
    var combined := Combine(checkout, s, render);
    CombineFacts(checkout, s, render);
    TreeCoversItself(checkout);
    if combined == checkout {
      return Some(CurrentFalse);
    }
    remote.OthersPush(others, render);
    var accepted := remote.Push(base, combined, reached);
    if !accepted {
      return None;
    }
    CombineIsIdempotent(checkout, s, render);
    return Some(PushedTrue);
  }

  /** `publish`: `others[k]` are the commits that land between attempt k's checkout and its push, and
      `reached[k]` says whether that push reaches the remote at all. Whatever happens, `main` keeps
      everything it held; unless every attempt lost a race or its connection, it ends up holding the
      publisher's data too, and publishing it again would change nothing. */
  method Publish(remote: Remote, s: Source, attempts: nat, others: seq<seq<Source>>, reached: seq<bool>,
      render: Renderer) returns (r: Published)
    requires WfLog(remote.log) && WfSource(s)
    requires |others| == |reached| == attempts && forall k | 0 <= k < attempts :: forall o | o in others[k] ::
      WfSource(o)
    modifies remote
    ensures WfLog(remote.log) && old(remote.log) <= remote.log
    ensures TreeCovers(remote.log[|remote.log| - 1], old(remote.log)[|old(remote.log)| - 1])
    ensures r != Raised ==> TreeCoversSource(remote.log[|remote.log| - 1], s)
    ensures r != Raised ==> Combine(remote.log[|remote.log| - 1], s, render) == remote.log[|remote.log| - 1]
    ensures r == Raised ==> forall k | 0 <= k < attempts :: others[k] != [] || !reached[k]
    ensures r == PushedTrue ==> LandedLast(remote.log, s, render)
  {
    ghost var tip := remote.log[|remote.log| - 1];
    TreeCoversItself(tip);
    for attempt := 0 to attempts
      invariant WfLog(remote.log) && old(remote.log) <= remote.log
      invariant TreeCovers(remote.log[|remote.log| - 1], tip)
      invariant forall k | 0 <= k < attempt :: others[k] != [] || !reached[k]
    {
      ghost var before := remote.log;
      var outcome := PublishOnce(remote, s, others[attempt], reached[attempt], render);
      StillCovers(remote.log, before, tip);
      if outcome.Some? {
        return outcome.value;
      }
    }
    return Raised;
  }

  lemma StillCovers(log: seq<Tree>, before: seq<Tree>, tip: Tree)
    requires WfLog(log) && WfLog(before) && WfTree(tip)
    requires TreeCovers(log[|log| - 1], before[|before| - 1]) && TreeCovers(before[|before| - 1], tip)
    ensures TreeCovers(log[|log| - 1], tip)
  {
    assert log[|log| - 1] in log && before[|before| - 1] in before;
    TreeCoversCompose(log[|log| - 1], before[|before| - 1], tip);
  }
}
