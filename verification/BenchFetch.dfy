/** Importing CI artifacts: which ones are already accounted for, and what one refresh does to
    the saved histories and the import manifest. */
module BenchFetch {
  import opened Wrappers
  import opened BenchRecords
  import opened BenchBackfill
  import opened BenchMerge

  /** A CI artifact as GitHub lists it. */
  datatype Artifact = Artifact(id: nat, createdAt: Stamp, runId: int, sha: string)

  /** One suite's measurements inside an artifact. */
  datatype Payload = Payload(measuredAt: Option<Stamp>, runAttempt: Option<nat>, env: Environment, cases: seq<Case>)

  /** The artifacts' contents; a missing id is a failed download. */
  type Archive = map<nat, map<Suite, Payload>>

  /** A manifest entry: the suites an artifact gave records for, and (in newer manifests) the
      identifying fields of each. */
  datatype Entry = Entry(createdAt: Stamp, suites: set<Suite>, samples: map<Suite, Record>)

  type Manifest = map<nat, Entry>
  type Histories = map<Suite, History>

  datatype FetchError = Unreadable | Invalid

  /** The record read out of an artifact: its identity comes from GitHub's metadata. */
  function RecordOf(meta: Artifact, p: Payload): Record {
    Record(meta.createdAt.instant / DAY, meta.createdAt, p.measuredAt, meta.sha, meta.runId,
           if p.runAttempt.Some? then Number(p.runAttempt.value) else Null,
           Number(meta.id), p.env, p.cases, map[])
  }

  /** The fields of a record that the manifest keeps; a missing one is stored as null. */
  function SampleOf(r: Record): Record {
    Record(r.date, r.stamp, None, "", r.runId,
           if r.runAttempt.Missing? then Null else r.runAttempt,
           if r.artifactId.Missing? then Null else r.artifactId, r.env, [], map[])
  }

  lemma SampleIdentifiesRecord(r: Record, allRuns: bool)
    ensures KeyOf(SampleOf(r), allRuns) == KeyOf(r, allRuns) && OrderOf(SampleOf(r)) == OrderOf(r)
  {
  }

  // ---- cached_import ----

  ghost predicate HoldsArtifact(h: History, id: nat) {
    exists r :: r in h.series && r.artifactId == Number(id)
  }

  ghost predicate Present(e: Entry, id: nat, suite: Suite, h: History) {
    if suite in e.samples then Covers(h, e.samples[suite]) else HoldsArtifact(h, id)
  }

  ghost predicate Cached(id: nat, imported: Manifest, histories: Histories) {
    id in imported && forall suite | suite in imported[id].suites && suite in histories ::
      Present(imported[id], id, suite, histories[suite])
  }

  method CachedImport(id: nat, imported: Manifest, histories: Histories) returns (cached: bool)
    requires id in imported ==> imported[id].suites <= histories.Keys
    ensures cached <==> Cached(id, imported, histories)
  {
    if id !in imported {
      return false;
    }
    var e := imported[id];
    var todo := e.suites;
    while todo != {}
      invariant todo <= e.suites
      invariant forall suite | suite in e.suites && suite !in todo :: Present(e, id, suite, histories[suite])
      decreases |todo|
    {
      var suite :| suite in todo;
      todo := todo - {suite};
      var h := histories[suite];
      var present := false;
      for i := 0 to |h.series|
        invariant !present
        invariant forall j | 0 <= j < i :: !Matches(e, id, suite, h.series[j], h.allRuns)
      {
        if Matches(e, id, suite, h.series[i], h.allRuns) {
          present := true;
          assert h.series[i] in h.series;
          break;
        }
      }
      if !present {
        return false;
      }
    }
    return true;
  }

  predicate Matches(e: Entry, id: nat, suite: Suite, r: Record, allRuns: bool) {
    if suite in e.samples then
      KeyOf(r, allRuns) == KeyOf(e.samples[suite], allRuns) && AtMost(OrderOf(e.samples[suite]), OrderOf(r))
    else r.artifactId == Number(id)
  }

  // ---- refresh ----

  /** The entry a newly imported artifact is recorded with. */
  function EntryFor(meta: Artifact, payloads: map<Suite, Payload>): Entry {
    Entry(meta.createdAt, payloads.Keys, map suite | suite in payloads :: SampleOf(RecordOf(meta, payloads[suite])))
  }

  ghost function Pending(artifacts: seq<Artifact>, imported: Manifest, histories: Histories): seq<Artifact> {
    if artifacts == [] then []
    else
      var n := |artifacts| - 1;
      Pending(artifacts[..n], imported, histories)
      + if Cached(artifacts[n].id, imported, histories) then [] else [artifacts[n]]
  }

  function Incoming(pending: seq<Artifact>, archive: Archive, suite: Suite): seq<Record> {
    if pending == [] then []
    else
      var n := |pending| - 1;
      Incoming(pending[..n], archive, suite) + RecordsOf(pending[n], archive, suite)
  }

  /** What one artifact contributes to one suite: at most one record. */
  function RecordsOf(meta: Artifact, archive: Archive, suite: Suite): seq<Record> {
    if meta.id in archive && suite in archive[meta.id] then [RecordOf(meta, archive[meta.id][suite])] else []
  }

  function Recorded(pending: seq<Artifact>, archive: Archive, imported: Manifest): Manifest {
    if pending == [] then imported
    else
      var n := |pending| - 1;
      var before := Recorded(pending[..n], archive, imported);
      if pending[n].id in archive then before[pending[n].id := EntryFor(pending[n], archive[pending[n].id])] else before
  }

  /** The artifact can be downloaded and holds valid results for at least one suite. */
  predicate Readable(meta: Artifact, archive: Archive) {
    && meta.id in archive && archive[meta.id] != map[]
    && forall suite | suite in archive[meta.id] :: ValidRecord(suite, RecordOf(meta, archive[meta.id][suite]))
  }

  ghost predicate AllReadable(pending: seq<Artifact>, archive: Archive) {
    forall meta | meta in pending :: Readable(meta, archive)
  }

  ghost function RefreshedHistories(histories: Histories, pending: seq<Artifact>, archive: Archive): Histories {
    map suite | suite in histories :: Merged(histories[suite], Incoming(pending, archive, suite))
  }

  function Ids(artifacts: seq<Artifact>): set<nat> {
    set a | a in artifacts :: a.id
  }

  /** The entries whose artifact is still available. */
  function StillAvailable(all: Manifest, artifacts: seq<Artifact>): Manifest {
    var available := Ids(artifacts);
    map id | id in all && id in available :: all[id]
  }

  ghost function RefreshedManifest(imported: Manifest, pending: seq<Artifact>, artifacts: seq<Artifact>,
      archive: Archive): Manifest {
    StillAvailable(Recorded(pending, archive, imported), artifacts)
  }

  /** What the saved files must be for a refresh to load them. */
  ghost predicate Loaded(histories: Histories, imported: Manifest) {
    && histories.Keys == SUITES
    && (forall suite | suite in histories ::
      histories[suite].suite == suite && DistinctKeys(histories[suite].series, histories[suite].allRuns))
    && (forall id | id in imported :: imported[id].suites <= SUITES)
  }

  /** The saved state: the history files and the import manifest. */
  class Store {
    var histories: Histories
    var imported: Manifest

    constructor (histories: Histories, imported: Manifest)
      ensures this.histories == histories && this.imported == imported
    {
      this.histories := histories;
      this.imported := imported;
    }

    /** `refresh`: every input is read and validated before anything is written. */
    method Refresh(artifacts: seq<Artifact>, archive: Archive) returns (r: Result<nat, FetchError>)
      requires Loaded(histories, imported)
      modifies this
      ensures r.Ok? <==> AllReadable(Pending(artifacts, old(imported), old(histories)), archive)
      ensures r.Err? ==> histories == old(histories) && imported == old(imported)
      ensures r.Ok? ==>
        && histories == RefreshedHistories(old(histories), Pending(artifacts, old(imported), old(histories)), archive)
        && imported
          == RefreshedManifest(old(imported), Pending(artifacts, old(imported), old(histories)), artifacts, archive)
    {
      var pending := ListPending(artifacts, imported, histories);
      var computed := ComputeRefresh(histories, imported, pending, artifacts, archive);
      if computed.Err? {
        return Err(computed.error);
      }
      histories := computed.value.0;
      imported := computed.value.1;
      return Ok(|pending|);
    }
  }

  /** Everything a refresh works out before it writes. */
  method ComputeRefresh(
    histories: Histories, imported: Manifest, pending: seq<Artifact>, artifacts: seq<Artifact>, archive: Archive)
    returns (r: Result<(Histories, Manifest), FetchError>)
    requires histories.Keys == SUITES && forall suite | suite in histories :: histories[suite].suite == suite
    ensures r.Ok? <==> AllReadable(pending, archive)
    ensures r.Ok? ==> r.value.0 == RefreshedHistories(histories, pending, archive)
    ensures r.Ok? ==> r.value.1 == RefreshedManifest(imported, pending, artifacts, archive)
  {
    var read := ReadAll(pending, archive, imported);
    if read.Err? {
      return Err(read.error);
    }
    var (incoming, recorded) := read.value;
    var merged := MergeAll(histories, incoming, pending, archive);
    MergedAreRefreshed(histories, incoming, merged, pending, archive);
    return Ok((merged, StillAvailable(recorded, artifacts)));
  }

  lemma MergedAreRefreshed(
    histories: Histories, incoming: map<Suite, seq<Record>>, merged: Histories, pending: seq<Artifact>,
      archive: Archive)
    requires histories.Keys == SUITES == incoming.Keys == merged.Keys
    requires forall suite | suite in SUITES :: incoming[suite] == Incoming(pending, archive, suite)
    requires forall suite | suite in histories :: merged[suite] == Merged(histories[suite], incoming[suite])
    ensures merged == RefreshedHistories(histories, pending, archive)
  {
  }

  lemma ReadableSoFar(pending: seq<Artifact>, archive: Archive, i: nat)
    requires i < |pending| && AllReadable(pending[..i], archive) && Readable(pending[i], archive)
    ensures AllReadable(pending[..i + 1], archive)
  {
    forall meta | meta in pending[..i + 1]
      ensures Readable(meta, archive)
    {
      assert meta in pending[..i] || meta == pending[i];
    }
  }

  /** The records read so far, with one more artifact's. */
  function WithArtifact(incoming: map<Suite, seq<Record>>, meta: Artifact, archive: Archive): map<Suite, seq<Record>> {
    map suite | suite in incoming :: incoming[suite] + RecordsOf(meta, archive, suite)
  }

  /** The artifacts of the list that are not accounted for. */
  method ListPending(artifacts: seq<Artifact>, imported: Manifest, histories: Histories)
    returns (pending: seq<Artifact>)
    requires Loaded(histories, imported)
    ensures pending == Pending(artifacts, imported, histories)
  {
    pending := [];
    for i := 0 to |artifacts|
      invariant pending == Pending(artifacts[..i], imported, histories)
    {
      assert artifacts[..i + 1][..i] == artifacts[..i];
      var cached := CachedImport(artifacts[i].id, imported, histories);
      if !cached {
        pending := pending + [artifacts[i]];
      }
    }
    assert artifacts[..|artifacts|] == artifacts;
  }

  /** The download loop: the records of every pending artifact by suite, and the manifest with
      their entries. */
  method ReadAll(pending: seq<Artifact>, archive: Archive, imported: Manifest)
    returns (r: Result<(map<Suite, seq<Record>>, Manifest), FetchError>)
    ensures r.Ok? <==> AllReadable(pending, archive)
    ensures r.Ok? ==>
      && r.value.0.Keys == SUITES
      && (forall suite | suite in SUITES :: r.value.0[suite] == Incoming(pending, archive, suite))
      && r.value.1 == Recorded(pending, archive, imported)
  {
    var recorded := imported;
    var incoming: map<Suite, seq<Record>> := map suite | suite in SUITES :: [];
    for i := 0 to |pending|
      invariant recorded == Recorded(pending[..i], archive, imported)
      invariant incoming.Keys == SUITES
      invariant forall suite | suite in SUITES :: incoming[suite] == Incoming(pending[..i], archive, suite)
      invariant AllReadable(pending[..i], archive)
    {
      var meta := pending[i];
      if !Readable(meta, archive) {
        return Err(Unreadable);
      }
      assert pending[..i + 1][..i] == pending[..i];
      ReadableSoFar(pending, archive, i);
      incoming := WithArtifact(incoming, meta, archive);
      recorded := recorded[meta.id := EntryFor(meta, archive[meta.id])];
    }
    assert pending[..|pending|] == pending;
    return Ok((incoming, recorded));
  }

  /** `merge` on every suite's history. */
  method MergeAll(histories: Histories, incoming: map<Suite, seq<Record>>, pending: seq<Artifact>, archive: Archive)
    returns (merged: Histories)
    requires histories.Keys == incoming.Keys
    requires forall suite | suite in histories :: incoming[suite] == Incoming(pending, archive, histories[suite].suite)
    requires AllReadable(pending, archive)
    ensures merged.Keys == histories.Keys
    ensures forall suite | suite in histories :: merged[suite] == Merged(histories[suite], incoming[suite])
  {
    merged := map[];
    var todo := histories.Keys;
    while todo != {}
      invariant todo <= histories.Keys
      invariant merged.Keys == histories.Keys - todo
      invariant forall suite | suite in merged :: merged[suite] == Merged(histories[suite], incoming[suite])
      decreases |todo|
    {
      var suite :| suite in todo;
      todo := todo - {suite};
      var h := MergeOne(histories[suite], incoming[suite], pending, archive);
      merged := merged[suite := h];
    }
  }

  method MergeOne(h: History, incoming: seq<Record>, pending: seq<Artifact>, archive: Archive) returns (merged: History)
    requires incoming == Incoming(pending, archive, h.suite)
    requires AllReadable(pending, archive)
    ensures merged == Merged(h, incoming)
  {
    IncomingIsValid(pending, archive, h.suite);
    var r := Merge(h, incoming);
    merged := r.value;
  }

  lemma {:induction false} IncomingIsValid(pending: seq<Artifact>, archive: Archive, suite: Suite)
    requires AllReadable(pending, archive)
    ensures forall r | r in Incoming(pending, archive, suite) :: ValidRecord(suite, r) && Explicit(r)
  {
    if pending != [] {
      IncomingIsValid(pending[..|pending| - 1], archive, suite);
      assert Readable(pending[|pending| - 1], archive);
    }
  }

  // ---- what stays cached ----

  lemma CoversIsTransitive(h: History, r: Record, s: Record)
    requires Covers(h, r) && KeyOf(r, h.allRuns) == KeyOf(s, h.allRuns) && AtMost(OrderOf(s), OrderOf(r))
    ensures Covers(h, s)
  {
    var m :| m in h.series && KeyOf(m, h.allRuns) == KeyOf(r, h.allRuns) && AtMost(OrderOf(r), OrderOf(m));
    AtMostIsTransitive(OrderOf(s), OrderOf(r), OrderOf(m));
  }

  /** What a history covers stays covered by any later merge, superseded or not. */
  lemma MergeKeepsCovered(h: History, records: seq<Record>, sample: Record)
    requires DistinctKeys(h.series, h.allRuns) && Covers(h, sample)
    ensures Covers(Merged(h, records), sample)
  {
    MergeCovers(h, records);
    var m :| m in h.series && KeyOf(m, h.allRuns) == KeyOf(sample, h.allRuns) && AtMost(OrderOf(sample), OrderOf(m));
    CoversIsTransitive(Merged(h, records), m, sample);
  }

  /** An entry that records a sample for each of its suites. */
  ghost predicate Sampled(e: Entry) {
    e.suites <= e.samples.Keys
  }

  /** An artifact recorded with its samples stays cached whatever is merged afterwards. */
  lemma SampledEntriesStayCached(id: nat, imported: Manifest, histories: Histories, later: Histories)
    requires Cached(id, imported, histories) && Sampled(imported[id])
    requires later.Keys == histories.Keys
    requires forall suite | suite in histories ::
      DistinctKeys(histories[suite].series, histories[suite].allRuns)
      && exists records :: later[suite] == Merged(histories[suite], records)
    ensures Cached(id, imported, later)
  {
    forall suite | suite in imported[id].suites && suite in later
      ensures Present(imported[id], id, suite, later[suite])
    {
      var records :| later[suite] == Merged(histories[suite], records);
      MergeKeepsCovered(histories[suite], records, imported[id].samples[suite]);
    }
  }

  // ---- one refresh ----

  lemma {:induction false} PendingFacts(artifacts: seq<Artifact>, imported: Manifest, histories: Histories)
    ensures forall a ::
      a in Pending(artifacts, imported, histories) <==> a in artifacts && !Cached(a.id, imported, histories)
  {
    if artifacts != [] {
      var n := |artifacts| - 1;
      PendingFacts(artifacts[..n], imported, histories);
      assert artifacts == artifacts[..n] + [artifacts[n]];
    }
  }

  /** The entry of an imported artifact is the one made from its last listing; the others keep
      theirs. */
  lemma {:induction false} RecordedFacts(pending: seq<Artifact>, archive: Archive, imported: Manifest, id: nat)
    requires AllReadable(pending, archive)
    ensures var after := Recorded(pending, archive, imported);
      && ((exists a :: a in pending && a.id == id) ==>
            id in after && exists a ::
              a in pending && a.id == id && id in archive && after[id] == EntryFor(a, archive[id]))
      && ((forall a | a in pending :: a.id != id) ==>
        (id in after <==> id in imported) && (id in imported ==> after[id] == imported[id]))
  {
    if pending != [] {
      var n := |pending| - 1;
      assert pending == pending[..n] + [pending[n]];
      assert Readable(pending[n], archive);
      RecordedFacts(pending[..n], archive, imported, id);
      if pending[n].id == id {
        assert pending[n] in pending;
      }
    }
  }

  lemma {:induction false} IncomingHolds(pending: seq<Artifact>, archive: Archive, a: Artifact, suite: Suite)
    requires a in pending && a.id in archive && suite in archive[a.id]
    ensures RecordOf(a, archive[a.id][suite]) in Incoming(pending, archive, suite)
  {
    var n := |pending| - 1;
    if pending[n] != a {
      assert a in pending[..n];
      IncomingHolds(pending[..n], archive, a, suite);
    }
  }

  /** A newly imported artifact is accounted for. */
  lemma ImportedIsCached(histories: Histories, imported: Manifest, artifacts: seq<Artifact>, archive: Archive,
      meta: Artifact)
    requires Loaded(histories, imported)
    requires AllReadable(Pending(artifacts, imported, histories), archive)
    requires meta in Pending(artifacts, imported, histories)
    ensures var pending := Pending(artifacts, imported, histories);
      Cached(meta.id, RefreshedManifest(imported, pending, artifacts, archive),
        RefreshedHistories(histories, pending, archive))
  {
    var pending := Pending(artifacts, imported, histories);
    var after := RefreshedHistories(histories, pending, archive);
    PendingFacts(artifacts, imported, histories);
    RecordedFacts(pending, archive, imported, meta.id);
    var all := Recorded(pending, archive, imported);
    var a :| a in pending && a.id == meta.id && all[meta.id] == EntryFor(a, archive[meta.id]);
    assert meta in artifacts;
    forall suite | suite in all[meta.id].suites && suite in after
      ensures Present(all[meta.id], meta.id, suite, after[suite])
    {
      var r := RecordOf(a, archive[a.id][suite]);
      IncomingHolds(pending, archive, a, suite);
      MergeCovers(histories[suite], Incoming(pending, archive, suite));
      SampleIdentifiesRecord(r, histories[suite].allRuns);
      CoversIsTransitive(after[suite], r, SampleOf(r));
    }
  }

  // ---- when a refresh has to be repeated ----

  /** An incoming record of the same key is newer. */
  ghost predicate Outdated(r: Record, incoming: seq<Record>, allRuns: bool) {
    exists n :: n in incoming && KeyOf(n, allRuns) == KeyOf(r, allRuns) && Before(OrderOf(r), OrderOf(n))
  }

  ghost predicate FromIncoming(m: Record, k: Key, incoming: seq<Record>, allRuns: bool) {
    exists n :: n in incoming && KeyOf(n, allRuns) == k && m.artifactId == n.artifactId
  }

  /** A sample no incoming record is newer than stays as it is; any other is an incoming one's. */
  lemma {:induction false} StoredArtifact(d: Dict, incoming: seq<Record>, allRuns: bool, k: Key)
    requires Wf(d, allRuns) && (forall r | r in incoming :: Explicit(r)) && k in AbsorbAll(d, incoming, allRuns).at
    ensures var m := AbsorbAll(d, incoming, allRuns).at[k];
      if k in d.at && !Outdated(d.at[k], incoming, allRuns) then m == d.at[k] else FromIncoming(m, k, incoming, allRuns)
  {
    if incoming != [] {
      var n := |incoming| - 1;
      var b := AbsorbAll(d, incoming[..n], allRuns);
      AbsorbAllKeys(d, incoming[..n], allRuns);
      if k in b.at {
        StoredArtifact(d, incoming[..n], allRuns, k);
      }
      StoredStep(d, incoming, b, allRuns, k);
    }
  }

  lemma StoredStep(d: Dict, incoming: seq<Record>, b: Dict, allRuns: bool, k: Key)
    requires incoming != [] && Wf(d, allRuns) && Wf(b, allRuns) && (forall r | r in incoming :: Explicit(r))
    requires d.at.Keys <= b.at.Keys && k in Absorb(b, incoming[|incoming| - 1], allRuns).at
    requires k in b.at ==> var before := incoming[..|incoming| - 1];
      if k in d.at && !Outdated(d.at[k], before, allRuns) then b.at[k] == d.at[k]
        else FromIncoming(b.at[k], k, before, allRuns)
    ensures var m := Absorb(b, incoming[|incoming| - 1], allRuns).at[k];
      if k in d.at && !Outdated(d.at[k], incoming, allRuns) then m == d.at[k] else FromIncoming(m, k, incoming, allRuns)
  {
    var r := incoming[|incoming| - 1];
    var before := incoming[..|incoming| - 1];
    assert incoming == before + [r] && r in incoming;
    if k in b.at && FromIncoming(b.at[k], k, before, allRuns) {
      var n :| n in before && KeyOf(n, allRuns) == k && b.at[k].artifactId == n.artifactId;
      assert n in incoming;
    }
    if k in d.at && Outdated(d.at[k], before, allRuns) {
      var n :| n in before && KeyOf(n, allRuns) == KeyOf(d.at[k], allRuns) && Before(OrderOf(d.at[k]), OrderOf(n));
      assert n in incoming;
    }
    if k in d.at && !Outdated(d.at[k], before, allRuns) && Outdated(d.at[k], incoming, allRuns) {
      var n :| n in incoming && KeyOf(n, allRuns) == KeyOf(d.at[k], allRuns) && Before(OrderOf(d.at[k]), OrderOf(n));
      assert n == r;
    }
  }

  /** A merged history holds an artifact that is not being imported exactly when a record of it was
      saved and no incoming record of its key is newer. */
  lemma HoldsArtifactExactly(h: History, incoming: seq<Record>, id: nat)
    requires DistinctKeys(h.series, h.allRuns)
    requires forall r | r in incoming :: Explicit(r) && r.artifactId != Number(id)
    ensures HoldsArtifact(Merged(h, incoming), id) <==>
      exists r :: r in h.series && r.artifactId == Number(id) && !Outdated(r, incoming, h.allRuns)
  {
    var start, s := FromSeries(h.series, h.allRuns), MergedSamples(h, incoming);
    var d := AbsorbAll(start, incoming, h.allRuns);
    FromDistinctSeries(h.series, h.allRuns);
    FromSeriesFacts(h.series, h.allRuns);
    AbsorbAllKeys(start, incoming, h.allRuns);
    MergedSamplesFacts(h, incoming);
    BackfilledKeepsArtifacts(s, id);
    if r :| r in h.series && r.artifactId == Number(id) && !Outdated(r, incoming, h.allRuns) {
      StoredArtifact(start, incoming, h.allRuns, KeyOf(r, h.allRuns));
      assert d.at[KeyOf(r, h.allRuns)] in s;
    }
    if m :| m in s && m.artifactId == Number(id) {
      StoredArtifact(start, incoming, h.allRuns, KeyOf(m, h.allRuns));
      assert m in h.series;
    }
  }

  lemma BackfilledKeepsArtifacts(s: seq<Record>, id: nat)
    ensures (exists m :: m in Backfilled(s) && m.artifactId == Number(id))
      <==> exists m :: m in s && m.artifactId == Number(id)
  {
    if m :| m in Backfilled(s) && m.artifactId == Number(id) {
      var i :| 0 <= i < |s| && Backfilled(s)[i] == m;
      assert s[i] in s && s[i].artifactId == Number(id);
    }
    if m :| m in s && m.artifactId == Number(id) {
      var i :| 0 <= i < |s| && s[i] == m;
      assert Backfilled(s)[i] in Backfilled(s);
    }
  }

  /** Every record of the artifact that was saved is outdated by an incoming one. */
  ghost predicate AllOutdated(h: History, incoming: seq<Record>, id: nat) {
    forall r | r in h.series && r.artifactId == Number(id) :: Outdated(r, incoming, h.allRuns)
  }

  /** An entry without samples for some suite whose saved records of the artifact are all outdated. */
  ghost predicate Orphaned(id: nat, e: Entry, histories: Histories, pending: seq<Artifact>, archive: Archive) {
    exists suite :: suite in e.suites && suite in histories && suite !in e.samples
      && AllOutdated(histories[suite], Incoming(pending, archive, suite), id)
  }

  lemma {:induction false} IncomingArtifacts(pending: seq<Artifact>, archive: Archive, suite: Suite, id: nat)
    requires forall a | a in pending :: a.id != id
    ensures forall r | r in Incoming(pending, archive, suite) :: r.artifactId != Number(id)
  {
    if pending != [] {
      IncomingArtifacts(pending[..|pending| - 1], archive, suite, id);
      assert pending[|pending| - 1] in pending;
    }
  }

  lemma LostExactly(histories: Histories, pending: seq<Artifact>, archive: Archive, suite: Suite, id: nat)
    requires suite in histories && DistinctKeys(histories[suite].series, histories[suite].allRuns)
    requires AllReadable(pending, archive) && forall a | a in pending :: a.id != id
    ensures HoldsArtifact(RefreshedHistories(histories, pending, archive)[suite], id)
      <==> !AllOutdated(histories[suite], Incoming(pending, archive, suite), id)
  {
    IncomingIsValid(pending, archive, suite);
    IncomingArtifacts(pending, archive, suite, id);
    HoldsArtifactExactly(histories[suite], Incoming(pending, archive, suite), id);
  }

  /** An artifact that was accounted for is pending after the refresh exactly when it is orphaned. */
  lemma CachedIsLostExactly(histories: Histories, imported: Manifest, artifacts: seq<Artifact>, archive: Archive,
      meta: Artifact)
    requires Loaded(histories, imported)
    requires AllReadable(Pending(artifacts, imported, histories), archive)
    requires meta in artifacts && Cached(meta.id, imported, histories)
    ensures var pending := Pending(artifacts, imported, histories);
      !Cached(meta.id, RefreshedManifest(imported, pending, artifacts, archive),
        RefreshedHistories(histories, pending, archive))
      <==> Orphaned(meta.id, imported[meta.id], histories, pending, archive)
  {
    var pending := Pending(artifacts, imported, histories);
    var after := RefreshedHistories(histories, pending, archive);
    var e := imported[meta.id];
    PendingFacts(artifacts, imported, histories);
    RecordedFacts(pending, archive, imported, meta.id);
    forall suite | suite in e.suites
      ensures Present(e, meta.id, suite, after[suite])
        <==> suite in e.samples || !AllOutdated(histories[suite], Incoming(pending, archive, suite), meta.id)
    {
      if suite in e.samples {
        MergeKeepsCovered(histories[suite], Incoming(pending, archive, suite), e.samples[suite]);
      } else {
        LostExactly(histories, pending, archive, suite, meta.id);
      }
    }
  }

  /** After a successful refresh an artifact of the list is pending again exactly when it was
      accounted for and, for some suite its entry has no sample for, an incoming record outdates
      every saved record of it. */
  lemma PendingAgainExactlyWhenOrphaned(histories: Histories, imported: Manifest, artifacts: seq<Artifact>,
      archive: Archive, meta: Artifact)
    requires Loaded(histories, imported)
    requires AllReadable(Pending(artifacts, imported, histories), archive)
    requires meta in artifacts
    ensures var pending := Pending(artifacts, imported, histories);
      !Cached(meta.id, RefreshedManifest(imported, pending, artifacts, archive),
        RefreshedHistories(histories, pending, archive))
      <==> Cached(meta.id, imported, histories) && Orphaned(meta.id, imported[meta.id], histories, pending, archive)
  {
    PendingFacts(artifacts, imported, histories);
    if Cached(meta.id, imported, histories) {
      CachedIsLostExactly(histories, imported, artifacts, archive, meta);
    } else {
      ImportedIsCached(histories, imported, artifacts, archive, meta);
    }
  }

  /** A refresh is a fixed point exactly when no artifact of the list is orphaned. */
  lemma RefreshIsAFixedPoint(histories: Histories, imported: Manifest, artifacts: seq<Artifact>, archive: Archive)
    requires Loaded(histories, imported)
    requires AllReadable(Pending(artifacts, imported, histories), archive)
    ensures var pending := Pending(artifacts, imported, histories);
      Pending(artifacts, RefreshedManifest(imported, pending, artifacts, archive),
        RefreshedHistories(histories, pending, archive)) == []
      <==> forall a | a in artifacts && Cached(a.id, imported, histories) ::
        !Orphaned(a.id, imported[a.id], histories, pending, archive)
  {
    var pending := Pending(artifacts, imported, histories);
    var manifest := RefreshedManifest(imported, pending, artifacts, archive);
    var after := RefreshedHistories(histories, pending, archive);
    PendingFacts(artifacts, manifest, after);
    forall a | a in artifacts
      ensures !Cached(a.id, manifest, after)
        <==> Cached(a.id, imported, histories) && Orphaned(a.id, imported[a.id], histories, pending, archive)
    {
      PendingAgainExactlyWhenOrphaned(histories, imported, artifacts, archive, a);
    }
    EmptyExactly(artifacts, Pending(artifacts, manifest, after));
  }

  lemma EmptyExactly<T>(all: seq<T>, some: seq<T>)
    requires forall x | x in some :: x in all
    ensures some == [] <==> forall x | x in all :: x !in some
  {
    if some != [] {
      assert some[0] in some;
    }
  }

  // ---- the exception is real ----

  function ExampleHistory(): History {
    EmptyHistory(Native, "main", false).(points := 1, series := [Example(1, 1, Number(1))])
  }

  function ExampleHistories(): Histories {
    map[Native := ExampleHistory(), Magician := EmptyHistory(Magician, "main", false),
        HotPath := EmptyHistory(HotPath, "main", false)]
  }

  /** An entry written before samples were recorded. */
  function ExampleImports(): Manifest {
    map[1 := Entry(Stamp("", 1), {Native}, map[])]
  }

  function ExampleArtifact(id: nat): Artifact {
    Artifact(id, Stamp("", id), id, "00000000")
  }

  function ExampleArchive(): Archive {
    map[2 := map[Native := Payload(None, Some(1), ExampleEnvironment(), [ExampleCase()])]]
  }

  lemma ExamplePending()
    ensures Pending([ExampleArtifact(1), ExampleArtifact(2)], ExampleImports(), ExampleHistories())
      == [ExampleArtifact(2)]
  {
    var a, b := ExampleArtifact(1), ExampleArtifact(2);
    var imports, histories := ExampleImports(), ExampleHistories();
    assert Example(1, 1, Number(1)) in histories[Native].series;
    assert Present(imports[1], 1, Native, histories[Native]);
    assert Cached(1, imports, histories) && !Cached(2, imports, histories);
    assert [a, b][..1] == [a] && [a][..0] == [];
    assert Pending([a], imports, histories) == [];
  }

  lemma ExampleIncoming()
    ensures Incoming([ExampleArtifact(2)], ExampleArchive(), Native) == [Example(2, 2, Number(2))]
    ensures AllReadable([ExampleArtifact(2)], ExampleArchive())
  {
    var b, archive := ExampleArtifact(2), ExampleArchive();
    assert [b][..0] == [] && 2 / DAY == 0;
    assert RecordOf(b, archive[2][Native]) == Example(2, 2, Number(2));
    ExampleIsValid(2, 2, Number(2));
    assert archive[2].Keys == {Native};
    assert Native in archive[2];
  }

  /** An artifact imported before samples were recorded, whose one record a later artifact of the
      same day replaces, has to be imported again right after. */
  lemma SupersededOldEntryIsPendingAgain()
    ensures var artifacts := [ExampleArtifact(1), ExampleArtifact(2)];
      var pending := Pending(artifacts, ExampleImports(), ExampleHistories());
      && Loaded(ExampleHistories(), ExampleImports()) && AllReadable(pending, ExampleArchive())
      && Cached(1, ExampleImports(), ExampleHistories())
      && !Cached(1, RefreshedManifest(ExampleImports(), pending, artifacts, ExampleArchive()),
        RefreshedHistories(ExampleHistories(), pending, ExampleArchive()))
  {
    var artifacts := [ExampleArtifact(1), ExampleArtifact(2)];
    var histories, imports := ExampleHistories(), ExampleImports();
    ExamplePending();
    ExampleIncoming();
    ExampleIsLoaded();
    var incoming := Incoming([ExampleArtifact(2)], ExampleArchive(), Native);
    assert incoming[0] in incoming && ExampleArtifact(1) in artifacts;
    assert Outdated(Example(1, 1, Number(1)), incoming, false);
    assert AllOutdated(histories[Native], incoming, 1);
    assert Orphaned(1, imports[1], histories, [ExampleArtifact(2)], ExampleArchive());
    PendingFacts(artifacts, imports, histories);
    PendingAgainExactlyWhenOrphaned(histories, imports, artifacts, ExampleArchive(), ExampleArtifact(1));
  }

  lemma ExampleIsLoaded()
    ensures Loaded(ExampleHistories(), ExampleImports())
  {
    assert ExampleHistories().Keys == SUITES;
  }

  // ---- what a refresh imports, in the fields of the artifacts ----

  /** The record of one suite of an artifact: identity from the listing, measurements from the download. */
  predicate ReadFrom(r: Record, meta: Artifact, p: Payload) {
    && r.stamp == meta.createdAt && r.date * 86400 <= meta.createdAt.instant < (r.date + 1) * 86400
    && r.commit == meta.sha && r.runId == meta.runId && r.artifactId == Number(meta.id)
    && r.runAttempt == (if p.runAttempt != None then Number(p.runAttempt.value) else Null)
    && r.measuredAt == p.measuredAt && r.env == p.env && r.cases == p.cases && r.extra == map[]
  }

  ghost predicate ReadFromSome(r: Record, pending: seq<Artifact>, archive: Archive, suite: Suite) {
    exists meta :: meta in pending && meta.id in archive && suite in archive[meta.id]
      && ReadFrom(r, meta, archive[meta.id][suite])
  }

  lemma RecordIsRead(r: Record, meta: Artifact, p: Payload)
    ensures ReadFrom(r, meta, p) <==> r == RecordOf(meta, p)
  {
    assert DAY == 86400;
  }

  /** A record comes in exactly when it is read from a downloaded artifact that was pending. */
  lemma {:induction false} IncomingExactly(pending: seq<Artifact>, archive: Archive, suite: Suite, r: Record)
    ensures r in Incoming(pending, archive, suite) <==> ReadFromSome(r, pending, archive, suite)
  {
    if pending != [] {
      var n := |pending| - 1;
      var last := pending[n];
      IncomingExactly(pending[..n], archive, suite, r);
      assert pending == pending[..n] + [last];
      assert forall meta :: meta in pending <==> meta in pending[..n] || meta == last;
      if last.id in archive && suite in archive[last.id] {
        RecordIsRead(r, last, archive[last.id][suite]);
      }
    }
  }

  ghost predicate Downloaded(pending: seq<Artifact>, archive: Archive, id: nat) {
    exists meta :: meta in pending && meta.id == id && id in archive
  }

  lemma {:induction false} RecordedIds(pending: seq<Artifact>, archive: Archive, imported: Manifest, id: nat)
    ensures id in Recorded(pending, archive, imported) <==> id in imported || Downloaded(pending, archive, id)
    ensures id in imported && !Downloaded(pending, archive, id)
      ==> Recorded(pending, archive, imported)[id] == imported[id]
  {
    if pending != [] {
      var n := |pending| - 1;
      RecordedIds(pending[..n], archive, imported, id);
      assert pending == pending[..n] + [pending[n]];
      assert forall meta :: meta in pending <==> meta in pending[..n] || meta == pending[n];
    }
  }

  /** The manifest after a refresh lists exactly the artifacts still available that it listed before
      or that were downloaded now. */
  lemma ManifestExactly(imported: Manifest, pending: seq<Artifact>, artifacts: seq<Artifact>, archive: Archive, id: nat)
    ensures id in RefreshedManifest(imported, pending, artifacts, archive)
      <==> (exists a :: a in artifacts && a.id == id) && (id in imported || Downloaded(pending, archive, id))
  {
    RecordedIds(pending, archive, imported, id);
    if a :| a in artifacts && a.id == id {
      assert a.id in Ids(artifacts);
    }
  }
}
