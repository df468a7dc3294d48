/** Backfilling skipped PHP measurements with the first compatible later one, as an explicit
    reference beside the gap. */
module BenchBackfill {
  import opened Wrappers
  import opened BenchRecords

  /** A measured PHP variant, with all of its record that a reference can quote. */
  datatype Source = Source(
    stamp: Stamp, quoted: Stamp, commit: string, runId: int, env: map<string, string>,
    fixture: Option<string>, median: real)

  function SourceFrom(r: Record, c: Case, v: Variant): Source
    requires v.median.Some?
  {
    Source(r.stamp, if r.measuredAt.Some? then r.measuredAt.value else r.stamp,
           r.commit, r.runId, r.env.fields, c.fixture, v.median.value)
  }

  predicate IsSource(c: Case, name: string, tag: string) {
    c.name == name && tag in c.variants && IsPhp(tag) && c.variants[tag].median.Some?
  }

  function SourceOf(r: Record, c: Case, name: string, tag: string): seq<Source> {
    if IsSource(c, name, tag) then [SourceFrom(r, c, c.variants[tag])] else []
  }

  function CaseSources(r: Record, cases: seq<Case>, name: string, tag: string): seq<Source> {
    if cases == [] then []
    else
      var n := |cases| - 1;
      CaseSources(r, cases[..n], name, tag) + SourceOf(r, cases[n], name, tag)
  }

  /** Every measurement of one PHP variant of one case, in series order. */
  function Sources(series: seq<Record>, name: string, tag: string): seq<Source> {
    if series == [] then []
    else
      var n := |series| - 1;
      Sources(series[..n], name, tag) + CaseSources(series[n], series[n].cases, name, tag)
  }

  /** A measurement that may stand in for a gap: not older, on no known different platform or
      PHP, and of the same fixture when the gap's fixture is known. */
  predicate Compatible(r: Record, c: Case, s: Source) {
    && s.stamp.instant >= r.stamp.instant
    && (forall k | k in MATCHED_KEYS ::
          Known(r.env.fields, k) == "unknown" || (k in s.env && Known(r.env.fields, k) == s.env[k]))
    && (c.fixture.Some? && c.fixture.value != "" ==> c.fixture == s.fixture)
  }

  function FirstCompatible(r: Record, c: Case, sources: seq<Source>): (found: Option<Source>)
    ensures found.None? ==> forall j | 0 <= j < |sources| :: !Compatible(r, c, sources[j])
    ensures found.Some? ==> exists j :: IsFirst(r, c, sources, j) && sources[j] == found.value
  {
    if sources == [] then None
    else if Compatible(r, c, sources[0]) then
      assert IsFirst(r, c, sources, 0);
      Some(sources[0])
    else
      var found := FirstCompatible(r, c, sources[1..]);
      assert found.Some? ==> exists j :: IsFirst(r, c, sources, j) && sources[j] == found.value by {
        if found.Some? {
          var j :| IsFirst(r, c, sources[1..], j) && sources[1..][j] == found.value;
          assert forall i | 1 <= i < j + 1 :: sources[i] == sources[1..][i - 1];
          assert IsFirst(r, c, sources, j + 1);
        }
      }
      found
  }

  ghost predicate IsFirst(r: Record, c: Case, sources: seq<Source>, j: int) {
    0 <= j < |sources| && Compatible(r, c, sources[j]) && forall i | 0 <= i < j :: !Compatible(r, c, sources[i])
  }

  function ReferenceTo(s: Source): Reference {
    Reference(s.median, s.quoted, s.commit, s.runId, s.fixture,
              map k | k in MATCHED_KEYS :: Known(s.env, k))
  }

  predicate IsGap(tag: string, v: Variant) {
    IsPhp(tag) && v.median.None? && v.reference.None?
  }

  function FillVariant(series: seq<Record>, r: Record, c: Case, tag: string, v: Variant): Variant {
    if !IsGap(tag, v) then v
    else
      match FirstCompatible(r, c, Sources(series, c.name, tag))
      case None => v
      case Some(s) => v.(reference := Some(ReferenceTo(s)))
  }

  function FillCase(series: seq<Record>, r: Record, c: Case): Case {
    c.(variants := map tag | tag in c.variants :: FillVariant(series, r, c, tag, c.variants[tag]))
  }

  function FillCases(series: seq<Record>, r: Record, cases: seq<Case>): seq<Case> {
    seq(|cases|, i requires 0 <= i < |cases| => FillCase(series, r, cases[i]))
  }

  function FillRecord(series: seq<Record>, r: Record): Record {
    r.(cases := FillCases(series, r, r.cases))
  }

  function Backfilled(series: seq<Record>): seq<Record> {
    seq(|series|, i requires 0 <= i < |series| => FillRecord(series, series[i]))
  }

  // ---- what backfilling promises ----

  /** Case `j` of record `i` measured this PHP variant, and may stand in for the gap in `c`. */
  ghost predicate Offers(series: seq<Record>, i: int, j: int, r: Record, c: Case, tag: string) {
    && 0 <= i < |series| && 0 <= j < |series[i].cases|
    && IsSource(series[i].cases[j], c.name, tag)
    && Compatible(r, c, SourceFrom(series[i], series[i].cases[j], series[i].cases[j].variants[tag]))
  }

  /** Position `(i, j)` of the series comes no later than `(i2, j2)`. */
  predicate NoLater(i: int, j: int, i2: int, j2: int) {
    i < i2 || (i == i2 && j <= j2)
  }

  /** `found` is the first offer among those before position `(m, n)`, if there is any. */
  ghost predicate IsFirstOffer(found: Option<Source>, series: seq<Record>, m: int, n: int, r: Record, c: Case,
      tag: string) {
    if found.None? then forall i, j | Offers(series, i, j, r, c, tag) :: NoLater(m, n, i, j)
    else
      exists i, j ::
        && Offers(series, i, j, r, c, tag) && !NoLater(m, n, i, j)
        && found.value == SourceFrom(series[i], series[i].cases[j], series[i].cases[j].variants[tag])
        && forall i2, j2 | Offers(series, i2, j2, r, c, tag) :: NoLater(i, j, i2, j2)
  }

  lemma {:induction false} FirstCompatibleConcat(r: Record, c: Case, a: seq<Source>, b: seq<Source>)
    ensures FirstCompatible(r, c, a + b) ==
      if FirstCompatible(r, c, a).Some? then FirstCompatible(r, c, a) else FirstCompatible(r, c, b)
  {
    if a == [] {
      assert a + b == b;
    } else {
      assert (a + b)[1..] == a[1..] + b;
      FirstCompatibleConcat(r, c, a[1..], b);
    }
  }

  lemma {:induction false} FirstOfferInRecord(series: seq<Record>, m: nat, n: nat, r: Record, c: Case, tag: string,
      before: seq<Source>)
    requires m < |series| && n <= |series[m].cases|
    requires IsFirstOffer(FirstCompatible(r, c, before), series, m, 0, r, c, tag)
    ensures IsFirstOffer(FirstCompatible(r, c, before + CaseSources(series[m], series[m].cases[..n], c.name, tag)),
                         series, m, n, r, c, tag)
  {
    var rec := series[m];
    if n == 0 {
      assert before + CaseSources(rec, rec.cases[..0], c.name, tag) == before;
    } else {
      FirstOfferInRecord(series, m, n - 1, r, c, tag, before);
      var upTo := before + CaseSources(rec, rec.cases[..n - 1], c.name, tag);
      var last := SourceOf(rec, rec.cases[n - 1], c.name, tag);
      assert rec.cases[..n][..n - 1] == rec.cases[..n - 1];
      assert before + CaseSources(rec, rec.cases[..n], c.name, tag) == upTo + last;
      FirstCompatibleConcat(r, c, upTo, last);
      OneMoreCase(series, m, n - 1, r, c, tag, FirstCompatible(r, c, upTo));
    }
  }

  lemma OneMoreCase(series: seq<Record>, m: nat, n: nat, r: Record, c: Case, tag: string, found: Option<Source>)
    requires m < |series| && n < |series[m].cases|
    requires IsFirstOffer(found, series, m, n, r, c, tag)
    ensures IsFirstOffer(if found.Some? then found
      else FirstCompatible(r, c, SourceOf(series[m], series[m].cases[n], c.name, tag)),
                         series, m, n + 1, r, c, tag)
  {
    var last := SourceOf(series[m], series[m].cases[n], c.name, tag);
    assert Offers(series, m, n, r, c, tag) <==> last != [] && Compatible(r, c, last[0]);
    if found.None? {
      if Offers(series, m, n, r, c, tag) {
        assert FirstCompatible(r, c, last) == Some(last[0]);
        assert !NoLater(m, n + 1, m, n);
      } else {
        assert last == [] || (last[1..] == [] && FirstCompatible(r, c, last) == FirstCompatible(r, c, last[1..]));
        assert FirstCompatible(r, c, last).None?;
      }
    } else {
      var i, j :|
        && Offers(series, i, j, r, c, tag) && !NoLater(m, n, i, j)
        && found.value == SourceFrom(series[i], series[i].cases[j], series[i].cases[j].variants[tag])
        && forall i2, j2 | Offers(series, i2, j2, r, c, tag) :: NoLater(i, j, i2, j2);
      assert !NoLater(m, n + 1, i, j);
    }
  }

  lemma {:induction false} FirstOfferInSeries(series: seq<Record>, m: nat, r: Record, c: Case, tag: string)
    requires m <= |series|
    ensures IsFirstOffer(FirstCompatible(r, c, Sources(series[..m], c.name, tag)), series, m, 0, r, c, tag)
  {
    if m > 0 {
      FirstOfferInSeries(series, m - 1, r, c, tag);
      var rec := series[m - 1];
      FirstOfferInRecord(series, m - 1, |rec.cases|, r, c, tag, Sources(series[..m - 1], c.name, tag));
      assert series[..m][..m - 1] == series[..m - 1];
      assert rec.cases[..|rec.cases|] == rec.cases;
    }
  }

  /** A gap is filled exactly when some record of the series measured the variant compatibly,
      at or after the gap; the reference then quotes the first such measurement in series order.
      Only measured medians are ever quoted, never another reference. */
  lemma GapIsFilledFromFirstOffer(series: seq<Record>, r: Record, c: Case, tag: string)
    requires tag in c.variants && IsGap(tag, c.variants[tag])
    ensures var filled := FillCase(series, r, c).variants[tag];
      && (filled.reference.Some? <==> exists i, j :: Offers(series, i, j, r, c, tag))
      && (filled.reference.Some? ==>
            exists i, j ::
              && Offers(series, i, j, r, c, tag)
              && filled.reference.value
                == ReferenceTo(SourceFrom(series[i], series[i].cases[j], series[i].cases[j].variants[tag]))
              && forall i2, j2 | Offers(series, i2, j2, r, c, tag) :: NoLater(i, j, i2, j2))
  {
    FirstOfferInSeries(series, |series|, r, c, tag);
    assert series[..|series|] == series;
  }

  /** The gap's record says nothing about this key, or the same as the measuring record. */
  predicate SameOrUnsaid(gap: map<string, string>, measured: map<string, string>, key: string) {
    || key !in gap || gap[key] == "" || gap[key] == "unknown"
    || (key in measured && measured[key] == gap[key])
  }

  /** Case `j` of record `i` measured the variant no earlier than the gap's record, on no known
      different platform or PHP, and on the gap's fixture if that is known. */
  predicate StandsIn(series: seq<Record>, i: int, j: int, r: Record, c: Case, tag: string) {
    && 0 <= i < |series| && 0 <= j < |series[i].cases|
    && var there := series[i].cases[j];
       && there.name == c.name && tag in there.variants && there.variants[tag].median.Some?
       && r.stamp.instant <= series[i].stamp.instant
       && SameOrUnsaid(r.env.fields, series[i].env.fields, "runner")
       && SameOrUnsaid(r.env.fields, series[i].env.fields, "os")
       && SameOrUnsaid(r.env.fields, series[i].env.fields, "architecture")
       && SameOrUnsaid(r.env.fields, series[i].env.fields, "php")
       && SameOrUnsaid(r.env.fields, series[i].env.fields, "php_mode")
       && (c.fixture.None? || c.fixture.value == "" || there.fixture == c.fixture)
  }

  /** The reference quotes this case of this record, with what is not said written as `unknown`. */
  predicate Quotes(reference: Reference, measured: Record, there: Case, tag: string) {
    && tag in there.variants && there.variants[tag].median == Some(reference.median)
    && reference.stamp == (match measured.measuredAt case Some(stamp) => stamp case None => measured.stamp)
    && reference.commit == measured.commit && reference.runId == measured.runId
    && reference.fixture == there.fixture
    && reference.env.Keys == {"runner", "os", "architecture", "php", "php_mode"}
    && forall key | key in reference.env ::
         var said := key in measured.env.fields && measured.env.fields[key] != "";
         reference.env[key] == if said then measured.env.fields[key] else "unknown"
  }

  lemma OffersExactly(series: seq<Record>, i: int, j: int, r: Record, c: Case, tag: string)
    requires "php" <= tag
    ensures Offers(series, i, j, r, c, tag) <==> StandsIn(series, i, j, r, c, tag)
  {
    if 0 <= i < |series| && 0 <= j < |series[i].cases| {
      var gap, measured := r.env.fields, series[i].env.fields;
      forall k | k in MATCHED_KEYS
        ensures SameOrUnsaid(gap, measured, k)
          <==> Known(gap, k) == "unknown" || (k in measured && Known(gap, k) == measured[k])
      {
      }
      assert MATCHED_KEYS[0] == "runner" && MATCHED_KEYS[1] == "os" && MATCHED_KEYS[2] == "architecture";
      assert MATCHED_KEYS[3] == "php" && MATCHED_KEYS[4] == "php_mode";
    }
  }

  lemma ReferenceQuotes(r: Record, there: Case, tag: string)
    requires tag in there.variants && there.variants[tag].median.Some?
    ensures Quotes(ReferenceTo(SourceFrom(r, there, there.variants[tag])), r, there, tag)
  {
    var reference := ReferenceTo(SourceFrom(r, there, there.variants[tag]));
    assert MATCHED_KEYS[0] == "runner" && MATCHED_KEYS[1] == "os" && MATCHED_KEYS[2] == "architecture";
    assert MATCHED_KEYS[3] == "php" && MATCHED_KEYS[4] == "php_mode";
    assert reference.env.Keys == {"runner", "os", "architecture", "php", "php_mode"};
  }

  /** The variant has a reference exactly when some case stands in for it, and quotes the first such case. */
  ghost predicate FilledFromFirst(filled: Variant, series: seq<Record>, r: Record, c: Case, tag: string) {
    && (filled.reference.Some? <==> exists i, j :: StandsIn(series, i, j, r, c, tag))
    && (filled.reference.Some? ==>
          exists i, j ::
            && StandsIn(series, i, j, r, c, tag)
            && Quotes(filled.reference.value, series[i], series[i].cases[j], tag)
            && forall i2, j2 | StandsIn(series, i2, j2, r, c, tag) :: i < i2 || (i == i2 && j <= j2))
  }

  lemma CaseIsFilledExactly(series: seq<Record>, r: Record, c: Case, tag: string)
    requires tag in c.variants && "php" <= tag && c.variants[tag].median.None? && c.variants[tag].reference.None?
    ensures FilledFromFirst(FillCase(series, r, c).variants[tag], series, r, c, tag)
  {
    GapIsFilledFromFirstOffer(series, r, c, tag);
    forall i, j ensures Offers(series, i, j, r, c, tag) <==> StandsIn(series, i, j, r, c, tag) {
      OffersExactly(series, i, j, r, c, tag);
    }
    var filled := FillCase(series, r, c).variants[tag];
    if filled.reference.Some? {
      var i, j :|
        && Offers(series, i, j, r, c, tag)
        && filled.reference.value
          == ReferenceTo(SourceFrom(series[i], series[i].cases[j], series[i].cases[j].variants[tag]))
        && forall i2, j2 | Offers(series, i2, j2, r, c, tag) :: NoLater(i, j, i2, j2);
      ReferenceQuotes(series[i], series[i].cases[j], tag);
      assert StandsIn(series, i, j, r, c, tag);
    }
  }

  /** Every unmeasured PHP variant of the series that has no reference is filled so. */
  lemma GapIsFilledExactly(series: seq<Record>, m: nat, n: nat, tag: string)
    requires m < |series| && n < |series[m].cases| && tag in series[m].cases[n].variants && "php" <= tag
    requires series[m].cases[n].variants[tag].median.None? && series[m].cases[n].variants[tag].reference.None?
    ensures FilledFromFirst(Backfilled(series)[m].cases[n].variants[tag], series, series[m], series[m].cases[n], tag)
  {
    CaseIsFilledExactly(series, series[m], series[m].cases[n], tag);
    var filled := FillCase(series, series[m], series[m].cases[n]);
    assert Backfilled(series)[m].cases[n] == filled;
  }

  /** Nothing else changes: not the records, their cases, measured variants, variants with a reference,
      or those that are not PHP. */
  lemma NothingElseIsFilled(series: seq<Record>, m: nat, n: nat, tag: string)
    requires m < |series| && n < |series[m].cases| && tag in series[m].cases[n].variants
    ensures |Backfilled(series)| == |series| && Backfilled(series)[m].(cases := series[m].cases) == series[m]
    ensures |Backfilled(series)[m].cases| == |series[m].cases|
    ensures var (before, after) := (series[m].cases[n], Backfilled(series)[m].cases[n]);
      && after.(variants := before.variants) == before && after.variants.Keys == before.variants.Keys
      && (!("php" <= tag) || before.variants[tag].median.Some? || before.variants[tag].reference.Some? ==>
            after.variants[tag] == before.variants[tag])
  {
  }

  /** Medians, samples and existing references are never touched, in any record. */
  lemma MeasurementsAreKept(series: seq<Record>, i: nat, j: nat, tag: string)
    requires i < |series| && j < |series[i].cases| && tag in series[i].cases[j].variants
    ensures var v := series[i].cases[j].variants[tag];
      var filled := Backfilled(series)[i].cases[j].variants[tag];
      && filled.(reference := v.reference) == v
      && (v.reference.Some? ==> filled.reference == v.reference)
      && (v.median.Some? ==> filled == v)
  {
  }

  // ---- backfilling twice ----

  lemma SourceSurvives(series: seq<Record>, r: Record, c: Case, name: string, tag: string)
    ensures SourceOf(FillRecord(series, r), FillCase(series, r, c), name, tag) == SourceOf(r, c, name, tag)
  {
  }

  lemma {:induction false} CaseSourcesSurvive(series: seq<Record>, r: Record, n: nat, name: string, tag: string)
    requires n <= |r.cases|
    ensures CaseSources(FillRecord(series, r), FillCases(series, r, r.cases)[..n], name, tag)
         == CaseSources(r, r.cases[..n], name, tag)
  {
    if n > 0 {
      var filled := FillCases(series, r, r.cases);
      CaseSourcesSurvive(series, r, n - 1, name, tag);
      SourceSurvives(series, r, r.cases[n - 1], name, tag);
      assert filled[..n][..n - 1] == filled[..n - 1] && r.cases[..n][..n - 1] == r.cases[..n - 1];
    }
  }

  /** Filling adds no source and removes none. */
  lemma {:induction false} SourcesSurvive(series: seq<Record>, n: nat, name: string, tag: string)
    requires n <= |series|
    ensures Sources(Backfilled(series)[..n], name, tag) == Sources(series[..n], name, tag)
  {
    if n > 0 {
      SourcesSurvive(series, n - 1, name, tag);
      var r := series[n - 1];
      CaseSourcesSurvive(series, r, |r.cases|, name, tag);
      assert Backfilled(series)[..n][..n - 1] == Backfilled(series)[..n - 1];
      assert series[..n][..n - 1] == series[..n - 1];
      assert r.cases[..|r.cases|] == r.cases;
      assert FillCases(series, r, r.cases)[..|r.cases|] == FillCases(series, r, r.cases);
    }
  }

  lemma FillVariantTwice(series: seq<Record>, r: Record, c: Case, tag: string)
    requires tag in c.variants
    ensures var filled := FillVariant(series, r, c, tag, c.variants[tag]);
      FillVariant(Backfilled(series), FillRecord(series, r), FillCase(series, r, c), tag, filled) == filled
  {
    SourcesSurvive(series, |series|, c.name, tag);
    assert Backfilled(series)[..|series|] == Backfilled(series) && series[..|series|] == series;
    var sources := Sources(series, c.name, tag);
    assert forall s :: Compatible(FillRecord(series, r), FillCase(series, r, c), s) == Compatible(r, c, s);
  }

  lemma FillCaseTwice(series: seq<Record>, r: Record, c: Case)
    ensures FillCase(Backfilled(series), FillRecord(series, r), FillCase(series, r, c)) == FillCase(series, r, c)
  {
    var once := FillCase(series, r, c);
    var twice := FillCase(Backfilled(series), FillRecord(series, r), once);
    forall tag | tag in c.variants
      ensures twice.variants[tag] == once.variants[tag]
    {
      FillVariantTwice(series, r, c, tag);
    }
  }

  /** A backfilled series is a fixed point. */
  lemma BackfillIsIdempotent(series: seq<Record>)
    ensures Backfilled(Backfilled(series)) == Backfilled(series)
  {
    var once := Backfilled(series);
    forall i | 0 <= i < |series|
      ensures FillRecord(once, once[i]) == once[i]
    {
      var r := series[i];
      forall j | 0 <= j < |r.cases|
        ensures FillCase(once, once[i], once[i].cases[j]) == once[i].cases[j]
      {
        FillCaseTwice(series, r, r.cases[j]);
      }
      assert FillCases(once, once[i], once[i].cases) == once[i].cases;
    }
  }

  // ---- backfilling keeps what the loader checks ----

  lemma {:induction false} CaseSourcesAreValid(suite: Suite, r: Record, n: nat, name: string, tag: string)
    requires ValidRecord(suite, r) && n <= |r.cases|
    ensures forall s | s in CaseSources(r, r.cases[..n], name, tag) ::
      s.median >= 0.0 && IsCommit(s.commit) && s.runId > 0
  {
    if n > 0 {
      CaseSourcesAreValid(suite, r, n - 1, name, tag);
      assert r.cases[..n][..n - 1] == r.cases[..n - 1];
      var c := r.cases[n - 1];
      assert c in r.cases;
      if IsSource(c, name, tag) {
        assert ValidVariant(tag, c.variants[tag]);
      }
    }
  }

  lemma {:induction false} SourcesAreValid(suite: Suite, series: seq<Record>, name: string, tag: string)
    requires forall r | r in series :: ValidRecord(suite, r)
    ensures forall s | s in Sources(series, name, tag) :: s.median >= 0.0 && IsCommit(s.commit) && s.runId > 0
  {
    if series != [] {
      var n := |series| - 1;
      SourcesAreValid(suite, series[..n], name, tag);
      CaseSourcesAreValid(suite, series[n], |series[n].cases|, name, tag);
      assert series[n].cases[..|series[n].cases|] == series[n].cases;
    }
  }

  lemma FillKeepsValid(suite: Suite, series: seq<Record>, r: Record)
    requires ValidRecord(suite, r)
    requires forall s | s in series :: ValidRecord(suite, s)
    ensures ValidRecord(suite, FillRecord(series, r))
  {
    var filled := FillRecord(series, r);
    forall c | c in filled.cases
      ensures ValidCase(suite, c)
      ensures !r.env.legacy ==> MeasuredAsDeclared(r.env, c)
    {
      var i :| 0 <= i < |r.cases| && c == FillCase(series, r, r.cases[i]);
      assert r.cases[i] in r.cases;
      forall tag | tag in c.variants
        ensures ValidVariant(tag, c.variants[tag])
      {
        assert ValidVariant(tag, r.cases[i].variants[tag]);
        SourcesAreValid(suite, series, r.cases[i].name, tag);
      }
    }
  }

  // ---- the loops ----

  type SourceTable = map<(string, string), seq<Source>>

  function At(table: SourceTable, name: string, tag: string): seq<Source> {
    if (name, tag) in table then table[(name, tag)] else []
  }

  /** The inner loops that collect one record's measurements. */
  method CollectCase(table: SourceTable, r: Record, c: Case) returns (t: SourceTable)
    ensures forall n, l :: At(t, n, l) == At(table, n, l) + SourceOf(r, c, n, l)
  {
    t := table;
    var todo := c.variants.Keys;
    while todo != {}
      invariant todo <= c.variants.Keys
      invariant forall n, l :: At(t, n, l) == At(table, n, l) + if l in todo then [] else SourceOf(r, c, n, l)
      decreases |todo|
    {
      var tag :| tag in todo;
      todo := todo - {tag};
      var v := c.variants[tag];
      if IsPhp(tag) && v.median.Some? {
        t := t[(c.name, tag) := At(t, c.name, tag) + [SourceFrom(r, c, v)]];
      }
    }
  }

  lemma CaseSourcesStep(r: Record, cases: seq<Case>, j: nat, n: string, l: string)
    requires j < |cases|
    ensures CaseSources(r, cases[..j + 1], n, l) == CaseSources(r, cases[..j], n, l) + SourceOf(r, cases[j], n, l)
  {
    assert cases[..j + 1][..j] == cases[..j];
  }

  lemma OneMoreSource(a: seq<Source>, b: seq<Source>, c: seq<Source>)
    ensures (a + b) + c == a + (b + c)
  {
  }

  method CollectRecord(table: SourceTable, r: Record) returns (t: SourceTable)
    ensures forall n, l :: At(t, n, l) == At(table, n, l) + CaseSources(r, r.cases, n, l)
  {
    t := table;
    for j := 0 to |r.cases|
      invariant forall n, l :: At(t, n, l) == At(table, n, l) + CaseSources(r, r.cases[..j], n, l)
    {
      ghost var before := t;
      t := CollectCase(t, r, r.cases[j]);
      forall n, l ensures At(t, n, l) == At(table, n, l) + CaseSources(r, r.cases[..j + 1], n, l) {
        assert At(t, n, l) == At(before, n, l) + SourceOf(r, r.cases[j], n, l);
        CaseSourcesStep(r, r.cases, j, n, l);
        OneMoreSource(At(table, n, l), CaseSources(r, r.cases[..j], n, l), SourceOf(r, r.cases[j], n, l));
      }
    }
    assert r.cases[..|r.cases|] == r.cases;
  }

  method CollectSources(series: seq<Record>) returns (t: SourceTable)
    ensures forall n, l :: At(t, n, l) == Sources(series, n, l)
  {
    t := map[];
    for i := 0 to |series|
      invariant forall n, l :: At(t, n, l) == Sources(series[..i], n, l)
    {
      t := CollectRecord(t, series[i]);
      assert series[..i + 1][..i] == series[..i];
    }
    assert series[..|series|] == series;
  }

  method FillOneCase(table: SourceTable, series: seq<Record>, r: Record, c: Case) returns (filled: Case)
    requires forall n, l :: At(table, n, l) == Sources(series, n, l)
    ensures filled == FillCase(series, r, c)
  {
    var variants := c.variants;
    var todo := c.variants.Keys;
    while todo != {}
      invariant todo <= c.variants.Keys
      invariant variants.Keys == c.variants.Keys
      invariant forall l | l in c.variants && l in todo :: variants[l] == c.variants[l]
      invariant forall l | l in c.variants && l !in todo :: variants[l] == FillVariant(series, r, c, l, c.variants[l])
      decreases |todo|
    {
      var tag :| tag in todo;
      todo := todo - {tag};
      var v := c.variants[tag];
      if IsPhp(tag) && v.median.None? && v.reference.None? {
        var found := FindCompatible(r, c, At(table, c.name, tag));
        if found.Some? {
          variants := variants[tag := v.(reference := Some(ReferenceTo(found.value)))];
        }
      }
    }
    filled := c.(variants := variants);
  }

  /** The search loop with its `continue`s and final `break`. */
  method FindCompatible(r: Record, c: Case, sources: seq<Source>) returns (found: Option<Source>)
    ensures found == FirstCompatible(r, c, sources)
  {
    for i := 0 to |sources|
      invariant FirstCompatible(r, c, sources) == FirstCompatible(r, c, sources[i..])
    {
      if Compatible(r, c, sources[i]) {
        return Some(sources[i]);
      }
    }
    return None;
  }

  /** `backfill_php`. */
  method BackfillPhp(series: seq<Record>) returns (filled: seq<Record>)
    ensures filled == Backfilled(series)
  {
    var table := CollectSources(series);
    filled := [];
    for i := 0 to |series|
      invariant filled == Backfilled(series)[..i]
    {
      var r := series[i];
      var cases := [];
      for j := 0 to |r.cases|
        invariant cases == FillCases(series, r, r.cases)[..j]
      {
        var c := FillOneCase(table, series, r, r.cases[j]);
        cases := cases + [c];
      }
      assert cases == FillCases(series, r, r.cases);
      filled := filled + [r.(cases := cases)];
    }
  }
}
