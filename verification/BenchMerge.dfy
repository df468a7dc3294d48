/** Merging records into a history: one sample per key, the newest seen, older days retained. */
module BenchMerge {
  import opened Wrappers
  import opened BenchRecords
  import opened BenchBackfill
  import opened BenchValidation
  import opened StableSort

  datatype Error = InvalidRecord

  // ---- the dictionary of samples, in first-insertion order ----

  datatype Dict = Dict(keys: seq<Key>, at: map<Key, Record>)

  const EMPTY: Dict := Dict([], map[])

  ghost predicate NoDuplicates(keys: seq<Key>) {
    forall i, j | 0 <= i < j < |keys| :: keys[i] != keys[j]
  }

  ghost predicate Wf(d: Dict, allRuns: bool) {
    && NoDuplicates(d.keys)
    && (forall k :: k in d.keys <==> k in d.at)
    && (forall k | k in d.at :: KeyOf(d.at[k], allRuns) == k)
  }

  function Put(d: Dict, k: Key, r: Record): Dict {
    Dict(if k in d.at then d.keys else d.keys + [k], d.at[k := r])
  }

  /** `{record_key(r): r for r in series}`. */
  function FromSeries(series: seq<Record>, allRuns: bool): Dict {
    if series == [] then EMPTY
    else
      var n := |series| - 1;
      Put(FromSeries(series[..n], allRuns), KeyOf(series[n], allRuns), series[n])
  }

  predicate Replaces(d: Dict, r: Record, allRuns: bool) {
    var k := KeyOf(r, allRuns);
    k !in d.at || Before(OrderOf(d.at[k]), OrderOf(r))
  }

  /** One round of the merging loop. */
  function Absorb(d: Dict, r: Record, allRuns: bool): Dict {
    var k := KeyOf(r, allRuns);
    if !Replaces(d, r, allRuns) then d
    else Put(d, k, if k in d.at then Overlay(d.at[k], r) else r)
  }

  function AbsorbAll(d: Dict, records: seq<Record>, allRuns: bool): Dict {
    if records == [] then d
    else
      var n := |records| - 1;
      Absorb(AbsorbAll(d, records[..n], allRuns), records[n], allRuns)
  }

  function Values(d: Dict): seq<Record>
    requires forall k | k in d.keys :: k in d.at
  {
    seq(|d.keys|, i requires 0 <= i < |d.keys| => d.at[d.keys[i]])
  }

  // ---- sorted(..., key=order) ----

  predicate InOrder(a: Record, b: Record) {
    AtMost(OrderOf(a), OrderOf(b))
  }

  function SortByOrder(s: seq<Record>): seq<Record> {
    Sort(s, InOrder)
  }

  ghost predicate Sorted(s: seq<Record>) {
    SortedBy(s, InOrder)
  }

  lemma InOrderIsTotal()
    ensures TotalPreorder(InOrder)
  {
  }

  // ---- merge ----

  /** The merged samples before backfilling. */
  function MergedSamples(h: History, records: seq<Record>): seq<Record> {
    var d := AbsorbAll(FromSeries(h.series, h.allRuns), records, h.allRuns);
    if forall k | k in d.keys :: k in d.at then SortByOrder(Values(d)) else []
  }

  function Merged(h: History, records: seq<Record>): History {
    var series := Backfilled(MergedSamples(h, records));
    h.(points := |series|, series := series)
  }

  /** `merge`: the loop, and a failure on the first record that does not validate. */
  method Merge(h: History, records: seq<Record>) returns (r: Result<History, Error>)
    ensures r == if forall s | s in records :: ValidRecord(h.suite, s) then Ok(Merged(h, records))
      else Err(InvalidRecord)
  {
    var merged := FromSeries(h.series, h.allRuns);
    for i := 0 to |records|
      invariant merged == AbsorbAll(FromSeries(h.series, h.allRuns), records[..i], h.allRuns)
      invariant forall s | s in records[..i] :: ValidRecord(h.suite, s)
    {
      var valid := ValidateRecord(h.suite, records[i]);
      if !valid {
        return Err(InvalidRecord);
      }
      assert records[..i + 1][..i] == records[..i];
      var key := KeyOf(records[i], h.allRuns);
      if key !in merged.at || Before(OrderOf(merged.at[key]), OrderOf(records[i])) {
        merged := Put(merged, key, if key in merged.at then Overlay(merged.at[key], records[i]) else records[i]);
      }
    }
    assert records[..|records|] == records;
    FromSeriesFacts(h.series, h.allRuns);
    AbsorbAllFacts(FromSeries(h.series, h.allRuns), records, h.allRuns);
    var series := BackfillPhp(SortByOrder(Values(merged)));
    return Ok(h.(points := |series|, series := series));
  }

  // ---- what the loop keeps ----

  lemma PutFacts(d: Dict, k: Key, r: Record, allRuns: bool)
    requires Wf(d, allRuns) && KeyOf(r, allRuns) == k
    ensures Wf(Put(d, k, r), allRuns)
  {
    var p := Put(d, k, r);
    if k !in d.at {
      assert p.keys[|d.keys|] == k;
      assert forall q :: q in p.keys <==> q in d.keys || q == k;
    }
  }

  lemma {:induction false} FromSeriesFacts(series: seq<Record>, allRuns: bool)
    ensures Wf(FromSeries(series, allRuns), allRuns)
    ensures forall k | k in FromSeries(series, allRuns).at :: FromSeries(series, allRuns).at[k] in series
    ensures forall r | r in series :: KeyOf(r, allRuns) in FromSeries(series, allRuns).at
  {
    if series != [] {
      var n := |series| - 1;
      FromSeriesFacts(series[..n], allRuns);
      PutFacts(FromSeries(series[..n], allRuns), KeyOf(series[n], allRuns), series[n], allRuns);
      assert series == series[..n] + [series[n]];
    }
  }

  /** With one sample per key, the dictionary is the series. */
  lemma FromDistinctSeries(series: seq<Record>, allRuns: bool)
    requires DistinctKeys(series, allRuns)
    ensures Wf(FromSeries(series, allRuns), allRuns)
    ensures Values(FromSeries(series, allRuns)) == series
    ensures forall r | r in series ::
      KeyOf(r, allRuns) in FromSeries(series, allRuns).at && FromSeries(series, allRuns).at[KeyOf(r, allRuns)] == r
  {
    var d := FromSeries(series, allRuns);
    FromSeriesFacts(series, allRuns);
    ValuesFromSeries(series, allRuns);
    forall r | r in series
      ensures d.at[KeyOf(r, allRuns)] == r
    {
      var i :| 0 <= i < |series| && series[i] == r;
      assert Values(d)[i] == d.at[d.keys[i]];
    }
  }

  lemma {:induction false} ValuesFromSeries(series: seq<Record>, allRuns: bool)
    requires DistinctKeys(series, allRuns)
    ensures Wf(FromSeries(series, allRuns), allRuns)
    ensures Values(FromSeries(series, allRuns)) == series
  {
    FromSeriesFacts(series, allRuns);
    if series == [] {
      assert Values(EMPTY) == [];
    } else {
      var n := |series| - 1;
      DistinctPrefix(series, n, allRuns);
      ValuesFromSeries(series[..n], allRuns);
      LastKeyIsNew(series, allRuns);
      ValuesOfMore(series, FromSeries(series[..n], allRuns), KeyOf(series[n], allRuns));
    }
  }

  lemma DistinctPrefix(series: seq<Record>, n: nat, allRuns: bool)
    requires n <= |series| && DistinctKeys(series, allRuns)
    ensures DistinctKeys(series[..n], allRuns)
  {
  }

  lemma LastKeyIsNew(series: seq<Record>, allRuns: bool)
    requires series != [] && DistinctKeys(series, allRuns)
    ensures KeyOf(series[|series| - 1], allRuns) !in FromSeries(series[..|series| - 1], allRuns).at
  {
    FromSeriesFacts(series[..|series| - 1], allRuns);
  }

  lemma ValuesOfPut(d: Dict, k: Key, r: Record)
    requires k !in d.at && forall q | q in d.keys :: q in d.at
    ensures Values(Put(d, k, r)) == Values(d) + [r]
  {
  }

  lemma ValuesOfMore(series: seq<Record>, d: Dict, k: Key)
    requires series != [] && k !in d.at && forall q | q in d.keys :: q in d.at
    requires Values(d) == series[..|series| - 1]
    ensures var p := Put(d, k, series[|series| - 1]); (forall q | q in p.keys :: q in p.at) && Values(p) == series
  {
    var n := |series| - 1;
    ValuesOfPut(d, k, series[n]);
    assert series[..n] + [series[n]] == series;
  }

  lemma AbsorbFacts(d: Dict, r: Record, allRuns: bool)
    requires Wf(d, allRuns)
    ensures var a := Absorb(d, r, allRuns);
      && Wf(a, allRuns)
      && a.at.Keys == d.at.Keys + {KeyOf(r, allRuns)}
      && (forall k | k in d.at :: AtMost(OrderOf(d.at[k]), OrderOf(a.at[k])))
      && AtMost(OrderOf(r), OrderOf(a.at[KeyOf(r, allRuns)]))
  {
    var k := KeyOf(r, allRuns);
    var a := Absorb(d, r, allRuns);
    if Replaces(d, r, allRuns) {
      if k in d.at {
        OverlayKeepsIdentity(d.at[k], r, allRuns);
        PutFacts(d, k, Overlay(d.at[k], r), allRuns);
      } else {
        PutFacts(d, k, r, allRuns);
      }
    }
  }

  /** The loop keeps every key and adds those of the records. */
  lemma {:induction false} AbsorbAllKeys(d: Dict, records: seq<Record>, allRuns: bool)
    requires Wf(d, allRuns)
    ensures var a := AbsorbAll(d, records, allRuns);
      && Wf(a, allRuns)
      && a.at.Keys == d.at.Keys + (set r | r in records :: KeyOf(r, allRuns))
  {
    if records != [] {
      var n := |records| - 1;
      AbsorbAllKeys(d, records[..n], allRuns);
      AbsorbFacts(AbsorbAll(d, records[..n], allRuns), records[n], allRuns);
      assert records == records[..n] + [records[n]];
    }
  }

  lemma AtMostIsTransitive(a: Order, b: Order, c: Order)
    requires AtMost(a, b) && AtMost(b, c)
    ensures AtMost(a, c)
  {
  }

  /** The loop never lets a sample get older, and afterwards each record is matched by a sample
      at least as new. */
  lemma {:induction false} AbsorbAllFacts(d: Dict, records: seq<Record>, allRuns: bool)
    requires Wf(d, allRuns)
    ensures var a := AbsorbAll(d, records, allRuns);
      && Wf(a, allRuns)
      && a.at.Keys == d.at.Keys + (set r | r in records :: KeyOf(r, allRuns))
      && (forall k | k in d.at :: AtMost(OrderOf(d.at[k]), OrderOf(a.at[k])))
      && (forall r | r in records :: AtMost(OrderOf(r), OrderOf(a.at[KeyOf(r, allRuns)])))
  {
    AbsorbAllKeys(d, records, allRuns);
    if records != [] {
      var n := |records| - 1;
      AbsorbAllFacts(d, records[..n], allRuns);
      var b := AbsorbAll(d, records[..n], allRuns);
      var a := AbsorbAll(d, records, allRuns);
      AbsorbFacts(b, records[n], allRuns);
      forall k | k in d.at
        ensures AtMost(OrderOf(d.at[k]), OrderOf(a.at[k]))
      {
        AtMostIsTransitive(OrderOf(d.at[k]), OrderOf(b.at[k]), OrderOf(a.at[k]));
      }
      forall r | r in records
        ensures AtMost(OrderOf(r), OrderOf(a.at[KeyOf(r, allRuns)]))
      {
        var k := KeyOf(r, allRuns);
        var i :| 0 <= i <= n && records[i] == r;
        if i < n {
          assert r in records[..n];
          AtMostIsTransitive(OrderOf(r), OrderOf(b.at[k]), OrderOf(a.at[k]));
        }
      }
    }
  }

  // ---- merge, on whole histories ----

  lemma BackfilledKeepsIdentity(series: seq<Record>, allRuns: bool)
    ensures |Backfilled(series)| == |series|
    ensures forall i | 0 <= i < |series| ::
      KeyOf(Backfilled(series)[i], allRuns) == KeyOf(series[i], allRuns)
        && OrderOf(Backfilled(series)[i]) == OrderOf(series[i])
    ensures Sorted(series) ==> Sorted(Backfilled(series))
    ensures DistinctKeys(series, allRuns) ==> DistinctKeys(Backfilled(series), allRuns)
  {
  }

  lemma ValuesFacts(d: Dict, allRuns: bool)
    requires Wf(d, allRuns)
    ensures DistinctKeys(Values(d), allRuns)
    ensures forall k | k in d.at :: d.at[k] in Values(d)
    ensures forall m | m in Values(d) :: KeyOf(m, allRuns) in d.at && d.at[KeyOf(m, allRuns)] == m
  {
    forall k | k in d.at ensures d.at[k] in Values(d) {
      var i :| 0 <= i < |d.keys| && d.keys[i] == k;
      assert Values(d)[i] == d.at[k];
    }
  }

  /** The merged samples are sorted, hold one sample per key, and are exactly the dictionary's. */
  lemma MergedSamplesFacts(h: History, records: seq<Record>)
    ensures var d := AbsorbAll(FromSeries(h.series, h.allRuns), records, h.allRuns);
      var s := MergedSamples(h, records);
      && Wf(d, h.allRuns)
      && Sorted(s) && DistinctKeys(s, h.allRuns)
      && (forall k | k in d.at :: d.at[k] in s)
      && (forall m | m in s :: KeyOf(m, h.allRuns) in d.at && d.at[KeyOf(m, h.allRuns)] == m)
  {
    var d := AbsorbAll(FromSeries(h.series, h.allRuns), records, h.allRuns);
    FromSeriesFacts(h.series, h.allRuns);
    AbsorbAllFacts(FromSeries(h.series, h.allRuns), records, h.allRuns);
    SortedValuesFacts(d, h.allRuns);
  }

  lemma SortedValuesFacts(d: Dict, allRuns: bool)
    requires Wf(d, allRuns)
    ensures var s := SortByOrder(Values(d));
      && Sorted(s) && DistinctKeys(s, allRuns)
      && (forall k | k in d.at :: d.at[k] in s)
      && (forall m | m in s :: KeyOf(m, allRuns) in d.at && d.at[KeyOf(m, allRuns)] == m)
  {
    ValuesFacts(d, allRuns);
    InOrderIsTotal();
    SortIsSorted(Values(d), InOrder);
    SortKeepsMembers(Values(d), InOrder);
    var key := (r: Record) => KeyOf(r, allRuns);
    SortKeepsDistinct(Values(d), InOrder, key);
  }

  /** A key of the history. */
  ghost predicate HasKey(h: History, k: Key) {
    exists m :: m in h.series && KeyOf(m, h.allRuns) == k
  }

  lemma BackfillKeepsKeysAndCovers(h: History, s: seq<Record>, r: Record, m: Record)
    requires h.series == Backfilled(s) && m in s && KeyOf(m, h.allRuns) == KeyOf(r, h.allRuns)
    ensures HasKey(h, KeyOf(r, h.allRuns))
    ensures AtMost(OrderOf(r), OrderOf(m)) ==> Covers(h, r)
  {
    BackfilledKeepsIdentity(s, h.allRuns);
    var i :| 0 <= i < |s| && s[i] == m;
    assert h.series[i] in h.series;
  }

  /** Every sample of the history and every record merged in is matched by a sample of the merged
      history at least as new. */
  lemma MergeCovers(h: History, records: seq<Record>)
    requires DistinctKeys(h.series, h.allRuns)
    ensures forall r | r in h.series || r in records :: Covers(Merged(h, records), r)
  {
    var start := FromSeries(h.series, h.allRuns);
    var d := AbsorbAll(start, records, h.allRuns);
    FromDistinctSeries(h.series, h.allRuns);
    AbsorbAllFacts(start, records, h.allRuns);
    MergedSamplesFacts(h, records);
    forall r | r in h.series || r in records ensures Covers(Merged(h, records), r) {
      var k := KeyOf(r, h.allRuns);
      if r in h.series {
        assert start.at[k] == r;
      }
      BackfillKeepsKeysAndCovers(Merged(h, records), MergedSamples(h, records), r, d.at[k]);
    }
  }

  /** No key disappears, and none appears that was not seen. */
  lemma MergeKeys(h: History, records: seq<Record>, k: Key)
    requires DistinctKeys(h.series, h.allRuns)
    ensures HasKey(Merged(h, records), k) <==>
      HasKey(h, k) || exists r :: r in records && KeyOf(r, h.allRuns) == k
  {
    MergeCovers(h, records);
    if HasKey(Merged(h, records), k) {
      MergeAddsNoOtherKey(h, records, k);
    }
    if m :| m in h.series && KeyOf(m, h.allRuns) == k {
      assert Covers(Merged(h, records), m);
    }
    if r :| r in records && KeyOf(r, h.allRuns) == k {
      assert Covers(Merged(h, records), r);
    }
  }

  lemma MergeAddsNoOtherKey(h: History, records: seq<Record>, k: Key)
    requires HasKey(Merged(h, records), k)
    ensures HasKey(h, k) || exists r :: r in records && KeyOf(r, h.allRuns) == k
  {
    var start := FromSeries(h.series, h.allRuns);
    KeyIsSampled(h, records, k);
    FromSeriesFacts(h.series, h.allRuns);
    AbsorbAllKeys(start, records, h.allRuns);
    if k in start.at {
      assert start.at[k] in h.series;
    }
  }

  /** Backfilling adds no key. */
  lemma KeyIsSampled(h: History, records: seq<Record>, k: Key)
    requires HasKey(Merged(h, records), k)
    ensures k in AbsorbAll(FromSeries(h.series, h.allRuns), records, h.allRuns).at
  {
    var s := MergedSamples(h, records);
    MergedSamplesFacts(h, records);
    BackfilledKeepsIdentity(s, h.allRuns);
    var m :| m in Backfilled(s) && KeyOf(m, h.allRuns) == k;
    var i :| 0 <= i < |s| && Backfilled(s)[i] == m;
    assert s[i] in s;
  }

  /** The samples, by key, after the loop. */
  function Samples(h: History, records: seq<Record>): Dict {
    AbsorbAll(FromSeries(h.series, h.allRuns), records, h.allRuns)
  }

  /** One of the history's samples or of the records merged in. */
  ghost predicate Seen(h: History, records: seq<Record>, s: Record) {
    s in h.series || s in records
  }

  /** `m` is, but for carried fields, the newest record seen under its key. */
  ghost predicate Newest(h: History, records: seq<Record>, m: Record) {
    && (exists s :: Seen(h, records, s) && KeyOf(s, h.allRuns) == KeyOf(m, h.allRuns)
          && CoreOf(s) == CoreOf(m) && OrderOf(s) == OrderOf(m))
    && forall s | Seen(h, records, s) && KeyOf(s, h.allRuns) == KeyOf(m, h.allRuns) :: AtMost(OrderOf(s), OrderOf(m))
  }

  ghost predicate KeepsTheNewest(h: History, records: seq<Record>) {
    forall m | m in MergedSamples(h, records) :: Newest(h, records, m)
  }

  /** The newest sample seen before the i-th record under its key is older than the record and has
      a number the record leaves out. */
  ghost predicate Sheds(h: History, records: seq<Record>, i: nat) {
    && i < |records|
    && exists s :: ShedBy(h, records[..i], records[i], s)
  }

  ghost predicate ShedBy(h: History, before: seq<Record>, r: Record, s: Record) {
    && Seen(h, before, s) && KeyOf(s, h.allRuns) == KeyOf(r, h.allRuns)
    && Before(OrderOf(s), OrderOf(r)) && Lacks(r, s)
    && forall o | Seen(h, before, o) && KeyOf(o, h.allRuns) == KeyOf(r, h.allRuns) :: AtMost(OrderOf(o), OrderOf(s))
  }

  ghost predicate NewestByKey(h: History, records: seq<Record>) {
    forall k | k in Samples(h, records).at :: Newest(h, records, Samples(h, records).at[k])
  }

  lemma NewestIsByKey(h: History, records: seq<Record>)
    ensures KeepsTheNewest(h, records) <==> NewestByKey(h, records)
  {
    MergedSamplesFacts(h, records);
    var d, s := Samples(h, records), MergedSamples(h, records);
    if NewestByKey(h, records) {
      forall m | m in s ensures Newest(h, records, m) {
        assert d.at[KeyOf(m, h.allRuns)] == m;
      }
    }
  }

  lemma SamplesFacts(h: History, records: seq<Record>)
    ensures Wf(Samples(h, records), h.allRuns)
    ensures forall s | Seen(h, records, s) :: KeyOf(s, h.allRuns) in Samples(h, records).at
  {
    FromSeriesFacts(h.series, h.allRuns);
    AbsorbAllKeys(FromSeries(h.series, h.allRuns), records, h.allRuns);
  }

  /** What was seen with one more record. */
  lemma SeenSnoc(h: History, before: seq<Record>, r: Record, s: Record)
    ensures Seen(h, before + [r], s) <==> Seen(h, before, s) || s == r
  {
  }

  lemma OtherKeyStaysNewest(h: History, before: seq<Record>, r: Record, m: Record)
    requires KeyOf(m, h.allRuns) != KeyOf(r, h.allRuns)
    ensures Newest(h, before + [r], m) <==> Newest(h, before, m)
  {
    if Newest(h, before, m) {
      var s :| Seen(h, before, s) && KeyOf(s, h.allRuns) == KeyOf(m, h.allRuns) && CoreOf(s) == CoreOf(m)
        && OrderOf(s) == OrderOf(m);
      assert Seen(h, before + [r], s);
    }
    if Newest(h, before + [r], m) {
      var s :| Seen(h, before + [r], s) && KeyOf(s, h.allRuns) == KeyOf(m, h.allRuns) && CoreOf(s) == CoreOf(m)
        && OrderOf(s) == OrderOf(m);
      SeenSnoc(h, before, r, s);
      forall o | Seen(h, before, o) && KeyOf(o, h.allRuns) == KeyOf(m, h.allRuns)
        ensures AtMost(OrderOf(o), OrderOf(m))
      {
        SeenSnoc(h, before, r, o);
      }
    }
  }

  /** A record that does not replace the newest sample leaves it the newest, and sheds nothing. */
  lemma KeptSampleStaysNewest(h: History, before: seq<Record>, r: Record, m: Record)
    requires Newest(h, before, m) && KeyOf(m, h.allRuns) == KeyOf(r, h.allRuns) && AtMost(OrderOf(r), OrderOf(m))
    ensures Newest(h, before + [r], m) && forall s :: !ShedBy(h, before, r, s)
  {
    var s :| Seen(h, before, s) && KeyOf(s, h.allRuns) == KeyOf(m, h.allRuns) && CoreOf(s) == CoreOf(m)
      && OrderOf(s) == OrderOf(m);
    assert Seen(h, before + [r], s);
    forall o | ShedBy(h, before, r, o) ensures false {
      OrderIsTotal(OrderOf(r), OrderOf(s), OrderOf(o));
      OrderIsTotal(OrderOf(o), OrderOf(r), OrderOf(s));
    }
  }

  /** The first record of a key is the newest, and sheds nothing. */
  lemma FirstSampleIsNewest(h: History, before: seq<Record>, r: Record)
    requires forall s | Seen(h, before, s) :: KeyOf(s, h.allRuns) != KeyOf(r, h.allRuns)
    ensures Newest(h, before + [r], r) && forall s :: !ShedBy(h, before, r, s)
  {
    assert Seen(h, before + [r], r);
  }

  /** A record that replaces the newest sample is stored as the newest exactly when it sheds
      nothing: an order raised by a carried number is that of no record seen. */
  lemma ReplacedSampleIsNewestExactly(h: History, before: seq<Record>, r: Record, m: Record)
    requires Newest(h, before, m) && KeyOf(m, h.allRuns) == KeyOf(r, h.allRuns) && Before(OrderOf(m), OrderOf(r))
    ensures Newest(h, before + [r], Overlay(m, r)) <==> forall s :: !ShedBy(h, before, r, s)
  {
    var stored := Overlay(m, r);
    OverlayKeepsIdentity(m, r, h.allRuns);
    CarriedOrder(m, r);
    var s :| Seen(h, before, s) && KeyOf(s, h.allRuns) == KeyOf(m, h.allRuns) && CoreOf(s) == CoreOf(m)
      && OrderOf(s) == OrderOf(m);
    if Lacks(r, m) {
      assert ShedBy(h, before, r, s);
      RaisedOrderIsUnseen(h, before, r, m);
    } else {
      StoredAsItself(h, before, r, m);
      forall o | ShedBy(h, before, r, o) ensures false {
        OrderIsTotal(OrderOf(o), OrderOf(s), OrderOf(o));
      }
    }
  }

  lemma StoredAsItself(h: History, before: seq<Record>, r: Record, m: Record)
    requires Newest(h, before, m) && KeyOf(m, h.allRuns) == KeyOf(r, h.allRuns) && Before(OrderOf(m), OrderOf(r))
      && !Lacks(r, m)
    ensures Newest(h, before + [r], Overlay(m, r))
  {
    OverlayKeepsIdentity(m, r, h.allRuns);
    CarriedOrder(m, r);
    assert Seen(h, before + [r], r);
    forall o | Seen(h, before + [r], o) && KeyOf(o, h.allRuns) == KeyOf(r, h.allRuns)
      ensures AtMost(OrderOf(o), OrderOf(r))
    {
      SeenSnoc(h, before, r, o);
      OrderIsTotal(OrderOf(o), OrderOf(m), OrderOf(r));
    }
  }

  lemma RaisedOrderIsUnseen(h: History, before: seq<Record>, r: Record, m: Record)
    requires Newest(h, before, m) && KeyOf(m, h.allRuns) == KeyOf(r, h.allRuns) && Before(OrderOf(m), OrderOf(r))
      && Lacks(r, m)
    ensures !Newest(h, before + [r], Overlay(m, r))
  {
    OverlayKeepsIdentity(m, r, h.allRuns);
    CarriedOrder(m, r);
    forall o | Seen(h, before + [r], o) && KeyOf(o, h.allRuns) == KeyOf(r, h.allRuns)
      ensures OrderOf(o) != OrderOf(Overlay(m, r))
    {
      SeenSnoc(h, before, r, o);
      OrderIsTotal(OrderOf(o), OrderOf(m), OrderOf(r));
      OrderIsTotal(OrderOf(o), OrderOf(r), OrderOf(Overlay(m, r)));
    }
  }

  /** From a state that holds the newest samples one record leads to another exactly when it sheds
      nothing. */
  lemma OneRecordKeepsTheNewest(h: History, before: seq<Record>, r: Record)
    requires NewestByKey(h, before)
    ensures NewestByKey(h, before + [r]) <==> forall s :: !ShedBy(h, before, r, s)
  {
    var b, k := Samples(h, before), KeyOf(r, h.allRuns);
    assert (before + [r])[..|before|] == before;
    var a := Absorb(b, r, h.allRuns);
    assert Samples(h, before + [r]) == a;
    SamplesFacts(h, before);
    AbsorbFacts(b, r, h.allRuns);
    forall q | q in a.at && q != k ensures Newest(h, before + [r], a.at[q]) {
      assert a.at[q] == b.at[q];
      OtherKeyStaysNewest(h, before, r, b.at[q]);
    }
    if k !in b.at {
      FirstSampleIsNewest(h, before, r);
    } else if Replaces(b, r, h.allRuns) {
      ReplacedSampleIsNewestExactly(h, before, r, b.at[k]);
    } else {
      KeptSampleStaysNewest(h, before, r, b.at[k]);
    }
  }

  lemma StartIsNewest(h: History)
    requires DistinctKeys(h.series, h.allRuns)
    ensures NewestByKey(h, [])
  {
    var d := FromSeries(h.series, h.allRuns);
    assert Samples(h, []) == d;
    FromSeriesFacts(h.series, h.allRuns);
    forall k | k in d.at ensures Newest(h, [], d.at[k]) {
      OwnSampleIsNewest(h, d.at[k]);
    }
  }

  lemma OwnSampleIsNewest(h: History, m: Record)
    requires DistinctKeys(h.series, h.allRuns) && m in h.series
    ensures Newest(h, [], m)
  {
    assert Seen(h, [], m);
    forall s | Seen(h, [], s) && KeyOf(s, h.allRuns) == KeyOf(m, h.allRuns) ensures AtMost(OrderOf(s), OrderOf(m)) {
      assert s == m;
      OrderIsTotal(OrderOf(m), OrderOf(m), OrderOf(m));
    }
  }

  lemma NextPrefixIsNewest(h: History, records: seq<Record>, i: nat)
    requires i < |records| && NewestByKey(h, records[..i])
    ensures NewestByKey(h, records[..i + 1]) <==> !Sheds(h, records, i)
  {
    OneRecordKeepsTheNewest(h, records[..i], records[i]);
    assert records[..i] + [records[i]] == records[..i + 1];
  }

  lemma {:induction false} PrefixIsNewest(h: History, records: seq<Record>, i: nat)
    requires DistinctKeys(h.series, h.allRuns) && i <= |records|
    requires forall j: nat | j < |records| :: !Sheds(h, records, j)
    ensures NewestByKey(h, records[..i])
  {
    if i == 0 {
      StartIsNewest(h);
    } else {
      PrefixIsNewest(h, records, i - 1);
      NextPrefixIsNewest(h, records, i - 1);
    }
  }

  /** Every prefix of the records leaves the newest sample of each key exactly when no record sheds
      a number of the newest sample before it. */
  lemma MergeKeepsTheNewestExactly(h: History, records: seq<Record>)
    requires DistinctKeys(h.series, h.allRuns)
    ensures (forall i | 0 <= i <= |records| :: KeepsTheNewest(h, records[..i]))
      <==> (forall i: nat | i < |records| :: !Sheds(h, records, i))
  {
    if forall i | 0 <= i <= |records| :: KeepsTheNewest(h, records[..i]) {
      forall i: nat | i < |records| ensures !Sheds(h, records, i) {
        NewestIsByKey(h, records[..i]);
        NewestIsByKey(h, records[..i + 1]);
        NextPrefixIsNewest(h, records, i);
      }
    }
    if forall i: nat | i < |records| :: !Sheds(h, records, i) {
      forall i | 0 <= i <= |records| ensures KeepsTheNewest(h, records[..i]) {
        PrefixIsNewest(h, records, i);
        NewestIsByKey(h, records[..i]);
      }
    }
  }

  /** In particular each merged sample is then the newest of its key. */
  lemma MergeKeepsTheNewest(h: History, records: seq<Record>)
    requires DistinctKeys(h.series, h.allRuns)
    requires forall i: nat | i < |records| :: !Sheds(h, records, i)
    ensures forall m | m in MergedSamples(h, records) :: Newest(h, records, m)
  {
    MergeKeepsTheNewestExactly(h, records);
    assert records[..|records|] == records && KeepsTheNewest(h, records[..|records|]);
  }

  /** Records that spell their numbers out, as every importer's do, shed nothing. */
  lemma ExplicitShedsNothing(h: History, records: seq<Record>)
    requires forall r | r in records :: Explicit(r)
    ensures forall i: nat | i < |records| :: !Sheds(h, records, i)
  {
    forall i: nat, s | i < |records| ensures !ShedBy(h, records[..i], records[i], s) {
      assert records[i] in records;
    }
  }

  // ---- a newer record can be hidden ----

  function ExampleVariant(): Variant {
    Variant(Some(1.0), [], false, None)
  }

  function ExampleCase(): Case {
    Case("fib", None, map["elephc" := ExampleVariant(), "php" := ExampleVariant(), "c" := ExampleVariant()])
  }

  function ExampleEnvironment(): Environment {
    Environment(map["runner" := "ci", "os" := "linux", "architecture" := "x64", "measurement" := "process-wall"], true,
      None, None)
  }

  /** A valid native record of the first day. */
  function Example(instant: int, run: int, artifact: Field): Record {
    Record(0, Stamp("", instant), None, "00000000", run, Number(1), artifact, ExampleEnvironment(), [ExampleCase()],
      map[])
  }

  lemma ExampleCaseIsValid()
    ensures ValidCase(Native, ExampleCase())
  {
    var c := ExampleCase();
    assert c.variants.Keys == {"elephc", "php", "c"};
    forall tag | tag in c.variants ensures ValidVariant(tag, c.variants[tag]) {
      assert c.variants[tag] == ExampleVariant();
    }
  }

  lemma ExampleEnvironmentIsValid()
    ensures forall k | k in REQUIRED_KEYS :: Filled(ExampleEnvironment().fields, k)
  {
  }

  lemma ExampleIsValid(instant: int, run: int, artifact: Field)
    requires 0 <= instant < DAY && run > 0
    ensures ValidRecord(Native, Example(instant, run, artifact))
  {
    ExampleCaseIsValid();
    ExampleEnvironmentIsValid();
    assert instant / DAY == 0;
  }

  lemma OneSampleIsMerged(h: History, records: seq<Record>, m: Record)
    requires h.series == [] && records != [] && forall k :: k in Samples(h, records).at <==> k == KeyOf(m, h.allRuns)
    requires Samples(h, records).at[KeyOf(m, h.allRuns)] == m
    ensures MergedSamples(h, records) == [m]
  {
    var s := MergedSamples(h, records);
    MergedSamplesFacts(h, records);
    assert m in s;
    if |s| >= 2 {
      TwoKeys(s, h.allRuns);
    }
  }

  lemma TwoKeys(s: seq<Record>, allRuns: bool)
    requires |s| >= 2 && DistinctKeys(s, allRuns)
    ensures s[0] in s && s[1] in s && KeyOf(s[0], allRuns) != KeyOf(s[1], allRuns)
  {
  }

  lemma ReplacedTwice(a: Record, b: Record, c: Record, h: History)
    requires h.series == [] && KeyOf(a, h.allRuns) == KeyOf(b, h.allRuns) == KeyOf(c, h.allRuns)
    requires Before(OrderOf(a), OrderOf(b)) && AtMost(OrderOf(c), OrderOf(Overlay(a, b)))
    ensures Samples(h, [a, b, c]) == Dict([KeyOf(a, h.allRuns)], map[KeyOf(a, h.allRuns) := Overlay(a, b)])
  {
    var k := KeyOf(a, h.allRuns);
    assert [a, b, c][..2] == [a, b] && [a, b][..1] == [a] && [a][..0] == [];
    assert Samples(h, []) == EMPTY;
    assert [] + [k] == [k];
    assert Samples(h, [a]) == Dict([k], map[k := a]);
    OverlayKeepsIdentity(a, b, h.allRuns);
    assert Samples(h, [a, b]) == Dict([k], map[k := Overlay(a, b)]);
  }

  /** Merged into an empty native history, three valid records of one day and platform leave the
      second one's measurement, although the third is the newest. */
  lemma ANewerRecordCanBeHidden()
    ensures var h := EmptyHistory(Native, "main", false);
      var a, b, c := Example(1, 1, Number(9)), Example(2, 2, Missing), Example(2, 3, Number(5));
      && ValidRecord(Native, a) && ValidRecord(Native, b) && ValidRecord(Native, c)
      && Before(OrderOf(a), OrderOf(b)) && Before(OrderOf(b), OrderOf(c))
      && |Merged(h, [a, b, c]).series| == 1 && Merged(h, [a, b, c]).series[0].runId == b.runId
  {
    var h := EmptyHistory(Native, "main", false);
    var a, b, c := Example(1, 1, Number(9)), Example(2, 2, Missing), Example(2, 3, Number(5));
    ExampleIsValid(1, 1, Number(9));
    ExampleIsValid(2, 2, Missing);
    ExampleIsValid(2, 3, Number(5));
    ReplacedTwice(a, b, c, h);
    OverlayKeepsIdentity(a, b, false);
    OneSampleIsMerged(h, [a, b, c], Overlay(a, b));
    BackfilledKeepsIdentity([Overlay(a, b)], false);
  }

  // ---- merging what is already there ----

  lemma {:induction false} AbsorbsNothingNew(d: Dict, records: seq<Record>, allRuns: bool)
    requires forall r | r in records ::
      KeyOf(r, allRuns) in d.at && AtMost(OrderOf(r), OrderOf(d.at[KeyOf(r, allRuns)]))
    ensures AbsorbAll(d, records, allRuns) == d
  {
    if records != [] {
      AbsorbsNothingNew(d, records[..|records| - 1], allRuns);
    }
  }

  /** A merged history is a fixed point: merging records it already covers, its own among them,
      gives back the same history, to the last field. */
  lemma MergeAbsorbsCovered(h: History, records: seq<Record>, again: seq<Record>)
    requires forall r | r in again :: Covers(Merged(h, records), r)
    ensures Merged(Merged(h, records), again) == Merged(h, records)
  {
    var m := Merged(h, records);
    var s := MergedSamples(h, records);
    MergedSamplesFacts(h, records);
    BackfilledKeepsIdentity(s, h.allRuns);
    FromDistinctSeries(m.series, m.allRuns);
    var d := FromSeries(m.series, m.allRuns);
    forall r | r in again
      ensures KeyOf(r, m.allRuns) in d.at && AtMost(OrderOf(r), OrderOf(d.at[KeyOf(r, m.allRuns)]))
    {
      var w :| w in m.series && KeyOf(w, m.allRuns) == KeyOf(r, m.allRuns) && AtMost(OrderOf(r), OrderOf(w));
    }
    AbsorbsNothingNew(d, again, m.allRuns);
    SortOfSorted(m.series, InOrder);
    assert MergedSamples(m, again) == m.series;
    BackfillIsIdempotent(s);
  }

  lemma MergeIsIdempotent(h: History, records: seq<Record>)
    requires DistinctKeys(h.series, h.allRuns)
    ensures Merged(Merged(h, records), records) == Merged(h, records)
    ensures Merged(Merged(h, records), []) == Merged(h, records)
  {
    MergeCovers(h, records);
    MergeAbsorbsCovered(h, records, records);
    MergeAbsorbsCovered(h, records, []);
  }

  // ---- a merged history can be loaded again ----

  lemma OverlayIsAsValid(suite: Suite, old_: Record, new_: Record)
    ensures ValidRecord(suite, Overlay(old_, new_)) <==> ValidRecord(suite, new_)
  {
  }

  ghost predicate AllValid(suite: Suite, d: Dict) {
    forall k | k in d.at :: ValidRecord(suite, d.at[k])
  }

  lemma {:induction false} AbsorbAllKeepsValid(suite: Suite, d: Dict, records: seq<Record>, allRuns: bool)
    requires AllValid(suite, d)
    requires forall r | r in records :: ValidRecord(suite, r)
    ensures AllValid(suite, AbsorbAll(d, records, allRuns))
  {
    if records != [] {
      var n := |records| - 1;
      AbsorbAllKeepsValid(suite, d, records[..n], allRuns);
      assert records[n] in records;
      AbsorbKeepsValid(suite, AbsorbAll(d, records[..n], allRuns), records[n], allRuns);
    }
  }

  lemma AbsorbKeepsValid(suite: Suite, b: Dict, r: Record, allRuns: bool)
    requires AllValid(suite, b) && ValidRecord(suite, r)
    ensures AllValid(suite, Absorb(b, r, allRuns))
  {
    var k := KeyOf(r, allRuns);
    if k in b.at {
      OverlayIsAsValid(suite, b.at[k], r);
    }
    var a := Absorb(b, r, allRuns);
    forall q | q in a.at ensures ValidRecord(suite, a.at[q]) {
      if q != k {
        assert a.at[q] == b.at[q];
      }
    }
  }

  /** Merging valid records into a loadable history gives a history the loader accepts. */
  lemma MergeKeepsLoadable(h: History, records: seq<Record>, suite: Suite, branch: string, allRuns: bool)
    requires Loadable(h, suite, branch, allRuns)
    requires forall r | r in records :: ValidRecord(suite, r)
    ensures Loadable(Merged(h, records), suite, branch, allRuns)
    ensures Sorted(Merged(h, records).series)
  {
    var start := FromSeries(h.series, allRuns);
    var s := MergedSamples(h, records);
    FromSeriesFacts(h.series, allRuns);
    AbsorbAllKeepsValid(suite, start, records, allRuns);
    MergedSamplesFacts(h, records);
    BackfilledKeepsIdentity(s, allRuns);
    forall r | r in Backfilled(s) ensures ValidRecord(suite, r) {
      var i :| 0 <= i < |s| && r == FillRecord(s, s[i]);
      FillKeepsValid(suite, s, s[i]);
    }
  }
}
