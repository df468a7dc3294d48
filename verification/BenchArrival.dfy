/** When the order in which records arrive does not matter. */
module BenchArrival {
  import opened Wrappers
  import opened BenchRecords
  import opened BenchBackfill
  import opened BenchMerge

  /** `r` would shed a number of `s`, and the history has no newer sample to keep `s` out. */
  ghost predicate MayShed(h: History, records: seq<Record>, r: Record, s: Record) {
    && r in records && Seen(h, records, s) && KeyOf(s, h.allRuns) == KeyOf(r, h.allRuns)
    && Before(OrderOf(s), OrderOf(r)) && Lacks(r, s)
    && forall o | o in h.series && KeyOf(o, h.allRuns) == KeyOf(r, h.allRuns) :: AtMost(OrderOf(o), OrderOf(s))
  }

  /** Some record leaves out a number of an older one of its key. */
  ghost predicate CanShed(h: History, records: seq<Record>) {
    exists r, s :: MayShed(h, records, r, s)
  }

  /** The same records in another order. */
  predicate Shuffled(records: seq<Record>, shuffled: seq<Record>) {
    multiset(shuffled) == multiset(records)
  }

  lemma SameMembers(records: seq<Record>, shuffled: seq<Record>)
    requires Shuffled(records, shuffled)
    ensures forall r :: r in records <==> r in shuffled
  {
    assert forall r :: r in records <==> r in multiset(records);
    assert forall r :: r in shuffled <==> r in multiset(shuffled);
  }

  lemma ShedIsPossible(h: History, records: seq<Record>, shuffled: seq<Record>, i: nat)
    requires (forall r :: r in records <==> r in shuffled) && Sheds(h, shuffled, i)
    ensures CanShed(h, records)
  {
    var s :| ShedBy(h, shuffled[..i], shuffled[i], s);
    assert shuffled[i] in shuffled;
    assert MayShed(h, records, shuffled[i], s);
  }

  lemma NoOrderSheds(h: History, records: seq<Record>, shuffled: seq<Record>)
    requires !CanShed(h, records) && forall r :: r in records <==> r in shuffled
    ensures forall i: nat | i < |shuffled| :: !Sheds(h, shuffled, i)
  {
    forall i: nat | i < |shuffled| ensures !Sheds(h, shuffled, i) {
      if Sheds(h, shuffled, i) {
        ShedIsPossible(h, records, shuffled, i);
      }
    }
  }

  lemma MoveToFront(records: seq<Record>, r: Record) returns (rest: seq<Record>)
    requires r in records
    ensures Shuffled(records, [r] + rest)
  {
    var i :| 0 <= i < |records| && records[i] == r;
    rest := records[..i] + records[i + 1..];
    assert records == records[..i] + [r] + records[i + 1..];
  }

  /** The two records in question, first the older one. */
  lemma SomeOrderSheds(h: History, records: seq<Record>, r: Record, s: Record) returns (shuffled: seq<Record>, i: nat)
    requires MayShed(h, records, r, s)
    ensures Shuffled(records, shuffled) && Sheds(h, shuffled, i)
  {
    var rest := MoveToFront(records, r);
    if s in h.series {
      shuffled, i := [r] + rest, 0;
    } else {
      SameMembers(records, [r] + rest);
      assert s in [r] + rest && s != r;
      var others := MoveToFront(rest, s);
      shuffled, i := [s, r] + others, 1;
      assert shuffled == [s] + ([r] + others);
      assert [r] + ([s] + others) == [r] + [s] + others;
    }
    assert shuffled[..i] == if s in h.series then [] else [s];
    assert ShedBy(h, shuffled[..i], shuffled[i], s);
  }

  /** Some arrival order sheds a number exactly when some record leaves out one of an older record. */
  lemma ShedsInSomeOrderExactly(h: History, records: seq<Record>)
    ensures CanShed(h, records) <==> exists shuffled, i: nat :: Shuffled(records, shuffled) && Sheds(h, shuffled, i)
  {
    if CanShed(h, records) {
      var r, s :| MayShed(h, records, r, s);
      var shuffled, i := SomeOrderSheds(h, records, r, s);
    } else {
      forall shuffled, i: nat | Shuffled(records, shuffled) ensures !Sheds(h, shuffled, i) {
        SameMembers(records, shuffled);
        NoOrderSheds(h, records, shuffled);
      }
    }
  }

  /** However much of the records has arrived, in whatever order, the newest samples are kept. */
  ghost predicate AlwaysKeepsTheNewest(h: History, records: seq<Record>) {
    forall shuffled, i | Shuffled(records, shuffled) && 0 <= i <= |shuffled| :: KeepsTheNewest(h, shuffled[..i])
  }

  lemma AlwaysKeepsTheNewestExactly(h: History, records: seq<Record>)
    requires DistinctKeys(h.series, h.allRuns)
    ensures AlwaysKeepsTheNewest(h, records) <==> !CanShed(h, records)
  {
    ShedsInSomeOrderExactly(h, records);
    forall shuffled | Shuffled(records, shuffled)
      ensures (forall i | 0 <= i <= |shuffled| :: KeepsTheNewest(h, shuffled[..i]))
        <==> (forall i: nat | i < |shuffled| :: !Sheds(h, shuffled, i))
    {
      MergeKeepsTheNewestExactly(h, shuffled);
    }
  }

  // ---- the winners ----

  /** Samples of one key with the same order are the same measurement. */
  ghost predicate NoTies(h: History, records: seq<Record>) {
    forall a, b | Seen(h, records, a) && Seen(h, records, b)
      && KeyOf(a, h.allRuns) == KeyOf(b, h.allRuns) && OrderOf(a) == OrderOf(b) :: CoreOf(a) == CoreOf(b)
  }

  /** The merge of `records` has a sample with the key, order and measurement of `m`. */
  ghost predicate SameWinner(h: History, records: seq<Record>, m: Record) {
    exists w :: w in MergedSamples(h, records) && KeyOf(w, h.allRuns) == KeyOf(m, h.allRuns)
      && CoreOf(w) == CoreOf(m) && OrderOf(w) == OrderOf(m)
  }

  /** When no record leaves out a number of an older one, the winners and their measurements do not
      depend on the order in which records arrive, nor on how often. */
  lemma WinnersIgnoreArrivalOrder(h: History, records: seq<Record>, shuffled: seq<Record>)
    requires DistinctKeys(h.series, h.allRuns)
    requires forall r :: r in records <==> r in shuffled
    requires !CanShed(h, records) && NoTies(h, records)
    ensures forall m | m in MergedSamples(h, records) :: SameWinner(h, shuffled, m)
  {
    NoOrderSheds(h, records, records);
    NoOrderSheds(h, records, shuffled);
    MergeKeepsTheNewest(h, records);
    MergeKeepsTheNewest(h, shuffled);
    MergedSamplesFacts(h, records);
    MergedSamplesFacts(h, shuffled);
    var start := FromSeries(h.series, h.allRuns);
    FromSeriesFacts(h.series, h.allRuns);
    AbsorbAllKeys(start, records, h.allRuns);
    AbsorbAllKeys(start, shuffled, h.allRuns);
    forall m | m in MergedSamples(h, records)
      ensures SameWinner(h, shuffled, m)
    {
      var w := AbsorbAll(start, shuffled, h.allRuns).at[KeyOf(m, h.allRuns)];
      assert w in MergedSamples(h, shuffled);
      NewestIsUnique(h, records, shuffled, m, w);
    }
  }

  lemma NewestIsUnique(h: History, records: seq<Record>, shuffled: seq<Record>, m: Record, w: Record)
    requires forall r :: r in records <==> r in shuffled
    requires NoTies(h, records)
    requires Newest(h, records, m) && Newest(h, shuffled, w) && KeyOf(m, h.allRuns) == KeyOf(w, h.allRuns)
    ensures CoreOf(m) == CoreOf(w) && OrderOf(m) == OrderOf(w)
  {
    var a :| Seen(h, records, a) && KeyOf(a, h.allRuns) == KeyOf(m, h.allRuns)
      && CoreOf(a) == CoreOf(m) && OrderOf(a) == OrderOf(m);
    var b :| Seen(h, shuffled, b) && KeyOf(b, h.allRuns) == KeyOf(w, h.allRuns)
      && CoreOf(b) == CoreOf(w) && OrderOf(b) == OrderOf(w);
    assert Seen(h, records, b) && Seen(h, shuffled, a);
    OrderIsTotal(OrderOf(a), OrderOf(b), OrderOf(a));
  }

  lemma NewestFirst(a: Record, b: Record, c: Record, h: History)
    requires h.series == [] && KeyOf(a, h.allRuns) == KeyOf(b, h.allRuns) == KeyOf(c, h.allRuns)
    requires Before(OrderOf(a), OrderOf(c)) && Before(OrderOf(b), OrderOf(c))
    ensures Samples(h, [c, b, a]) == Dict([KeyOf(c, h.allRuns)], map[KeyOf(c, h.allRuns) := c])
  {
    var k := KeyOf(c, h.allRuns);
    assert [c, b, a][..2] == [c, b] && [c, b][..1] == [c] && [c][..0] == [];
    assert Samples(h, []) == EMPTY;
    assert [] + [k] == [k];
    assert Samples(h, [c]) == Dict([k], map[k := c]);
    OrderIsTotal(OrderOf(b), OrderOf(c), OrderOf(b));
    OrderIsTotal(OrderOf(a), OrderOf(c), OrderOf(a));
    assert Samples(h, [c, b]) == Dict([k], map[k := c]);
  }

  lemma ReversedWinner()
    ensures var h := EmptyHistory(Native, "main", false);
      var a, b, c := Example(1, 1, Number(9)), Example(2, 2, Missing), Example(2, 3, Number(5));
      |Merged(h, [c, b, a]).series| == 1 && Merged(h, [c, b, a]).series[0].runId == c.runId
  {
    var h := EmptyHistory(Native, "main", false);
    var a, b, c := Example(1, 1, Number(9)), Example(2, 2, Missing), Example(2, 3, Number(5));
    NewestFirst(a, b, c, h);
    OneSampleIsMerged(h, [c, b, a], c);
    BackfilledKeepsIdentity([c], false);
  }

  lemma ThreeWithoutTies(h: History, a: Record, b: Record, c: Record)
    requires h.series == [] && Before(OrderOf(a), OrderOf(b)) && Before(OrderOf(b), OrderOf(c))
    ensures NoTies(h, [a, b, c])
  {
    OrderIsTotal(OrderOf(a), OrderOf(b), OrderOf(c));
    OrderIsTotal(OrderOf(b), OrderOf(c), OrderOf(b));
  }

  /** Otherwise they can: three valid records, no two of one order, whose winner is the second one's
      measurement in one order and the third one's in the reverse. */
  lemma ArrivalOrderCanDecide()
    ensures var h := EmptyHistory(Native, "main", false);
      var a, b, c := Example(1, 1, Number(9)), Example(2, 2, Missing), Example(2, 3, Number(5));
      && ValidRecord(Native, a) && ValidRecord(Native, b) && ValidRecord(Native, c)
      && NoTies(h, [a, b, c]) && Shuffled([a, b, c], [c, b, a])
      && |Merged(h, [a, b, c]).series| == 1 && Merged(h, [a, b, c]).series[0].runId == b.runId
      && |Merged(h, [c, b, a]).series| == 1 && Merged(h, [c, b, a]).series[0].runId == c.runId
  {
    ANewerRecordCanBeHidden();
    ReversedWinner();
    ThreeWithoutTies(EmptyHistory(Native, "main", false),
      Example(1, 1, Number(9)), Example(2, 2, Missing), Example(2, 3, Number(5)));
  }
}
