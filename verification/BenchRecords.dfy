/** Benchmark records as the history files hold them: identity, ordering and well-formedness. */
module BenchRecords {
  import opened Wrappers

  datatype Suite = Native | Magician | HotPath

  const SUITES: set<Suite> := {Native, Magician, HotPath}

  /** An ISO timestamp: its spelling, and the UTC instant in seconds it denotes. */
  datatype Stamp = Stamp(text: string, instant: int)

  /** A dictionary field that may be missing, null, or a GitHub number. */
  datatype Field = Missing | Null | Number(n: nat)

  datatype Reference = Reference(
    median: real, stamp: Stamp, commit: string, runId: int, fixture: Option<string>, env: map<string, string>)

  datatype Variant = Variant(median: Option<real>, samples: seq<real>, skipped: bool, reference: Option<Reference>)

  datatype Case = Case(name: string, fixture: Option<string>, variants: map<string, Variant>)

  datatype Environment = Environment(fields: map<string, string>, legacy: bool, iterations: Option<int>,
      warmup: Option<int>)

  datatype Record = Record(
    date: int,
    stamp: Stamp,
    measuredAt: Option<Stamp>,
    commit: string,
    runId: int,
    runAttempt: Field,
    artifactId: Field,
    env: Environment,
    cases: seq<Case>,
    extra: map<string, string>)

  // ---- environments ----

  function FieldOr(fields: map<string, string>, key: string, default: string): string {
    if key in fields then fields[key] else default
  }

  /** `fields.get(key) or "unknown"`. */
  function Known(fields: map<string, string>, key: string): string {
    if key in fields && fields[key] != "" then fields[key] else "unknown"
  }

  predicate Filled(fields: map<string, string>, key: string) {
    key in fields && fields[key] != ""
  }

  const MATCHED_KEYS: seq<string> := ["runner", "os", "architecture", "php", "php_mode"]
  const REQUIRED_KEYS: seq<string> := ["runner", "os", "architecture", "measurement"]

  // ---- record_key ----

  datatype Platform = Platform(runner: string, os: string, architecture: string)

  datatype Key =
    | Daily(date: int, platform: Platform)
    | PerRun(runId: int, attempt: Option<nat>, stamp: string, platform: Platform)

  function PlatformOf(env: Environment): Platform {
    Platform(FieldOr(env.fields, "runner", "unknown"), FieldOr(env.fields, "os", "unknown"),
             FieldOr(env.fields, "architecture", "unknown"))
  }

  function Got(f: Field): Option<nat> {
    if f.Number? then Some(f.n) else None
  }

  function KeyOf(r: Record, allRuns: bool): Key {
    if allRuns then PerRun(r.runId, Got(r.runAttempt), r.stamp.text, PlatformOf(r.env))
    else Daily(r.date, PlatformOf(r.env))
  }

  // ---- order ----

  datatype Order = Order(instant: int, attempt: nat, artifact: nat, run: int)

  function OrZero(f: Field): nat {
    if f.Number? then f.n else 0
  }

  function OrderOf(r: Record): Order {
    Order(r.stamp.instant, OrZero(r.runAttempt), OrZero(r.artifactId), r.runId)
  }

  /** Python's comparison of the order tuples. */
  predicate Before(a: Order, b: Order) {
    a.instant < b.instant
    || (a.instant == b.instant && (a.attempt < b.attempt
        || (a.attempt == b.attempt && (a.artifact < b.artifact
            || (a.artifact == b.artifact && a.run < b.run)))))
  }

  /** `a` is at most `b`. */
  predicate AtMost(a: Order, b: Order) {
    !Before(b, a)
  }

  lemma OrderIsTotal(a: Order, b: Order, c: Order)
    ensures !Before(a, a)
    ensures Before(a, b) || a == b || Before(b, a)
    ensures Before(a, b) && Before(b, c) ==> Before(a, c)
    ensures AtMost(a, b) && AtMost(b, c) ==> AtMost(a, c)
    ensures AtMost(a, b) && AtMost(b, a) ==> a == b
  {
  }

  /** Two dictionaries give the same value for a key that is "unknown" where it is missing. */
  predicate SameValue(a: map<string, string>, b: map<string, string>, k: string) {
    || (k in a && k in b && a[k] == b[k])
    || (k !in a && k !in b)
    || (k in a && k !in b && a[k] == "unknown")
    || (k !in a && k in b && b[k] == "unknown")
  }

  predicate SamePlatform(a: Record, b: Record) {
    && SameValue(a.env.fields, b.env.fields, "runner")
    && SameValue(a.env.fields, b.env.fields, "os")
    && SameValue(a.env.fields, b.env.fields, "architecture")
  }

  predicate SameRun(a: Record, b: Record) {
    && a.runId == b.runId && a.stamp.text == b.stamp.text
    && (a.runAttempt == b.runAttempt || (!a.runAttempt.Number? && !b.runAttempt.Number?))
  }

  /** Two records are samples of one point exactly when they agree on the day, or on the whole run
      when every run is kept, and on the platform. */
  lemma SameKeyExactly(a: Record, b: Record, allRuns: bool)
    ensures KeyOf(a, allRuns) == KeyOf(b, allRuns)
      <==> SamePlatform(a, b) && if allRuns then SameRun(a, b) else a.date == b.date
  {
    PlatformExactly(a, b);
  }

  lemma PlatformExactly(a: Record, b: Record)
    ensures PlatformOf(a.env) == PlatformOf(b.env) <==> SamePlatform(a, b)
  {
    ValueExactly(a.env.fields, b.env.fields, "runner");
    ValueExactly(a.env.fields, b.env.fields, "os");
    ValueExactly(a.env.fields, b.env.fields, "architecture");
  }

  lemma ValueExactly(a: map<string, string>, b: map<string, string>, k: string)
    ensures FieldOr(a, k, "unknown") == FieldOr(b, k, "unknown") <==> SameValue(a, b, k)
  {
  }

  /** Two lists of one length differ first at a place where `a` is smaller. */
  predicate Smaller(a: seq<int>, b: seq<int>) {
    exists i :: 0 <= i < |a| && i < |b| && a[i] < b[i] && a[..i] == b[..i]
  }

  /** A record is older exactly when its time, attempt, artifact or run, in this order, is the first to be smaller. */
  lemma OlderExactly(a: Record, b: Record)
    ensures Before(OrderOf(a), OrderOf(b)) <==>
      Smaller([a.stamp.instant, if a.runAttempt.Number? then a.runAttempt.n else 0,
               if a.artifactId.Number? then a.artifactId.n else 0, a.runId],
              [b.stamp.instant, if b.runAttempt.Number? then b.runAttempt.n else 0,
               if b.artifactId.Number? then b.artifactId.n else 0, b.runId])
  {
    var x, y := OrderOf(a), OrderOf(b);
    SmallerOfFour(x.instant, x.attempt, x.artifact, x.run, y.instant, y.attempt, y.artifact, y.run);
  }

  lemma SmallerOfFour(a0: int, a1: int, a2: int, a3: int, b0: int, b1: int, b2: int, b3: int)
    ensures Smaller([a0, a1, a2, a3], [b0, b1, b2, b3]) <==>
      a0 < b0 || (a0 == b0 && (a1 < b1 || (a1 == b1 && (a2 < b2 || (a2 == b2 && a3 < b3)))))
  {
    var a, b := [a0, a1, a2, a3], [b0, b1, b2, b3];
    assert a[..0] == b[..0];
    assert a[..1] == [a0] && b[..1] == [b0];
    assert a[..2] == [a0, a1] && b[..2] == [b0, b1];
    assert a[..3] == [a0, a1, a2] && b[..3] == [b0, b1, b2];
    if a0 < b0 {
      assert a[0] < b[0];
    } else if a0 == b0 && a1 < b1 {
      assert a[1] < b[1];
    } else if a0 == b0 && a1 == b1 && a2 < b2 {
      assert a[2] < b[2];
    } else if a0 == b0 && a1 == b1 && a2 == b2 && a3 < b3 {
      assert a[3] < b[3];
    }
    if i :| 0 <= i < 4 && a[i] < b[i] && a[..i] == b[..i] {
      assert forall j | 0 <= j < i :: a[..i][j] == b[..i][j];
    }
  }

  // ---- replacement: {**old, **new} ----

  function Carried(old_: Field, new_: Field): Field {
    if new_.Missing? then old_ else new_
  }

  /** The new record, keeping whatever fields only the old one had. */
  function Overlay(old_: Record, new_: Record): Record {
    new_.(measuredAt := if new_.measuredAt.Some? then new_.measuredAt else old_.measuredAt,
          runAttempt := Carried(old_.runAttempt, new_.runAttempt),
          artifactId := Carried(old_.artifactId, new_.artifactId),
          extra := old_.extra + new_.extra)
  }

  /** The measurement itself: everything a replacement takes from the new record alone. */
  datatype Core = Core(date: int, stamp: Stamp, commit: string, runId: int, env: Environment, cases: seq<Case>)

  function CoreOf(r: Record): Core {
    Core(r.date, r.stamp, r.commit, r.runId, r.env, r.cases)
  }

  /** Carrying fields forward never changes the key and never lowers the order. */
  lemma OverlayKeepsIdentity(old_: Record, new_: Record, allRuns: bool)
    requires KeyOf(old_, allRuns) == KeyOf(new_, allRuns)
    ensures KeyOf(Overlay(old_, new_), allRuns) == KeyOf(new_, allRuns)
    ensures CoreOf(Overlay(old_, new_)) == CoreOf(new_)
    ensures AtMost(OrderOf(new_), OrderOf(Overlay(old_, new_)))
  {
  }

  /** What a replacement leaves: a field the new record spells out is the new one, null included, and
      any other stays as it was. */
  lemma OverlayMeans(old_: Record, new_: Record)
    ensures var o := Overlay(old_, new_);
      && (new_.measuredAt == None ==> o.measuredAt == old_.measuredAt)
      && (new_.measuredAt != None ==> o.measuredAt == new_.measuredAt)
      && (new_.runAttempt == Missing ==> o.runAttempt == old_.runAttempt)
      && (new_.runAttempt != Missing ==> o.runAttempt == new_.runAttempt)
      && (new_.artifactId == Missing ==> o.artifactId == old_.artifactId)
      && (new_.artifactId != Missing ==> o.artifactId == new_.artifactId)
      && o.extra.Keys == old_.extra.Keys + new_.extra.Keys
      && (forall k | k in new_.extra :: o.extra[k] == new_.extra[k])
      && (forall k | k in old_.extra && k !in new_.extra :: o.extra[k] == old_.extra[k])
  {
  }

  /** The numbers that decide the order are spelled out, as every importer does. */
  predicate Explicit(r: Record) {
    !r.runAttempt.Missing? && !r.artifactId.Missing?
  }

  /** The new record leaves out a number that decides the order and that the old one had. */
  predicate Lacks(new_: Record, old_: Record) {
    || (new_.runAttempt.Missing? && OrZero(old_.runAttempt) != 0)
    || (new_.artifactId.Missing? && OrZero(old_.artifactId) != 0)
  }

  lemma CarriedOrder(old_: Record, new_: Record)
    ensures OrderOf(Overlay(old_, new_)) == OrderOf(new_) <==> !Lacks(new_, old_)
  {
  }

  // ---- validate_record ----

  predicate IsHex(s: string) {
    forall c | c in s :: '0' <= c <= '9' || 'a' <= c <= 'f'
  }

  predicate IsCommit(s: string) {
    8 <= |s| <= 40 && IsHex(s)
  }

  predicate StartsWith(s: string, prefix: string) {
    prefix <= s
  }

  predicate IsPhp(tag: string) {
    StartsWith(tag, "php")
  }

  predicate IsOptional(tag: string) {
    IsPhp(tag) || tag == "c"
  }

  function Mandatory(suite: Suite): set<string> {
    match suite
    case Native => {"elephc", "php", "c"}
    case Magician => {"elephc-native", "elephc-eval", "php-native", "php-eval"}
    case HotPath => {"buffer", "indexed", "assoc"}
  }

  predicate ValidReference(r: Reference) {
    && r.median >= 0.0 && IsCommit(r.commit) && r.runId > 0
    && forall k | k in MATCHED_KEYS :: Filled(r.env, k)
  }

  predicate ValidVariant(tag: string, v: Variant) {
    && (v.median.None? ==> IsOptional(tag) && v.skipped && v.samples == [])
    && (v.median.Some? ==> v.median.value >= 0.0 && !v.skipped)
    && (forall s | s in v.samples :: s >= 0.0)
    && (v.reference.Some? ==> IsPhp(tag) && v.median.None? && ValidReference(v.reference.value))
  }

  predicate ValidCase(suite: Suite, c: Case) {
    && c.name != ""
    && Mandatory(suite) <= c.variants.Keys
    && forall tag | tag in c.variants :: ValidVariant(tag, c.variants[tag])
  }

  predicate ValidCases(suite: Suite, cases: seq<Case>) {
    && cases != []
    && (forall c | c in cases :: ValidCase(suite, c))
    && (forall i, j | 0 <= i < j < |cases| :: cases[i].name != cases[j].name)
  }

  const DAY: int := 86400

  predicate MeasuredAsDeclared(env: Environment, c: Case) {
    && c.fixture.Some? && |c.fixture.value| == 64 && IsHex(c.fixture.value)
    && forall tag | tag in c.variants && !c.variants[tag].skipped ::
         env.iterations == Some(|c.variants[tag].samples|)
  }

  predicate ValidRecord(suite: Suite, r: Record) {
    && r.date == r.stamp.instant / DAY
    && IsCommit(r.commit)
    && r.runId > 0
    && (forall k | k in REQUIRED_KEYS :: Filled(r.env.fields, k))
    && ValidCases(suite, r.cases)
    && (!r.env.legacy ==>
          && r.env.iterations.Some? && r.env.iterations.value >= 1
          && r.env.warmup.Some? && r.env.warmup.value >= 0
          && forall c | c in r.cases :: MeasuredAsDeclared(r.env, c))
  }

  // ---- histories ----

  datatype History = History(
    suite: Suite, branch: string, allRuns: bool, points: nat, series: seq<Record>, legacySource: Option<string>)

  function EmptyHistory(suite: Suite, branch: string, allRuns: bool): History {
    History(suite, branch, allRuns, 0, [], None)
  }

  ghost predicate DistinctKeys(series: seq<Record>, allRuns: bool) {
    forall i, j | 0 <= i < j < |series| :: KeyOf(series[i], allRuns) != KeyOf(series[j], allRuns)
  }

  /** What `load_history` accepts: anything else fails instead of being rebuilt from nothing. */
  ghost predicate Loadable(h: History, suite: Suite, branch: string, allRuns: bool) {
    && h.suite == suite && h.branch == branch && h.allRuns == allRuns
    && h.points == |h.series|
    && (forall r | r in h.series :: ValidRecord(suite, r))
    && DistinctKeys(h.series, allRuns)
  }

  /** The history holds a sample for the record's key that is at least as new. */
  ghost predicate Covers(h: History, r: Record) {
    exists m :: m in h.series && KeyOf(m, h.allRuns) == KeyOf(r, h.allRuns) && AtMost(OrderOf(r), OrderOf(m))
  }
}
