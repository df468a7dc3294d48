/** The bars of the distributed-trace chart: where a span's bar starts and how wide it is drawn. */
module TraceBars {
  import opened Wrappers
  import opened TraceWaterfall

  // ---- the time axis ----

  datatype Window = Window(t0: nat, length: nat)

  predicate Dated(ms: seq<Span>) {
    forall i | 0 <= i < |ms| :: ms[i].start.Some?
  }

  function Micros(s: Span): nat {
    s.total / 1000
  }

  function EndOf(s: Span): nat
    requires s.start.Some?
  {
    s.start.value + Micros(s)
  }

  function MinStart(ms: seq<Span>): (t: nat)
    requires ms != [] && Dated(ms)
    ensures forall i | 0 <= i < |ms| :: t <= ms[i].start.value
    ensures exists i :: 0 <= i < |ms| && t == ms[i].start.value
  {
    if |ms| == 1 then ms[0].start.value
    else
      var rest := MinStart(ms[1..]);
      assert forall i | 1 <= i < |ms| :: ms[i] == ms[1..][i - 1];
      assert exists i :: 1 <= i < |ms| && rest == ms[i].start.value by {
        var j :| 0 <= j < |ms[1..]| && rest == ms[1..][j].start.value;
        assert rest == ms[j + 1].start.value;
      }
      if ms[0].start.value < rest then ms[0].start.value else rest
  }

  function MaxEnd(ms: seq<Span>): (t: nat)
    requires ms != [] && Dated(ms)
    ensures forall i | 0 <= i < |ms| :: EndOf(ms[i]) <= t
    ensures exists i :: 0 <= i < |ms| && t == EndOf(ms[i])
  {
    if |ms| == 1 then EndOf(ms[0])
    else
      var rest := MaxEnd(ms[1..]);
      assert forall i | 1 <= i < |ms| :: ms[i] == ms[1..][i - 1];
      assert exists i :: 1 <= i < |ms| && rest == EndOf(ms[i]) by {
        var j :| 0 <= j < |ms[1..]| && rest == EndOf(ms[1..][j]);
        assert rest == EndOf(ms[j + 1]);
      }
      if EndOf(ms[0]) > rest then EndOf(ms[0]) else rest
  }

  /** The wall-clock window of a trace: only when every span is dated and time passes in it. */
  function WindowOf(ms: seq<Span>): Option<Window> {
    if ms == [] || !Dated(ms) then None
    else if MaxEnd(ms) > MinStart(ms) then Some(Window(MinStart(ms), MaxEnd(ms) - MinStart(ms)))
    else None
  }

  function MaxTotal(ms: seq<Span>): (t: nat)
    ensures forall i | 0 <= i < |ms| :: ms[i].total <= t
    ensures t == 0 || exists i :: 0 <= i < |ms| && ms[i].total == t
  {
    if ms == [] then 0 else if ms[0].total > MaxTotal(ms[1..]) then ms[0].total else MaxTotal(ms[1..])
  }

  function Scale(ms: seq<Span>): nat {
    if MaxTotal(ms) > 1 then MaxTotal(ms) else 1
  }

  datatype Bar = Bar(offset: real, share: real)

  /** A part as a percentage of a whole. */
  function Share(part: nat, whole: nat): real
    requires whole > 0
  {
    100.0 * part as real / whole as real
  }

  function BarOf(ms: seq<Span>, s: Span): Bar {
    match WindowOf(ms)
    case Some(w) =>
      var start := if s.start.Some? && s.start.value > w.t0 then s.start.value - w.t0 else 0;
      if w.length == 0 then Bar(0.0, 0.0) else Bar(Share(start, w.length), Share(Micros(s), w.length))
    case None => Bar(0.0, Share(s.total, Scale(ms)))
  }

  /** The bar as drawn: the offset is kept below 98, the width at least 2. */
  function Drawn(b: Bar): Bar {
    Bar(if b.offset < 0.0 then 0.0 else if b.offset > 98.0 then 98.0 else b.offset,
        if b.share < 2.0 then 2.0 else b.share)
  }

  lemma Percent(part: nat, whole: nat)
    requires whole > 0
    ensures 0.0 <= Share(part, whole) && (part <= whole ==> Share(part, whole) <= 100.0)
  {
  }

  lemma PercentSum(a: nat, b: nat, whole: nat)
    requires whole > 0 && a + b <= whole
    ensures Share(a, whole) + Share(b, whole) <= 100.0
  {
    var x, y, w := 100.0 * a as real, 100.0 * b as real, whole as real;
    assert x / w + y / w == (x + y) / w;
    assert x + y <= 100.0 * w;
  }

  predicate Within(s: Span, t0: nat, t1: nat) {
    s.start.Some? && t0 <= s.start.value && s.start.value + s.total / 1000 <= t1
  }

  /** All spans are dated, the first starts at `t0` and the last ends at `t1`, in microseconds. */
  predicate Spans(ms: seq<Span>, t0: nat, t1: nat) {
    && (forall i | 0 <= i < |ms| :: Within(ms[i], t0, t1))
    && (exists i :: 0 <= i < |ms| && ms[i].start == Some(t0))
    && (exists i :: 0 <= i < |ms| && ms[i].start.Some? && ms[i].start.value + ms[i].total / 1000 == t1)
  }

  /** A percentage of a whole is that part of it a hundredfold. */
  lemma ShareOf(part: nat, whole: nat)
    requires whole > 0
    ensures Share(part, whole) * whole as real == 100.0 * part as real
  {
  }

  lemma WindowIs(ms: seq<Span>, t0: nat, t1: nat)
    requires Spans(ms, t0, t1) && t0 < t1
    ensures WindowOf(ms) == Some(Window(t0, t1 - t0))
  {
    assert forall i | 0 <= i < |ms| :: Within(ms[i], t0, t1);
    assert MinStart(ms) == t0;
    assert MaxEnd(ms) == t1;
  }

  /** On a dated trace bars are to scale: offset and width are the percentages of the trace's length
      that pass before the span starts and while it runs. */
  lemma BarsAreToScale(ms: seq<Span>, i: nat, t0: nat, t1: nat)
    requires i < |ms| && Spans(ms, t0, t1) && t0 < t1
    ensures ms[i].start.Some? && t0 <= ms[i].start.value
    ensures BarOf(ms, ms[i]) == Bar(Share(ms[i].start.value - t0, t1 - t0), Share(ms[i].total / 1000, t1 - t0))
  {
    assert Within(ms[i], t0, t1);
    WindowIs(ms, t0, t1);
  }

  lemma WindowSpans(ms: seq<Span>)
    requires WindowOf(ms).Some?
    ensures var w := WindowOf(ms).value; w.length > 0 && Spans(ms, w.t0, w.t0 + w.length)
  {
    forall i | 0 <= i < |ms|
      ensures Within(ms[i], MinStart(ms), MaxEnd(ms))
    {
      assert EndOf(ms[i]) <= MaxEnd(ms);
    }
    var j :| 0 <= j < |ms| && MaxEnd(ms) == EndOf(ms[j]);
    var k :| 0 <= k < |ms| && MinStart(ms) == ms[k].start.value;
    assert ms[k].start == Some(MinStart(ms));
  }

  /** Otherwise they are flush left and compared with the slowest span. */
  lemma UndatedBarsCompare(ms: seq<Span>, i: nat, top: nat)
    requires i < |ms| && forall t0: nat, t1: nat | t0 < t1 :: !Spans(ms, t0, t1)
    requires (exists j :: 0 <= j < |ms| && ms[j].total == top) && forall j | 0 <= j < |ms| :: ms[j].total <= top
    ensures BarOf(ms, ms[i]) == Bar(0.0, Share(ms[i].total, if top == 0 then 1 else top))
  {
    if WindowOf(ms).Some? {
      WindowSpans(ms);
    }
    assert MaxTotal(ms) == top;
  }

  /** Every bar, as computed and as drawn, lies on the axis. */
  lemma BarsStayOnTheAxis(ms: seq<Span>, i: nat)
    requires i < |ms|
    ensures var b := BarOf(ms, ms[i]); 0.0 <= b.offset && 0.0 <= b.share && b.offset + b.share <= 100.0
    ensures var b, d := BarOf(ms, ms[i]), Drawn(BarOf(ms, ms[i]));
      && 0.0 <= d.offset <= b.offset && d.offset + d.share <= 100.0
      && (b.offset <= 98.0 ==> d.offset == b.offset) && (b.offset > 98.0 ==> d.offset == 98.0)
      && (b.share >= 2.0 ==> d.share == b.share) && (b.share < 2.0 ==> d.share == 2.0)
  {
    match WindowOf(ms)
    case Some(w) =>
      var start := ms[i].start.value - w.t0;
      assert EndOf(ms[i]) <= MaxEnd(ms);
      Percent(start, w.length);
      Percent(Micros(ms[i]), w.length);
      PercentSum(start, Micros(ms[i]), w.length);
    case None => Percent(ms[i].total, Scale(ms));
  }

  lemma PercentOrder(a: nat, b: nat, whole: nat)
    requires whole > 0
    ensures Share(a, whole) <= Share(b, whole) <==> a <= b
  {
    var w := whole as real;
    if a <= b {
      assert 100.0 * a as real <= 100.0 * b as real;
    } else {
      assert 100.0 * a as real > 100.0 * b as real;
    }
  }

  /** On a dated trace the bars start in the order the spans did. */
  lemma OffsetsFollowStarts(ms: seq<Span>, i: nat, j: nat)
    requires i < |ms| && j < |ms| && WindowOf(ms).Some?
    ensures BarOf(ms, ms[i]).offset <= BarOf(ms, ms[j]).offset <==> ms[i].start.value <= ms[j].start.value
  {
    var w := WindowOf(ms).value;
    PercentOrder(ms[i].start.value - w.t0, ms[j].start.value - w.t0, w.length);
  }
}
