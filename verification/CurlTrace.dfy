/** Where a handle's data goes, read off the calls made on it and nothing else, and the proof
    that the option state machine agrees: after any run of calls, accepted or rejected. */
module CurlTrace {
  import opened Wrappers
  import opened CurlEasy

  /** Whether a call is answered with `true`: decided by the option and the value alone. */
  predicate Accepts(call: Call) {
    match call
    case Reset => true
    case SetOpt(option, v) =>
      if IsCallbackOption(option) then v.Null? || v.Callable?
      else if option.Infile? then v.Null? || v.Resource?
      else if IsStreamOption(option) then v.Null? || (v.Resource? && Writable(v.stream))
      else if option.SafeUpload? then Truthy(v)
      else true
  }

  /** A call is accepted exactly when its value is legal for its option, whatever the state; a
      rejected call changes nothing, except that a rejected `CURLOPT_DEBUGFUNCTION` still
      latches the debug flag. */
  lemma RejectionIsByValue(e: Easy, call: Call)
    ensures Step(e, call).1 == Accepted <==> Accepts(call)
    ensures !Accepts(call) && call.option != DebugFunction ==> Step(e, call).0 == e
    ensures !Accepts(call) && call.option == DebugFunction ==> Step(e, call).0 == e.(debugUser := true)
  {
  }

  /** The index `i` holds the last call of `calls` that satisfies `touches`. */
  ghost predicate IsLatest(calls: seq<Call>, touches: Call -> bool, i: int) {
    0 <= i < |calls| && touches(calls[i]) && forall j :: i < j < |calls| ==> !touches(calls[j])
  }

  /** The last call that satisfies `touches`, if there is one. */
  function Latest(calls: seq<Call>, touches: Call -> bool): (r: Option<Call>)
    ensures r.None? ==> forall j :: 0 <= j < |calls| ==> !touches(calls[j])
    ensures r.Some? ==> exists i :: IsLatest(calls, touches, i) && calls[i] == r.value
  {
    if calls == [] then None
    else
      var n := |calls| - 1;
      if touches(calls[n]) then
        assert IsLatest(calls, touches, n);
        Some(calls[n])
      else
        var r := Latest(calls[..n], touches);
        assert r.Some? ==> exists i :: IsLatest(calls, touches, i) && calls[i] == r.value by {
          if r.Some? {
            var i :| IsLatest(calls[..n], touches, i) && calls[..n][i] == r.value;
            assert IsLatest(calls, touches, i);
          }
        }
        r
  }

  // ---- the write channel: FILE, RETURNTRANSFER and WRITEFUNCTION, last accepted wins ----

  predicate TouchesWrite(call: Call) {
    call.Reset? || (Accepts(call) && (call.option.File? || call.option.ReturnTransfer? || call.option.WriteFunction?))
  }

  function WriteSpec(latest: Option<Call>): WriteSink {
    match latest
    case Some(SetOpt(WriteFunction, Callable(fn))) => BodyCallback(fn)
    case Some(SetOpt(File, Resource(s))) => BodyStream(s)
    case Some(SetOpt(ReturnTransfer, v)) => if Truthy(v) then Capture else Stdout
    case _ => Stdout
  }

  lemma StepWriteOption(e: Easy, call: Call)
    requires call.SetOpt? && (call.option.File? || call.option.ReturnTransfer? || call.option.WriteFunction?)
    ensures WriteSinkOf(Step(e, call).0) == if TouchesWrite(call) then WriteSpec(Some(call)) else WriteSinkOf(e)
  {
    match call.option
    case ReturnTransfer => case WriteFunction => case File =>
  }

  lemma StepOtherCallback(e: Easy, call: Call)
    requires call.SetOpt?
    requires call.option.HeaderFunction? || call.option.ReadFunction?
    ensures WriteSinkOf(Step(e, call).0) == WriteSinkOf(e)
  {
    match call.option
    case HeaderFunction => case ReadFunction =>
  }

  lemma StepReportCallback(e: Easy, call: Call)
    requires call.SetOpt?
      && (call.option.ProgressFunction? || call.option.DebugFunction? || call.option.XferInfoFunction?)
    ensures WriteSinkOf(Step(e, call).0) == WriteSinkOf(e)
    ensures HeaderSinkOf(Step(e, call).0) == HeaderSinkOf(e)
  {
    match call.option
    case ProgressFunction => case DebugFunction => case XferInfoFunction =>
  }

  lemma StepOtherThanWrite(e: Easy, call: Call)
    requires call.SetOpt? && !call.option.File? && !call.option.ReturnTransfer? && !call.option.WriteFunction?
    ensures WriteSinkOf(Step(e, call).0) == WriteSinkOf(e)
  {
    match call.option
    case Private => case SafeUpload => case BinaryTransfer => case WriteHeader => case Infile => case Stderr =>
    case HeaderFunction => StepOtherCallback(e, call);
    case ReadFunction => StepOtherCallback(e, call);
    case _ => StepReportCallback(e, call);
  }

  lemma StepWrite(e: Easy, call: Call)
    ensures WriteSinkOf(Step(e, call).0) == if TouchesWrite(call) then WriteSpec(Some(call)) else WriteSinkOf(e)
  {
    if call.SetOpt? {
      if call.option.File? || call.option.ReturnTransfer? || call.option.WriteFunction? {
        StepWriteOption(e, call);
      } else {
        StepOtherThanWrite(e, call);
      }
    }
  }

  lemma {:induction false} WriteIsLastSet(calls: seq<Call>)
    ensures WriteSinkOf(Run(FRESH, calls)) == WriteSpec(Latest(calls, TouchesWrite))
  {
    if calls != [] {
      var n := |calls| - 1;
      WriteIsLastSet(calls[..n]);
      StepWrite(Run(FRESH, calls[..n]), calls[n]);
    }
  }

  /** `curl_exec()` answers the body exactly when the write channel captures it. */
  lemma BodyIsReturnedExactlyWhenCaptured(calls: seq<Call>)
    ensures Run(FRESH, calls).returnTransfer <==> WriteSpec(Latest(calls, TouchesWrite)) == Capture
  {
    WriteIsLastSet(calls);
    RunKeepsInStep(FRESH, calls);
  }

  // ---- what the options read off their values ----

  /** A call that leaves the write channel alone. */
  predicate KeepsWrite(call: Call) {
    call.SetOpt? && !call.option.File? && !call.option.ReturnTransfer? && !call.option.WriteFunction?
  }

  lemma {:induction false} LastWriteStays(before: seq<Call>, call: Call, after: seq<Call>)
    requires Accepts(call) && (call.Reset? || !KeepsWrite(call)) && forall i | 0 <= i < |after| :: KeepsWrite(after[i])
    ensures WriteSinkOf(Run(FRESH, before + [call] + after)) == WriteSpec(Some(call))
    decreases |after|
  {
    var n := |after|;
    var calls := before + [call] + after;
    if n == 0 {
      assert calls[..|calls| - 1] == before && calls[|calls| - 1] == call;
      StepWrite(Run(FRESH, before), call);
    } else {
      assert calls[..|calls| - 1] == before + [call] + after[..n - 1] && calls[|calls| - 1] == after[n - 1];
      LastWriteStays(before, call, after[..n - 1]);
      StepOtherThanWrite(Run(FRESH, before + [call] + after[..n - 1]), after[n - 1]);
    }
  }

  lemma FalsyValues(v: Value)
    ensures Truthy(v) <==> v !in {Null, Bool(false), Int(0), Float(0.0), Text(""), Text("0"), Array(0)}
  {
  }

  /** The body is returned for every value but PHP's falsy ones: null, false, zero, the empty string,
      "0" and the empty array. */
  lemma ReturnTransferDecides(before: seq<Call>, v: Value, after: seq<Call>)
    requires forall i | 0 <= i < |after| :: KeepsWrite(after[i])
    ensures WriteSinkOf(Run(FRESH, before + [SetOpt(ReturnTransfer, v)] + after)) ==
      if v in {Null, Bool(false), Int(0), Float(0.0), Text(""), Text("0"), Array(0)} then Stdout else Capture
  {
    LastWriteStays(before, SetOpt(ReturnTransfer, v), after);
    FalsyValues(v);
    assert WriteSpec(Some(SetOpt(ReturnTransfer, v))) == if Truthy(v) then Capture else Stdout;
  }

  /** Safe uploads cannot be switched off, in any of those spellings. */
  lemma SafeUploadDecides(e: Easy, v: Value)
    ensures Step(e, SetOpt(SafeUpload, v)).1 ==
      if v in {Null, Bool(false), Int(0), Float(0.0), Text(""), Text("0"), Array(0)} then ValueError else Accepted
  {
  }

  /** A stream is refused for writing exactly when its mode starts with `r` and has no `+`; reading
      from it is always allowed. */
  lemma StreamModeDecides(e: Easy, option: CurlOption, s: Stream)
    requires option.File? || option.WriteHeader? || option.Stderr? || option.Infile?
    ensures Step(e, SetOpt(option, Resource(s))).1 ==
      if !option.Infile? && "r" <= s.mode && (forall i | 0 <= i < |s.mode| :: s.mode[i] != '+') then ValueError
      else Accepted
  {
  }

  // ---- the header channel: WRITEHEADER and HEADERFUNCTION, last accepted wins ----

  predicate TouchesHeader(call: Call) {
    call.Reset? || (Accepts(call) && (call.option.WriteHeader? || call.option.HeaderFunction?))
  }

  function HeaderSpec(latest: Option<Call>): HeaderSink {
    match latest
    case Some(SetOpt(HeaderFunction, Callable(fn))) => HeaderCallback(fn)
    case Some(SetOpt(WriteHeader, Resource(s))) => HeaderStream(s)
    case _ => Discard
  }

  lemma StepHeaderOption(e: Easy, call: Call)
    requires call.SetOpt? && (call.option.WriteHeader? || call.option.HeaderFunction?)
    ensures HeaderSinkOf(Step(e, call).0) == if TouchesHeader(call) then HeaderSpec(Some(call)) else HeaderSinkOf(e)
  {
    match call.option
    case HeaderFunction => case WriteHeader =>
  }

  lemma StepCallbackOtherThanHeader(e: Easy, call: Call)
    requires call.SetOpt?
    requires call.option.WriteFunction? || call.option.ReadFunction?
    ensures HeaderSinkOf(Step(e, call).0) == HeaderSinkOf(e)
  {
    match call.option
    case WriteFunction => case ReadFunction =>
  }

  lemma StepOtherThanHeader(e: Easy, call: Call)
    requires call.SetOpt? && !call.option.WriteHeader? && !call.option.HeaderFunction?
    ensures HeaderSinkOf(Step(e, call).0) == HeaderSinkOf(e)
  {
    match call.option
    case ReturnTransfer => case Private => case SafeUpload => case BinaryTransfer => case File => case Infile =>
      case Stderr =>
    case WriteFunction => StepCallbackOtherThanHeader(e, call);
    case ReadFunction => StepCallbackOtherThanHeader(e, call);
    case _ => StepReportCallback(e, call);
  }

  lemma StepHeader(e: Easy, call: Call)
    ensures HeaderSinkOf(Step(e, call).0) == if TouchesHeader(call) then HeaderSpec(Some(call)) else HeaderSinkOf(e)
  {
    if call.SetOpt? {
      if call.option.WriteHeader? || call.option.HeaderFunction? {
        StepHeaderOption(e, call);
      } else {
        StepOtherThanHeader(e, call);
      }
    }
  }

  lemma {:induction false} HeaderIsLastSet(calls: seq<Call>)
    ensures HeaderSinkOf(Run(FRESH, calls)) == HeaderSpec(Latest(calls, TouchesHeader))
  {
    if calls != [] {
      var n := |calls| - 1;
      HeaderIsLastSet(calls[..n]);
      StepHeader(Run(FRESH, calls[..n]), calls[n]);
    }
  }

  // ---- the read channel: READFUNCTION outranks INFILE in either order ----

  predicate TouchesReadFunction(call: Call) {
    call.Reset? || (Accepts(call) && call.option.ReadFunction?)
  }

  predicate TouchesInfile(call: Call) {
    call.Reset? || (Accepts(call) && call.option.Infile?)
  }

  function FunctionSet(latest: Option<Call>): Option<nat> {
    if latest.Some? && latest.value.SetOpt? && latest.value.value.Callable? then Some(latest.value.value.fn) else None
  }

  function StreamSet(latest: Option<Call>): Option<Stream> {
    if latest.Some? && latest.value.SetOpt? then StreamOf(latest.value.value) else None
  }

  function ReadSpec(fn: Option<nat>, infile: Option<Stream>): ReadSource {
    if fn.Some? then ReadCallback(fn.value, infile)
    else if infile.Some? then ReadStream(infile.value)
    else EndOfData
  }

  lemma StepReadFunction(e: Easy, call: Call)
    ensures Step(e, call).0.readUser == if TouchesReadFunction(call) then FunctionSet(Some(call)) else e.readUser
  {
  }

  lemma StepInfile(e: Easy, call: Call)
    ensures Step(e, call).0.infile == if TouchesInfile(call) then StreamSet(Some(call)) else e.infile
  {
  }

  lemma {:induction false} ReadFieldsAreLastSet(calls: seq<Call>)
    ensures Run(FRESH, calls).readUser == FunctionSet(Latest(calls, TouchesReadFunction))
    ensures Run(FRESH, calls).infile == StreamSet(Latest(calls, TouchesInfile))
  {
    if calls != [] {
      var n := |calls| - 1;
      ReadFieldsAreLastSet(calls[..n]);
      StepReadFunction(Run(FRESH, calls[..n]), calls[n]);
      StepInfile(Run(FRESH, calls[..n]), calls[n]);
    }
  }

  /** The callback outranks the stream whichever was set last, and clearing the callback falls
      back to the stream. */
  lemma ReadIsFixedPrecedence(calls: seq<Call>)
    ensures ReadSourceOf(Run(FRESH, calls))
         == ReadSpec(FunctionSet(Latest(calls, TouchesReadFunction)), StreamSet(Latest(calls, TouchesInfile)))
  {
    ReadFieldsAreLastSet(calls);
    RunKeepsInStep(FRESH, calls);
  }

  // ---- the progress channel: XFERINFOFUNCTION outranks PROGRESSFUNCTION ----

  predicate TouchesProgress(call: Call) {
    call.Reset? || (Accepts(call) && call.option.ProgressFunction?)
  }

  predicate TouchesXferInfo(call: Call) {
    call.Reset? || (Accepts(call) && call.option.XferInfoFunction?)
  }

  function ProgressSpec(xfer: Option<nat>, progress: Option<nat>): Progress {
    if xfer.Some? then ProgressCallback(xfer.value)
    else if progress.Some? then ProgressCallback(progress.value)
    else NoProgress
  }

  function UserBody(fn: Option<nat>): Option<ClosureBody> {
    if fn.Some? then Some(UserFn(fn.value)) else None
  }

  lemma StepProgress(e: Easy, call: Call)
    ensures Step(e, call).0.bridge.slots.progress
         == if TouchesProgress(call) then UserBody(FunctionSet(Some(call))) else e.bridge.slots.progress
    ensures Step(e, call).0.bridge.slots.xferInfo
         == if TouchesXferInfo(call) then UserBody(FunctionSet(Some(call))) else e.bridge.slots.xferInfo
  {
    if call.SetOpt? {
      match call.option
      case ReturnTransfer => case Private => case SafeUpload => case BinaryTransfer =>
      case WriteFunction => case HeaderFunction => case ReadFunction =>
      case ProgressFunction => case DebugFunction => case XferInfoFunction =>
      case File => case WriteHeader => case Infile => case Stderr =>
    }
  }

  lemma {:induction false} ProgressSlotsAreLastSet(calls: seq<Call>)
    ensures Run(FRESH, calls).bridge.slots.progress == UserBody(FunctionSet(Latest(calls, TouchesProgress)))
    ensures Run(FRESH, calls).bridge.slots.xferInfo == UserBody(FunctionSet(Latest(calls, TouchesXferInfo)))
  {
    if calls != [] {
      var n := |calls| - 1;
      ProgressSlotsAreLastSet(calls[..n]);
      StepProgress(Run(FRESH, calls[..n]), calls[n]);
    }
  }

  lemma ProgressIsFixedPrecedence(calls: seq<Call>)
    ensures ProgressOf(Run(FRESH, calls))
         == ProgressSpec(FunctionSet(Latest(calls, TouchesXferInfo)), FunctionSet(Latest(calls, TouchesProgress)))
  {
    ProgressSlotsAreLastSet(calls);
  }

  // ---- the debug channel: a callback shadows STDERR for the handle's life ----

  predicate TouchesDebugFunction(call: Call) {
    call.Reset? || (Accepts(call) && call.option.DebugFunction?)
  }

  predicate TouchesStderr(call: Call) {
    call.Reset? || (Accepts(call) && call.option.Stderr?)
  }

  predicate RejectedDebugFunction(call: Call) {
    call.SetOpt? && call.option.DebugFunction? && !Accepts(call)
  }

  /** The calls made since the last `curl_reset()`. */
  function SinceReset(calls: seq<Call>): seq<Call> {
    if calls == [] then []
    else
      var n := |calls| - 1;
      if calls[n].Reset? then [] else SinceReset(calls[..n]) + [calls[n]]
  }

  /** The calls before the first rejected `CURLOPT_DEBUGFUNCTION`: those that still reach the
      debug slot through `CURLOPT_STDERR`. */
  function BeforeRejection(calls: seq<Call>): seq<Call> {
    if calls == [] then []
    else
      var n := |calls| - 1;
      var before := BeforeRejection(calls[..n]);
      if |before| < n || RejectedDebugFunction(calls[n]) then before else calls
  }

  function StderrStream(calls: seq<Call>): Option<Stream> {
    StreamSet(Latest(calls, TouchesStderr))
  }

  /** Whether `CURLOPT_DEBUGFUNCTION` was touched at all, with a legal value or not. */
  predicate Touched(calls: seq<Call>) {
    exists i :: 0 <= i < |calls| && calls[i].SetOpt? && calls[i].option.DebugFunction?
  }

  /** Where verbose output goes after the calls made since the last reset. An accepted callback
      decides; otherwise a `CURLOPT_STDERR` stream set before the first rejected callback keeps
      the slot, and follows whatever stream was set last. */
  function DebugSpec(calls: seq<Call>): DebugSink {
    match Latest(calls, TouchesDebugFunction)
    case Some(SetOpt(_, Callable(fn))) => DebugCallback(fn)
    case Some(_) => Silent
    case None =>
      if StderrStream(BeforeRejection(calls)).None? then ProcessStderr
      else if StderrStream(calls).Some? then DebugStream(StderrStream(calls).value)
      else Silent
  }

  /** What the debug channel needs to know about a run of calls without a reset: the current
      stream, whether the slot was armed by a stream when it froze, whether it is frozen by a
      rejected callback, whether the option was touched, and the last accepted callback. */
  datatype DebugHistory = DebugHistory(
    current: Option<Stream>, armed: bool, frozen: bool, touched: bool, latest: Option<Call>)

  ghost function HistoryOf(calls: seq<Call>): DebugHistory {
    DebugHistory(StderrStream(calls), StderrStream(BeforeRejection(calls)).Some?,
                 |BeforeRejection(calls)| < |calls|, Touched(calls), Latest(calls, TouchesDebugFunction))
  }

  ghost function Extend(h: DebugHistory, call: Call): DebugHistory {
    var current := if TouchesStderr(call) then StreamSet(Some(call)) else h.current;
    var frozen := h.frozen || RejectedDebugFunction(call);
    DebugHistory(current, if frozen then h.armed else current.Some?, frozen,
                 h.touched || (call.SetOpt? && call.option.DebugFunction?),
                 if TouchesDebugFunction(call) then Some(call) else h.latest)
  }

  lemma HistorySnoc(calls: seq<Call>, call: Call)
    ensures HistoryOf(calls + [call]) == Extend(HistoryOf(calls), call)
  {
    TouchedSnoc(calls, call);
    LatestSnoc(calls, TouchesStderr, call);
    LatestSnoc(calls, TouchesDebugFunction, call);
    BeforeRejectionSnoc(calls, call);
    BeforeRejectionIsPrefix(calls);
  }

  /** The debug fields of the handle, as the history determines them. */
  ghost predicate DebugFields(e: Easy, h: DebugHistory) {
    && e.stderr == h.current
    && e.debugUser == h.touched
    && (h.latest.None? && h.touched ==> h.frozen)
    && (h.frozen || h.latest.Some? ==> h.touched)
    && (!h.frozen ==> h.armed == h.current.Some?)
    && e.bridge.slots.debug ==
         match h.latest {
           case Some(SetOpt(_, Callable(fn))) => Some(UserFn(fn))
           case Some(_) => Some(SilentDebug)
           case None => if h.armed then Some(StderrWriter) else None
         }
  }

  lemma StepDebugFields(e: Easy, h: DebugHistory, call: Call)
    requires DebugFields(e, h) && call.SetOpt?
    ensures DebugFields(Step(e, call).0, Extend(h, call))
  {
    if call.option.DebugFunction? {
    } else if call.option.Stderr? {
    } else {
      StepElsewhere(e, call);
    }
  }

  /** A call to neither debug option leaves the debug fields alone. */
  lemma StepElsewhere(e: Easy, call: Call)
    requires call.SetOpt? && !call.option.DebugFunction? && !call.option.Stderr?
    ensures var next := Step(e, call).0;
      next.stderr == e.stderr && next.debugUser == e.debugUser
      && next.bridge.slots.debug == e.bridge.slots.debug
  {
    match call.option
    case ReturnTransfer => case Private => case SafeUpload => case BinaryTransfer =>
    case WriteFunction => case HeaderFunction => case ReadFunction =>
    case ProgressFunction => case DebugFunction => case XferInfoFunction =>
    case File => case WriteHeader => case Infile => case Stderr =>
  }

  lemma BeforeRejectionSnoc(calls: seq<Call>, call: Call)
    ensures BeforeRejection(calls + [call]) ==
      if |BeforeRejection(calls)| < |calls| || RejectedDebugFunction(call) then BeforeRejection(calls)
        else calls + [call]
  {
    assert (calls + [call])[..|calls + [call]| - 1] == calls;
  }

  lemma LatestSnoc(calls: seq<Call>, touches: Call -> bool, call: Call)
    ensures Latest(calls + [call], touches) == if touches(call) then Some(call) else Latest(calls, touches)
  {
    assert (calls + [call])[..|calls + [call]| - 1] == calls;
  }

  lemma {:induction false} BeforeRejectionIsPrefix(calls: seq<Call>)
    ensures |BeforeRejection(calls)| <= |calls| && BeforeRejection(calls) == calls[..|BeforeRejection(calls)|]
  {
    if calls != [] {
      BeforeRejectionIsPrefix(calls[..|calls| - 1]);
    }
  }

  lemma TouchedSnoc(calls: seq<Call>, call: Call)
    ensures Touched(calls + [call]) <==> Touched(calls) || (call.SetOpt? && call.option.DebugFunction?)
  {
    var all := calls + [call];
    assert all[|calls|] == call;
    if Touched(calls) {
      var i :| 0 <= i < |calls| && calls[i].SetOpt? && calls[i].option.DebugFunction?;
      assert all[i] == calls[i];
    }
  }

  lemma {:induction false} SinceResetHoldsNoReset(calls: seq<Call>)
    ensures forall c | c in SinceReset(calls) :: c.SetOpt?
  {
    if calls != [] {
      SinceResetHoldsNoReset(calls[..|calls| - 1]);
    }
  }

  lemma {:induction false} DebugFieldsAfterRun(calls: seq<Call>)
    ensures DebugFields(Run(FRESH, calls), HistoryOf(SinceReset(calls)))
  {
    if calls != [] {
      var n := |calls| - 1;
      DebugFieldsAfterRun(calls[..n]);
      if calls[n].SetOpt? {
        StepDebugFields(Run(FRESH, calls[..n]), HistoryOf(SinceReset(calls[..n])), calls[n]);
        HistorySnoc(SinceReset(calls[..n]), calls[n]);
      }
    }
  }

  lemma DebugIsShadowed(calls: seq<Call>)
    ensures DebugSinkOf(Run(FRESH, calls)) == DebugSpec(SinceReset(calls))
  {
    DebugFieldsAfterRun(calls);
    var cs := SinceReset(calls);
    SinceResetHoldsNoReset(calls);
  }

  // ---- the documented shadow rule, and exactly when it fails ----

  /** The rule the prelude documents: once `CURLOPT_DEBUGFUNCTION` is touched at all,
      `CURLOPT_STDERR` is shadowed until the next reset. */
  ghost predicate ShadowRule(calls: seq<Call>) {
    Touched(SinceReset(calls)) ==> !DebugSinkOf(Run(FRESH, calls)).DebugStream?
  }

  /** The rule holds exactly unless every touch was rejected, a stream was already set at the
      first of them, and a stream is set now. */
  lemma ShadowRuleHoldsExactly(calls: seq<Call>)
    ensures ShadowRule(calls) <==>
            var cs := SinceReset(calls);
            !(&& Touched(cs)
              && Latest(cs, TouchesDebugFunction).None?
              && StderrStream(BeforeRejection(cs)).Some?
              && StderrStream(cs).Some?)
  {
    DebugIsShadowed(calls);
  }

  /** A run of accepted calls obeys the rule. */
  lemma AcceptedCallsObeyShadowRule(calls: seq<Call>)
    requires forall c | c in calls :: Accepts(c)
    ensures ShadowRule(calls)
    ensures DebugSinkOf(Run(FRESH, calls)).DebugStream? <==>
            !Touched(SinceReset(calls)) && StderrStream(SinceReset(calls)).Some?
  {
    SinceResetIsPart(calls);
    NothingRejectedNothingFrozen(SinceReset(calls));
    DebugFieldsAfterRun(calls);
  }

  lemma {:induction false} NothingRejectedNothingFrozen(calls: seq<Call>)
    requires forall c | c in calls :: Accepts(c)
    ensures BeforeRejection(calls) == calls
  {
    if calls != [] {
      NothingRejectedNothingFrozen(calls[..|calls| - 1]);
    }
  }

  lemma {:induction false} SinceResetIsPart(calls: seq<Call>)
    ensures forall c | c in SinceReset(calls) :: c in calls
  {
    if calls != [] {
      SinceResetIsPart(calls[..|calls| - 1]);
    }
  }

  /** The failing family is not empty: a rejected callback after a stream leaves it live. */
  lemma RejectedCallbackLeavesStderrLive(s: Stream)
    requires Writable(s)
    ensures !ShadowRule([SetOpt(Stderr, Resource(s)), SetOpt(DebugFunction, Bool(true))])
  {
    var first := [SetOpt(Stderr, Resource(s))];
    var calls := first + [SetOpt(DebugFunction, Bool(true))];
    assert calls == [SetOpt(Stderr, Resource(s)), SetOpt(DebugFunction, Bool(true))];
    assert calls[..1] == first && first[..0] == [];
    assert Run(FRESH, first) == Step(FRESH, first[0]).0;
    assert Run(FRESH, calls) == Step(Run(FRESH, first), calls[1]).0;
    assert SinceReset(first) == first;
    assert SinceReset(calls) == calls;
    assert calls[1].option.DebugFunction?;
  }

  // ---- reset ----

  /** A reset handle behaves as a fresh one under everything that follows. */
  lemma ResetForgets(before: seq<Call>, after: seq<Call>)
    ensures Run(FRESH, before + [Reset] + after) == Run(FRESH, after)
  {
    var reset := before + [Reset];
    assert reset[..|reset| - 1] == before;
    RunConcat(FRESH, reset, after);
  }

  predicate TouchesPrivate(call: Call) {
    call.Reset? || call.option.Private?
  }

  function PrivateSpec(latest: Option<Call>): Value {
    if latest.Some? && latest.value.SetOpt? then latest.value.value else Bool(false)
  }

  lemma StepPrivate(e: Easy, call: Call)
    ensures Step(e, call).0.priv == if TouchesPrivate(call) then PrivateSpec(Some(call)) else e.priv
  {
  }

  /** `CURLINFO_PRIVATE` reads back the last value stored, `false` on a fresh or reset handle. */
  lemma {:induction false} PrivateIsLastSet(calls: seq<Call>)
    ensures Run(FRESH, calls).priv == PrivateSpec(Latest(calls, TouchesPrivate))
  {
    if calls != [] {
      var n := |calls| - 1;
      PrivateIsLastSet(calls[..n]);
      StepPrivate(Run(FRESH, calls[..n]), calls[n]);
    }
  }
}
