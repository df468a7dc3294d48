/** `curl_copy_handle()`: the copy behaves as the original does, now and under any common
    calls that follow. The two need not be equal: a write callable that is not the active write
    mode is rooted on both but registered only on the original. */
module CurlCopy {
  import opened Wrappers
  import opened CurlEasy
  import CurlTrace

  /** Equal in everything but an inactive write callable's registration. */
  ghost predicate Similar(a: Easy, b: Easy) {
    && b == a.(bridge := b.bridge)
    && b.bridge == a.bridge.(slots := b.bridge.slots)
    && b.bridge.slots == a.bridge.slots.(write := b.bridge.slots.write)
    && (a.bridge.writeUser ==> a.bridge.slots.write == b.bridge.slots.write)
  }

  lemma CopyIsSimilar(e: Easy)
    requires InStep(e)
    ensures Similar(e, CopyOf(e))
    ensures InStep(CopyOf(e))
  {
  }

  lemma SimilarHasSameEffects(a: Easy, b: Easy)
    requires Similar(a, b)
    ensures EffectsOf(a) == EffectsOf(b)
  {
  }

  lemma StepKeepsSimilar(a: Easy, b: Easy, call: Call)
    requires Similar(a, b)
    ensures Similar(Step(a, call).0, Step(b, call).0)
    ensures Step(a, call).1 == Step(b, call).1
  {
    if call.SetOpt? {
      if IsCallbackOption(call.option) {
        CallbackKeepsSimilar(a, b, call.option, call.value);
      } else if IsStreamOption(call.option) {
        StreamKeepsSimilar(a, b, call.option, call.value);
      }
    }
  }

  lemma CallbackKeepsSimilar(a: Easy, b: Easy, option: CurlOption, v: Value)
    requires Similar(a, b) && IsCallbackOption(option)
    ensures Similar(StepCallback(a, option, v).0, StepCallback(b, option, v).0)
    ensures StepCallback(a, option, v).1 == StepCallback(b, option, v).1
  {
    match option
    case WriteFunction =>
    case ReadFunction =>
    case DebugFunction =>
    case _ =>
  }

  lemma StreamKeepsSimilar(a: Easy, b: Easy, option: CurlOption, v: Value)
    requires Similar(a, b) && IsStreamOption(option)
    ensures Similar(StepStream(a, option, v).0, StepStream(b, option, v).0)
    ensures StepStream(a, option, v).1 == StepStream(b, option, v).1
  {
    match option
    case File =>
    case WriteHeader =>
    case Infile =>
    case Stderr =>
  }

  lemma {:induction false} RunKeepsSimilar(a: Easy, b: Easy, calls: seq<Call>)
    requires Similar(a, b)
    ensures Similar(Run(a, calls), Run(b, calls))
  {
    if calls != [] {
      var n := |calls| - 1;
      RunKeepsSimilar(a, b, calls[..n]);
      StepKeepsSimilar(Run(a, calls[..n]), Run(b, calls[..n]), calls[n]);
    }
  }

  /** Copy a handle at any point of its life and make the same calls on both: every sink,
      source, return shape and answer agrees, for ever. */
  lemma CopyIsBisimilar(before: seq<Call>, after: seq<Call>, next: Call)
    ensures var e := Run(FRESH, before);
      && EffectsOf(Run(CopyOf(e), after)) == EffectsOf(Run(e, after))
      && Step(Run(CopyOf(e), after), next).1 == Step(Run(e, after), next).1
  {
    var e := Run(FRESH, before);
    RunKeepsInStep(FRESH, before);
    CopyIsSimilar(e);
    RunKeepsSimilar(e, CopyOf(e), after);
    SimilarHasSameEffects(Run(e, after), Run(CopyOf(e), after));
    StepKeepsSimilar(Run(e, after), Run(CopyOf(e), after), next);
  }

  /** The copy's history is the original's: where its body goes is decided by the calls made on
      the original before the copy followed by those made on the copy. */
  lemma CopyContinuesTheTrace(before: seq<Call>, after: seq<Call>)
    ensures WriteSinkOf(Run(CopyOf(Run(FRESH, before)), after))
         == CurlTrace.WriteSpec(CurlTrace.Latest(before + after, CurlTrace.TouchesWrite))
    ensures DebugSinkOf(Run(CopyOf(Run(FRESH, before)), after))
         == CurlTrace.DebugSpec(CurlTrace.SinceReset(before + after))
  {
    CopyIsBisimilar(before, after, Reset);
    RunConcat(FRESH, before, after);
    CurlTrace.WriteIsLastSet(before + after);
    CurlTrace.DebugIsShadowed(before + after);
  }

  /** Registering the write callable on the copy whatever the mode, as the loop would without
      its guard, changes where the body goes whenever that callable is rooted but inactive. */
  lemma UnguardedCopyDiffers(e: Easy)
    requires InStep(e)
    ensures e.roots.write.Some? && !e.writeUser ==>
      WriteSinkOf(e.(bridge := SetCallback(CopyOf(e).bridge, Write, e.roots.write))) != WriteSinkOf(e)
  {
  }
}
