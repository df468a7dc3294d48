/** The option state of one curl easy handle, on values: the object-side mirrors, the
    callables rooted on the object, and the bridge entry they must stay in step with.

    `Step` is what one `curl_setopt()` or `curl_reset()` call does to that state; the
    `...Of` functions say where the next transfer's data goes. */
module CurlEasy {
  import opened Wrappers

  /** An open PHP stream, with the mode `stream_get_meta_data()` reports for it. */
  datatype Stream = Stream(id: nat, mode: string)

  /** The value argument of `curl_setopt()`, as far as these options look at it. */
  datatype Value =
    | Null
    | Resource(stream: Stream)
    | Callable(fn: nat)
    | Bool(on: bool)
    | Int(n: int)
    | Float(x: real)
    | Text(text: string)
    | Array(size: nat)
    | Object

  /** The options this state machine services. Their numbers, in order: 19913, 10103, -1,
      19914; 20011, 20079, 20012, 20056, 20094, 20219; 10001, 10029, 10009, 10037. */
  datatype CurlOption =
    | ReturnTransfer | Private | SafeUpload | BinaryTransfer
    | WriteFunction | HeaderFunction | ReadFunction
    | ProgressFunction | DebugFunction | XferInfoFunction
    | File | WriteHeader | Infile | Stderr

  datatype Call = SetOpt(option: CurlOption, value: Value) | Reset

  datatype Outcome = Accepted | TypeError | ValueError

  /** What a callable does when it is called: a user function, or one of the prelude's own
      capture-free closures, each of which reads what it needs off the handle it is given. */
  datatype ClosureBody =
    | UserFn(fn: nat)
    | FileWriter | HeaderWriter | ReadDispatcher | StderrWriter | SilentDebug

  /** The six callback slots, in the bridge's index order. */
  datatype Slot = Write | Header | Read | Progress | Debug | XferInfo

  /** One value per callback slot. */
  datatype Slots = Slots(
    write: Option<ClosureBody>, header: Option<ClosureBody>, read: Option<ClosureBody>,
    progress: Option<ClosureBody>, debug: Option<ClosureBody>, xferInfo: Option<ClosureBody>)
  {
    function Fill(slot: Slot, body: Option<ClosureBody>): Slots {
      match slot
      case Write => this.(write := body)
      case Header => this.(header := body)
      case Read => this.(read := body)
      case Progress => this.(progress := body)
      case Debug => this.(debug := body)
      case XferInfo => this.(xferInfo := body)
    }
  }

  const EMPTY_SLOTS := Slots(None, None, None, None, None, None)

  /** The bridge's entry for one handle. */
  datatype Bridge = Bridge(slots: Slots, writeUser: bool, returnTransfer: bool)

  /** One easy handle: its bridge entry and the fields of its `CurlHandle` object. */
  datatype Easy = Easy(
    bridge: Bridge,
    roots: Slots,
    returnTransfer: bool,
    writeUser: bool,
    debugUser: bool,
    file: Option<Stream>,
    writeHeader: Option<Stream>,
    infile: Option<Stream>,
    stderr: Option<Stream>,
    readUser: Option<nat>,
    priv: Value)

  const FRESH: Easy :=
    Easy(Bridge(EMPTY_SLOTS, false, false), EMPTY_SLOTS, false, false, false,
         None, None, None, None, None, Bool(false))

  // ---- the bridge's three entry points ----

  /** `elephc_curl_easy_set_callback`: fills or empties one slot; the write slot also drives
      the single write mode. */
  function SetCallback(b: Bridge, slot: Slot, body: Option<ClosureBody>): Bridge
  {
    var filled := b.(slots := b.slots.Fill(slot, body));
    if slot.Write? then filled.(writeUser := body.Some?, returnTransfer := false) else filled
  }

  /** `CURLOPT_RETURNTRANSFER` forwarded to the bridge. */
  function SetReturnTransfer(b: Bridge, on: bool): Bridge {
    b.(returnTransfer := on, writeUser := false)
  }

  // ---- curl_setopt ----

  /** `(bool) $value`. */
  function Truthy(v: Value): bool {
    match v
    case Null => false
    case Bool(on) => on
    case Int(n) => n != 0
    case Float(x) => x != 0.0
    case Text(text) => text != "" && text != "0"
    case Array(size) => size > 0
    case _ => true
  }

  /** The mode test of `__elephc_curl_check_stream_option`. */
  predicate Writable(s: Stream) {
    !(s.mode != "" && '+' !in s.mode && s.mode[0] == 'r')
  }

  function StreamOf(v: Value): Option<Stream> {
    if v.Resource? then Some(v.stream) else None
  }

  /** What validating the value of a stream option answers. */
  function StreamCheck(v: Value, mustBeWritable: bool): Outcome {
    if v.Null? then Accepted
    else if !v.Resource? then TypeError
    else if mustBeWritable && !Writable(v.stream) then ValueError
    else Accepted
  }

  /** Installs one of the prelude's own closures in a slot, or clears it. */
  function InstallInternal(e: Easy, slot: Slot, body: Option<ClosureBody>): Easy
  {
    e.(roots := e.roots.Fill(slot, body), bridge := SetCallback(e.bridge, slot, body))
  }

  /** Re-derives the read slot from the user's callable and the `CURLOPT_INFILE` stream. */
  function SyncReadSlot(e: Easy): Easy {
    InstallInternal(e, Read, if e.readUser.None? && e.infile.None? then None else Some(ReadDispatcher))
  }

  function SlotOf(option: CurlOption): Slot
  {
    match option
    case WriteFunction => Write
    case HeaderFunction => Header
    case ReadFunction => Read
    case ProgressFunction => Progress
    case DebugFunction => Debug
    case _ => XferInfo
  }

  predicate IsCallbackOption(option: CurlOption) {
    option.WriteFunction? || option.HeaderFunction? || option.ReadFunction?
    || option.ProgressFunction? || option.DebugFunction? || option.XferInfoFunction?
  }

  predicate IsStreamOption(option: CurlOption) {
    option.File? || option.WriteHeader? || option.Infile? || option.Stderr?
  }

  /** The callback options. Touching `CURLOPT_DEBUGFUNCTION` latches `debugUser` before the
      value is looked at. */
  function StepCallback(e0: Easy, option: CurlOption, v: Value): (Easy, Outcome)
    requires IsCallbackOption(option)
  {
    var slot := SlotOf(option);
    var e := if slot.Debug? then e0.(debugUser := true) else e0;
    if v.Null? then
      if slot.Read? then
        (SyncReadSlot(e.(readUser := None)), Accepted)
      else if slot.Debug? then
        (InstallInternal(e, Debug, Some(SilentDebug)), Accepted)
      else
        var cleared := InstallInternal(e, slot, None);
        (if slot.Write? then cleared.(returnTransfer := false, writeUser := false) else cleared, Accepted)
    else if !v.Callable? then
      (e, TypeError)
    else if slot.Read? then
      (SyncReadSlot(e.(readUser := Some(v.fn))), Accepted)
    else
      var installed := InstallInternal(e, slot, Some(UserFn(v.fn)));
      (if slot.Write? then installed.(returnTransfer := false, writeUser := true) else installed, Accepted)
  }

  /** The four stream options. */
  function StepStream(e: Easy, option: CurlOption, v: Value): (Easy, Outcome)
    requires IsStreamOption(option)
  {
    var check := StreamCheck(v, !option.Infile?);
    if !check.Accepted? then (e, check)
    else
      var s := StreamOf(v);
      match option
      case File =>
        (InstallInternal(e.(file := s, returnTransfer := false, writeUser := s.Some?), Write,
                         if s.Some? then Some(FileWriter) else None), Accepted)
      case WriteHeader =>
        (InstallInternal(e.(writeHeader := s), Header, if s.Some? then Some(HeaderWriter) else None), Accepted)
      case Infile =>
        (SyncReadSlot(e.(infile := s)), Accepted)
      case Stderr =>
        if e.debugUser then (e.(stderr := s), Accepted)
        else (InstallInternal(e.(stderr := s), Debug, if s.Some? then Some(StderrWriter) else None), Accepted)
  }

  /** The options handled by the PHP layer alone. */
  function StepPhpLayer(e: Easy, option: CurlOption, v: Value): (Easy, Outcome)
    requires !IsCallbackOption(option) && !IsStreamOption(option)
  {
    match option
    case ReturnTransfer =>
      (e.(returnTransfer := Truthy(v), writeUser := false, bridge := SetReturnTransfer(e.bridge, Truthy(v))), Accepted)
    case Private => (e.(priv := v), Accepted)
    case SafeUpload => (e, if Truthy(v) then Accepted else ValueError)
    case BinaryTransfer => (e, Accepted)
  }

  function StepSetOpt(e: Easy, option: CurlOption, v: Value): (Easy, Outcome) {
    if IsCallbackOption(option) then StepCallback(e, option, v)
    else if IsStreamOption(option) then StepStream(e, option, v)
    else StepPhpLayer(e, option, v)
  }

  /** One call on the handle, and what it answers. */
  function Step(e: Easy, call: Call): (Easy, Outcome) {
    match call
    case SetOpt(option, v) => StepSetOpt(e, option, v)
    case Reset => (FRESH, Accepted)
  }

  /** The state after a run of calls, starting from `e`. */
  function Run(e: Easy, calls: seq<Call>): Easy {
    if calls == [] then e else Step(Run(e, calls[..|calls| - 1]), calls[|calls| - 1]).0
  }

  // ---- curl_copy_handle ----

  /** The duplicate: every mirror, stream and root is carried over, the bridge keeps only the
      capture flag, and each rooted callable is registered again -- except a write callable
      that is not the active write mode, which stays rooted but unregistered. */
  function CopyOf(e: Easy): Easy {
    var registered := e.roots.(write := if e.writeUser then e.roots.write else None);
    var writes := e.writeUser && e.roots.write.Some?;
    e.(bridge := Bridge(registered, writes, e.bridge.returnTransfer && !writes))
  }

  // ---- where a transfer's data goes ----

  datatype WriteSink = Stdout | Capture | BodyCallback(fn: nat) | BodyStream(stream: Stream) | BrokenWrite
  datatype HeaderSink = Discard | HeaderCallback(fn: nat) | HeaderStream(stream: Stream) | BrokenHeader
  datatype ReadSource = EndOfData | ReadCallback(fn: nat, fd: Option<Stream>) | ReadStream(stream: Stream) | BrokenRead
  datatype DebugSink = ProcessStderr | DebugCallback(fn: nat) | DebugStream(stream: Stream) | Silent | BrokenDebug
  datatype Progress = NoProgress | ProgressCallback(fn: nat) | BrokenProgress

  function WriteSinkOf(e: Easy): WriteSink {
    if e.bridge.writeUser then
      match e.bridge.slots.write
      case Some(UserFn(fn)) => BodyCallback(fn)
      case Some(FileWriter) => if e.file.Some? then BodyStream(e.file.value) else BrokenWrite
      case _ => BrokenWrite
    else if e.bridge.returnTransfer then Capture
    else Stdout
  }

  function HeaderSinkOf(e: Easy): HeaderSink {
    match e.bridge.slots.header
    case None => Discard
    case Some(UserFn(fn)) => HeaderCallback(fn)
    case Some(HeaderWriter) => if e.writeHeader.Some? then HeaderStream(e.writeHeader.value) else BrokenHeader
    case _ => BrokenHeader
  }

  function ReadSourceOf(e: Easy): ReadSource {
    match e.bridge.slots.read
    case None => EndOfData
    case Some(ReadDispatcher) =>
      if e.readUser.Some? then ReadCallback(e.readUser.value, e.infile)
      else if e.infile.Some? then ReadStream(e.infile.value)
      else EndOfData
    case _ => BrokenRead
  }

  function DebugSinkOf(e: Easy): DebugSink {
    match e.bridge.slots.debug
    case None => ProcessStderr
    case Some(UserFn(fn)) => DebugCallback(fn)
    case Some(StderrWriter) => if e.stderr.Some? then DebugStream(e.stderr.value) else Silent
    case Some(SilentDebug) => Silent
    case _ => BrokenDebug
  }

  function ProgressOf(e: Easy): Progress {
    var chosen := if e.bridge.slots.xferInfo.Some? then e.bridge.slots.xferInfo else e.bridge.slots.progress;
    match chosen
    case None => NoProgress
    case Some(UserFn(fn)) => ProgressCallback(fn)
    case _ => BrokenProgress
  }

  /** Everything a transfer, `curl_exec()`'s return shape or `CURLINFO_PRIVATE` can observe. */
  datatype Effects = Effects(
    write: WriteSink, header: HeaderSink, read: ReadSource, debug: DebugSink, progress: Progress,
    returnsBody: bool, priv: Value)

  function EffectsOf(e: Easy): Effects {
    Effects(WriteSinkOf(e), HeaderSinkOf(e), ReadSourceOf(e), DebugSinkOf(e), ProgressOf(e), e.returnTransfer, e.priv)
  }

  // ---- the invariant every call keeps ----

  /** The object's mirrors equal the bridge's flags; at most one write mode is selected; every
      registered callable is the rooted one, and only the write slot may hold a root that is not
      registered, while the callback mode is not the active one. */
  ghost predicate InStep(e: Easy) {
    && e.returnTransfer == e.bridge.returnTransfer
    && e.writeUser == e.bridge.writeUser
    && !(e.returnTransfer && e.writeUser)
    && e.bridge.slots.(write := e.roots.write) == e.roots
    && (e.bridge.slots.write.Some? ==> e.bridge.slots.write == e.roots.write)
    && (e.writeUser ==> e.bridge.slots.write.Some?)
    && (e.bridge.slots.read.Some? <==> e.readUser.Some? || e.infile.Some?)
    && (e.bridge.slots.read.Some? ==> e.bridge.slots.read.value == ReadDispatcher)
  }

  lemma StepKeepsInStep(e: Easy, call: Call)
    requires InStep(e)
    ensures InStep(Step(e, call).0)
  {
    if call.SetOpt? {
      if IsCallbackOption(call.option) {
        CallbackKeepsInStep(e, call.option, call.value);
      } else if IsStreamOption(call.option) {
        StreamKeepsInStep(e, call.option, call.value);
      }
    }
  }

  lemma CallbackKeepsInStep(e: Easy, option: CurlOption, v: Value)
    requires InStep(e) && IsCallbackOption(option)
    ensures InStep(StepCallback(e, option, v).0)
  {
    match option
    case WriteFunction =>
    case ReadFunction =>
    case DebugFunction =>
    case _ =>
  }

  lemma StreamKeepsInStep(e: Easy, option: CurlOption, v: Value)
    requires InStep(e) && IsStreamOption(option)
    ensures InStep(StepStream(e, option, v).0)
  {
    match option
    case File =>
    case WriteHeader =>
    case Infile =>
    case Stderr =>
  }

  lemma {:induction false} RunKeepsInStep(e: Easy, calls: seq<Call>)
    requires InStep(e)
    ensures InStep(Run(e, calls))
  {
    if calls != [] {
      RunKeepsInStep(e, calls[..|calls| - 1]);
      StepKeepsInStep(Run(e, calls[..|calls| - 1]), calls[|calls| - 1]);
    }
  }

  /** A run of two stretches of calls is the second run continued from the first. */
  lemma {:induction false} RunConcat(e: Easy, first: seq<Call>, second: seq<Call>)
    ensures Run(e, first + second) == Run(Run(e, first), second)
  {
    if second == [] {
      assert first + second == first;
    } else {
      var n := |second| - 1;
      assert (first + second)[..|first + second| - 1] == first + second[..n];
      RunConcat(e, first, second[..n]);
    }
  }
}
