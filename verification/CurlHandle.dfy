/** The easy handle as the prelude and the bridge hold it: a `CurlHandle` object with its
    mirrors and rooted callables, and a bridge entry that only borrows descriptors and a
    back-pointer. Every method is proved against the value-level machine of `CurlEasy`. */
module CurlHandles {
  import opened Wrappers
  import opened CurlEasy
  import CurlCopy

  /** A normalized callable. The bridge knows it by its identity alone. */
  class Closure {
    const body: ClosureBody

    constructor (body: ClosureBody)
      ensures this.body == body
    {
      this.body := body;
    }
  }

  /** One bridge slot: empty, or a borrowed descriptor with the handle to pass it. */
  datatype CallbackSlot = Empty | Set(descriptor: Closure, selfObj: CurlHandle)

  function Index(slot: Slot): (i: nat)
    ensures i < 6
  {
    match slot
    case Write => 0
    case Header => 1
    case Read => 2
    case Progress => 3
    case Debug => 4
    case XferInfo => 5
  }

  const SLOTS: seq<Slot> := [Write, Header, Read, Progress, Debug, XferInfo]

  /** The bridge's entry for one easy handle. */
  class EasyEntry {
    const callbacks: array<CallbackSlot>
    var writeUser: bool
    var returnTransfer: bool

    constructor ()
      ensures fresh(callbacks) && callbacks.Length == 6
      ensures forall i | 0 <= i < 6 :: callbacks[i] == Empty
      ensures !writeUser && !returnTransfer
    {
      callbacks := new CallbackSlot[6](_ => Empty);
      writeUser, returnTransfer := false, false;
    }

    /** `apply_callback`: installs or clears one slot, and lets the write slot drive the mode. */
    method ApplyCallback(slot: Slot, value: CallbackSlot)
      requires callbacks.Length == 6
      modifies this, callbacks
      ensures callbacks[..] == old(callbacks[..])[Index(slot) := value]
      ensures slot.Write? ==> writeUser == value.Set? && !returnTransfer
      ensures !slot.Write? ==> writeUser == old(writeUser) && returnTransfer == old(returnTransfer)
    {
      callbacks[Index(slot)] := value;
      if slot.Write? {
        writeUser := value.Set?;
        returnTransfer := false;
      }
    }

    /** `clear_all`, with the capture flag `elephc_curl_easy_reset` clears beside it. */
    method Clear()
      requires callbacks.Length == 6
      modifies this, callbacks
      ensures SlotsOf(callbacks[..]) == EMPTY_SLOTS
      ensures forall i | 0 <= i < 6 :: callbacks[i].Empty?
      ensures !writeUser && !returnTransfer
    {
      for i := 0 to 6
        invariant forall j | 0 <= j < i :: callbacks[j] == Empty
      {
        callbacks[i] := Empty;
      }
      writeUser := false;
      returnTransfer := false;
    }
  }

  function BodyOf(s: CallbackSlot): Option<ClosureBody> {
    if s.Set? then Some(s.descriptor.body) else None
  }

  function RootBody(callbacks: map<nat, Closure?>, i: nat): Option<ClosureBody> {
    if i in callbacks && callbacks[i] != null then Some(callbacks[i].body) else None
  }

  /** What the bridge's slots do, whatever their identities. */
  function SlotsOf(s: seq<CallbackSlot>): Slots
    requires |s| == 6
  {
    Slots(BodyOf(s[0]), BodyOf(s[1]), BodyOf(s[2]), BodyOf(s[3]), BodyOf(s[4]), BodyOf(s[5]))
  }

  /** What the rooted callables do; a missing key and null are alike. */
  function RootsOf(callbacks: map<nat, Closure?>): Slots {
    Slots(RootBody(callbacks, 0), RootBody(callbacks, 1), RootBody(callbacks, 2),
          RootBody(callbacks, 3), RootBody(callbacks, 4), RootBody(callbacks, 5))
  }

  lemma SlotsOfUpdate(s: seq<CallbackSlot>, slot: Slot, v: CallbackSlot)
    requires |s| == 6
    ensures SlotsOf(s[Index(slot) := v]) == SlotsOf(s).Fill(slot, BodyOf(v))
  {
  }

  lemma RootsOfUpdate(callbacks: map<nat, Closure?>, slot: Slot, closure: Closure?)
    ensures RootsOf(callbacks[Index(slot) := closure])
         == RootsOf(callbacks).Fill(slot, if closure == null then None else Some(closure.body))
  {
    match slot case Write => case Header => case Read => case Progress => case Debug => case XferInfo =>
  }

  lemma EmptyRoots()
    ensures RootsOf(map[]) == EMPTY_SLOTS
  {
  }

  lemma ResetIsFresh(before: Easy)
    ensures Step(before, Call.Reset).0 == FRESH && InStep(FRESH)
  {
  }

  lemma EmptyIsRooted(s: seq<CallbackSlot>, self: CurlHandle)
    requires |s| == 6 && forall i | 0 <= i < 6 :: s[i].Empty?
    ensures RootedIn(s, map[], self)
  {
  }

  /** The rooting invariant: a registered descriptor is the very callable rooted at that slot of
      this handle, its back-pointer is this handle, and only a write callable may be rooted
      without being registered. */
  ghost predicate RootedIn(s: seq<CallbackSlot>, callbacks: map<nat, Closure?>, self: CurlHandle) {
    && |s| == 6
    && (forall i | i in callbacks :: i < 6)
    && (forall i: nat | i < 6 && s[i].Set? ::
          s[i].selfObj == self && i in callbacks && callbacks[i] == s[i].descriptor)
    && (forall i: nat | 0 < i < 6 && s[i].Empty? :: i in callbacks ==> callbacks[i] == null)
  }

  class CurlHandle {
    const entry: EasyEntry
    var returnTransfer: bool
    var writeUser: bool
    var debugUser: bool
    var callbacks: map<nat, Closure?>
    var file: Option<Stream>
    var writeHeader: Option<Stream>
    var infile: Option<Stream>
    var stderr: Option<Stream>
    var readUser: Option<nat>
    var priv: Value

    /** Every object a handle is made of. */
    ghost function Footprint(): set<object> {
      {this, entry, entry.callbacks}
    }

    ghost predicate Rooted()
      reads this, entry, entry.callbacks
    {
      RootedIn(entry.callbacks[..], callbacks, this)
    }

    /** Rooted, and the object's mirrors equal the bridge's flags. */
    ghost predicate Valid()
      reads this, entry, entry.callbacks
    {
      Rooted() && InStep(Abs())
    }

    ghost function Abs(): Easy
      requires entry.callbacks.Length == 6
      reads this, entry, entry.callbacks
    {
      Easy(Bridge(SlotsOf(entry.callbacks[..]), entry.writeUser, entry.returnTransfer),
           RootsOf(callbacks), returnTransfer, writeUser, debugUser,
           file, writeHeader, infile, stderr, readUser, priv)
    }

    /** `curl_init()`. */
    constructor ()
      ensures Valid() && fresh(Footprint())
      ensures Abs() == FRESH && callbacks == map[]
      ensures forall i: nat | i < 6 :: entry.callbacks[i].Empty?
    {
      entry := new EasyEntry();
      returnTransfer, writeUser, debugUser := false, false, false;
      callbacks := map[];
      file, writeHeader, infile, stderr, readUser := None, None, None, None, None;
      priv := Bool(false);
    }

    /** Registers a callable with the bridge and roots it, or clears both. */
    method Install(slot: Slot, body: Option<ClosureBody>)
      requires Rooted()
      modifies this`callbacks, entry, entry.callbacks
      ensures Rooted()
      ensures Abs() == InstallInternal(old(Abs()), slot, body)
    {
      if body.None? {
        SlotsOfUpdate(entry.callbacks[..], slot, Empty);
        RootsOfUpdate(callbacks, slot, null);
        callbacks := callbacks[Index(slot) := null];
        entry.ApplyCallback(slot, Empty);
      } else {
        var closure := new Closure(body.value);
        SlotsOfUpdate(entry.callbacks[..], slot, Set(closure, this));
        RootsOfUpdate(callbacks, slot, closure);
        entry.ApplyCallback(slot, Set(closure, this));
        callbacks := callbacks[Index(slot) := closure];
      }
    }

    method SyncRead()
      requires Rooted()
      modifies this`callbacks, entry, entry.callbacks
      ensures Rooted()
      ensures Abs() == SyncReadSlot(old(Abs()))
    {
      if readUser.None? && infile.None? {
        Install(Read, None);
      } else {
        Install(Read, Some(ReadDispatcher));
      }
    }

    /** `curl_setopt()` on a callback option. */
    method SetCallbackOption(option: CurlOption, value: Value) returns (outcome: Outcome)
      requires Rooted() && IsCallbackOption(option)
      modifies this, entry, entry.callbacks
      ensures Rooted()
      ensures (Abs(), outcome) == StepCallback(old(Abs()), option, value)
    {
      var slot := SlotOf(option);
      if slot.Debug? {
        debugUser := true;
      }
      if value.Null? {
        if slot.Read? {
          readUser := None;
          SyncRead();
        } else if slot.Debug? {
          Install(Debug, Some(SilentDebug));
        } else {
          Install(slot, None);
          if slot.Write? {
            returnTransfer := false;
            writeUser := false;
          }
        }
        return Accepted;
      }
      if !value.Callable? {
        return TypeError;
      }
      if slot.Read? {
        readUser := Some(value.fn);
        SyncRead();
        return Accepted;
      }
      Install(slot, Some(UserFn(value.fn)));
      if slot.Write? {
        returnTransfer := false;
        writeUser := true;
      }
      return Accepted;
    }

    /** `curl_setopt()` on a stream option. */
    method SetStreamOption(option: CurlOption, value: Value) returns (outcome: Outcome)
      requires Rooted() && IsStreamOption(option)
      modifies this, entry, entry.callbacks
      ensures Rooted()
      ensures (Abs(), outcome) == StepStream(old(Abs()), option, value)
    {
      outcome := StreamCheck(value, !option.Infile?);
      if !outcome.Accepted? {
        return;
      }
      var stream := StreamOf(value);
      match option
      case File =>
        file := stream;
        returnTransfer := false;
        writeUser := stream.Some?;
        Install(Write, if stream.Some? then Some(FileWriter) else None);
      case WriteHeader =>
        writeHeader := stream;
        Install(Header, if stream.Some? then Some(HeaderWriter) else None);
      case Infile =>
        infile := stream;
        SyncRead();
      case Stderr =>
        stderr := stream;
        if !debugUser {
          Install(Debug, if stream.Some? then Some(StderrWriter) else None);
        }
    }

    /** `curl_setopt()` on an option the PHP layer handles alone. */
    method SetPhpLayerOption(option: CurlOption, value: Value) returns (outcome: Outcome)
      requires Rooted() && !IsCallbackOption(option) && !IsStreamOption(option)
      modifies this, entry
      ensures Rooted()
      ensures (Abs(), outcome) == StepPhpLayer(old(Abs()), option, value)
    {
      match option
      case ReturnTransfer =>
        returnTransfer := Truthy(value);
        writeUser := false;
        entry.returnTransfer := Truthy(value);
        entry.writeUser := false;
        return Accepted;
      case Private =>
        priv := value;
        return Accepted;
      case SafeUpload =>
        return if Truthy(value) then Accepted else ValueError;
      case BinaryTransfer =>
        return Accepted;
    }

    /** `curl_setopt()`. */
    method SetOpt(option: CurlOption, value: Value) returns (outcome: Outcome)
      requires Valid()
      modifies this, entry, entry.callbacks
      ensures Valid()
      ensures (Abs(), outcome) == Step(old(Abs()), Call.SetOpt(option, value))
    {
      ghost var before := Abs();
      StepKeepsInStep(before, Call.SetOpt(option, value));
      if IsCallbackOption(option) {
        outcome := SetCallbackOption(option, value);
      } else if IsStreamOption(option) {
        outcome := SetStreamOption(option, value);
      } else {
        outcome := SetPhpLayerOption(option, value);
      }
    }

    /** `curl_reset()`. */
    method Reset()
      requires Valid()
      modifies this, entry, entry.callbacks
      ensures Valid()
      ensures Abs() == Step(old(Abs()), Call.Reset).0
    {
      ghost var before := Abs();
      ResetIsFresh(before);
      entry.Clear();
      returnTransfer := false;
      writeUser := false;
      priv := Bool(false);
      callbacks := map[];
      file, writeHeader, infile, stderr := None, None, None, None;
      readUser := None;
      debugUser := false;
      EmptyRoots();
      EmptyIsRooted(entry.callbacks[..], this);
    }

    /** One round of the copying loop: roots a callable of the original on this copy, and
        registers it unless it is an inactive write callable. */
    method Adopt(slot: nat, callback: Closure)
      requires slot < 6 && Rooted()
      requires slot !in callbacks
      modifies this`callbacks, entry, entry.callbacks
      ensures Rooted() && callbacks == old(callbacks)[slot := callback]
      ensures slot == 0 && !writeUser ==>
        entry.callbacks[..] == old(entry.callbacks[..])
        && entry.writeUser == old(entry.writeUser) && entry.returnTransfer == old(entry.returnTransfer)
      ensures slot != 0 || writeUser ==>
        entry.callbacks[..] == old(entry.callbacks[..])[slot := Set(callback, this)]
      ensures slot != 0 ==> entry.writeUser == old(entry.writeUser) && entry.returnTransfer == old(entry.returnTransfer)
      ensures slot == 0 && writeUser ==> entry.writeUser && !entry.returnTransfer
    {
      if slot == 0 && !writeUser {
        callbacks := callbacks[0 := callback];
      } else {
        entry.ApplyCallback(SLOTS[slot], Set(callback, this));
        callbacks := callbacks[slot := callback];
      }
    }

    /** `curl_copy_handle()`: the original is untouched, the copy is made of new objects, and
        each of its registered callables is the one it roots itself, called with the copy. */
    method Copy() returns (copy: CurlHandle)
      requires Valid()
      ensures copy.Valid() && fresh(copy.Footprint())
      ensures copy.Abs() == CopyOf(Abs())
    {
      copy := new CurlHandle();
      copy.Inherit(this);
      copy.AdoptAll(callbacks);
      CopiedSlots(copy.entry.callbacks[..], copy.callbacks, copy);
      CopyRoots(callbacks, copy.callbacks);
      CurlCopy.CopyIsSimilar(Abs());
    }

    /** The copying loop, over the callables the original roots. */
    method AdoptAll(original: map<nat, Closure?>)
      requires Rooted() && callbacks == map[] && !entry.writeUser
      requires forall i | i in original :: i < 6
      requires forall i: nat | i < 6 :: entry.callbacks[i].Empty?
      modifies this`callbacks, entry, entry.callbacks
      ensures Rooted()
      ensures callbacks == map i | i in original && original[i] != null :: original[i]
      ensures CopyingSlots(entry.callbacks[..], callbacks, writeUser)
      ensures entry.writeUser == entry.callbacks[0].Set?
      ensures entry.returnTransfer == (old(entry.returnTransfer) && !entry.writeUser)
    {
      var todo := original.Keys;
      while todo != {}
        invariant todo <= original.Keys
        invariant Rooted()
        invariant callbacks == map i | i in original && original[i] != null && i !in todo :: original[i]
        invariant CopyingSlots(entry.callbacks[..], callbacks, writeUser)
        invariant entry.writeUser == entry.callbacks[0].Set?
        invariant entry.returnTransfer == (old(entry.returnTransfer) && !entry.writeUser)
        decreases |todo|
      {
        var slot :| slot in todo;
        todo := todo - {slot};
        if original[slot] != null {
          Adopt(slot, original[slot]);
        }
      }
    }

    /** The fields a copy takes over before the callbacks are looked at. */
    ghost predicate SameFields(other: CurlHandle)
      reads this, other
    {
      && returnTransfer == other.returnTransfer && writeUser == other.writeUser
      && priv == other.priv && file == other.file && writeHeader == other.writeHeader
      && infile == other.infile && stderr == other.stderr
      && readUser == other.readUser && debugUser == other.debugUser
    }

    method Inherit(other: CurlHandle)
      requires entry.callbacks.Length == 6 && other != this && other.entry != entry
      modifies this, entry
      ensures SameFields(other) && callbacks == old(callbacks)
      ensures entry.returnTransfer == other.entry.returnTransfer && entry.writeUser == old(entry.writeUser)
    {
      entry.returnTransfer := other.entry.returnTransfer;
      returnTransfer := other.returnTransfer;
      writeUser := other.writeUser;
      priv := other.priv;
      file := other.file;
      writeHeader := other.writeHeader;
      infile := other.infile;
      stderr := other.stderr;
      readUser := other.readUser;
      debugUser := other.debugUser;
    }
  }

  /** During a copy a slot is registered as soon as it is rooted, except an inactive write slot. */
  ghost predicate CopyingSlots(s: seq<CallbackSlot>, callbacks: map<nat, Closure?>, writeUser: bool) {
    && |s| == 6
    && (s[0].Set? <==> 0 in callbacks && writeUser)
    && (forall i: nat | 0 < i < 6 :: s[i].Set? <==> i in callbacks)
  }

  /** Any calls on one handle follow the value machine and leave every other handle as it is. */
  method RunOn(handle: CurlHandle, other: CurlHandle, calls: seq<Call>)
    requires handle.Valid() && other.Valid() && handle.Footprint() !! other.Footprint()
    modifies handle, handle.entry, handle.entry.callbacks
    ensures handle.Valid() && handle.Abs() == Run(old(handle.Abs()), calls)
    ensures other.Valid() && other.Abs() == old(other.Abs())
  {
    for i := 0 to |calls|
      invariant handle.Valid() && handle.Abs() == Run(old(handle.Abs()), calls[..i])
      invariant other.Valid() && other.Abs() == old(other.Abs())
    {
      assert calls[..i + 1][..i] == calls[..i];
      match calls[i] {
        case Reset => handle.Reset();
        case SetOpt(option, value) => var _ := handle.SetOpt(option, value);
      }
    }
    assert calls[..|calls|] == calls;
  }

  /** A copy and its original go their own ways: what is called on one never shows on the other. */
  method CopyAndRun(original: CurlHandle, onCopy: seq<Call>, onOriginal: seq<Call>) returns (copy: CurlHandle)
    requires original.Valid()
    modifies original, original.entry, original.entry.callbacks
    ensures copy.Valid() && copy.Abs() == Run(CopyOf(old(original.Abs())), onCopy)
    ensures original.Valid() && original.Abs() == Run(old(original.Abs()), onOriginal)
  {
    copy := original.Copy();
    RunOn(copy, original, onCopy);
    RunOn(original, copy, onOriginal);
  }

  lemma CopiedSlots(s: seq<CallbackSlot>, callbacks: map<nat, Closure?>, self: CurlHandle)
    requires RootedIn(s, callbacks, self)
    requires forall i | i in callbacks :: callbacks[i] != null
    requires CopyingSlots(s, callbacks, true) || CopyingSlots(s, callbacks, false)
    ensures CopyingSlots(s, callbacks, true) ==> SlotsOf(s) == RootsOf(callbacks)
    ensures CopyingSlots(s, callbacks, false) ==> SlotsOf(s) == RootsOf(callbacks).(write := None)
  {
  }

  lemma CopyRoots(original: map<nat, Closure?>, copy: map<nat, Closure?>)
    requires copy == map i | i in original && original[i] != null :: original[i]
    ensures RootsOf(copy) == RootsOf(original)
  {
  }
}
