/** The multi handle's identity map: two parallel lists on the PHP object that must pair every
    attached native id with the one object it was added as, in add order, in step with the
    bridge's own list. */
module CurlMulti {
  import opened Wrappers

  /** A `CurlHandle` object, with the never-reused bridge id of its native handle. */
  class CurlObject {
    const id: int

    constructor (id: int)
      ensures this.id == id
    {
      this.id := id;
    }
  }

  /** One call on a multi handle, with the `CURLMcode` libcurl answered (0 is `CURLM_OK`). */
  datatype Op = Add(handle: CurlObject, code: int) | Remove(handle: CurlObject, code: int)

  /** A completion message as the bridge parks it. */
  datatype Message = Message(msg: int, result: int, easyId: int, queued: int)

  /** The array `curl_multi_info_read()` answers; the `handle` key is absent when null. */
  datatype Info = Info(msg: int, result: int, handle: CurlObject?, queued: int)

  datatype Error = NotACurlHandle

  // ---- the specification: what a run of calls leaves attached ----

  function Without(handles: seq<CurlObject>, id: int): (r: seq<CurlObject>)
    ensures forall h | h in r :: h in handles && h.id != id
    ensures forall h | h in handles && h.id != id :: h in r
  {
    if handles == [] then []
    else if handles[0].id == id then Without(handles[1..], id)
    else [handles[0]] + Without(handles[1..], id)
  }

  /** What one answered call does to the listing. */
  function Apply(handles: seq<CurlObject>, op: Op): seq<CurlObject> {
    if op.code != 0 then handles
    else if op.Add? then handles + [op.handle]
    else Without(handles, op.handle.id)
  }

  function Listing(ops: seq<Op>): seq<CurlObject> {
    if ops == [] then [] else Apply(Listing(ops[..|ops| - 1]), ops[|ops| - 1])
  }

  ghost predicate Distinct(handles: seq<CurlObject>) {
    forall i, j | 0 <= i < j < |handles| :: handles[i].id != handles[j].id
  }

  ghost predicate Lists(handles: seq<CurlObject>, id: int) {
    exists h :: h in handles && h.id == id
  }

  /** libcurl refuses (`CURLM_ADDED_ALREADY`) to attach a handle that is attached. */
  ghost predicate Answerable(handles: seq<CurlObject>, op: Op) {
    op.Add? && op.code == 0 ==> !Lists(handles, op.handle.id)
  }

  ghost predicate Legal(ops: seq<Op>) {
    forall i | 0 <= i < |ops| :: Answerable(Listing(ops[..i]), ops[i])
  }

  lemma {:induction false} WithoutKeepsDistinct(handles: seq<CurlObject>, id: int)
    requires Distinct(handles)
    ensures Distinct(Without(handles, id))
  {
    if handles != [] {
      WithoutKeepsDistinct(handles[1..], id);
      var rest := Without(handles[1..], id);
      assert forall j | 0 <= j < |rest| :: rest[j] in rest;
    }
  }

  lemma {:induction false} ListingIsDistinct(ops: seq<Op>)
    requires Legal(ops)
    ensures Distinct(Listing(ops))
  {
    if ops != [] {
      var n := |ops| - 1;
      assert forall i | 0 <= i < n :: ops[..n][..i] == ops[..i];
      ListingIsDistinct(ops[..n]);
      WithoutKeepsDistinct(Listing(ops[..n]), ops[n].handle.id);
      assert Answerable(Listing(ops[..n]), ops[n]);
    }
  }

  /** Call `i` attached a handle that no later accepted call detached. */
  ghost predicate StillAttached(ops: seq<Op>, i: int) {
    && 0 <= i < |ops| && ops[i].Add? && ops[i].code == 0
    && forall j | i < j < |ops| :: !(ops[j].Remove? && ops[j].code == 0 && ops[j].handle.id == ops[i].handle.id)
  }

  /** The handles still attached at the end, in the order of the first `n` calls. */
  ghost function AttachedUpTo(ops: seq<Op>, n: nat): seq<CurlObject>
    requires n <= |ops|
  {
    if n == 0 then []
    else AttachedUpTo(ops, n - 1) + if StillAttached(ops, n - 1) then [ops[n - 1].handle] else []
  }

  lemma {:induction false} WithoutConcat(a: seq<CurlObject>, b: seq<CurlObject>, id: int)
    ensures Without(a + b, id) == Without(a, id) + Without(b, id)
  {
    if a == [] {
      assert a + b == b;
    } else {
      assert (a + b)[1..] == a[1..] + b;
      WithoutConcat(a[1..], b, id);
    }
  }

  lemma WithoutSnoc(handles: seq<CurlObject>, i: nat, id: int)
    requires i < |handles|
    ensures Without(handles[..i + 1], id)
         == Without(handles[..i], id) + if handles[i].id == id then [] else [handles[i]]
  {
    var one := [handles[i]];
    assert handles[..i + 1] == handles[..i] + one;
    WithoutConcat(handles[..i], one, id);
    assert one[1..] == [];
  }

  /** The call takes a handle of that id off again. */
  predicate TakesOff(op: Op, id: int) {
    op.Remove? && op.code == 0 && op.handle.id == id
  }

  lemma StillAttachedSnoc(ops: seq<Op>, op: Op, i: nat)
    requires i < |ops|
    ensures StillAttached(ops + [op], i) <==> StillAttached(ops, i) && !TakesOff(op, ops[i].handle.id)
  {
    var all := ops + [op];
    assert all[i] == ops[i] && all[|ops|] == op;
    if StillAttached(all, i) {
      forall j | i < j < |ops|
        ensures !(ops[j].Remove? && ops[j].code == 0 && ops[j].handle.id == ops[i].handle.id)
      {
        assert all[j] == ops[j];
      }
    }
  }

  /** One more call keeps, drops or appends exactly what it should. */
  lemma {:induction false} AttachedSnoc(ops: seq<Op>, op: Op, n: nat)
    requires n <= |ops|
    ensures AttachedUpTo(ops + [op], n) ==
      if op.Remove? && op.code == 0 then Without(AttachedUpTo(ops, n), op.handle.id) else AttachedUpTo(ops, n)
  {
    if n > 0 {
      var i := n - 1;
      AttachedSnoc(ops, op, i);
      StillAttachedSnoc(ops, op, i);
      assert (ops + [op])[i] == ops[i];
      var last := if StillAttached(ops, i) then [ops[i].handle] else [];
      WithoutConcat(AttachedUpTo(ops, i), last, op.handle.id);
    }
  }

  /** The listing is exactly the handles added and not removed since, in add order. */
  lemma {:induction false} ListingIsAddOrder(ops: seq<Op>)
    ensures Listing(ops) == AttachedUpTo(ops, |ops|)
  {
    if ops != [] {
      var n := |ops| - 1;
      ListingIsAddOrder(ops[..n]);
      assert ops[..n] + [ops[n]] == ops;
      AttachedSnoc(ops[..n], ops[n], n);
    }
  }

  // ---- the two objects ----

  /** The bridge's entry: the attached easy ids, in add order. */
  class MultiEntry {
    var attached: seq<int>

    constructor ()
      ensures attached == []
    {
      attached := [];
    }

    /** `elephc_curl_multi_add`, given libcurl's answer. */
    method Add(easyId: int, code: int)
      modifies this
      ensures attached == if code == 0 && easyId !in old(attached) then old(attached) + [easyId] else old(attached)
    {
      if code == 0 && easyId !in attached {
        attached := attached + [easyId];
      }
    }

    /** `elephc_curl_multi_remove`, given libcurl's answer. */
    method Remove(easyId: int, code: int)
      modifies this
      ensures attached == if code == 0 then Retain(old(attached), easyId) else old(attached)
    {
      if code == 0 {
        attached := Retain(attached, easyId);
      }
    }
  }

  function Retain(ids: seq<int>, id: int): seq<int> {
    if ids == [] then []
    else if ids[0] == id then Retain(ids[1..], id)
    else [ids[0]] + Retain(ids[1..], id)
  }

  /** The native ids of a listing. */
  function Ids(handles: seq<CurlObject>): (r: seq<int>)
    ensures |r| == |handles| && forall i | 0 <= i < |r| :: r[i] == handles[i].id
  {
    if handles == [] then [] else [handles[0].id] + Ids(handles[1..])
  }

  lemma IdsSnoc(handles: seq<CurlObject>, last: CurlObject)
    ensures Ids(handles + [last]) == Ids(handles) + [last.id]
  {
    assert forall i | 0 <= i < |handles| :: (handles + [last])[i] == handles[i];
  }

  lemma {:induction false} IdsWithout(handles: seq<CurlObject>, id: int)
    ensures Ids(Without(handles, id)) == Retain(Ids(handles), id)
  {
    if handles != [] {
      IdsWithout(handles[1..], id);
    }
  }

  class CurlMultiHandle {
    const entry: MultiEntry
    var ids: seq<int>
    var handles: seq<CurlObject>
    ghost var calls: seq<Op>

    /** The two lists are aligned, and both they and the bridge's list are what the calls made
        so far leave attached. */
    ghost predicate Valid()
      reads this, entry
    {
      && Legal(calls)
      && handles == Listing(calls)
      && ids == Ids(handles)
      && entry.attached == ids
    }

    constructor ()
      ensures Valid() && calls == [] && fresh(entry)
    {
      entry := new MultiEntry();
      ids, handles, calls := [], [], [];
    }

    method Attach(handle: CurlObject)
      modifies this`ids, this`handles
      ensures ids == old(ids) + [handle.id] && handles == old(handles) + [handle]
    {
      ids := ids + [handle.id];
      handles := handles + [handle];
    }

    method Detach(id: int)
      requires ids == Ids(handles)
      modifies this`ids, this`handles
      ensures handles == Without(old(handles), id) && ids == Ids(handles)
    {
      var keptIds: seq<int>, kept: seq<CurlObject> := [], [];
      for i := 0 to |ids|
        invariant ids == old(ids) && handles == old(handles) && |ids| == |handles|
        invariant kept == Without(handles[..i], id)
        invariant keptIds == Ids(kept)
      {
        WithoutSnoc(handles, i, id);
        if ids[i] == id {
          continue;
        }
        IdsSnoc(kept, handles[i]);
        keptIds := keptIds + [ids[i]];
        kept := kept + [handles[i]];
      }
      assert handles[..|ids|] == handles;
      ids := keptIds;
      handles := kept;
    }

    /** The object added under `id`, or null. */
    method Lookup(id: int) returns (found: CurlObject?)
      requires Valid()
      ensures found != null <==> Lists(handles, id)
      ensures found != null ==> found in handles && found.id == id
    {
      for i := 0 to |ids|
        invariant forall j | 0 <= j < i :: handles[j].id != id
      {
        if ids[i] == id {
          return handles[i];
        }
      }
      return null;
    }

    /** `curl_multi_add_handle()`: bookkeeping happens only on `CURLM_OK`. */
    method AddHandle(handle: CurlObject?, code: int) returns (r: Result<int, Error>)
      requires Valid()
      requires handle != null ==> Answerable(handles, Add(handle, code))
      modifies this, entry
      ensures Valid()
      ensures handle == null ==> r == Err(NotACurlHandle) && calls == old(calls)
      ensures handle != null ==> r == Ok(code) && calls == old(calls) + [Add(handle, code)]
    {
      if handle == null {
        return Err(NotACurlHandle);
      }
      entry.Add(handle.id, code);
      if code == 0 {
        Attach(handle);
      }
      Record(Add(handle, code));
      return Ok(code);
    }

    /** `curl_multi_remove_handle()`. */
    method RemoveHandle(handle: CurlObject?, code: int) returns (r: Result<int, Error>)
      requires Valid()
      modifies this, entry
      ensures Valid()
      ensures handle == null ==> r == Err(NotACurlHandle) && calls == old(calls)
      ensures handle != null ==> r == Ok(code) && calls == old(calls) + [Remove(handle, code)]
    {
      if handle == null {
        return Err(NotACurlHandle);
      }
      IdsWithout(handles, handle.id);
      entry.Remove(handle.id, code);
      if code == 0 {
        Detach(handle.id);
      }
      Record(Remove(handle, code));
      return Ok(code);
    }

    /** Notes an answered call in the history. */
    ghost method Record(op: Op)
      requires Legal(calls) && Answerable(Listing(calls), op)
      requires handles == Apply(Listing(calls), op)
      modifies this`calls
      ensures Legal(calls) && handles == Listing(calls) && calls == old(calls) + [op]
    {
      var all := calls + [op];
      assert all[..|all| - 1] == calls;
      assert forall i | 0 <= i < |calls| :: all[..i] == calls[..i];
      calls := all;
    }

    /** `curl_multi_info_read()` on the next queued message, if any. */
    method InfoRead(next: Option<Message>) returns (info: Option<Info>)
      requires Valid()
      ensures info.None? <==> next.None?
      ensures info.Some? ==>
        && info.value.msg == next.value.msg && info.value.result == next.value.result
        && info.value.queued == next.value.queued
        && (info.value.handle != null <==> Lists(handles, next.value.easyId))
        && (info.value.handle != null ==> info.value.handle in handles && info.value.handle.id == next.value.easyId)
    {
      if next.None? {
        return None;
      }
      var handle := Lookup(next.value.easyId);
      return Some(Info(next.value.msg, next.value.result, handle, next.value.queued));
    }
  }

  /** A lookup after any run of calls answers the very object whose accepted add was never
      undone, and nothing else. */
  lemma LookupIsTheObjectAdded(ops: seq<Op>, i: int, found: CurlObject)
    requires Legal(ops) && StillAttached(ops, i)
    requires found in Listing(ops) && found.id == ops[i].handle.id
    ensures found == ops[i].handle
  {
    ListingIsAddOrder(ops);
    ListingIsDistinct(ops);
    AttachedHolds(ops, i, |ops|);
    var all := Listing(ops);
    var a :| 0 <= a < |all| && all[a] == found;
    var b :| 0 <= b < |all| && all[b] == ops[i].handle;
    assert a == b;
  }

  lemma {:induction false} AttachedHolds(ops: seq<Op>, i: int, n: nat)
    requires StillAttached(ops, i) && i < n <= |ops|
    ensures ops[i].handle in AttachedUpTo(ops, n)
  {
    if i < n - 1 {
      AttachedHolds(ops, i, n - 1);
    }
  }

  // ---- curl_multi_exec's packed answer ----

  const TWO_32: int := 0x1_0000_0000
  const TWO_31: int := 0x8000_0000

  /** The bridge packs the running count above the code's 32-bit pattern. */
  function Pack(running: int, code: int): int
    requires 0 <= running < TWO_31 && -TWO_31 <= code < TWO_31
  {
    running * TWO_32 + (if code < 0 then code + TWO_32 else code)
  }

  /** `curl_multi_exec()` takes the two halves apart and extends the code's sign by hand. */
  function Unpack(packed: int): (int, int) {
    var running := (packed / TWO_32) % TWO_32;
    var low := packed % TWO_32;
    (running, if low >= TWO_31 then low - TWO_32 else low)
  }

  lemma UnpackInvertsPack(running: int, code: int)
    requires 0 <= running < TWO_31 && -TWO_31 <= code < TWO_31
    ensures Unpack(Pack(running, code)) == (running, code)
    ensures 0 <= Pack(running, code) < 0x8000_0000_0000_0000
  {
  }
}
