/** Placing a call's arguments at the declaration positions they bind to: positional arguments
    follow a cursor, named ones go to the parameter they name and move the cursor past it. */
module ArgumentPlacement {
  import opened Wrappers

  /** An argument of a call whose static spreads are expanded. */
  datatype Argument<+T> = Positional(value: T) | Named(name: string, value: T)

  /** Where an argument goes. */
  datatype Target = Slot(index: nat) | PositionalSurplus | NamedSurplus

  function IndexOf(names: seq<string>, name: string): (r: Option<nat>)
    ensures r.Some? ==> r.value < |names| && names[r.value] == name && name !in names[..r.value]
    ensures r.None? ==> name !in names
  {
    if names == [] then None
    else if names[0] == name then Some(0)
    else
      match IndexOf(names[1..], name)
      case Some(i) =>
        assert names[1..][..i] == names[1..i + 1] && names[..i + 1] == [names[0]] + names[1..i + 1];
        Some(i + 1)
      case None => None
  }

  /** The target of an argument met with the cursor where it is. */
  function TargetAt<T>(names: seq<string>, cursor: nat, arg: Argument<T>): Target {
    match arg
    case Positional(_) => if cursor < |names| then Slot(cursor) else PositionalSurplus
    case Named(name, _) => (match IndexOf(names, name) case Some(i) => Slot(i) case None => NamedSurplus)
  }

  function Advance(cursor: nat, target: Target): nat {
    match target
    case Slot(i) => if i + 1 > cursor then i + 1 else cursor
    case _ => cursor
  }

  function Cursor<T>(names: seq<string>, args: seq<Argument<T>>): nat
    decreases |args|
  {
    if args == [] then 0
    else
      var k := |args| - 1;
      Advance(Cursor(names, args[..k]), TargetAt(names, Cursor(names, args[..k]), args[k]))
  }

  /** The target of the k-th argument of a call. */
  function TargetOf<T>(names: seq<string>, args: seq<Argument<T>>, k: nat): (t: Target)
    requires k < |args|
    ensures t.Slot? ==> t.index < |names|
  {
    TargetAt(names, Cursor(names, args[..k]), args[k])
  }

  // ---- the placement, step by step ----

  datatype Placed<T> = Placed(slots: seq<Option<T>>, positional: seq<T>, named: seq<T>)

  function Put<T>(p: Placed<T>, target: Target, value: T): Placed<T>
    requires target.Slot? ==> target.index < |p.slots|
  {
    match target
    case Slot(i) => p.(slots := p.slots[i := Some(value)])
    case PositionalSurplus => p.(positional := p.positional + [value])
    case NamedSurplus => p.(named := p.named + [value])
  }

  function Place<T>(names: seq<string>, args: seq<Argument<T>>): (p: Placed<T>)
    ensures |p.slots| == |names|
    decreases |args|
  {
    if args == [] then Placed(seq(|names|, i => None), [], [])
    else
      var k := |args| - 1;
      Put(Place(names, args[..k]), TargetOf(names, args, k), args[k].value)
  }

  /** The ordered list: the declared slots, then surplus positionals, then surplus named values. */
  function Ordered<T>(p: Placed<T>): seq<Option<T>> {
    p.slots + Wrapped(p.positional) + Wrapped(p.named)
  }

  function Wrapped<T>(vs: seq<T>): (r: seq<Option<T>>)
    ensures |r| == |vs|
  {
    seq(|vs|, i requires 0 <= i < |vs| => Some(vs[i]))
  }

  method ArgumentsInDeclarationOrder<T>(names: seq<string>, args: seq<Argument<T>>) returns (ordered: seq<Option<T>>)
    ensures ordered == Ordered(Place(names, args))
  {
    var slots: seq<Option<T>> := seq(|names|, i => None);
    var positionalSurplus: seq<T> := [];
    var namedSurplus: seq<T> := [];
    var cursor: nat := 0;
    var k := 0;
    while k < |args|
      invariant 0 <= k <= |args|
      invariant |slots| == |names|
      invariant Placed(slots, positionalSurplus, namedSurplus) == Place(names, args[..k])
      invariant cursor == Cursor(names, args[..k])
      decreases |args| - k
    {
      assert args[..k + 1][..k] == args[..k];
      match args[k] {
      case Named(name, value) =>
        var found := IndexOf(names, name);
        if found.Some? {
          slots := slots[found.value := Some(value)];
          cursor := if found.value + 1 > cursor then found.value + 1 else cursor;
        } else {
          namedSurplus := namedSurplus + [value];
        }
      case Positional(value) =>
        if cursor < |slots| {
          slots := slots[cursor := Some(value)];
          cursor := cursor + 1;
        } else {
          positionalSurplus := positionalSurplus + [value];
        }
      }
      k := k + 1;
    }
    assert args[..k] == args;
    ordered := slots + Wrapped(positionalSurplus) + Wrapped(namedSurplus);
  }

  // ---- the cursor ----

  lemma {:induction false} CursorIsPast<T>(names: seq<string>, args: seq<Argument<T>>, j: nat)
    requires j < |args| && TargetOf(names, args, j).Slot?
    ensures TargetOf(names, args, j).index < Cursor(names, args)
    decreases |args|
  {
    var k := |args| - 1;
    if j < k {
      TargetOfPrefix(names, args, k, j);
      CursorIsPast(names, args[..k], j);
    }
  }

  lemma TargetOfPrefix<T>(names: seq<string>, args: seq<Argument<T>>, n: nat, j: nat)
    requires j < n <= |args|
    ensures TargetOf(names, args[..n], j) == TargetOf(names, args, j)
  {
    assert args[..n][..j] == args[..j];
  }

  /** Every slot at or past the cursor is still empty. */
  lemma {:induction false} SlotsPastTheCursorAreEmpty<T>(names: seq<string>, args: seq<Argument<T>>)
    ensures forall i | Cursor(names, args) <= i < |names| :: Place(names, args).slots[i].None?
    decreases |args|
  {
    if args != [] {
      SlotsPastTheCursorAreEmpty(names, args[..|args| - 1]);
    }
  }

  predicate Clash<T>(names: seq<string>, args: seq<Argument<T>>, j: nat, k: nat) {
    j < k < |args| && TargetOf(names, args, j).Slot? && TargetOf(names, args, k) == TargetOf(names, args, j)
  }

  /** A positional argument never takes the slot of an argument before it. */
  lemma PositionalNeverOverwrites<T>(names: seq<string>, args: seq<Argument<T>>, j: nat, k: nat)
    requires k < |args| && args[k].Positional?
    ensures !Clash(names, args, j, k)
  {
    if j < k && TargetOf(names, args, j).Slot? {
      TargetOfPrefix(names, args, k, j);
      CursorIsPast(names, args[..k], j);
    }
  }

  predicate Untargeted<T>(names: seq<string>, args: seq<Argument<T>>, i: nat, from_: nat) {
    forall m | from_ <= m < |args| :: TargetOf(names, args, m) != Slot(i)
  }

  /** The k-th argument is the last one at a slot, and the slot holds its value. */
  predicate HeldBy<T(==)>(names: seq<string>, args: seq<Argument<T>>, i: nat, k: int) {
    && i < |names| && 0 <= k < |args|
    && TargetOf(names, args, k) == Slot(i)
    && Place(names, args).slots[i] == Some(args[k].value)
    && Untargeted(names, args, i, k + 1)
  }

  lemma UntargetedLonger<T>(names: seq<string>, args: seq<Argument<T>>, i: nat, from_: nat)
    requires args != [] && TargetOf(names, args, |args| - 1) != Slot(i)
      && Untargeted(names, args[..|args| - 1], i, from_)
    ensures Untargeted(names, args, i, from_)
  {
    forall m | from_ <= m < |args|
      ensures TargetOf(names, args, m) != Slot(i)
    {
      if m < |args| - 1 {
        TargetOfPrefix(names, args, |args| - 1, m);
      }
    }
  }

  /** A slot holds the value of the last argument targeting it, and nothing when there is none. */
  lemma {:induction false} SlotHoldsTheLastArgument<T>(names: seq<string>, args: seq<Argument<T>>, i: nat)
    requires i < |names|
    ensures if Place(names, args).slots[i].None? then Untargeted(names, args, i, 0)
      else exists k :: HeldBy(names, args, i, k)
    decreases |args|
  {
    if args != [] {
      var last := |args| - 1;
      var before := args[..last];
      SlotHoldsTheLastArgument(names, before, i);
      if TargetOf(names, args, last) == Slot(i) {
        assert HeldBy(names, args, i, last);
      } else if Place(names, before).slots[i].None? {
        UntargetedLonger(names, args, i, 0);
      } else {
        var k :| HeldBy(names, before, i, k);
        TargetOfPrefix(names, args, last, k);
        UntargetedLonger(names, args, i, k + 1);
        assert HeldBy(names, args, i, k);
      }
    }
  }

  // ---- every argument exactly once ----

  function Somes<T>(slots: seq<Option<T>>): seq<T> {
    if slots == [] then [] else (if slots[0].Some? then [slots[0].value] else []) + Somes(slots[1..])
  }

  /** All values a placement holds, slot by slot and then the surplus. */
  function Held<T>(p: Placed<T>): seq<T> {
    Somes(p.slots) + p.positional + p.named
  }

  function ValuesOf<T>(args: seq<Argument<T>>): seq<T> {
    seq(|args|, k requires 0 <= k < |args| => args[k].value)
  }

  /** Filling a slot adds one value, and drops the one it held. */
  lemma {:induction false} SomesUpdate<T>(slots: seq<Option<T>>, i: nat, value: T)
    requires i < |slots|
    ensures slots[i].None? ==> multiset(Somes(slots[i := Some(value)])) == multiset(Somes(slots)) + multiset{value}
    ensures |Somes(slots[i := Some(value)])| == |Somes(slots)| + (if slots[i].Some? then 0 else 1)
  {
    var more := slots[i := Some(value)];
    if i == 0 {
      assert more[1..] == slots[1..];
    } else {
      assert more[1..] == slots[1..][i - 1 := Some(value)];
      SomesUpdate(slots[1..], i - 1, value);
    }
  }

  /** No argument before the k-th targets its slot. */
  predicate FreshAt<T>(names: seq<string>, args: seq<Argument<T>>, k: nat) {
    forall j | 0 <= j < k :: !Clash(names, args, j, k)
  }

  predicate NoClash<T>(names: seq<string>, args: seq<Argument<T>>) {
    forall k | 0 <= k < |args| :: FreshAt(names, args, k)
  }

  /** The last argument finds its slot taken exactly when an earlier one targets it. */
  lemma LastIsFresh<T>(names: seq<string>, args: seq<Argument<T>>)
    requires args != [] && TargetOf(names, args, |args| - 1).Slot?
    ensures Place(names, args[..|args| - 1]).slots[TargetOf(names, args, |args| - 1).index].None?
      <==> FreshAt(names, args, |args| - 1)
  {
    var last := |args| - 1;
    var i := TargetOf(names, args, last).index;
    var before := args[..last];
    SlotHoldsTheLastArgument(names, before, i);
    forall m | 0 <= m < last
      ensures TargetOf(names, before, m) == TargetOf(names, args, m)
    {
      TargetOfPrefix(names, args, last, m);
    }
    if Place(names, before).slots[i].Some? {
      var j :| HeldBy(names, before, i, j);
      assert Clash(names, args, j, last);
    } else {
      assert forall j | 0 <= j < last :: TargetOf(names, before, j) != Slot(i);
    }
  }

  lemma NoClashPrefix<T>(names: seq<string>, args: seq<Argument<T>>)
    requires args != []
    ensures NoClash(names, args) <==> NoClash(names, args[..|args| - 1]) && FreshAt(names, args, |args| - 1)
  {
    var last := |args| - 1;
    forall k | 0 <= k < last
      ensures FreshAt(names, args[..last], k) == FreshAt(names, args, k)
    {
      TargetOfPrefix(names, args, last, k);
      forall j | 0 <= j < k
        ensures Clash(names, args[..last], j, k) == Clash(names, args, j, k)
      {
        TargetOfPrefix(names, args, last, j);
      }
    }
  }

  lemma LastAddsOne<T>(names: seq<string>, args: seq<Argument<T>>)
    requires args != [] && FreshAt(names, args, |args| - 1)
    ensures multiset(Held(Place(names, args)))
      == multiset(Held(Place(names, args[..|args| - 1]))) + multiset{args[|args| - 1].value}
  {
    var last := |args| - 1;
    var target := TargetOf(names, args, last);
    if target.Slot? {
      LastIsFresh(names, args);
    }
    PutAddsOne(Place(names, args[..last]), target, args[last].value);
  }

  lemma ValuesOfLast<T>(args: seq<Argument<T>>)
    requires args != []
    ensures multiset(ValuesOf(args)) == multiset(ValuesOf(args[..|args| - 1])) + multiset{args[|args| - 1].value}
  {
    assert ValuesOf(args) == ValuesOf(args[..|args| - 1]) + [args[|args| - 1].value];
  }

  /** Without two arguments at one slot, the placement holds every argument exactly once. */
  lemma {:induction false} EveryArgumentExactlyOnce<T>(names: seq<string>, args: seq<Argument<T>>)
    requires NoClash(names, args)
    ensures multiset(Held(Place(names, args))) == multiset(ValuesOf(args))
    decreases |args|
  {
    if args == [] {
      NoneHeld<T>(|names|);
    } else {
      NoClashPrefix(names, args);
      EveryArgumentExactlyOnce(names, args[..|args| - 1]);
      LastAddsOne(names, args);
      ValuesOfLast(args);
    }
  }

  lemma PutAddsOne<T>(p: Placed<T>, target: Target, value: T)
    requires target.Slot? ==> target.index < |p.slots| && p.slots[target.index].None?
    ensures multiset(Held(Put(p, target, value))) == multiset(Held(p)) + multiset{value}
  {
    HeldTogether(p);
    HeldTogether(Put(p, target, value));
    if target.Slot? {
      SomesUpdate(p.slots, target.index, value);
    }
  }

  function Sum<T>(a: multiset<T>, b: multiset<T>, c: multiset<T>): multiset<T> {
    a + b + c
  }

  lemma HeldTogether<T>(p: Placed<T>)
    ensures multiset(Held(p)) == Sum(multiset(Somes(p.slots)), multiset(p.positional), multiset(p.named))
  {
  }

  lemma {:induction false} NoneHeld<T>(n: nat)
    ensures Somes<T>(seq(n, i => None)) == []
  {
    if n > 0 {
      assert seq<Option<T>>(n, i => None)[1..] == seq<Option<T>>(n - 1, i => None);
      NoneHeld<T>(n - 1);
    }
  }

  /** No argument is lost exactly when no two arguments target one slot. */
  lemma {:induction false} NothingIsLostExactlyWithoutClash<T>(names: seq<string>, args: seq<Argument<T>>)
    ensures |Held(Place(names, args))| <= |args|
    ensures |Held(Place(names, args))| == |args| <==> NoClash(names, args)
    decreases |args|
  {
    if args == [] {
      NoneHeld<T>(|names|);
    } else {
      var last := |args| - 1;
      var before := Place(names, args[..last]);
      NoClashPrefix(names, args);
      NothingIsLostExactlyWithoutClash(names, args[..last]);
      var target := TargetOf(names, args, last);
      if target.Slot? {
        LastIsFresh(names, args);
        SomesUpdate(before.slots, target.index, args[last].value);
      }
    }
  }

  // ---- the surplus keeps its source order ----

  /** The values of the arguments with a given target, in source order. */
  function Collected<T>(names: seq<string>, args: seq<Argument<T>>, target: Target): seq<T>
    decreases |args|
  {
    if args == [] then []
    else
      var k := |args| - 1;
      Collected(names, args[..k], target) + if TargetOf(names, args, k) == target then [args[k].value] else []
  }

  lemma {:induction false} SurplusKeepsSourceOrder<T>(names: seq<string>, args: seq<Argument<T>>)
    ensures Place(names, args).positional == Collected(names, args, PositionalSurplus)
    ensures Place(names, args).named == Collected(names, args, NamedSurplus)
    decreases |args|
  {
    if args != [] {
      SurplusKeepsSourceOrder(names, args[..|args| - 1]);
    }
  }

  // ---- where each argument lands ----

  /** `i` is the largest slot an argument before the k-th takes. */
  ghost predicate LargestBefore<T>(names: seq<string>, args: seq<Argument<T>>, k: nat, i: nat)
    requires k <= |args|
  {
    && (exists j :: 0 <= j < k && TargetOf(names, args, j) == Slot(i))
    && forall j | 0 <= j < k && TargetOf(names, args, j).Slot? :: TargetOf(names, args, j).index <= i
  }

  ghost predicate NoSlotBefore<T>(names: seq<string>, args: seq<Argument<T>>, k: nat)
    requires k <= |args|
  {
    forall j | 0 <= j < k :: !TargetOf(names, args, j).Slot?
  }

  ghost predicate RightBehind<T>(names: seq<string>, args: seq<Argument<T>>, k: nat, cursor: nat)
    requires k <= |args|
  {
    if NoSlotBefore(names, args, k) then cursor == 0 else cursor > 0 && LargestBefore(names, args, k, cursor - 1)
  }

  lemma StaysRightBehind<T>(names: seq<string>, args: seq<Argument<T>>, k: nat, cursor: nat)
    requires k < |args| && RightBehind(names, args, k, cursor)
    ensures RightBehind(names, args, k + 1, Advance(cursor, TargetOf(names, args, k)))
  {
    var target := TargetOf(names, args, k);
    if target.Slot? {
      if cursor <= target.index {
        assert LargestBefore(names, args, k + 1, target.index);
      } else {
        assert LargestBefore(names, args, k + 1, cursor - 1);
      }
    }
  }

  /** The cursor skips nothing: it stands right behind the largest slot taken. */
  lemma {:induction false} CursorIsNext<T>(names: seq<string>, args: seq<Argument<T>>, k: nat)
    requires k <= |args|
    ensures RightBehind(names, args, k, Cursor(names, args[..k]))
  {
    if k > 0 {
      CursorIsNext(names, args, k - 1);
      assert args[..k][..k - 1] == args[..k - 1];
      assert Cursor(names, args[..k]) == Advance(Cursor(names, args[..k - 1]), TargetOf(names, args, k - 1));
      StaysRightBehind(names, args, k - 1, Cursor(names, args[..k - 1]));
    }
  }

  /** A positional argument takes the slot right behind the largest one taken before it, the first if
      there is none, and is surplus when no slot is left. */
  lemma PositionalTakesTheNextSlot<T>(names: seq<string>, args: seq<Argument<T>>, k: nat, i: nat)
    requires k < |args| && args[k].Positional?
    requires if NoSlotBefore(names, args, k) then i == 0 else i > 0 && LargestBefore(names, args, k, i - 1)
    ensures TargetOf(names, args, k) == if i < |names| then Slot(i) else PositionalSurplus
  {
    CursorIsNext(names, args, k);
  }

  /** A named argument takes the slot of the first parameter of its name, wherever the cursor is. */
  lemma NamedTakesItsSlot<T>(names: seq<string>, args: seq<Argument<T>>, k: nat)
    requires k < |args| && args[k].Named?
    ensures args[k].name !in names ==> TargetOf(names, args, k) == NamedSurplus
    ensures forall i | 0 <= i < |names| && names[i] == args[k].name && args[k].name !in names[..i] ::
      TargetOf(names, args, k) == Slot(i)
  {
    var found := IndexOf(names, args[k].name);
    forall i | 0 <= i < |names| && names[i] == args[k].name && args[k].name !in names[..i]
      ensures found == Some(i)
    {
      assert names[i] in names;
      FirstIsUnique(names, i, found.value);
    }
  }

  lemma FirstIsUnique(names: seq<string>, i: nat, j: nat)
    requires i < |names| && j < |names| && names[i] == names[j] && names[i] !in names[..i] && names[j] !in names[..j]
    ensures i == j
  {
    if i < j {
      SeenBefore(names, i, j);
    } else if j < i {
      SeenBefore(names, j, i);
    }
  }

  lemma SeenBefore(names: seq<string>, i: nat, j: nat)
    requires i < j < |names|
    ensures names[i] in names[..j]
  {
    assert names[..j][i] == names[i];
  }

  predicate AllPositional<T>(args: seq<Argument<T>>) {
    forall k | 0 <= k < |args| :: args[k].Positional?
  }

  lemma {:induction false} CursorOfPositionals<T>(names: seq<string>, args: seq<Argument<T>>)
    requires AllPositional(args)
    ensures Cursor(names, args) == if |args| <= |names| then |args| else |names|
    decreases |args|
  {
    if args != [] {
      CursorOfPositionals(names, args[..|args| - 1]);
    }
  }

  /** The slots of a call that passes these values in order. */
  function InOrder<T>(n: nat, vs: seq<T>): seq<Option<T>> {
    seq(n, i requires 0 <= i < n => if i < |vs| then Some(vs[i]) else None)
  }

  function PastSlots<T>(n: nat, vs: seq<T>): seq<T> {
    if |vs| <= n then [] else vs[n..]
  }

  /** Each of them takes the slot of its own position, and those left over follow in order. */
  lemma {:induction false} PositionalsStayInPlace<T>(names: seq<string>, args: seq<Argument<T>>)
    requires AllPositional(args)
    ensures Place(names, args) == Placed(InOrder(|names|, ValuesOf(args)), PastSlots(|names|, ValuesOf(args)), [])
    decreases |args|
  {
    var n, vs := |names|, ValuesOf(args);
    if args == [] {
      assert InOrder(n, vs) == seq(n, i => None);
    } else {
      var last := |args| - 1;
      PositionalsStayInPlace(names, args[..last]);
      TargetOfLastPositional(names, args);
      ValuesOfFirst(args, last);
      PutInOrder(n, vs);
    }
  }

  lemma TargetOfLastPositional<T>(names: seq<string>, args: seq<Argument<T>>)
    requires AllPositional(args) && args != []
    ensures TargetOf(names, args, |args| - 1) == if |args| - 1 < |names| then Slot(|args| - 1) else PositionalSurplus
  {
    CursorOfPositionals(names, args[..|args| - 1]);
  }

  lemma ValuesOfFirst<T>(args: seq<Argument<T>>, n: nat)
    requires n <= |args|
    ensures ValuesOf(args[..n]) == ValuesOf(args)[..n]
  {
  }

  lemma PutInOrder<T>(n: nat, vs: seq<T>)
    requires vs != []
    ensures var last := |vs| - 1;
      Put(Placed(InOrder(n, vs[..last]), PastSlots(n, vs[..last]), []),
          if last < n then Slot(last) else PositionalSurplus, vs[last])
        == Placed(InOrder(n, vs), PastSlots(n, vs), [])
  {
    OneMoreValue(n, vs);
  }

  lemma OneMoreValue<T>(n: nat, vs: seq<T>)
    requires vs != []
    ensures var last := |vs| - 1;
      && InOrder(n, vs) == (if last < n then InOrder(n, vs[..last])[last := Some(vs[last])] else InOrder(n, vs[..last]))
      && PastSlots(n, vs) == PastSlots(n, vs[..last]) + if last < n then [] else [vs[last]]
  {
    var last := |vs| - 1;
    if last >= n {
      assert vs[n..] == vs[..last][n..] + [vs[last]];
    }
  }

  /** A call of positional arguments only is ordered as it is written, with gaps for the parameters it
      does not reach. */
  lemma PositionalsAreOrdered<T>(names: seq<string>, args: seq<Argument<T>>)
    requires AllPositional(args)
    ensures var ordered := Ordered(Place(names, args));
      && |ordered| == (if |args| >= |names| then |args| else |names|)
      && forall k | 0 <= k < |ordered| :: ordered[k] == if k < |args| then Some(args[k].value) else None
  {
    PositionalsStayInPlace(names, args);
    OrderedValues(|names|, ValuesOf(args));
  }

  lemma OrderedValues<T>(n: nat, vs: seq<T>)
    ensures var ordered := Ordered(Placed(InOrder(n, vs), PastSlots(n, vs), []));
      && |ordered| == (if |vs| >= n then |vs| else n)
      && forall k | 0 <= k < |ordered| :: ordered[k] == if k < |vs| then Some(vs[k]) else None
  {
    assert forall k | n <= k < |vs| :: PastSlots(n, vs)[k - n] == vs[k];
  }

  /** `f($a, $b, $c)` called as `f(1, c: 3, x: 9, 4)`: the named `c` moves the cursor past the end, so
      `b` stays open, and the surplus positional comes before the surplus named value. */
  lemma MixedCallExample()
    ensures Ordered(Place(["a", "b", "c"], [Positional(1), Named("c", 3), Named("x", 9), Positional(4)]))
      == [Some(1), None, Some(3), Some(4), Some(9)]
  {
    var names := ["a", "b", "c"];
    var args: seq<Argument<int>> := [Positional(1), Named("c", 3), Named("x", 9), Positional(4)];
    assert args[..4] == args && args[..3][..2] == args[..2] && args[..2][..1] == args[..1];
    assert names[1..] == ["b", "c"] && names[1..][1..] == ["c"] && names[1..][1..][1..] == [];
    assert IndexOf(names, "c") == Some(2) && IndexOf(names, "x") == None;
    assert Cursor(names, args[..1]) == 1 && Cursor(names, args[..2]) == 3 && Cursor(names, args[..3]) == 3;
    var p0, p1 := Place(names, args[..0]), Place(names, args[..1]);
    var p2, p3 := Place(names, args[..2]), Place(names, args[..3]);
    assert p0.slots == [None, None, None] && p1.slots == [Some(1), None, None] && p2.slots == [Some(1), None, Some(3)];
    assert p3 == Placed([Some(1), None, Some(3)], [], [9]);
    assert Place(names, args) == Placed([Some(1), None, Some(3)], [4], [9]);
  }
}
