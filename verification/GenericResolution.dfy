/** What a spelled type argument means: the checker's resolution of written types, which gives an
    argument's own type back. */
module GenericResolution {
  import opened Wrappers
  import opened GenericTypes
  import opened TypeGrammar
  import opened GenericTerms
  import opened GenericSharing
  import opened GenericInference
  import opened GenericFit

  // ---- unions ----

  /** The members of a union, one level deep. */
  function Flattened(ms: seq<PhpType>): seq<PhpType> {
    if ms == [] then []
    else (if ms[0].PUnion? then ms[0].members else [ms[0]]) + Flattened(ms[1..])
  }

  function Without(ms: seq<PhpType>, x: PhpType): (r: seq<PhpType>)
    ensures |r| <= |ms|
  {
    if ms == [] then [] else (if ms[0] == x then [] else [ms[0]]) + Without(ms[1..], x)
  }

  /** One more member: `false` adds nothing to `bool`, which takes its place. */
  function Joined(kept: seq<PhpType>, m: PhpType): seq<PhpType> {
    if m == PFalse && PBool in kept then kept
    else
      var rest := if m == PBool then Without(kept, PFalse) else kept;
      if m in rest then rest else rest + [m]
  }

  function Deduplicated(ms: seq<PhpType>): seq<PhpType> {
    if ms == [] then [] else Joined(Deduplicated(ms[..|ms| - 1]), ms[|ms| - 1])
  }

  /** `normalize_union_members`. */
  function NormalizeMembers(ms: seq<PhpType>): PhpType {
    if PMixed in ms then PMixed
    else
      var kept := Deduplicated(Flattened(ms));
      if |kept| == 1 then kept[0] else PUnion(kept)
  }

  // ---- resolution ----

  /** The interface names that are resolved whether declared or not. */
  function CanonicalInterface(name: string): Option<string> {
    var lower := LowerAll(TrimRoots(name));
    if lower == "traversable" then Some("Traversable")
    else if lower == "iterator" then Some("Iterator")
    else if lower == "iteratoraggregate" then Some("IteratorAggregate")
    else None
  }

  const PHP_ARRAY: PhpType := PUnion([PArray(PMixed), PAssoc(PMixed, PMixed)])

  /** What a name means by itself; `self`, `static` and `parent` mean nothing outside a class. */
  function WordType(lower: string): Option<Option<PhpType>> {
    if lower == "string" then Some(Some(PStr))
    else if lower == "mixed" then Some(Some(PMixed))
    else if lower == "callable" || lower == "closure" then Some(Some(PCallable))
    else if lower == "object" then Some(Some(PObject("")))
    else if lower == "void" || lower == "null" then Some(Some(PVoid))
    else if lower == "array" then Some(Some(PHP_ARRAY))
    else if lower == "self" || lower == "static" || lower == "parent" then Some(None)
    else None
  }

  function ResolveName(classes: set<string>, packed: set<string>, name: string): Option<PhpType> {
    match CanonicalInterface(name)
    case Some(interface) => Some(PObject(interface))
    case None =>
      match WordType(LowerAll(name))
      case Some(meaning) => meaning
      case None =>
        if name in classes then Some(PObject(name))
        else if name in packed then Some(PPacked(name))
        else None
  }

  /** `resolve_type_expr`, given the declared classes and interfaces and the packed classes. Pointers and
      buffers, which no inferred argument contains, are not part of this model. */
  function Resolve(classes: set<string>, packed: set<string>, t: TypeExpr): Option<PhpType>
    decreases t
  {
    match t
    case TInt => Some(PInt)
    case TFloat => Some(PFloat)
    case TBool => Some(PBool)
    case TFalse => Some(PFalse)
    case TStr => Some(PStr)
    case TVoid => Some(PVoid)
    case TNever => Some(PNever)
    case TIterable => Some(PIterable)
    case TCallable(_, _) => Some(PCallable)
    case TGeneric(_, _) => Some(PObject(Describe(t)))
    case TNamed(n) => ResolveName(classes, packed, Text(n))
    case TArray(e) => (match Resolve(classes, packed, e) case Some(x) => Some(PArray(x)) case None => None)
    case TAssoc(k, v) =>
      (match Resolve(classes, packed, k)
       case Some(x) =>
         if x != PInt && x != PStr && x != PMixed then None
         else (match Resolve(classes, packed, v) case Some(y) => Some(PAssoc(x, y)) case None => None)
       case None => None)
    case TNullable(e) =>
      (match Resolve(classes, packed, e) case Some(x) => Some(NormalizeMembers([x, PVoid])) case None => None)
    case TUnion(ms) =>
      (match ResolveAll(classes, packed, ms) case Some(xs) => Some(NormalizeMembers(xs)) case None => None)
    case TIntersection(ms) =>
      (match ResolveAll(classes, packed, ms)
       case Some(xs) => Some(if xs == [] then PMixed else xs[0])
       case None => None)
    case _ => None
  }

  function ResolveAll(classes: set<string>, packed: set<string>, ts: seq<TypeExpr>): (r: Option<seq<PhpType>>)
    ensures r.Some? ==> |r.value| == |ts|
    decreases ts
  {
    if ts == [] then Some([])
    else
      match Resolve(classes, packed, ts[0])
      case None => None
      case Some(x) =>
        match ResolveAll(classes, packed, ts[1..])
        case None => None
        case Some(xs) => Some([x] + xs)
  }

  // ---- which types have no spelling ----

  /** Buffers, packed classes, pointers, resources and the two representations of the backend. */
  predicate Unspellable(a: PhpType)
    decreases a
  {
    match a
    case PArray(e) => Unspellable(e)
    case PAssoc(k, v) => Unspellable(k) || Unspellable(v)
    case PUnion(ms) => AnyUnspellable(ms)
    case _ => a.PBuffer? || a.PPacked? || a.PPointer? || a.PResource? || a.PNarrow? || a.PTaggedScalar?
  }

  predicate AnyUnspellable(ms: seq<PhpType>)
    decreases ms
  {
    ms != [] && (Unspellable(ms[0]) || AnyUnspellable(ms[1..]))
  }

  lemma {:induction false} UnspellableExactly(a: PhpType)
    ensures SpelledType(a).None? <==> Unspellable(a)
    decreases a
  {
    match a
    case PArray(e) => UnspellableExactly(e);
    case PAssoc(k, v) => UnspellableExactly(k); UnspellableExactly(v);
    case PUnion(ms) => UnspellableMembers(ms);
    case _ =>
  }

  lemma {:induction false} UnspellableMembers(ms: seq<PhpType>)
    ensures SpelledTypes(ms).None? <==> AnyUnspellable(ms)
    decreases ms
  {
    if ms != [] {
      UnspellableExactly(ms[0]);
      UnspellableMembers(ms[1..]);
    }
  }

  // ---- which spellings mean the type again ----

  /** A declared class that no word and no interface name hides. */
  predicate OrdinaryClass(classes: set<string>, packed: set<string>, name: string) {
    ResolveName(classes, packed, name) == Some(PObject(name))
  }

  /** No two members alike, none a union or `mixed`, and `false` not beside `bool`. */
  predicate IsNormalUnion(ms: seq<PhpType>) {
    && |ms| != 1
    && (forall i | 0 <= i < |ms| :: !ms[i].PUnion? && !ms[i].PMixed?)
    && (forall i, j | 0 <= i < j < |ms| :: ms[i] != ms[j])
    && !(PFalse in ms && PBool in ms)
  }

  /** The types the checker holds: classes are declared, keys are legal and unions normalised. */
  predicate Held(classes: set<string>, packed: set<string>, a: PhpType)
    decreases a
  {
    match a
    case PObject(name) => OrdinaryClass(classes, packed, name)
    case PArray(e) => Held(classes, packed, e)
    case PAssoc(k, v) =>
      (k == PInt || k == PStr || k == PMixed) && Held(classes, packed, k) && Held(classes, packed, v)
    case PUnion(ms) => IsNormalUnion(ms) && HeldAll(classes, packed, ms)
    case _ => true
  }

  predicate HeldAll(classes: set<string>, packed: set<string>, ms: seq<PhpType>)
    decreases ms
  {
    ms == [] || (Held(classes, packed, ms[0]) && HeldAll(classes, packed, ms[1..]))
  }

  lemma {:induction false} FlatMembers(ms: seq<PhpType>)
    requires forall i | 0 <= i < |ms| :: !ms[i].PUnion?
    ensures Flattened(ms) == ms
  {
    if ms != [] {
      FlatMembers(ms[1..]);
      assert ms == [ms[0]] + ms[1..];
    }
  }

  lemma {:induction false} WithoutAbsent(ms: seq<PhpType>, x: PhpType)
    requires x !in ms
    ensures Without(ms, x) == ms
  {
    if ms != [] {
      WithoutAbsent(ms[1..], x);
      assert ms == [ms[0]] + ms[1..];
    }
  }

  lemma {:induction false} DistinctStay(ms: seq<PhpType>)
    requires (forall i, j | 0 <= i < j < |ms| :: ms[i] != ms[j]) && !(PFalse in ms && PBool in ms)
    ensures Deduplicated(ms) == ms
    decreases |ms|
  {
    if ms != [] {
      var n := |ms| - 1;
      DistinctStay(ms[..n]);
      assert ms == ms[..n] + [ms[n]] && ms[n] !in ms[..n];
      if ms[n] == PBool {
        assert PFalse !in ms[..n];
        WithoutAbsent(ms[..n], PFalse);
      }
    }
  }

  lemma NormalStays(ms: seq<PhpType>)
    requires IsNormalUnion(ms)
    ensures NormalizeMembers(ms) == PUnion(ms)
  {
    assert PMixed !in ms;
    FlatMembers(ms);
    DistinctStay(ms);
  }

  predicate IsComposite(a: PhpType) {
    a.PArray? || a.PAssoc? || a.PUnion?
  }

  lemma SimpleResolvesBack(classes: set<string>, packed: set<string>, a: PhpType)
    requires !IsComposite(a) && Held(classes, packed, a) && SpelledType(a).Some?
    ensures Resolve(classes, packed, SpelledType(a).value) == Some(a)
  {
    if a.PObject? {
      assert Text(Bare(a.name)) == a.name && Text(Name(FullyQualified, [a.name])) == a.name;
    } else {
      WordsMeanThemselves(classes, packed);
    }
  }

  /** The spelling of a type the checker holds means that type again. */
  lemma {:induction false} SpellingResolvesBack(classes: set<string>, packed: set<string>, a: PhpType)
    requires Held(classes, packed, a) && SpelledType(a).Some?
    ensures Resolve(classes, packed, SpelledType(a).value) == Some(a)
    decreases a
  {
    match a
    case PArray(e) => SpellingResolvesBack(classes, packed, e);
    case PAssoc(k, v) => SpellingResolvesBack(classes, packed, k); SpellingResolvesBack(classes, packed, v);
    case PUnion(ms) => SpellingsResolveBack(classes, packed, ms); NormalStays(ms);
    case _ => SimpleResolvesBack(classes, packed, a);
  }

  lemma WordsMeanThemselves(classes: set<string>, packed: set<string>)
    ensures ResolveName(classes, packed, Text(Bare("mixed"))) == Some(PMixed)
    ensures ResolveName(classes, packed, Text(Bare("callable"))) == Some(PCallable)
  {
    assert Text(Bare("mixed")) == "mixed" && Text(Bare("callable")) == "callable";
    assert LowerAll("mixed") == "mixed" && LowerAll("callable") == "callable";
  }

  lemma {:induction false} SpellingsResolveBack(classes: set<string>, packed: set<string>, ms: seq<PhpType>)
    requires HeldAll(classes, packed, ms) && SpelledTypes(ms).Some?
    ensures ResolveAll(classes, packed, SpelledTypes(ms).value) == Some(ms)
    decreases ms
  {
    if ms != [] {
      SpellingResolvesBack(classes, packed, ms[0]);
      SpellingsResolveBack(classes, packed, ms[1..]);
      var ts := SpelledTypes(ms).value;
      assert ts[1..] == SpelledTypes(ms[1..]).value && ms == [ms[0]] + ms[1..];
    }
  }

  // ---- and which do not ----

  /** What resolution can answer: as the checker holds types, but for the nameless `object`. */
  predicate Answered(classes: set<string>, packed: set<string>, a: PhpType)
    decreases a
  {
    match a
    case PObject(name) => name == "" || OrdinaryClass(classes, packed, name)
    case PArray(e) => Answered(classes, packed, e)
    case PAssoc(k, v) =>
      (k == PInt || k == PStr || k == PMixed) && Answered(classes, packed, k) && Answered(classes, packed, v)
    case PUnion(ms) => IsNormalUnion(ms) && AllAnswered(classes, packed, ms)
    case _ => true
  }

  predicate AllAnswered(classes: set<string>, packed: set<string>, ms: seq<PhpType>)
    decreases ms
  {
    ms == [] || (Answered(classes, packed, ms[0]) && AllAnswered(classes, packed, ms[1..]))
  }

  lemma {:induction false} AnsweredAt(classes: set<string>, packed: set<string>, ms: seq<PhpType>)
    ensures AllAnswered(classes, packed, ms) <==> forall i | 0 <= i < |ms| :: Answered(classes, packed, ms[i])
  {
    if ms != [] {
      AnsweredAt(classes, packed, ms[1..]);
      assert forall i | 1 <= i < |ms| :: ms[i] == ms[1..][i - 1];
    }
  }

  lemma {:induction false} FlattenedFacts(classes: set<string>, packed: set<string>, ms: seq<PhpType>)
    requires AllAnswered(classes, packed, ms) && PMixed !in ms
    ensures forall m | m in Flattened(ms) :: Answered(classes, packed, m) && !m.PUnion? && !m.PMixed?
  {
    if ms != [] {
      assert ms[0] != PMixed;
      FlattenedFacts(classes, packed, ms[1..]);
      if ms[0].PUnion? {
        AnsweredAt(classes, packed, ms[0].members);
      }
    }
  }

  predicate Distinct(ms: seq<PhpType>) {
    forall i, j | 0 <= i < j < |ms| :: ms[i] != ms[j]
  }

  lemma {:induction false} WithoutFacts(ms: seq<PhpType>, x: PhpType)
    requires Distinct(ms)
    ensures forall m :: m in Without(ms, x) <==> m in ms && m != x
    ensures Distinct(Without(ms, x))
  {
    if ms != [] {
      var rest := Without(ms[1..], x);
      assert Distinct(ms[1..]);
      WithoutFacts(ms[1..], x);
      assert forall m :: m in ms <==> m == ms[0] || m in ms[1..];
      assert ms[0] !in rest && Distinct([ms[0]] + rest);
    }
  }

  lemma JoinedFacts(kept: seq<PhpType>, m: PhpType)
    requires Distinct(kept) && !(PFalse in kept && PBool in kept)
    ensures Distinct(Joined(kept, m)) && !(PFalse in Joined(kept, m) && PBool in Joined(kept, m))
    ensures forall x | x in Joined(kept, m) :: x in kept || x == m
  {
    WithoutFacts(kept, PFalse);
    var rest := if m == PBool then Without(kept, PFalse) else kept;
    assert Distinct(rest);
    if m !in rest {
      assert Distinct(rest + [m]);
    }
  }

  lemma {:induction false} DeduplicatedFacts(ms: seq<PhpType>)
    ensures Distinct(Deduplicated(ms)) && !(PFalse in Deduplicated(ms) && PBool in Deduplicated(ms))
    ensures forall m | m in Deduplicated(ms) :: m in ms
    decreases |ms|
  {
    if ms != [] {
      var n := |ms| - 1;
      DeduplicatedFacts(ms[..n]);
      JoinedFacts(Deduplicated(ms[..n]), ms[n]);
      assert forall m :: m in ms[..n] || m == ms[n] ==> m in ms;
    }
  }

  lemma NormalizedIsAnswered(classes: set<string>, packed: set<string>, ms: seq<PhpType>)
    requires AllAnswered(classes, packed, ms)
    ensures Answered(classes, packed, NormalizeMembers(ms))
  {
    if PMixed !in ms {
      var kept := Deduplicated(Flattened(ms));
      FlattenedFacts(classes, packed, ms);
      DeduplicatedFacts(Flattened(ms));
      AnsweredAt(classes, packed, kept);
      forall i | 0 <= i < |kept| ensures Answered(classes, packed, kept[i]) && !kept[i].PUnion? && !kept[i].PMixed? {
        assert kept[i] in kept;
      }
    }
  }

  lemma NameIsAnswered(classes: set<string>, packed: set<string>, name: string)
    requires ResolveName(classes, packed, name).Some?
    ensures Answered(classes, packed, ResolveName(classes, packed, name).value)
  {
    match CanonicalInterface(name)
    case Some(_) => InterfacesAreOrdinary(classes, packed);
    case None =>
      var word := WordType(LowerAll(name));
      if word.Some? {
        PhpArrayIsAnswered(classes, packed);
        assert word.value.value == PHP_ARRAY || !IsComposite(word.value.value);
      }
  }

  lemma PhpArrayIsAnswered(classes: set<string>, packed: set<string>)
    ensures Answered(classes, packed, PHP_ARRAY)
  {
    var parts := [PArray(PMixed), PAssoc(PMixed, PMixed)];
    AnsweredAt(classes, packed, parts);
    assert PHP_ARRAY == PUnion(parts) && IsNormalUnion(parts);
  }

  lemma InterfacesAreOrdinary(classes: set<string>, packed: set<string>)
    ensures OrdinaryClass(classes, packed, "Traversable") && OrdinaryClass(classes, packed, "Iterator")
    ensures OrdinaryClass(classes, packed, "IteratorAggregate")
  {
    assert LowerAll("Traversable") == "traversable" && LowerAll("Iterator") == "iterator";
    assert LowerAll("IteratorAggregate") == "iteratoraggregate";
    assert TrimRoots("Traversable") == "Traversable" && TrimRoots("Iterator") == "Iterator";
    assert TrimRoots("IteratorAggregate") == "IteratorAggregate";
  }

  lemma {:induction false} ResolvedIsAnswered(classes: set<string>, packed: set<string>, a: PhpType)
    requires SpelledType(a).Some? && Resolve(classes, packed, SpelledType(a).value).Some?
    ensures Answered(classes, packed, Resolve(classes, packed, SpelledType(a).value).value)
    decreases a
  {
    match a
    case PObject(name) =>
      assert Text(Bare(name)) == name && Text(Name(FullyQualified, [name])) == name;
      NameIsAnswered(classes, packed, name);
    case PMixed => WordsMeanThemselves(classes, packed);
    case PCallable => WordsMeanThemselves(classes, packed);
    case PArray(e) => ResolvedIsAnswered(classes, packed, e);
    case PAssoc(k, v) => ResolvedIsAnswered(classes, packed, k); ResolvedIsAnswered(classes, packed, v);
    case PUnion(ms) =>
      ResolvedAreAnswered(classes, packed, ms);
      NormalizedIsAnswered(classes, packed, ResolveAll(classes, packed, SpelledTypes(ms).value).value);
    case _ =>
  }

  lemma {:induction false} ResolvedAreAnswered(classes: set<string>, packed: set<string>, ms: seq<PhpType>)
    requires SpelledTypes(ms).Some? && ResolveAll(classes, packed, SpelledTypes(ms).value).Some?
    ensures AllAnswered(classes, packed, ResolveAll(classes, packed, SpelledTypes(ms).value).value)
    decreases ms
  {
    if ms != [] {
      var ts := SpelledTypes(ms).value;
      assert ts[1..] == SpelledTypes(ms[1..]).value;
      ResolvedIsAnswered(classes, packed, ms[0]);
      ResolvedAreAnswered(classes, packed, ms[1..]);
      var xs := ResolveAll(classes, packed, ts).value;
      assert xs[1..] == ResolveAll(classes, packed, ts[1..]).value;
    }
  }

  /** The nameless class has no spelling that means anything. */
  lemma NamelessMeansNothing(classes: set<string>, packed: set<string>)
    requires "" !in classes && "" !in packed
    ensures ResolveName(classes, packed, "") == None
  {
    assert LowerAll("") == "" && TrimRoots("") == "";
  }

  lemma {:induction false} AnsweredIsHeld(classes: set<string>, packed: set<string>, a: PhpType)
    requires "" !in classes && "" !in packed && Answered(classes, packed, a)
    requires SpelledType(a).Some? && Resolve(classes, packed, SpelledType(a).value).Some?
    ensures Held(classes, packed, a)
    decreases a
  {
    match a
    case PObject(name) => assert Text(Bare(name)) == name; NamelessMeansNothing(classes, packed);
    case PArray(e) => AnsweredIsHeld(classes, packed, e);
    case PAssoc(k, v) => AnsweredIsHeld(classes, packed, k); AnsweredIsHeld(classes, packed, v);
    case PUnion(ms) => AnsweredAreHeld(classes, packed, ms);
    case _ =>
  }

  lemma {:induction false} AnsweredAreHeld(classes: set<string>, packed: set<string>, ms: seq<PhpType>)
    requires "" !in classes && "" !in packed && AllAnswered(classes, packed, ms)
    requires SpelledTypes(ms).Some? && ResolveAll(classes, packed, SpelledTypes(ms).value).Some?
    ensures HeldAll(classes, packed, ms)
    decreases ms
  {
    if ms != [] {
      assert SpelledTypes(ms).value[1..] == SpelledTypes(ms[1..]).value;
      AnsweredIsHeld(classes, packed, ms[0]);
      AnsweredAreHeld(classes, packed, ms[1..]);
    }
  }

  /** The spelling of a type means that type again exactly for the types the checker holds: ordinary
      declared classes, legal keys and normalised unions. */
  lemma SpellingResolvesExactly(classes: set<string>, packed: set<string>, a: PhpType)
    requires "" !in classes && "" !in packed && SpelledType(a).Some?
    ensures Resolve(classes, packed, SpelledType(a).value) == Some(a) <==> Held(classes, packed, a)
  {
    if Held(classes, packed, a) {
      SpellingResolvesBack(classes, packed, a);
    }
    if Resolve(classes, packed, SpelledType(a).value) == Some(a) {
      ResolvedIsAnswered(classes, packed, a);
      AnsweredIsHeld(classes, packed, a);
    }
  }

  /** An argument declared `object` is held as the nameless class, whose spelling means nothing. */
  lemma ObjectHasNoSpelling(classes: set<string>, packed: set<string>)
    requires "" !in classes && "" !in packed
    ensures Resolve(classes, packed, TNamed(Bare("object"))) == Some(PObject(""))
    ensures SpelledType(PObject("")).Some? && Resolve(classes, packed, SpelledType(PObject("")).value) == None
  {
    assert Text(Bare("object")) == "object" && Text(Bare("")) == "" && LowerAll("object") == "object";
    assert TrimRoots("object") == "object";
    NamelessMeansNothing(classes, packed);
  }

  // ---- what inference binds ----

  /** `f<T>(T $x)`, called with an argument of type `a`. */
  function PlainCall(p: string, a: PhpType): Call {
    Call([Some(TNamed(Bare(p)))], [a], [])
  }

  lemma PlainCallDemands(p: string, a: PhpType)
    ensures CallDemands([p], PlainCall(p, a)) == [Demand(p, SpelledTerm(a))]
  {
    var call := PlainCall(p, a);
    var only := [Demand(p, SpelledTerm(a))];
    NamedDemand(p, a);
    NoClosureDemands([p], call);
    assert TypePhase([p], call) == [only] && [only][1..] == [];
  }

  /** A plain parameter is bound to a type that means its argument's type again, and to nothing exactly
      when that has no spelling. */
  lemma PlainParameterIsTheArgument(classes: set<string>, packed: set<string>, p: string, a: PhpType)
    requires Held(classes, packed, a) && GoodType(a)
    ensures var r := AddAll([], CallDemands([p], PlainCall(p, a)));
      if Unspellable(a) then r == Err(InferError.Unspellable(p))
      else (r.Ok? && |r.value| == 1 && r.value[0].param == p
        && Resolve(classes, packed, FromShared(r.value[0].ty)) == Some(a))
  {
    PlainCallDemands(p, a);
    UnspellableExactly(a);
    var ds := [Demand(p, SpelledTerm(a))];
    assert ds[1..] == [];
    if !Unspellable(a) {
      OneDemand(p, SpelledTerm(a).value);
      assert ds + [] == ds;
      SpelledIsKept(a);
      SpellingResolvesBack(classes, packed, a);
    }
  }
}
