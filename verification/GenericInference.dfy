/** Inference of type arguments at a call: the walk of each declared parameter type against the
    type of its argument, and what the inferred arguments mean for both. */
module GenericInference {
  import opened Wrappers
  import opened GenericTypes
  import opened TypeGrammar
  import opened GenericTerms
  import opened GenericSharing

  datatype PhpType =
    | PInt | PFloat | PStr | PBool | PFalse | PVoid | PNever | PIterable | PMixed | PCallable | PNarrow | PTaggedScalar
    | PArray(elem: PhpType)
    | PAssoc(key: PhpType, value: PhpType)
    | PBuffer(elem: PhpType)
    | PObject(name: string)
    | PPacked(name: string)
    | PPointer(target: Option<string>)
    | PResource(kind: Option<string>)
    | PUnion(members: seq<PhpType>)

  function SpelledClass(name: string): TypeExpr {
    if IsCWidth(name) then TNamed(Name(FullyQualified, [name])) else TNamed(Bare(name))
  }

  /** The type expression that denotes a type, or nothing when it has no source spelling. */
  function SpelledType(ty: PhpType): Option<TypeExpr>
    decreases ty
  {
    match ty
    case PInt => Some(TInt)
    case PFloat => Some(TFloat)
    case PStr => Some(TStr)
    case PBool => Some(TBool)
    case PFalse => Some(TFalse)
    case PVoid => Some(TVoid)
    case PNever => Some(TNever)
    case PIterable => Some(TIterable)
    case PMixed => Some(TNamed(Bare("mixed")))
    case PCallable => Some(TNamed(Bare("callable")))
    case PObject(name) => Some(SpelledClass(name))
    case PArray(e) => (match SpelledType(e) case Some(x) => Some(TArray(x)) case None => None)
    case PAssoc(k, v) =>
      (match SpelledType(k)
       case Some(x) => (match SpelledType(v) case Some(y) => Some(TAssoc(x, y)) case None => None)
       case None => None)
    case PUnion(ms) => (match SpelledTypes(ms) case Some(xs) => Some(TUnion(xs)) case None => None)
    case _ => None
  }

  function SpelledTypes(tys: seq<PhpType>): Option<seq<TypeExpr>>
    decreases tys
  {
    if tys == [] then Some([])
    else
      match SpelledType(tys[0])
      case None => None
      case Some(x) => (match SpelledTypes(tys[1..]) case Some(xs) => Some([x] + xs) case None => None)
  }

  /** The declared class type an argument of an instantiated class is matched against. */
  function Instantiation(a: PhpType, head: Name, arity: nat): (r: Option<seq<TypeExpr>>)
    ensures r.Some? ==> |r.value| == arity
  {
    if !a.PObject? then None
    else
      match InstantiatedType(a.name)
      case Some(TGeneric(n, args)) => if SameHead(Text(n), Text(head)) && |args| == arity then Some(args) else None
      case _ => None
  }

  /** Whether a type parameter occurs where substitution would replace it. */
  predicate Mentions(names: seq<string>, d: TypeExpr)
    decreases d
  {
    match d
    case TNamed(n) => Text(n) in names
    case TNullable(e) => Mentions(names, e)
    case TArray(e) => Mentions(names, e)
    case TBuffer(e) => Mentions(names, e)
    case TAssoc(k, v) => Mentions(names, k) || Mentions(names, v)
    case TUnion(ms) => MentionedIn(names, ms)
    case TIntersection(ms) => MentionedIn(names, ms)
    case TGeneric(_, args) => MentionedIn(names, args)
    case TCallable(params, ret) => MentionedIn(names, params) || Mentions(names, ret)
    case _ => false
  }

  predicate MentionedIn(names: seq<string>, ds: seq<TypeExpr>)
    decreases ds
  {
    ds != [] && (Mentions(names, ds[0]) || MentionedIn(names, ds[1..]))
  }

  // ---- what a declaration demands of an argument's type ----

  function SpelledTerm(a: PhpType): Option<Term> {
    match SpelledType(a) case Some(t) => Some(ToShared(t)) case None => None
  }

  function TypeDemands(names: seq<string>, d: TypeExpr, a: PhpType): seq<Demand>
    decreases d
  {
    match d
    case TNamed(n) => if Text(n) in names then [Demand(Text(n), SpelledTerm(a))] else []
    case TNullable(e) => TypeDemands(names, e, a)
    case TArray(e) => if a.PArray? then TypeDemands(names, e, a.elem) else []
    case TAssoc(k, v) => if a.PAssoc? then TypeDemands(names, k, a.key) + TypeDemands(names, v, a.value) else []
    case TGeneric(n, args) => InstanceDemands(names, args, Instantiation(a, n, |args|))
    case _ => []
  }

  /** What an argument of an instantiated class demands of a declared class's arguments. */
  function InstanceDemands(names: seq<string>, args: seq<TypeExpr>, instance: Option<seq<TypeExpr>>): seq<Demand>
    requires instance.Some? ==> |instance.value| == |args|
  {
    match instance
    case Some(actual) => DemandsAll(names, ToSharedAll(args), ToSharedAll(actual))
    case None => []
  }

  // ---- the compiler's own walk ----

  datatype Bound = Bound(param: string, ty: TypeExpr)

  function Lookup(bound: seq<Bound>, param: string): Option<TypeExpr> {
    if bound == [] then None
    else if bound[0].param == param then Some(bound[0].ty)
    else Lookup(bound[1..], param)
  }

  function View(bound: seq<Bound>): (r: seq<Binding>)
    ensures |r| == |bound|
  {
    seq(|bound|, i requires 0 <= i < |bound| => Binding(bound[i].param, ToShared(bound[i].ty)))
  }

  function Back(bs: seq<Binding>): (r: seq<Bound>)
    ensures |r| == |bs|
  {
    seq(|bs|, i requires 0 <= i < |bs| => Bound(bs[i].param, FromShared(bs[i].ty)))
  }

  /** Every bound type is one the shared vocabulary carries unchanged. */
  predicate Settled(bound: seq<Bound>) {
    forall i | 0 <= i < |bound| :: Kept(bound[i].ty)
  }

  lemma {:induction false} LookupIsFind(bound: seq<Bound>, p: string)
    ensures Find(View(bound), p) == match Lookup(bound, p) case Some(t) => Some(ToShared(t)) case None => None
    ensures Settled(bound) && Lookup(bound, p).Some? ==> Kept(Lookup(bound, p).value)
  {
    if bound != [] {
      assert View(bound)[1..] == View(bound[1..]);
      assert Settled(bound) ==> Settled(bound[1..]);
      LookupIsFind(bound[1..], p);
    }
  }

  predicate AllProper(bs: seq<Binding>) {
    forall i | 0 <= i < |bs| :: Proper(bs[i].ty)
  }

  lemma BackIsSettled(bs: seq<Binding>)
    requires AllProper(bs)
    ensures Settled(Back(bs)) && View(Back(bs)) == bs
  {
    forall i | 0 <= i < |bs|
      ensures Kept(Back(bs)[i].ty) && View(Back(bs))[i] == bs[i]
    {
      FromSharedBack(bs[i].ty);
      FromSharedIsKept(bs[i].ty);
    }
  }

  predicate ProperDemands(ds: seq<Demand>) {
    forall i | 0 <= i < |ds| && ds[i].ty.Some? :: Proper(ds[i].ty.value)
  }

  lemma {:induction false} AddAllKeepsProper(bs: seq<Binding>, ds: seq<Demand>)
    requires AllProper(bs) && ProperDemands(ds)
    ensures AddAll(bs, ds).Ok? ==> AllProper(AddAll(bs, ds).value)
    decreases |ds|
  {
    if ds != [] {
      match Add(bs, ds[0])
      case Ok(more) =>
        assert AllProper(more);
        assert ProperDemands(ds[1..]);
        AddAllKeepsProper(more, ds[1..]);
      case Err(_) =>
    }
  }

  /** The demands of a term are parts of the actual one. */
  lemma {:induction false} DemandsAreProper(names: seq<string>, d: Term, a: Term)
    requires Proper(a)
    ensures ProperDemands(Demands(names, d, a))
    decreases d
  {
    match d
    case Nullable(inner) => DemandsAreProper(names, inner, a);
    case Apply(head, args) =>
      if a.Apply? && SameHead(head, a.head) && |args| == |a.args| {
        AllDemandsAreProper(names, args, a.args);
      }
    case _ =>
  }

  lemma {:induction false} AllDemandsAreProper(names: seq<string>, ds: seq<Term>, actual: seq<Term>)
    requires |ds| == |actual| && ProperAll(actual)
    ensures ProperDemands(DemandsAll(names, ds, actual))
    decreases ds
  {
    if ds != [] {
      DemandsAreProper(names, ds[0], actual[0]);
      AllDemandsAreProper(names, ds[1..], actual[1..]);
    }
  }

  lemma {:induction false} SharedAt(ts: seq<TypeExpr>, i: nat)
    requires i < |ts|
    ensures ToSharedAll(ts)[i] == ToShared(ts[i])
  {
    if i > 0 {
      SharedAt(ts[1..], i - 1);
    }
  }

  lemma {:induction false} ProperAt(ts: seq<Term>, i: nat)
    requires ProperAll(ts) && i < |ts|
    ensures Proper(ts[i])
  {
    if i > 0 {
      ProperAt(ts[1..], i - 1);
    }
  }

  /** The outcome of a compiler-side walk is that of the shared one, seen through the conversion. */
  predicate Outcome(r: Result<seq<Bound>, InferError>, expected: Result<seq<Binding>, InferError>) {
    match expected
    case Ok(bs) => r.Ok? && Settled(r.value) && View(r.value) == bs
    case Err(e) => r == Err(e)
  }

  /** Unifies a declared type against a type argument that is itself a type expression. */
  method UnifyTypeExprs(names: seq<string>, declared: TypeExpr, actual: TypeExpr, bound: seq<Bound>)
    returns (r: Result<seq<Bound>, InferError>)
    ensures Settled(bound) && Proper(ToShared(actual)) ==>
      Outcome(r, AddAll(View(bound), Demands(names, ToShared(declared), ToShared(actual))))
  {
    var bindings := Unify(names, ToShared(declared), ToShared(actual), View(bound));
    ghost var ds := Demands(names, ToShared(declared), ToShared(actual));
    match bindings
    case Err(e) => r := Err(e);
    case Ok(bs) =>
      if Settled(bound) && Proper(ToShared(actual)) {
        DemandsAreProper(names, ToShared(declared), ToShared(actual));
        AddAllKeepsProper(View(bound), ds);
        BackIsSettled(bs);
      }
      r := Ok(Back(bs));
  }

  // ---- types whose class names survive the conversion ----

  /** A class name that is no built-in type word of the shared vocabulary and has no leading root;
      what it decodes to, if anything, is spelled the same way. */
  predicate GoodName(name: string) {
    && !HasRoot(name) && !IsBuiltInAtom(name)
    && (InstantiatedType(name).Some? ==> Proper(ToShared(InstantiatedType(name).value)))
  }

  predicate GoodType(a: PhpType)
    decreases a
  {
    match a
    case PObject(name) => GoodName(name)
    case PArray(e) => GoodType(e)
    case PAssoc(k, v) => GoodType(k) && GoodType(v)
    case PUnion(ms) => GoodTypes(ms)
    case _ => true
  }

  predicate GoodTypes(tys: seq<PhpType>)
    decreases tys
  {
    tys == [] || (GoodType(tys[0]) && GoodTypes(tys[1..]))
  }

  lemma SpelledClassIsKept(name: string)
    requires !HasRoot(name) && !IsBuiltInAtom(name)
    ensures Kept(SpelledClass(name))
  {
    if IsCWidth(name) {
      var rooted := "\\" + name;
      assert rooted[1..] == name;
      WidthAtomBack(rooted);
    } else {
      ClassAtomBack(name);
    }
  }

  lemma WordsAreKept()
    ensures Kept(TNamed(Bare("mixed"))) && Kept(TNamed(Bare("callable")))
  {
    assert "mixed"[0] == 'm' && "callable"[0] == 'c';
    ClassAtomBack("mixed");
    ClassAtomBack("callable");
  }

  lemma BuiltInsAreKept(t: TypeExpr)
    requires t.TInt? || t.TFloat? || t.TStr? || t.TBool? || t.TFalse? || t.TVoid? || t.TNever? || t.TIterable?
    ensures Kept(t)
  {
    assert LeafName(t)[0] != '\\';
  }

  lemma {:induction false} SpelledIsKept(a: PhpType)
    requires GoodType(a)
    ensures SpelledType(a).Some? ==> Kept(SpelledType(a).value)
    decreases a
  {
    if SpelledType(a).Some? {
      match a
      case PObject(name) => SpelledClassIsKept(name);
      case PArray(e) => SpelledIsKept(e); ArrayIsKept(SpelledType(e).value);
      case PAssoc(k, v) => SpelledIsKept(k); SpelledIsKept(v); AssocIsKept(SpelledType(k).value, SpelledType(v).value);
      case PUnion(ms) => SpelledAreKept(ms);
      case PMixed => WordsAreKept();
      case PCallable => WordsAreKept();
      case PInt => BuiltInsAreKept(TInt);
      case PFloat => BuiltInsAreKept(TFloat);
      case PStr => BuiltInsAreKept(TStr);
      case PBool => BuiltInsAreKept(TBool);
      case PFalse => BuiltInsAreKept(TFalse);
      case PVoid => BuiltInsAreKept(TVoid);
      case PNever => BuiltInsAreKept(TNever);
      case PIterable => BuiltInsAreKept(TIterable);
    }
  }

  lemma ArrayIsKept(e: TypeExpr)
    requires Kept(e)
    ensures Kept(TArray(e))
  {
    assert ToShared(TArray(e)) == Apply("array", [ToShared(e)]);
    assert FromSharedAll([ToShared(e)]) == [e];
    assert ProperAll([ToShared(e)]);
  }

  lemma AssocIsKept(k: TypeExpr, v: TypeExpr)
    requires Kept(k) && Kept(v)
    ensures Kept(TAssoc(k, v))
  {
    var args := [ToShared(k), ToShared(v)];
    assert ToShared(TAssoc(k, v)) == Apply("array", args);
    assert args[1..] == [ToShared(v)];
    assert FromSharedAll([ToShared(v)]) == [v] && FromSharedAll(args) == [k, v];
    assert ProperAll([ToShared(v)]) && ProperAll(args);
  }

  lemma {:induction false} SpelledAreKept(tys: seq<PhpType>)
    requires GoodTypes(tys) && SpelledTypes(tys).Some?
    ensures FromSharedAll(ToSharedAll(SpelledTypes(tys).value)) == SpelledTypes(tys).value
    ensures ProperAll(ToSharedAll(SpelledTypes(tys).value))
    decreases tys
  {
    if tys != [] {
      SpelledIsKept(tys[0]);
      SpelledAreKept(tys[1..]);
      var xs := SpelledTypes(tys).value;
      assert xs[1..] == SpelledTypes(tys[1..]).value;
      assert ToSharedAll(xs)[1..] == ToSharedAll(xs[1..]);
    }
  }

  /** A parameter met by an argument type: it is bound, or must agree. */
  method BindParameter(param: string, actual: PhpType, bound: seq<Bound>) returns (r: Result<seq<Bound>, InferError>)
    ensures Settled(bound) && GoodType(actual) ==> Outcome(r, AddAll(View(bound), [Demand(param, SpelledTerm(actual))]))
  {
    ghost var ds := [Demand(param, SpelledTerm(actual))];
    assert ds[1..] == [];
    var spelled := SpelledType(actual);
    if spelled.None? {
      return Err(Unspellable(param));
    }
    var existing := Lookup(bound, param);
    LookupIsFind(bound, param);
    if GoodType(actual) {
      SpelledIsKept(actual);
    }
    if existing.Some? {
      if existing.value != spelled.value {
        return Err(Conflict(param));
      }
      return Ok(bound);
    }
    r := Ok(bound + [Bound(param, spelled.value)]);
    assert View(r.value) == View(bound) + [Binding(param, ToShared(spelled.value))];
  }

  /** The result of walking a declared type against an argument's type: its demands are added. */
  ghost predicate Walks(names: seq<string>, d: TypeExpr, a: PhpType, bound: seq<Bound>,
      r: Result<seq<Bound>, InferError>) {
    Settled(bound) && GoodType(a) ==> Outcome(r, AddAll(View(bound), TypeDemands(names, d, a)))
  }

  lemma WalksNullable(names: seq<string>, inner: TypeExpr, a: PhpType, bound: seq<Bound>,
      r: Result<seq<Bound>, InferError>)
    requires Walks(names, inner, a, bound, r)
    ensures Walks(names, TNullable(inner), a, bound, r)
  {
  }

  lemma WalksArray(names: seq<string>, inner: TypeExpr, elem: PhpType, bound: seq<Bound>,
      r: Result<seq<Bound>, InferError>)
    requires Walks(names, inner, elem, bound, r)
    ensures Walks(names, TArray(inner), PArray(elem), bound, r)
  {
  }

  lemma WalksPast(names: seq<string>, d: TypeExpr, a: PhpType, bound: seq<Bound>)
    requires TypeDemands(names, d, a) == []
    ensures Walks(names, d, a, bound, Ok(bound))
  {
  }

  /** Walks one declared parameter type against its argument type, recording bindings. */
  method UnifyType(names: seq<string>, declared: TypeExpr, actual: PhpType, bound: seq<Bound>)
    returns (r: Result<seq<Bound>, InferError>)
    ensures Walks(names, declared, actual, bound, r)
    decreases declared, 1
  {
    match declared
    case TNamed(n) => r := UnifyName(names, n, actual, bound);
    case TNullable(inner) =>
      r := UnifyType(names, inner, actual, bound);
      WalksNullable(names, inner, actual, bound, r);
    case TArray(inner) =>
      if !actual.PArray? {
        WalksPast(names, declared, actual, bound);
        return Ok(bound);
      }
      r := UnifyType(names, inner, actual.elem, bound);
      WalksArray(names, inner, actual.elem, bound, r);
    case TAssoc(_, _) =>
      if !actual.PAssoc? {
        WalksPast(names, declared, actual, bound);
        return Ok(bound);
      }
      r := UnifyAssoc(names, declared, actual, bound);
    case TGeneric(n, args) => r := UnifyInstance(names, n, args, actual, bound);
    case _ =>
      WalksPast(names, declared, actual, bound);
      return Ok(bound);
  }

  /** A declared name binds the argument's type if it is a parameter, and says nothing otherwise. */
  method UnifyName(names: seq<string>, n: Name, actual: PhpType, bound: seq<Bound>)
    returns (r: Result<seq<Bound>, InferError>)
    ensures Settled(bound) && GoodType(actual) ==>
      Outcome(r, AddAll(View(bound), TypeDemands(names, TNamed(n), actual)))
  {
    if Text(n) !in names {
      return Ok(bound);
    }
    r := BindParameter(Text(n), actual, bound);
  }

  /** A declared map against a map: its keys, then its values. */
  method UnifyAssoc(names: seq<string>, declared: TypeExpr, actual: PhpType, bound: seq<Bound>)
    returns (r: Result<seq<Bound>, InferError>)
    requires declared.TAssoc? && actual.PAssoc?
    ensures Settled(bound) && GoodType(actual) ==> Outcome(r, AddAll(View(bound), TypeDemands(names, declared, actual)))
    decreases declared, 0
  {
    ghost var keys, values :=
      TypeDemands(names, declared.key, actual.key), TypeDemands(names, declared.value, actual.value);
    AddAllConcat(View(bound), keys, values);
    r := UnifyType(names, declared.key, actual.key, bound);
    if r.Ok? {
      r := UnifyType(names, declared.value, actual.value, r.value);
    }
  }

  /** A declared generic class against an argument; any other argument says nothing. */
  method UnifyInstance(names: seq<string>, n: Name, args: seq<TypeExpr>, actual: PhpType, bound: seq<Bound>)
    returns (r: Result<seq<Bound>, InferError>)
    ensures Settled(bound) && GoodType(actual) ==>
      Outcome(r, AddAll(View(bound), InstanceDemands(names, args, Instantiation(actual, n, |args|))))
  {
    var instance := Instantiation(actual, n, |args|);
    if instance.None? {
      return Ok(bound);
    }
    r := UnifyArguments(names, args, instance.value, bound);
    if GoodType(actual) {
      InstantiationIsProper(actual, n, |args|);
    }
  }

  lemma InstantiationIsProper(a: PhpType, head: Name, arity: nat)
    requires GoodType(a) && Instantiation(a, head, arity).Some?
    ensures ProperAll(ToSharedAll(Instantiation(a, head, arity).value))
  {
  }

  /** One more argument adds its own demands, and a conflict there is the whole list's. */
  lemma OneMoreArgument(names: seq<string>, s: seq<Term>, a: seq<Term>, bs: seq<Binding>, i: nat)
    requires |s| == |a| && i < |s| && AddAll(bs, DemandsAll(names, s[..i], a[..i])).Ok?
    ensures var step := AddAll(AddAll(bs, DemandsAll(names, s[..i], a[..i])).value, Demands(names, s[i], a[i]));
      && AddAll(bs, DemandsAll(names, s[..i + 1], a[..i + 1])) == step
      && (step.Err? ==> AddAll(bs, DemandsAll(names, s, a)) == step)
  {
    DemandsAllStep(names, s, a, i);
    AddAllConcat(bs, DemandsAll(names, s[..i], a[..i]), Demands(names, s[i], a[i]));
    DemandsPrefix(names, s, a, i + 1);
    AddAllConcat(bs, DemandsAll(names, s[..i + 1], a[..i + 1]), DemandsAll(names, s[i + 1..], a[i + 1..]));
  }

  /** The first `i` arguments have added their demands. */
  ghost predicate Walked(names: seq<string>, s: seq<Term>, a: seq<Term>, bound: seq<Bound>, current: seq<Bound>, i: nat)
    requires |s| == |a| && i <= |s|
  {
    Settled(bound) && ProperAll(a) ==>
      Settled(current) && AddAll(View(bound), DemandsAll(names, s[..i], a[..i])) == Ok(View(current))
  }

  lemma WalkedOn(names: seq<string>, s: seq<Term>, a: seq<Term>, bound: seq<Bound>, current: seq<Bound>, i: nat,
                 step: Result<seq<Bound>, InferError>)
    requires |s| == |a| && i < |s| && Walked(names, s, a, bound, current, i)
    requires Settled(current) && Proper(a[i]) ==> Outcome(step, AddAll(View(current), Demands(names, s[i], a[i])))
    ensures step.Ok? ==> Walked(names, s, a, bound, step.value, i + 1)
    ensures step.Err? && Settled(bound) && ProperAll(a) ==> Outcome(step, AddAll(View(bound), DemandsAll(names, s, a)))
  {
    if Settled(bound) && ProperAll(a) {
      ProperAt(a, i);
      OneMoreArgument(names, s, a, View(bound), i);
    }
  }

  method UnifyArguments(names: seq<string>, args: seq<TypeExpr>, actual: seq<TypeExpr>, bound: seq<Bound>)
    returns (r: Result<seq<Bound>, InferError>)
    requires |args| == |actual|
    ensures Settled(bound) && ProperAll(ToSharedAll(actual)) ==>
      Outcome(r, AddAll(View(bound), DemandsAll(names, ToSharedAll(args), ToSharedAll(actual))))
  {
    ghost var s, a := ToSharedAll(args), ToSharedAll(actual);
    var current := bound;
    var i := 0;
    while i < |args|
      invariant 0 <= i <= |args|
      invariant Walked(names, s, a, bound, current, i)
    {
      SharedAt(args, i);
      SharedAt(actual, i);
      var step := UnifyTypeExprs(names, args[i], actual[i], current);
      WalkedOn(names, s, a, bound, current, i, step);
      if step.Err? {
        return step;
      }
      current := step.value;
      i := i + 1;
    }
    assert s[..i] == s && a[..i] == a;
    return Ok(current);
  }

  // ---- a whole call ----

  /** A closure literal's own declared types. */
  datatype Closure = Closure(params: seq<Option<TypeExpr>>, ret: Option<TypeExpr>)

  /** A call: the declared parameter types, the argument types and the arguments that are closures. */
  datatype Call = Call(declared: seq<Option<TypeExpr>>, actual: seq<PhpType>, closures: seq<Option<Closure>>)

  function Flat(dss: seq<seq<Demand>>): seq<Demand> {
    if dss == [] then [] else dss[0] + Flat(dss[1..])
  }

  lemma {:induction false} FlatConcat(a: seq<seq<Demand>>, b: seq<seq<Demand>>)
    ensures Flat(a + b) == Flat(a) + Flat(b)
  {
    if a == [] {
      assert a + b == b;
    } else {
      assert (a + b)[1..] == a[1..] + b;
      FlatConcat(a[1..], b);
    }
  }

  lemma FlatStep(dss: seq<seq<Demand>>, i: nat)
    requires i < |dss|
    ensures Flat(dss[..i + 1]) == Flat(dss[..i]) + dss[i]
  {
    assert dss[..i + 1] == dss[..i] + [dss[i]] && [dss[i]][1..] == [];
    FlatConcat(dss[..i], [dss[i]]);
  }

  /** A failing position fails the whole list. */
  lemma FlatFails(bs: seq<Binding>, dss: seq<seq<Demand>>, i: nat)
    requires i <= |dss| && AddAll(bs, Flat(dss[..i])).Err?
    ensures AddAll(bs, Flat(dss)) == AddAll(bs, Flat(dss[..i]))
  {
    assert dss == dss[..i] + dss[i..];
    FlatConcat(dss[..i], dss[i..]);
    AddAllConcat(bs, Flat(dss[..i]), Flat(dss[i..]));
  }

  /** The first `i` positions have added their demands to what was bound at the start. */
  ghost predicate Gathered(good: bool, dss: seq<seq<Demand>>, start: seq<Bound>, current: seq<Bound>, i: nat)
    requires i <= |dss|
  {
    good ==> Settled(current) && AddAll(View(start), Flat(dss[..i])) == Ok(View(current))
  }

  lemma GatheredOn(good: bool, dss: seq<seq<Demand>>, start: seq<Bound>, current: seq<Bound>, i: nat,
      step: Result<seq<Bound>, InferError>)
    requires i < |dss| && Gathered(good, dss, start, current, i)
    requires good && Settled(current) ==> Outcome(step, AddAll(View(current), dss[i]))
    ensures step.Ok? ==> Gathered(good, dss, start, step.value, i + 1)
    ensures good && step.Err? ==> Outcome(step, AddAll(View(start), Flat(dss)))
  {
    if good {
      FlatStep(dss, i);
      AddAllConcat(View(start), Flat(dss[..i]), dss[i]);
      if step.Err? {
        FlatFails(View(start), dss, i + 1);
      }
    }
  }

  lemma GatheredAll(good: bool, dss: seq<seq<Demand>>, start: seq<Bound>, current: seq<Bound>)
    requires Gathered(good, dss, start, current, |dss|)
    ensures good ==> Outcome(Ok(current), AddAll(View(start), Flat(dss)))
  {
    assert dss[..|dss|] == dss;
  }

  /** The demands of one typed position of a closure. */
  function HintDemands(names: seq<string>, declared: TypeExpr, actual: Option<TypeExpr>): seq<Demand> {
    if actual.Some? && Mentions(names, declared) then Demands(names, ToShared(declared), ToShared(actual.value)) else []
  }

  /** A closure against a declared signature: its parameters pairwise, then its return type. */
  function ClosureDemands(names: seq<string>, params: seq<TypeExpr>, ret: TypeExpr,
      closure: Closure): seq<seq<Demand>> {
    var n := if |params| <= |closure.params| then |params| else |closure.params|;
    seq(n, i requires 0 <= i < n => HintDemands(names, params[i], closure.params[i]))
      + [HintDemands(names, ret, closure.ret)]
  }

  function ClosureAt(names: seq<string>, call: Call, i: nat): seq<Demand>
    requires i < |call.declared|
  {
    match call.declared[i]
    case Some(TCallable(params, ret)) =>
      if i < |call.closures| && call.closures[i].Some?
        then Flat(ClosureDemands(names, params, ret, call.closures[i].value)) else []
    case _ => []
  }

  function PositionAt(names: seq<string>, declared: Option<TypeExpr>, actual: PhpType): seq<Demand> {
    if declared.Some? && Mentions(names, declared.value) then TypeDemands(names, declared.value, actual) else []
  }

  function Arity(call: Call): nat {
    if |call.declared| <= |call.actual| then |call.declared| else |call.actual|
  }

  function ClosurePhase(names: seq<string>, call: Call): seq<seq<Demand>> {
    seq(|call.declared|, i requires 0 <= i < |call.declared| => ClosureAt(names, call, i))
  }

  function TypePhase(names: seq<string>, call: Call): seq<seq<Demand>> {
    seq(Arity(call), i requires 0 <= i < Arity(call) => PositionAt(names, call.declared[i], call.actual[i]))
  }

  /** Everything a call demands of the type parameters: closures first, then the argument types. */
  function CallDemands(names: seq<string>, call: Call): seq<Demand> {
    Flat(ClosurePhase(names, call)) + Flat(TypePhase(names, call))
  }

  predicate GoodHint(t: Option<TypeExpr>) {
    t.Some? ==> Proper(ToShared(t.value))
  }

  predicate GoodClosure(c: Closure) {
    (forall i | 0 <= i < |c.params| :: GoodHint(c.params[i])) && GoodHint(c.ret)
  }

  predicate GoodCall(call: Call) {
    && (forall i | 0 <= i < |call.actual| :: GoodType(call.actual[i]))
    && (forall i | 0 <= i < |call.closures| && call.closures[i].Some? :: GoodClosure(call.closures[i].value))
  }

  /** One typed position of a closure; a position without a hint binds nothing. */
  method BindHint(names: seq<string>, declared: TypeExpr, actual: Option<TypeExpr>, bound: seq<Bound>)
    returns (r: Result<seq<Bound>, InferError>)
    ensures Settled(bound) && GoodHint(actual) ==> Outcome(r, AddAll(View(bound), HintDemands(names, declared, actual)))
  {
    if actual.None? || !Mentions(names, declared) {
      return Ok(bound);
    }
    r := UnifyTypeExprs(names, declared, actual.value, bound);
  }

  /** Binds the parameters a `callable(T): U` mentions, from the closure the call passes. */
  method BindFromClosure(names: seq<string>, params: seq<TypeExpr>, ret: TypeExpr, closure: Closure, bound: seq<Bound>)
    returns (r: Result<seq<Bound>, InferError>)
    ensures Settled(bound) && GoodClosure(closure) ==>
      Outcome(r, AddAll(View(bound), Flat(ClosureDemands(names, params, ret, closure))))
  {
    ghost var dss := ClosureDemands(names, params, ret, closure);
    ghost var good := Settled(bound) && GoodClosure(closure);
    var current := bound;
    var i := 0;
    while i < |params| && i < |closure.params|
      invariant 0 <= i < |dss|
      invariant Gathered(good, dss, bound, current, i)
    {
      var step := BindHint(names, params[i], closure.params[i], current);
      GatheredOn(good, dss, bound, current, i, step);
      if step.Err? {
        return step;
      }
      current := step.value;
      i := i + 1;
    }
    r := BindHint(names, ret, closure.ret, current);
    GatheredOn(good, dss, bound, current, i, r);
    assert dss[..i + 1] == dss;
  }

  datatype TypeParam = TypeParam(name: string, default: Option<TypeExpr>)

  function SharedParams(ps: seq<TypeParam>): seq<Parameter> {
    seq(|ps|, i requires 0 <= i < |ps| =>
      Parameter(ps[i].name, match ps[i].default case Some(t) => Some(ToShared(t)) case None => None))
  }

  function ParamNames(ps: seq<TypeParam>): seq<string> {
    seq(|ps|, i requires 0 <= i < |ps| => ps[i].name)
  }

  /** One position of the closure pass: only a declared signature and a closure literal bind anything. */
  method BindClosureAt(names: seq<string>, call: Call, i: nat, bound: seq<Bound>)
    returns (r: Result<seq<Bound>, InferError>)
    requires i < |call.declared|
    ensures Settled(bound) && GoodCall(call) ==> Outcome(r, AddAll(View(bound), ClosureAt(names, call, i)))
  {
    if call.declared[i].Some? && call.declared[i].value.TCallable? && i < |call.closures| && call.closures[i].Some? {
      var signature := call.declared[i].value;
      r := BindFromClosure(names, signature.params, signature.ret, call.closures[i].value, bound);
    } else {
      r := Ok(bound);
    }
  }

  /** The closure pass, which reads the declared types of closure literals. */
  method BindClosures(names: seq<string>, call: Call) returns (r: Result<seq<Bound>, InferError>)
    ensures GoodCall(call) ==> Outcome(r, AddAll([], Flat(ClosurePhase(names, call))))
  {
    ghost var dss := ClosurePhase(names, call);
    ghost var good := GoodCall(call);
    var bound: seq<Bound> := [];
    var i := 0;
    while i < |call.declared|
      invariant 0 <= i <= |call.declared|
      invariant Gathered(good, dss, [], bound, i)
    {
      assert dss[i] == ClosureAt(names, call, i);
      var step := BindClosureAt(names, call, i, bound);
      GatheredOn(good, dss, [], bound, i, step);
      if step.Err? {
        return step;
      }
      bound := step.value;
      i := i + 1;
    }
    GatheredAll(good, dss, [], bound);
    return Ok(bound);
  }

  /** The type pass; a position that mentions no parameter is skipped. */
  method BindTypes(names: seq<string>, call: Call, start: seq<Bound>) returns (r: Result<seq<Bound>, InferError>)
    ensures GoodCall(call) && Settled(start) ==> Outcome(r, AddAll(View(start), Flat(TypePhase(names, call))))
  {
    ghost var tss := TypePhase(names, call);
    ghost var good := GoodCall(call) && Settled(start);
    var bound := start;
    var i := 0;
    while i < |call.declared| && i < |call.actual|
      invariant 0 <= i <= |tss|
      invariant Gathered(good, tss, start, bound, i)
    {
      var step := Ok(bound);
      if call.declared[i].Some? && Mentions(names, call.declared[i].value) {
        step := UnifyType(names, call.declared[i].value, call.actual[i], bound);
      }
      GatheredOn(good, tss, start, bound, i, step);
      if step.Err? {
        return step;
      }
      bound := step.value;
      i := i + 1;
    }
    GatheredAll(good, tss, start, bound);
    return Ok(bound);
  }

  /** All bindings a call makes, before defaults are filled in. */
  method Bind(names: seq<string>, call: Call) returns (r: Result<seq<Bound>, InferError>)
    ensures GoodCall(call) ==> Outcome(r, AddAll([], CallDemands(names, call)))
  {
    AddAllConcat([], Flat(ClosurePhase(names, call)), Flat(TypePhase(names, call)));
    r := BindClosures(names, call);
    if r.Ok? {
      r := BindTypes(names, call, r.value);
    }
  }

  /** Infers an argument for every type parameter: what the call binds, and defaults for the rest. */
  method Infer(ps: seq<TypeParam>, call: Call) returns (r: Result<seq<Bound>, InferError>)
    ensures GoodCall(call) && r.Ok? ==>
      var bs := AddAll([], CallDemands(ParamNames(ps), call));
      bs.Ok? && exists all :: Finished(SharedParams(ps), bs.value, all) && r.value == Back(all)
    ensures GoodCall(call) && r.Err? ==>
      var bs := AddAll([], CallDemands(ParamNames(ps), call));
      if bs.Err? then bs == Err(r.error) else exists i :: FailsAt(SharedParams(ps), bs.value, i, r.error)
    ensures GoodCall(call) && r.Err? ==>
      var bs := AddAll([], CallDemands(ParamNames(ps), call));
      bs.Ok? ==> !exists all :: Finished(SharedParams(ps), bs.value, all)
    ensures GoodCall(call) && r.Err? && (r.error.Conflict? || r.error.Unspellable?) ==>
      AddAll([], CallDemands(ParamNames(ps), call)) == Err(r.error)
  {
    var bound := Bind(ParamNames(ps), call);
    match bound
    case Err(e) => r := Err(e);
    case Ok(inferred) =>
      var all := Finish(SharedParams(ps), View(inferred));
      match all
      case Err(e) => r := Err(e);
      case Ok(bs) => r := Ok(Back(bs));
  }

  // ---- sound, complete and order-independent ----

  /** A name that is no type parameter, and the type it resolves to. */
  predicate StandsFor(n: Name, a: PhpType) {
    || (SpelledType(a).Some? && Describe(SpelledType(a).value) == Spelling(n))
    || a == PPacked(Text(n))
  }

  /** A type parameter, its nullable wrappers aside. */
  predicate IsParameter(names: seq<string>, d: TypeExpr)
    decreases d
  {
    match d
    case TNamed(n) => Text(n) in names
    case TNullable(e) => IsParameter(names, e)
    case _ => false
  }

  /** What a nullable type resolves to. */
  predicate IsNullable(a: PhpType) {
    a.PUnion? && |a.members| == 2 && a.members[1].PVoid?
  }

  /** The argument's type is what the declared one resolves to at a substitution. A nullable parameter
      is bound to the whole type; any other nullable type admits null beside its own. An instantiated
      class stands for the arguments its name carries, a signature resolves to the plain callable
      type, and an intersection to its first member. */
  predicate TypeInstance(names: seq<string>, d: TypeExpr, bs: seq<Binding>, a: PhpType)
    decreases d
  {
    match d
    case TNamed(n) =>
      if Text(n) in names then SpelledTerm(a).Some? && Find(bs, Text(n)) == SpelledTerm(a)
      else StandsFor(n, a)
    case TNullable(e) =>
      if IsParameter(names, e) then TypeInstance(names, e, bs, a)
      else a.PVoid? || TypeInstance(names, e, bs, if IsNullable(a) then a.members[0] else a)
    case TArray(e) => a.PArray? && TypeInstance(names, e, bs, a.elem)
    case TAssoc(k, v) => a.PAssoc? && TypeInstance(names, k, bs, a.key) && TypeInstance(names, v, bs, a.value)
    case TGeneric(n, args) =>
      var actual := Instantiation(a, n, |args|);
      actual.Some? && InstanceAll(names, ToSharedAll(args), bs, ToSharedAll(actual.value))
    case TBuffer(e) => a.PBuffer? && TypeInstance(names, e, bs, a.elem)
    case TPtr(target) => a.PPointer? && a.target == TargetText(target)
    case TCallable(_, _) => a.PCallable?
    case TIntersection(ms) => ms != [] && TypeInstance(names, ms[0], bs, a)
    case _ => SpelledTerm(a) == Some(Substitute(ToShared(d), bs))
  }

  function TargetText(target: Option<Name>): Option<string> {
    match target case Some(n) => Some(Text(n)) case None => None
  }

  /** The argument's type has the declared shape wherever the walk meets no parameter, and parameters
      occur only where the walk meets them or in a signature. */
  predicate TypeShaped(names: seq<string>, d: TypeExpr, a: PhpType)
    decreases d
  {
    match d
    case TNamed(n) => if Text(n) in names then SpelledType(a).Some? else StandsFor(n, a)
    case TNullable(e) =>
      if IsParameter(names, e) then TypeShaped(names, e, a)
      else if IsNullable(a) then TypeShaped(names, e, a.members[0]) && TypeDemands(names, e, a.members[0]) == []
      else a.PVoid? || TypeShaped(names, e, a)
    case TArray(e) => a.PArray? && TypeShaped(names, e, a.elem)
    case TAssoc(k, v) => a.PAssoc? && TypeShaped(names, k, a.key) && TypeShaped(names, v, a.value)
    case TGeneric(n, args) =>
      var actual := Instantiation(a, n, |args|);
      actual.Some? && ShapedAll(names, ToSharedAll(args), ToSharedAll(actual.value))
    case TBuffer(e) => a.PBuffer? && TypeShaped(names, e, a.elem) && TypeDemands(names, e, a.elem) == []
    case TPtr(target) => a.PPointer? && a.target == TargetText(target)
    case TCallable(_, _) => a.PCallable?
    case TIntersection(ms) => ms != [] && TypeShaped(names, ms[0], a) && TypeDemands(names, ms[0], a) == []
    case _ => SpelledTerm(a) == Some(ToShared(d)) && Closed(names, ToShared(d))
  }

  /** The walk looks past a nullable wrapper, and finds nothing in a null or a nullable type. */
  lemma {:induction false} NullDemandsNothing(names: seq<string>, d: TypeExpr, a: PhpType)
    requires !IsParameter(names, d) && (a.PVoid? || a.PUnion?)
    ensures TypeDemands(names, d, a) == []
    decreases d
  {
    match d
    case TNullable(e) => NullDemandsNothing(names, e, a);
    case _ =>
  }

  lemma {:induction false} TypeInstanceMeetsDemands(names: seq<string>, d: TypeExpr, bs: seq<Binding>, a: PhpType)
    requires TypeInstance(names, d, bs, a)
    ensures Meets(bs, TypeDemands(names, d, a))
    decreases d
  {
    match d
    case TNullable(e) =>
      if !IsParameter(names, e) && (a.PVoid? || IsNullable(a)) {
        NullDemandsNothing(names, e, a);
      } else {
        TypeInstanceMeetsDemands(names, e, bs, a);
      }
    case TArray(e) => TypeInstanceMeetsDemands(names, e, bs, a.elem);
    case TAssoc(k, v) =>
      TypeInstanceMeetsDemands(names, k, bs, a.key);
      TypeInstanceMeetsDemands(names, v, bs, a.value);
      MeetsConcat(bs, TypeDemands(names, k, a.key), TypeDemands(names, v, a.value));
    case TGeneric(n, args) =>
      InstancesMeetDemands(names, ToSharedAll(args), bs, ToSharedAll(Instantiation(a, n, |args|).value));
    case _ =>
  }

  lemma {:induction false} MetDemandsMakeATypeInstance(names: seq<string>, d: TypeExpr, bs: seq<Binding>, a: PhpType)
    requires TypeShaped(names, d, a) && BindsOnly(names, bs) && Meets(bs, TypeDemands(names, d, a))
    ensures TypeInstance(names, d, bs, a)
    decreases d
  {
    match d
    case TNamed(n) =>
      if Text(n) in names {
        assert TypeDemands(names, d, a)[0] == Demand(Text(n), SpelledTerm(a));
      }
    case TNullable(e) =>
      if IsParameter(names, e) || !IsNullable(a) {
        if IsParameter(names, e) || !a.PVoid? {
          MetDemandsMakeATypeInstance(names, e, bs, a);
        }
      } else {
        MetDemandsMakeATypeInstance(names, e, bs, a.members[0]);
      }
    case TArray(e) => MetDemandsMakeATypeInstance(names, e, bs, a.elem);
    case TAssoc(k, v) =>
      MeetsConcat(bs, TypeDemands(names, k, a.key), TypeDemands(names, v, a.value));
      MetDemandsMakeATypeInstance(names, k, bs, a.key);
      MetDemandsMakeATypeInstance(names, v, bs, a.value);
    case TGeneric(n, args) =>
      MetDemandsMakeInstances(names, ToSharedAll(args), bs, ToSharedAll(Instantiation(a, n, |args|).value));
    case TBuffer(e) => MetDemandsMakeATypeInstance(names, e, bs, a.elem);
    case TIntersection(ms) => MetDemandsMakeATypeInstance(names, ms[0], bs, a);
    case TPtr(_) =>
    case TCallable(_, _) =>
    case _ => ClosedIsFixed(names, ToShared(d), bs);
  }

  /** A substitution matches a call when it matches every position that is looked at. */
  predicate Matches(names: seq<string>, bs: seq<Binding>, call: Call) {
    && (forall i | 0 <= i < Arity(call) && call.declared[i].Some? && Mentions(names, call.declared[i].value) ::
          TypeInstance(names, call.declared[i].value, bs, call.actual[i]))
    && (forall i | 0 <= i < |call.declared| && i < |call.closures| && call.closures[i].Some?
          && call.declared[i].Some? && call.declared[i].value.TCallable? ::
          ClosureMatches(names, bs, call.declared[i].value.params, call.declared[i].value.ret, call.closures[i].value))
  }

  predicate HintMatches(names: seq<string>, bs: seq<Binding>, declared: TypeExpr, actual: Option<TypeExpr>) {
    actual.Some? && Mentions(names, declared) ==> Instance(names, ToShared(declared), bs, ToShared(actual.value))
  }

  predicate ClosureMatches(names: seq<string>, bs: seq<Binding>, params: seq<TypeExpr>, ret: TypeExpr, c: Closure) {
    && (forall i | 0 <= i < |params| && i < |c.params| :: HintMatches(names, bs, params[i], c.params[i]))
    && HintMatches(names, bs, ret, c.ret)
  }

  lemma {:induction false} MeetsFlat(bs: seq<Binding>, dss: seq<seq<Demand>>)
    ensures Meets(bs, Flat(dss)) <==> forall i | 0 <= i < |dss| :: Meets(bs, dss[i])
  {
    if dss != [] {
      MeetsFlat(bs, dss[1..]);
      MeetsConcat(bs, dss[0], Flat(dss[1..]));
      assert forall i | 1 <= i < |dss| :: dss[i] == dss[1..][i - 1];
    }
  }

  lemma HintMeetsDemands(names: seq<string>, bs: seq<Binding>, declared: TypeExpr, actual: Option<TypeExpr>)
    requires HintMatches(names, bs, declared, actual)
    ensures Meets(bs, HintDemands(names, declared, actual))
  {
    if actual.Some? && Mentions(names, declared) {
      InstanceMeetsDemands(names, ToShared(declared), bs, ToShared(actual.value));
    }
  }

  lemma ClosureMeetsDemands(names: seq<string>, bs: seq<Binding>, params: seq<TypeExpr>, ret: TypeExpr, c: Closure)
    requires ClosureMatches(names, bs, params, ret, c)
    ensures Meets(bs, Flat(ClosureDemands(names, params, ret, c)))
  {
    var dss := ClosureDemands(names, params, ret, c);
    forall i | 0 <= i < |dss|
      ensures Meets(bs, dss[i])
    {
      if i < |dss| - 1 {
        HintMeetsDemands(names, bs, params[i], c.params[i]);
      } else {
        HintMeetsDemands(names, bs, ret, c.ret);
      }
    }
    MeetsFlat(bs, dss);
  }

  lemma MatchMeetsDemands(names: seq<string>, bs: seq<Binding>, call: Call)
    requires Matches(names, bs, call)
    ensures Meets(bs, CallDemands(names, call))
  {
    var dss, tss := ClosurePhase(names, call), TypePhase(names, call);
    forall i | 0 <= i < |dss|
      ensures Meets(bs, dss[i])
    {
      match call.declared[i]
      case Some(TCallable(params, ret)) =>
        if i < |call.closures| && call.closures[i].Some? {
          ClosureMeetsDemands(names, bs, params, ret, call.closures[i].value);
        }
      case _ =>
    }
    forall i | 0 <= i < |tss|
      ensures Meets(bs, tss[i])
    {
      if call.declared[i].Some? && Mentions(names, call.declared[i].value) {
        TypeInstanceMeetsDemands(names, call.declared[i].value, bs, call.actual[i]);
      }
    }
    MeetsFlat(bs, dss);
    MeetsFlat(bs, tss);
    MeetsConcat(bs, Flat(dss), Flat(tss));
  }

  lemma MetIsConsistent(bs: seq<Binding>, ds: seq<Demand>)
    requires Meets(bs, ds)
    ensures Consistent(ds)
  {
  }

  /** If any substitution matches every position, inference reports no conflict and binds a subset
      of that substitution. */
  lemma InferenceIsComplete(names: seq<string>, bs: seq<Binding>, call: Call)
    requires Matches(names, bs, call)
    ensures var r := AddAll([], CallDemands(names, call));
      r.Ok? && forall p :: Find(r.value, p).Some? ==> Find(bs, p) == Find(r.value, p)
  {
    var ds := CallDemands(names, call);
    MatchMeetsDemands(names, bs, call);
    MetIsConsistent(bs, ds);
    AddAllDecides(ds);
    var r := AddAll([], ds);
    forall p | Find(r.value, p).Some?
      ensures Find(bs, p) == Find(r.value, p)
    {
      FindIsDemanded(r.value, ds, p);
      var i :| 0 <= i < |ds| && ds[i] == Demand(p, Find(r.value, p));
    }
  }

  lemma {:induction false} TypeDemandsAreNamed(names: seq<string>, d: TypeExpr, a: PhpType)
    ensures forall x | x in TypeDemands(names, d, a) :: x.param in names
    decreases d
  {
    match d
    case TNullable(e) => TypeDemandsAreNamed(names, e, a);
    case TArray(e) => if a.PArray? { TypeDemandsAreNamed(names, e, a.elem); }
    case TAssoc(k, v) =>
      if a.PAssoc? {
        TypeDemandsAreNamed(names, k, a.key);
        TypeDemandsAreNamed(names, v, a.value);
      }
    case TGeneric(n, args) =>
      var actual := Instantiation(a, n, |args|);
      if actual.Some? {
        AllDemandsAreNamed(names, ToSharedAll(args), ToSharedAll(actual.value));
      }
    case _ =>
  }

  predicate Named(names: seq<string>, ds: seq<Demand>) {
    forall x | x in ds :: x.param in names
  }

  lemma {:induction false} FlatIsNamed(names: seq<string>, dss: seq<seq<Demand>>)
    requires forall i | 0 <= i < |dss| :: Named(names, dss[i])
    ensures Named(names, Flat(dss))
  {
    if dss != [] {
      FlatIsNamed(names, dss[1..]);
    }
  }

  lemma CallDemandsAreNamed(names: seq<string>, call: Call)
    ensures Named(names, CallDemands(names, call))
  {
    var dss, tss := ClosurePhase(names, call), TypePhase(names, call);
    forall i | 0 <= i < |dss|
      ensures Named(names, dss[i])
    {
      match call.declared[i]
      case Some(TCallable(params, ret)) =>
        if i < |call.closures| && call.closures[i].Some? {
          ClosureDemandsAreNamed(names, params, ret, call.closures[i].value);
        }
      case _ =>
    }
    forall i | 0 <= i < |tss|
      ensures Named(names, tss[i])
    {
      if call.declared[i].Some? {
        TypeDemandsAreNamed(names, call.declared[i].value, call.actual[i]);
      }
    }
    FlatIsNamed(names, dss);
    FlatIsNamed(names, tss);
  }

  lemma ClosureDemandsAreNamed(names: seq<string>, params: seq<TypeExpr>, ret: TypeExpr, c: Closure)
    ensures Named(names, Flat(ClosureDemands(names, params, ret, c)))
  {
    var dss := ClosureDemands(names, params, ret, c);
    forall i | 0 <= i < |dss|
      ensures Named(names, dss[i])
    {
      var declared := if i < |dss| - 1 then params[i] else ret;
      var actual := if i < |dss| - 1 then c.params[i] else c.ret;
      if actual.Some? {
        DemandsAreNamed(names, ToShared(declared), ToShared(actual.value));
      }
    }
    FlatIsNamed(names, dss);
  }

  /** What success says about the bindings: they meet every demand and bind parameters only. */
  lemma BoundAnswers(names: seq<string>, call: Call)
    requires AddAll([], CallDemands(names, call)).Ok?
    ensures var bs := AddAll([], CallDemands(names, call)).value;
      && BindsOnly(names, bs)
      && (forall i | 0 <= i < |ClosurePhase(names, call)| :: Meets(bs, ClosurePhase(names, call)[i]))
      && (forall i | 0 <= i < |TypePhase(names, call)| :: Meets(bs, TypePhase(names, call)[i]))
  {
    var ds := CallDemands(names, call);
    var bs := AddAll([], ds).value;
    AddAllDecides(ds);
    var dss, tss := ClosurePhase(names, call), TypePhase(names, call);
    MeetsConcat(bs, Flat(dss), Flat(tss));
    MeetsFlat(bs, dss);
    MeetsFlat(bs, tss);
    CallDemandsAreNamed(names, call);
  }

  /** A typed argument of the declared shape is matched. */
  lemma TypedPositionIsSound(names: seq<string>, call: Call, i: nat)
    requires AddAll([], CallDemands(names, call)).Ok?
    requires i < Arity(call) && call.declared[i].Some? && Mentions(names, call.declared[i].value)
    requires TypeShaped(names, call.declared[i].value, call.actual[i])
    ensures TypeInstance(names, call.declared[i].value, AddAll([], CallDemands(names, call)).value, call.actual[i])
  {
    var bs := AddAll([], CallDemands(names, call)).value;
    BoundAnswers(names, call);
    assert Meets(bs, TypePhase(names, call)[i]);
    MetDemandsMakeATypeInstance(names, call.declared[i].value, bs, call.actual[i]);
  }

  /** A closure's hint has the declared shape wherever it is looked at. */
  predicate HintShaped(names: seq<string>, declared: TypeExpr, actual: Option<TypeExpr>) {
    actual.Some? && Mentions(names, declared) ==> Shaped(names, ToShared(declared), ToShared(actual.value))
  }

  predicate ClosureShaped(names: seq<string>, params: seq<TypeExpr>, ret: TypeExpr, c: Closure) {
    && (forall i | 0 <= i < |params| && i < |c.params| :: HintShaped(names, params[i], c.params[i]))
    && HintShaped(names, ret, c.ret)
  }

  lemma MetHintMatches(names: seq<string>, bs: seq<Binding>, declared: TypeExpr, actual: Option<TypeExpr>)
    requires HintShaped(names, declared, actual) && BindsOnly(names, bs)
      && Meets(bs, HintDemands(names, declared, actual))
    ensures HintMatches(names, bs, declared, actual)
  {
    if actual.Some? && Mentions(names, declared) {
      MetDemandsMakeAnInstance(names, ToShared(declared), bs, ToShared(actual.value));
    }
  }

  predicate HasSignature(call: Call, i: nat) {
    && i < |call.declared| && i < |call.closures| && call.closures[i].Some?
    && call.declared[i].Some? && call.declared[i].value.TCallable?
  }

  /** A closure whose hints have the declared shape is matched, hint by hint. */
  lemma ClosurePositionIsSound(names: seq<string>, call: Call, i: nat)
    requires AddAll([], CallDemands(names, call)).Ok? && HasSignature(call, i)
    requires ClosureShaped(names, call.declared[i].value.params, call.declared[i].value.ret, call.closures[i].value)
    ensures ClosureMatches(names, AddAll([], CallDemands(names, call)).value,
      call.declared[i].value.params, call.declared[i].value.ret, call.closures[i].value)
  {
    var bs := AddAll([], CallDemands(names, call)).value;
    var params, ret, c := call.declared[i].value.params, call.declared[i].value.ret, call.closures[i].value;
    BoundAnswers(names, call);
    var dss := ClosureDemands(names, params, ret, c);
    assert ClosurePhase(names, call)[i] == Flat(dss);
    MeetsFlat(bs, dss);
    forall j | 0 <= j < |params| && j < |c.params|
      ensures HintMatches(names, bs, params[j], c.params[j])
    {
      assert dss[j] == HintDemands(names, params[j], c.params[j]);
      MetHintMatches(names, bs, params[j], c.params[j]);
    }
    assert dss[|dss| - 1] == HintDemands(names, ret, c.ret);
    MetHintMatches(names, bs, ret, c.ret);
  }

  /** Every position that is looked at has the declared shape. */
  predicate ShapedCall(names: seq<string>, call: Call) {
    && (forall i | 0 <= i < Arity(call) && call.declared[i].Some? && Mentions(names, call.declared[i].value) ::
          TypeShaped(names, call.declared[i].value, call.actual[i]))
    && (forall i: nat | i < |call.declared| && HasSignature(call, i) ::
          ClosureShaped(names, call.declared[i].value.params, call.declared[i].value.ret, call.closures[i].value))
  }

  /** If inference succeeds on a call of the declared shape, its bindings match every position. */
  lemma InferenceIsSound(names: seq<string>, call: Call)
    requires AddAll([], CallDemands(names, call)).Ok? && ShapedCall(names, call)
    ensures Matches(names, AddAll([], CallDemands(names, call)).value, call)
  {
    var bs := AddAll([], CallDemands(names, call)).value;
    forall i | 0 <= i < Arity(call) && call.declared[i].Some? && Mentions(names, call.declared[i].value)
      ensures TypeInstance(names, call.declared[i].value, bs, call.actual[i])
    {
      TypedPositionIsSound(names, call, i);
    }
    forall i | 0 <= i < |call.declared| && i < |call.closures| && call.closures[i].Some?
        && call.declared[i].Some? && call.declared[i].value.TCallable?
      ensures ClosureMatches(names, bs, call.declared[i].value.params, call.declared[i].value.ret,
        call.closures[i].value)
    {
      assert HasSignature(call, i);
      ClosurePositionIsSound(names, call, i);
    }
  }

  /** On calls of the declared shape inference succeeds exactly when some substitution matches. */
  lemma InferenceDecidesMatching(names: seq<string>, call: Call)
    requires ShapedCall(names, call)
    ensures AddAll([], CallDemands(names, call)).Ok? <==> exists bs :: Matches(names, bs, call)
  {
    if AddAll([], CallDemands(names, call)).Ok? {
      InferenceIsSound(names, call);
    }
    if bs :| Matches(names, bs, call) {
      InferenceIsComplete(names, bs, call);
    }
  }
}
