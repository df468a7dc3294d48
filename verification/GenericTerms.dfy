/** The generic type terms shared by the compiler and the interpreter: one-sided unification into a
    growing list of bindings, and what the list says about the terms that were unified. */
module GenericTerms {
  import opened Wrappers
  import opened TypeGrammar

  datatype Term =
    | Atom(name: string)
    | Apply(head: string, args: seq<Term>)
    | Nullable(inner: Term)
    | Union(members: seq<Term>)
    | Intersection(members: seq<Term>)
    | Callable(params: seq<Term>, ret: Term)

  datatype Binding = Binding(param: string, ty: Term)

  datatype InferError =
    | Conflict(param: string) | Unspellable(param: string) | Unconstrained(param: string) | TooDeep(param: string)

  /** The first binding of a parameter. */
  function Find(bs: seq<Binding>, param: string): Option<Term> {
    if bs == [] then None
    else if bs[0].param == param then Some(bs[0].ty)
    else Find(bs[1..], param)
  }

  function Substitute(t: Term, bs: seq<Binding>): Term
    decreases t
  {
    match t
    case Atom(name) => (match Find(bs, name) case Some(ty) => ty case None => t)
    case Apply(head, args) => Apply(head, SubstituteAll(args, bs))
    case Nullable(inner) => Nullable(Substitute(inner, bs))
    case Union(ms) => Union(SubstituteAll(ms, bs))
    case Intersection(ms) => Intersection(SubstituteAll(ms, bs))
    case Callable(params, ret) => Callable(SubstituteAll(params, bs), Substitute(ret, bs))
  }

  function SubstituteAll(ts: seq<Term>, bs: seq<Binding>): (r: seq<Term>)
    ensures |r| == |ts|
    decreases ts
  {
    if ts == [] then [] else [Substitute(ts[0], bs)] + SubstituteAll(ts[1..], bs)
  }

  predicate SameHead(a: string, b: string) {
    LowerAll(a) == LowerAll(b)
  }

  /** One character is the other, or the small or capital form of the same ASCII letter. */
  predicate SameLetter(a: char, b: char) {
    var m, n := a as int, b as int;
    m == n || (65 <= m <= 90 && n == m + 32) || (65 <= n <= 90 && m == n + 32)
  }

  /** Heads are compared character by character, ASCII letters in either case. */
  lemma SameHeadExactly(a: string, b: string)
    ensures SameHead(a, b) <==> |a| == |b| && forall i | 0 <= i < |a| :: SameLetter(a[i], b[i])
  {
    if SameHead(a, b) {
      assert |LowerAll(a)| == |a| && |LowerAll(b)| == |b|;
      forall i | 0 <= i < |a|
        ensures SameLetter(a[i], b[i])
      {
        assert LowerAll(a)[i] == LowerAll(b)[i];
      }
    }
  }

  // ---- what a declared term demands of its parameters ----

  /** One parameter met by one actual type, which may have no spelling. */
  datatype Demand = Demand(param: string, ty: Option<Term>)

  /** The parameters a declared term meets when it is walked against an actual one, in order. */
  function Demands(names: seq<string>, declared: Term, actual: Term): seq<Demand>
    decreases declared
  {
    match declared
    case Atom(name) => if name in names then [Demand(name, Some(actual))] else []
    case Nullable(inner) => Demands(names, inner, actual)
    case Apply(head, args) =>
      if actual.Apply? && SameHead(head, actual.head) && |args| == |actual.args|
      then DemandsAll(names, args, actual.args) else []
    case _ => []
  }

  function DemandsAll(names: seq<string>, declared: seq<Term>, actual: seq<Term>): seq<Demand>
    requires |declared| == |actual|
    decreases declared
  {
    if declared == [] then []
    else Demands(names, declared[0], actual[0]) + DemandsAll(names, declared[1..], actual[1..])
  }

  /** Meeting one demand: a new parameter is bound, a bound one must agree. */
  function Add(bs: seq<Binding>, d: Demand): Result<seq<Binding>, InferError> {
    match d.ty
    case None => Err(Unspellable(d.param))
    case Some(ty) =>
      match Find(bs, d.param)
      case None => Ok(bs + [Binding(d.param, ty)])
      case Some(existing) => if existing == ty then Ok(bs) else Err(Conflict(d.param))
  }

  function AddAll(bs: seq<Binding>, ds: seq<Demand>): Result<seq<Binding>, InferError>
    decreases |ds|
  {
    if ds == [] then Ok(bs)
    else
      match Add(bs, ds[0])
      case Err(e) => Err(e)
      case Ok(more) => AddAll(more, ds[1..])
  }

  lemma {:induction false} AddAllConcat(bs: seq<Binding>, a: seq<Demand>, b: seq<Demand>)
    ensures AddAll(bs, a + b) == match AddAll(bs, a) case Ok(more) => AddAll(more, b) case Err(e) => Err(e)
    decreases |a|
  {
    if a == [] {
      assert a + b == b;
    } else {
      assert (a + b)[1..] == a[1..] + b;
      match Add(bs, a[0])
      case Ok(more) => AddAllConcat(more, a[1..], b);
      case Err(_) =>
    }
  }

  lemma {:induction false} DemandsAllStep(names: seq<string>, declared: seq<Term>, actual: seq<Term>, i: nat)
    requires |declared| == |actual| && i < |declared|
    ensures DemandsAll(names, declared[..i + 1], actual[..i + 1])
         == DemandsAll(names, declared[..i], actual[..i]) + Demands(names, declared[i], actual[i])
  {
    var d, a := declared[..i + 1], actual[..i + 1];
    assert d[1..] == declared[1..][..i] && a[1..] == actual[1..][..i];
    if i > 0 {
      assert declared[..i][1..] == declared[1..][..i - 1] && actual[..i][1..] == actual[1..][..i - 1];
      DemandsAllStep(names, declared[1..], actual[1..], i - 1);
    } else {
      assert d[1..] == [] && declared[..0] == [];
    }
  }

  /** The unification of the shared crate: it stops at the first conflict. */
  method Unify(names: seq<string>, declared: Term, actual: Term, bindings: seq<Binding>)
    returns (r: Result<seq<Binding>, InferError>)
    ensures r == AddAll(bindings, Demands(names, declared, actual))
    decreases declared
  {
    match declared
    case Atom(name) =>
      if name in names {
        match Find(bindings, name)
        case Some(existing) =>
          if existing != actual {
            return Err(Conflict(name));
          }
          return Ok(bindings);
        case None => return Ok(bindings + [Binding(name, actual)]);
      }
      return Ok(bindings);
    case Nullable(inner) =>
      r := Unify(names, inner, actual, bindings);
    case Apply(head, args) =>
      if !actual.Apply? || !SameHead(head, actual.head) || |args| != |actual.args| {
        return Ok(bindings);
      }
      var bound := bindings;
      var i := 0;
      while i < |args|
        invariant 0 <= i <= |args|
        invariant AddAll(bindings, DemandsAll(names, args[..i], actual.args[..i])) == Ok(bound)
      {
        DemandsAllStep(names, args, actual.args, i);
        DemandsPrefix(names, args, actual.args, i + 1);
        AddAllConcat(bindings, DemandsAll(names, args[..i], actual.args[..i]), Demands(names, args[i], actual.args[i]));
        var step := Unify(names, args[i], actual.args[i], bound);
        if step.Err? {
          AddAllConcat(bindings, DemandsAll(names, args[..i + 1], actual.args[..i + 1]),
            DemandsAll(names, args[i + 1..], actual.args[i + 1..]));
          return step;
        }
        bound := step.value;
        i := i + 1;
      }
      assert args[..i] == args && actual.args[..i] == actual.args;
      return Ok(bound);
    case _ => return Ok(bindings);
  }

  lemma {:induction false} DemandsPrefix(names: seq<string>, declared: seq<Term>, actual: seq<Term>, i: nat)
    requires |declared| == |actual| && i <= |declared|
    ensures DemandsAll(names, declared, actual)
         == DemandsAll(names, declared[..i], actual[..i]) + DemandsAll(names, declared[i..], actual[i..])
  {
    if i > 0 {
      assert declared[..i][1..] == declared[1..][..i - 1] && actual[..i][1..] == actual[1..][..i - 1];
      assert declared[1..][i - 1..] == declared[i..] && actual[1..][i - 1..] == actual[i..];
      DemandsPrefix(names, declared[1..], actual[1..], i - 1);
    } else {
      assert declared[..0] == [] && declared[0..] == declared && actual[0..] == actual;
    }
  }

  // ---- what a list of demands decides ----

  /** No parameter is met by two different types, and every type has a spelling. */
  predicate Consistent(ds: seq<Demand>) {
    && (forall i | 0 <= i < |ds| :: ds[i].ty.Some?)
    && (forall i, j | 0 <= i < |ds| && 0 <= j < |ds| && ds[i].param == ds[j].param :: ds[i].ty == ds[j].ty)
  }

  /** The bindings give each demanded parameter its type, and bind nothing else. */
  predicate Answers(bs: seq<Binding>, ds: seq<Demand>) {
    && (forall i | 0 <= i < |ds| :: ds[i].ty.Some? && Find(bs, ds[i].param) == ds[i].ty)
    && (forall i | 0 <= i < |bs| :: Demand(bs[i].param, Some(bs[i].ty)) in ds)
  }

  predicate DistinctParams(bs: seq<Binding>) {
    forall i, j | 0 <= i < j < |bs| :: bs[i].param != bs[j].param
  }

  lemma {:induction false} FindAppend(bs: seq<Binding>, b: Binding, p: string)
    ensures Find(bs + [b], p) == if Find(bs, p).Some? then Find(bs, p) else if b.param == p then Some(b.ty) else None
  {
    if bs == [] {
      assert bs + [b] == [b] && [b][1..] == [];
    } else {
      assert (bs + [b])[1..] == bs[1..] + [b];
      FindAppend(bs[1..], b, p);
    }
  }

  lemma {:induction false} FindNone(bs: seq<Binding>, p: string)
    ensures Find(bs, p).None? <==> forall i | 0 <= i < |bs| :: bs[i].param != p
  {
    if bs != [] {
      FindNone(bs[1..], p);
      assert forall i | 1 <= i < |bs| :: bs[i] == bs[1..][i - 1];
    }
  }

  lemma {:induction false} FindBound(bs: seq<Binding>, i: nat)
    requires DistinctParams(bs) && i < |bs|
    ensures Find(bs, bs[i].param) == Some(bs[i].ty)
  {
    if i > 0 {
      FindBound(bs[1..], i - 1);
    }
  }

  lemma AnswersAdd(bs: seq<Binding>, ds: seq<Demand>, d: Demand)
    requires Answers(bs, ds) && DistinctParams(bs) && Add(bs, d).Ok?
    ensures Answers(Add(bs, d).value, ds + [d]) && DistinctParams(Add(bs, d).value)
  {
    var more := Add(bs, d).value;
    FindNone(bs, d.param);
    if more != bs {
      forall i | 0 <= i < |ds|
        ensures Find(more, ds[i].param) == ds[i].ty && ds[i].ty.Some?
      {
        FindAppend(bs, Binding(d.param, d.ty.value), ds[i].param);
        FindNone(bs, ds[i].param);
      }
      FindAppend(bs, Binding(d.param, d.ty.value), d.param);
    }
    assert d in ds + [d];
    forall i | 0 <= i < |more|
      ensures Demand(more[i].param, Some(more[i].ty)) in ds + [d]
    {
      if i < |bs| {
        assert Demand(bs[i].param, Some(bs[i].ty)) in ds;
      }
    }
  }

  lemma {:induction false} AddAllAnswers(bs: seq<Binding>, met: seq<Demand>, ds: seq<Demand>)
    requires Answers(bs, met) && DistinctParams(bs)
    ensures var r := AddAll(bs, ds);
      && (r.Ok? ==> Answers(r.value, met + ds) && DistinctParams(r.value))
      && (r.Err? ==> !Consistent(met + ds))
    decreases |ds|
  {
    if ds == [] {
      assert met + ds == met;
    } else {
      var d := ds[0];
      assert met + ds == met + [d] + ds[1..];
      match Add(bs, d)
      case Ok(more) =>
        AnswersAdd(bs, met, d);
        AddAllAnswers(more, met + [d], ds[1..]);
      case Err(_) => ConflictShows(bs, met, ds);
    }
  }

  lemma ConflictShows(bs: seq<Binding>, met: seq<Demand>, ds: seq<Demand>)
    requires Answers(bs, met) && DistinctParams(bs) && ds != [] && Add(bs, ds[0]).Err?
    ensures !Consistent(met + ds)
  {
    var all := met + ds;
    assert all[|met|] == ds[0];
    if ds[0].ty.Some? {
      FindNone(bs, ds[0].param);
      var i :| 0 <= i < |bs| && bs[i].param == ds[0].param;
      FindBound(bs, i);
      var j :| 0 <= j < |met| && met[j] == Demand(bs[i].param, Some(bs[i].ty));
      assert all[j] == met[j];
    }
  }

  lemma AnswersAreConsistent(bs: seq<Binding>, ds: seq<Demand>)
    requires Answers(bs, ds)
    ensures Consistent(ds)
  {
  }

  /** Unification succeeds exactly on consistent demands, and then its bindings answer them. */
  lemma AddAllDecides(ds: seq<Demand>)
    ensures AddAll([], ds).Ok? <==> Consistent(ds)
    ensures AddAll([], ds).Ok? ==> Answers(AddAll([], ds).value, ds) && DistinctParams(AddAll([], ds).value)
  {
    AddAllAnswers([], [], ds);
    assert [] + ds == ds;
    if AddAll([], ds).Ok? {
      AnswersAreConsistent(AddAll([], ds).value, ds);
    }
  }

  predicate SameDemands(a: seq<Demand>, b: seq<Demand>) {
    (forall d | d in a :: d in b) && (forall d | d in b :: d in a)
  }

  lemma ConsistentIgnoresOrder(a: seq<Demand>, b: seq<Demand>)
    requires SameDemands(a, b) && Consistent(a)
    ensures Consistent(b)
  {
    forall i | 0 <= i < |b|
      ensures b[i].ty.Some?
    {
      assert b[i] in a;
    }
    forall i, j | 0 <= i < |b| && 0 <= j < |b| && b[i].param == b[j].param
      ensures b[i].ty == b[j].ty
    {
      assert b[i] in a && b[j] in a;
    }
  }

  /** The order in which the demands are met decides neither success nor any binding. */
  lemma AddAllIgnoresOrder(a: seq<Demand>, b: seq<Demand>)
    requires SameDemands(a, b)
    ensures AddAll([], a).Ok? <==> AddAll([], b).Ok?
    ensures AddAll([], a).Ok? ==> forall p :: Find(AddAll([], a).value, p) == Find(AddAll([], b).value, p)
  {
    AddAllDecides(a);
    AddAllDecides(b);
    if Consistent(a) {
      ConsistentIgnoresOrder(a, b);
      var x, y := AddAll([], a).value, AddAll([], b).value;
      forall p
        ensures Find(x, p) == Find(y, p)
      {
        FindIsDemanded(x, a, p);
        FindIsDemanded(y, b, p);
      }
    } else if Consistent(b) {
      ConsistentIgnoresOrder(b, a);
    }
  }

  lemma FindIsDemanded(bs: seq<Binding>, ds: seq<Demand>, p: string)
    requires Answers(bs, ds) && DistinctParams(bs)
    ensures match Find(bs, p) case Some(ty) => Demand(p, Some(ty)) in ds case None => forall d | d in ds :: d.param != p
  {
    FindNone(bs, p);
    if Find(bs, p).Some? {
      var i :| 0 <= i < |bs| && bs[i].param == p;
      FindBound(bs, i);
    }
  }

  // ---- instances ----

  /** No parameter is named anywhere in the term. */
  predicate Closed(names: seq<string>, t: Term)
    decreases t
  {
    match t
    case Atom(name) => name !in names
    case Apply(_, args) => ClosedAll(names, args)
    case Nullable(inner) => Closed(names, inner)
    case Union(ms) => ClosedAll(names, ms)
    case Intersection(ms) => ClosedAll(names, ms)
    case Callable(params, ret) => ClosedAll(names, params) && Closed(names, ret)
  }

  predicate ClosedAll(names: seq<string>, ts: seq<Term>)
    decreases ts
  {
    ts == [] || (Closed(names, ts[0]) && ClosedAll(names, ts[1..]))
  }

  predicate BindsOnly(names: seq<string>, bs: seq<Binding>) {
    forall i | 0 <= i < |bs| :: bs[i].param in names
  }

  /** A type parameter, its nullable wrappers aside. */
  predicate IsParameterTerm(names: seq<string>, d: Term)
    decreases d
  {
    match d
    case Atom(name) => name in names
    case Nullable(inner) => IsParameterTerm(names, inner)
    case _ => false
  }

  /** What a nullable declaration is compared with: a parameter takes the whole actual term, anything
      else what the actual term's own wrapper holds. */
  function Unwrapped(names: seq<string>, inner: Term, a: Term): Term {
    if a.Nullable? && !IsParameterTerm(names, inner) then a.inner else a
  }

  /** The actual term is the declared one at a substitution, up to the declaration's own nullable
      wrappers and the case of its heads. */
  predicate Instance(names: seq<string>, d: Term, bs: seq<Binding>, a: Term)
    decreases d
  {
    match d
    case Atom(name) => if name in names then Find(bs, name) == Some(a) else a == d
    case Nullable(inner) => Instance(names, inner, bs, Unwrapped(names, inner, a))
    case Apply(head, args) =>
      a.Apply? && SameHead(head, a.head) && |args| == |a.args| && InstanceAll(names, args, bs, a.args)
    case _ => a == Substitute(d, bs)
  }

  predicate InstanceAll(names: seq<string>, ds: seq<Term>, bs: seq<Binding>, actual: seq<Term>)
    requires |ds| == |actual|
    decreases ds
  {
    ds == [] || (Instance(names, ds[0], bs, actual[0]) && InstanceAll(names, ds[1..], bs, actual[1..]))
  }

  /** The actual term has the declared shape wherever the walk meets no parameter, and parameters
      occur only where the walk meets them. */
  predicate Shaped(names: seq<string>, d: Term, a: Term)
    decreases d
  {
    match d
    case Atom(name) => name in names || a == d
    case Nullable(inner) =>
      var x := Unwrapped(names, inner, a);
      Shaped(names, inner, x) && (x != a ==> Demands(names, inner, x) == [])
    case Apply(head, args) => a.Apply? && SameHead(head, a.head) && |args| == |a.args| && ShapedAll(names, args, a.args)
    case _ => a == d && Closed(names, d)
  }

  predicate ShapedAll(names: seq<string>, ds: seq<Term>, actual: seq<Term>)
    requires |ds| == |actual|
    decreases ds
  {
    ds == [] || (Shaped(names, ds[0], actual[0]) && ShapedAll(names, ds[1..], actual[1..]))
  }

  predicate Meets(bs: seq<Binding>, ds: seq<Demand>) {
    forall i | 0 <= i < |ds| :: ds[i].ty.Some? && Find(bs, ds[i].param) == ds[i].ty
  }

  lemma MeetsConcat(bs: seq<Binding>, a: seq<Demand>, b: seq<Demand>)
    ensures Meets(bs, a + b) <==> Meets(bs, a) && Meets(bs, b)
  {
    var c := a + b;
    assert forall i | 0 <= i < |a| :: a[i] == c[i];
    assert forall i | 0 <= i < |b| :: b[i] == c[|a| + i];
  }

  /** The walk does not look past a nullable wrapper of the actual term. */
  lemma {:induction false} NullableDemandsNothing(names: seq<string>, d: Term, a: Term)
    requires !IsParameterTerm(names, d) && a.Nullable?
    ensures Demands(names, d, a) == []
    decreases d
  {
    match d
    case Nullable(inner) => NullableDemandsNothing(names, inner, a);
    case _ =>
  }

  /** Whatever makes the actual term an instance meets every demand the walk makes. */
  lemma {:induction false} InstanceMeetsDemands(names: seq<string>, d: Term, bs: seq<Binding>, a: Term)
    requires Instance(names, d, bs, a)
    ensures Meets(bs, Demands(names, d, a))
    decreases d
  {
    match d
    case Nullable(inner) =>
      if Unwrapped(names, inner, a) == a {
        InstanceMeetsDemands(names, inner, bs, a);
      } else {
        NullableDemandsNothing(names, inner, a);
      }
    case Apply(_, args) => InstancesMeetDemands(names, args, bs, a.args);
    case _ =>
  }

  lemma {:induction false} InstancesMeetDemands(names: seq<string>, ds: seq<Term>, bs: seq<Binding>, actual: seq<Term>)
    requires |ds| == |actual| && InstanceAll(names, ds, bs, actual)
    ensures Meets(bs, DemandsAll(names, ds, actual))
    decreases ds
  {
    if ds != [] {
      InstanceMeetsDemands(names, ds[0], bs, actual[0]);
      InstancesMeetDemands(names, ds[1..], bs, actual[1..]);
      MeetsConcat(bs, Demands(names, ds[0], actual[0]), DemandsAll(names, ds[1..], actual[1..]));
    }
  }

  lemma {:induction false} ClosedIsFixed(names: seq<string>, t: Term, bs: seq<Binding>)
    requires Closed(names, t) && BindsOnly(names, bs)
    ensures Substitute(t, bs) == t
    decreases t
  {
    match t
    case Atom(name) => FindNone(bs, name);
    case Apply(_, args) => ClosedAreFixed(names, args, bs);
    case Nullable(inner) => ClosedIsFixed(names, inner, bs);
    case Union(ms) => ClosedAreFixed(names, ms, bs);
    case Intersection(ms) => ClosedAreFixed(names, ms, bs);
    case Callable(params, ret) => ClosedAreFixed(names, params, bs); ClosedIsFixed(names, ret, bs);
  }

  lemma {:induction false} ClosedAreFixed(names: seq<string>, ts: seq<Term>, bs: seq<Binding>)
    requires ClosedAll(names, ts) && BindsOnly(names, bs)
    ensures SubstituteAll(ts, bs) == ts
    decreases ts
  {
    if ts != [] {
      ClosedIsFixed(names, ts[0], bs);
      ClosedAreFixed(names, ts[1..], bs);
      assert ts == [ts[0]] + ts[1..];
    }
  }

  /** Conversely, a term of the declared shape whose demands are met is an instance. */
  lemma {:induction false} MetDemandsMakeAnInstance(names: seq<string>, d: Term, bs: seq<Binding>, a: Term)
    requires Shaped(names, d, a) && BindsOnly(names, bs) && Meets(bs, Demands(names, d, a))
    ensures Instance(names, d, bs, a)
    decreases d
  {
    match d
    case Atom(name) =>
      if name in names {
        assert Demands(names, d, a)[0] == Demand(name, Some(a));
      }
    case Nullable(inner) => MetDemandsMakeAnInstance(names, inner, bs, Unwrapped(names, inner, a));
    case Apply(_, args) => MetDemandsMakeInstances(names, args, bs, a.args);
    case _ => ClosedIsFixed(names, d, bs);
  }

  lemma {:induction false} MetDemandsMakeInstances(names: seq<string>, ds: seq<Term>, bs: seq<Binding>,
      actual: seq<Term>)
    requires |ds| == |actual| && ShapedAll(names, ds, actual) && BindsOnly(names, bs)
      && Meets(bs, DemandsAll(names, ds, actual))
    ensures InstanceAll(names, ds, bs, actual)
    decreases ds
  {
    if ds != [] {
      MeetsConcat(bs, Demands(names, ds[0], actual[0]), DemandsAll(names, ds[1..], actual[1..]));
      MetDemandsMakeAnInstance(names, ds[0], bs, actual[0]);
      MetDemandsMakeInstances(names, ds[1..], bs, actual[1..]);
    }
  }

  // ---- an instance is a substitution ----

  /** The declaration without its own nullable wrappers. */
  function Stripped(d: Term): Term
    decreases d
  {
    match d
    case Nullable(inner) => Stripped(inner)
    case Apply(head, args) => Apply(head, StrippedAll(args))
    case _ => d
  }

  function StrippedAll(ds: seq<Term>): (r: seq<Term>)
    ensures |r| == |ds|
    decreases ds
  {
    if ds == [] then [] else [Stripped(ds[0])] + StrippedAll(ds[1..])
  }

  /** Every class the walk passes is spelled alike on both sides, and no declared wrapper meets one of
      the actual term. */
  predicate SpelledAlike(names: seq<string>, d: Term, a: Term)
    decreases d
  {
    match d
    case Nullable(inner) => Unwrapped(names, inner, a) == a && SpelledAlike(names, inner, a)
    case Apply(head, args) => a.Apply? && |args| == |a.args| ==> head == a.head && SpelledAllAlike(names, args, a.args)
    case _ => true
  }

  predicate SpelledAllAlike(names: seq<string>, ds: seq<Term>, actual: seq<Term>)
    requires |ds| == |actual|
    decreases ds
  {
    ds == [] || (SpelledAlike(names, ds[0], actual[0]) && SpelledAllAlike(names, ds[1..], actual[1..]))
  }

  /** The same term, but for the letter case of class names and nullable wrappers of the second. */
  predicate SameInside(x: Term, y: Term)
    decreases y
  {
    || x == y
    || (y.Nullable? && SameInside(x, y.inner))
    || (x.Apply? && y.Apply? && SameHead(x.head, y.head) && |x.args| == |y.args| && AllSameInside(x.args, y.args))
  }

  predicate AllSameInside(xs: seq<Term>, ys: seq<Term>)
    requires |xs| == |ys|
    decreases ys
  {
    xs == [] || (SameInside(xs[0], ys[0]) && AllSameInside(xs[1..], ys[1..]))
  }

  /** A declared term that is no parameter is stripped to one that no substitution makes nullable. */
  lemma {:induction false} StrippedIsNotNullable(names: seq<string>, d: Term, bs: seq<Binding>)
    requires !IsParameterTerm(names, d) && BindsOnly(names, bs)
    ensures !Substitute(Stripped(d), bs).Nullable?
    decreases d
  {
    match d
    case Atom(name) => FindNone(bs, name);
    case Nullable(inner) => StrippedIsNotNullable(names, inner, bs);
    case _ =>
  }

  /** Substituting into the declaration, its nullable wrappers aside, gives the actual term back but
      for letter case and the wrappers it has at the same places, and the very term exactly when there
      are none and the declaration spells its classes alike. */
  lemma {:induction false} InstanceIsSubstitution(names: seq<string>, d: Term, bs: seq<Binding>, a: Term)
    requires Instance(names, d, bs, a) && BindsOnly(names, bs)
    ensures SameInside(Substitute(Stripped(d), bs), a)
    ensures Substitute(Stripped(d), bs) == a <==> SpelledAlike(names, d, a)
    decreases d
  {
    match d
    case Atom(name) => FindNone(bs, name);
    case Nullable(inner) =>
      InstanceIsSubstitution(names, inner, bs, Unwrapped(names, inner, a));
      if Unwrapped(names, inner, a) != a {
        StrippedIsNotNullable(names, inner, bs);
      }
    case Apply(_, args) => InstancesAreSubstitutions(names, args, bs, a.args);
    case _ =>
  }

  lemma {:induction false} InstancesAreSubstitutions(names: seq<string>, ds: seq<Term>, bs: seq<Binding>,
      actual: seq<Term>)
    requires |ds| == |actual| && InstanceAll(names, ds, bs, actual) && BindsOnly(names, bs)
    ensures AllSameInside(SubstituteAll(StrippedAll(ds), bs), actual)
    ensures SubstituteAll(StrippedAll(ds), bs) == actual <==> SpelledAllAlike(names, ds, actual)
    decreases ds
  {
    if ds != [] {
      InstanceIsSubstitution(names, ds[0], bs, actual[0]);
      InstancesAreSubstitutions(names, ds[1..], bs, actual[1..]);
      var xs := SubstituteAll(StrippedAll(ds), bs);
      assert StrippedAll(ds)[1..] == StrippedAll(ds[1..]) && actual == [actual[0]] + actual[1..];
      assert xs[1..] == SubstituteAll(StrippedAll(ds[1..]), bs) && xs == [xs[0]] + xs[1..];
    }
  }

  lemma {:induction false} DemandsAreNamed(names: seq<string>, d: Term, a: Term)
    ensures forall x | x in Demands(names, d, a) :: x.param in names
    decreases d
  {
    match d
    case Nullable(inner) => DemandsAreNamed(names, inner, a);
    case Apply(head, args) =>
      if a.Apply? && SameHead(head, a.head) && |args| == |a.args| {
        AllDemandsAreNamed(names, args, a.args);
      }
    case _ =>
  }

  lemma {:induction false} AllDemandsAreNamed(names: seq<string>, ds: seq<Term>, actual: seq<Term>)
    requires |ds| == |actual|
    ensures forall x | x in DemandsAll(names, ds, actual) :: x.param in names
    decreases ds
  {
    if ds != [] {
      DemandsAreNamed(names, ds[0], actual[0]);
      AllDemandsAreNamed(names, ds[1..], actual[1..]);
    }
  }

  // ---- finishing: defaults and the depth limit ----

  const MAX_TYPE_ARGUMENT_DEPTH: nat := 8

  datatype Parameter = Parameter(name: string, default: Option<Term>)

  function Depth(t: Term): nat
    decreases t
  {
    match t
    case Atom(_) => 1
    case Nullable(inner) => 1 + Depth(inner)
    case Apply(_, args) => 1 + MaxDepth(args)
    case Union(ms) => 1 + MaxDepth(ms)
    case Intersection(ms) => 1 + MaxDepth(ms)
    case Callable(params, ret) => 1 + (if Depth(ret) > MaxDepth(params) then Depth(ret) else MaxDepth(params))
  }

  function MaxDepth(ts: seq<Term>): nat
    decreases ts
  {
    if ts == [] then 0
    else if Depth(ts[0]) > MaxDepth(ts[1..]) then Depth(ts[0]) else MaxDepth(ts[1..])
  }

  /** The terms a term is directly built from. */
  predicate Component(t: Term, u: Term) {
    match t
    case Atom(_) => false
    case Nullable(inner) => u == inner
    case Apply(_, args) => u in args
    case Union(ms) => u in ms
    case Intersection(ms) => u in ms
    case Callable(params, ret) => u in params || u == ret
  }

  /** Terms each built from the next, starting at `t`. */
  predicate Nesting(chain: seq<Term>, t: Term) {
    chain != [] && chain[0] == t && forall i | 0 <= i < |chain| - 1 :: Component(chain[i], chain[i + 1])
  }

  lemma {:induction false} DeepestOf(ts: seq<Term>) returns (k: nat)
    ensures ts != [] ==> k < |ts| && Depth(ts[k]) == MaxDepth(ts)
    ensures forall u | u in ts :: Depth(u) <= MaxDepth(ts)
    decreases ts
  {
    k := 0;
    if ts != [] {
      var j := DeepestOf(ts[1..]);
      if ts[1..] != [] && Depth(ts[0]) <= MaxDepth(ts[1..]) {
        k := j + 1;
      }
    }
  }

  /** A component is less deep, and some component is only one less deep unless there is none. */
  lemma ComponentsAreShallower(t: Term) returns (u: Term)
    ensures forall v :: Component(t, v) ==> Depth(v) < Depth(t)
    ensures Depth(t) > 1 ==> Component(t, u) && Depth(u) == Depth(t) - 1
  {
    u := t;
    match t
    case Atom(_) =>
    case Nullable(inner) =>
      u := inner;
    case Apply(_, args) =>
      var k := DeepestOf(args);
      u := if args != [] then args[k] else t;
    case Union(ms) =>
      var k := DeepestOf(ms);
      u := if ms != [] then ms[k] else t;
    case Intersection(ms) =>
      var k := DeepestOf(ms);
      u := if ms != [] then ms[k] else t;
    case Callable(params, ret) =>
      var k := DeepestOf(params);
      u := if params == [] || Depth(ret) > MaxDepth(params) then ret else params[k];
  }

  /** The longest nesting of a term has as many terms as its depth. */
  lemma {:induction false} DepthIsTheLongestNesting(t: Term) returns (chain: seq<Term>)
    ensures Nesting(chain, t) && |chain| == Depth(t)
    decreases Depth(t)
  {
    chain := [t];
    var u := ComponentsAreShallower(t);
    if Depth(t) > 1 {
      chain := DepthIsTheLongestNesting(u);
      chain := [t] + chain;
    }
  }

  lemma {:induction false} NoNestingIsLonger(t: Term, chain: seq<Term>)
    requires Nesting(chain, t)
    ensures |chain| <= Depth(t)
    decreases |chain|
  {
    if |chain| > 1 {
      var u := ComponentsAreShallower(t);
      NoNestingIsLonger(chain[1], chain[1..]);
    }
  }

  /** A type is too deep for an argument exactly when nine types are nested in it, itself the outermost. */
  lemma TooDeepExactly(t: Term)
    ensures Depth(t) > MAX_TYPE_ARGUMENT_DEPTH <==> exists chain: seq<Term> :: Nesting(chain, t) && |chain| == 9
  {
    if Depth(t) > MAX_TYPE_ARGUMENT_DEPTH {
      var chain := DepthIsTheLongestNesting(t);
      assert Nesting(chain[..9], t);
    }
    forall chain: seq<Term> | Nesting(chain, t)
      ensures |chain| <= Depth(t)
    {
      NoNestingIsLonger(t, chain);
    }
  }

  /** The argument of one parameter: what was inferred, or else its default at the arguments before it. */
  function Argument(p: Parameter, inferred: seq<Binding>, before: seq<Binding>): Option<Term> {
    match Find(inferred, p.name)
    case Some(ty) => Some(ty)
    case None => match p.default case Some(ty) => Some(Substitute(ty, before)) case None => None
  }

  /** A finished argument list: one argument a parameter, in declaration order. */
  predicate Finished(ps: seq<Parameter>, inferred: seq<Binding>, bs: seq<Binding>) {
    && |bs| == |ps|
    && (forall i | 0 <= i < |ps| :: bs[i].param == ps[i].name)
    && (forall i | 0 <= i < |ps| :: Argument(ps[i], inferred, bs[..i]) == Some(bs[i].ty))
    && (forall i | 0 <= i < |ps| :: Depth(bs[i].ty) <= MAX_TYPE_ARGUMENT_DEPTH)
  }

  /** The parameters before the i-th one are finished, and this is what keeps it from being so. */
  ghost predicate FailsAt(ps: seq<Parameter>, inferred: seq<Binding>, i: nat, e: InferError) {
    i < |ps| && exists bs :: Finished(ps[..i], inferred, bs) && Unfinished(ps[i], Argument(ps[i], inferred, bs), e)
  }

  predicate Unfinished(p: Parameter, argument: Option<Term>, e: InferError) {
    match argument
    case None => e == Unconstrained(p.name)
    case Some(ty) => Depth(ty) > MAX_TYPE_ARGUMENT_DEPTH && e == TooDeep(p.name)
  }

  /** The error names the first parameter that cannot be finished. */
  method Finish(ps: seq<Parameter>, inferred: seq<Binding>) returns (r: Result<seq<Binding>, InferError>)
    ensures r.Ok? ==> Finished(ps, inferred, r.value)
    ensures r.Err? ==> exists i :: FailsAt(ps, inferred, i, r.error)
    ensures r.Err? ==> (r.error.Unconstrained? || r.error.TooDeep?) && !exists bs :: Finished(ps, inferred, bs)
  {
    var bs: seq<Binding> := [];
    var i := 0;
    while i < |ps|
      invariant 0 <= i <= |ps|
      invariant Finished(ps[..i], inferred, bs)
    {
      var p := ps[i];
      var ty := Argument(p, inferred, bs);
      if ty.None? {
        assert FailsAt(ps, inferred, i, Unconstrained(p.name));
        FailureIsUnique(ps, inferred, i, Unconstrained(p.name), i, Unconstrained(p.name));
        return Err(Unconstrained(p.name));
      }
      if Depth(ty.value) > MAX_TYPE_ARGUMENT_DEPTH {
        assert FailsAt(ps, inferred, i, TooDeep(p.name));
        FailureIsUnique(ps, inferred, i, TooDeep(p.name), i, TooDeep(p.name));
        return Err(TooDeep(p.name));
      }
      var more := bs + [Binding(p.name, ty.value)];
      assert forall j | 0 <= j < i :: more[..j] == bs[..j];
      assert more[..i] == bs;
      bs := more;
      i := i + 1;
    }
    assert ps[..i] == ps;
    return Ok(bs);
  }

  /** A finished list is unique, so a step that fails fails for good. */
  lemma {:induction false} FinishIsUnique(ps: seq<Parameter>, inferred: seq<Binding>, a: seq<Binding>, b: seq<Binding>)
    requires Finished(ps, inferred, a) && Finished(ps, inferred, b)
    ensures a == b
  {
    var n := |ps|;
    if n > 0 {
      FinishedPrefix(ps, inferred, a, n - 1);
      FinishedPrefix(ps, inferred, b, n - 1);
      FinishIsUnique(ps[..n - 1], inferred, a[..n - 1], b[..n - 1]);
      assert a == a[..n - 1] + [a[n - 1]] && b == b[..n - 1] + [b[n - 1]];
    }
  }

  lemma FinishedPrefix(ps: seq<Parameter>, inferred: seq<Binding>, bs: seq<Binding>, i: nat)
    requires Finished(ps, inferred, bs) && i <= |ps|
    ensures Finished(ps[..i], inferred, bs[..i])
  {
    assert forall j | 0 <= j < i :: bs[..i][..j] == bs[..j];
  }

  lemma StopsWhereItFails(ps: seq<Parameter>, inferred: seq<Binding>, i: nat, e: InferError, other: seq<Binding>,
      n: nat)
    requires FailsAt(ps, inferred, i, e) && n <= |ps| && Finished(ps[..n], inferred, other)
    ensures n <= i
  {
    if n > i {
      var bs :| Finished(ps[..i], inferred, bs) && Unfinished(ps[i], Argument(ps[i], inferred, bs), e);
      FinishedPrefix(ps[..n], inferred, other, i);
      assert ps[..n][..i] == ps[..i];
      FinishIsUnique(ps[..i], inferred, bs, other[..i]);
    }
  }

  /** A failure is the only one, and leaves no finished list. */
  lemma FailureIsUnique(ps: seq<Parameter>, inferred: seq<Binding>, i: nat, e: InferError, j: nat, f: InferError)
    requires FailsAt(ps, inferred, i, e)
    ensures forall bs :: !Finished(ps, inferred, bs)
    ensures FailsAt(ps, inferred, j, f) ==> i == j && e == f
  {
    forall bs | Finished(ps, inferred, bs) ensures false {
      assert ps[..|ps|] == ps;
      StopsWhereItFails(ps, inferred, i, e, bs, |ps|);
    }
    if FailsAt(ps, inferred, j, f) {
      var a :| Finished(ps[..i], inferred, a) && Unfinished(ps[i], Argument(ps[i], inferred, a), e);
      var b :| Finished(ps[..j], inferred, b) && Unfinished(ps[j], Argument(ps[j], inferred, b), f);
      StopsWhereItFails(ps, inferred, i, e, b, j);
      StopsWhereItFails(ps, inferred, j, f, a, i);
      FinishIsUnique(ps[..i], inferred, a, b);
    }
  }

  /** Every name the term still needs is bound to a closed type. */
  ghost predicate Covers(bs: seq<Binding>, names: seq<string>, open: seq<string>) {
    forall n | n in names :: n in open || (Find(bs, n).Some? && Closed(names, Find(bs, n).value))
  }

  lemma {:induction false} SubstituteCloses(names: seq<string>, open: seq<string>, t: Term, bs: seq<Binding>)
    requires Closed(open, t) && Covers(bs, names, open) && BindsOnly(names, bs)
    ensures Closed(names, Substitute(t, bs))
    decreases t
  {
    match t
    case Atom(name) =>
      FindNone(bs, name);
      assert name in names ==> name in open || Find(bs, name).Some?;
    case Apply(_, args) => SubstituteAllCloses(names, open, args, bs);
    case Nullable(inner) => SubstituteCloses(names, open, inner, bs);
    case Union(ms) => SubstituteAllCloses(names, open, ms, bs);
    case Intersection(ms) => SubstituteAllCloses(names, open, ms, bs);
    case Callable(params, ret) => SubstituteAllCloses(names, open, params, bs); SubstituteCloses(names, open, ret, bs);
  }

  lemma {:induction false} SubstituteAllCloses(names: seq<string>, open: seq<string>, ts: seq<Term>, bs: seq<Binding>)
    requires ClosedAll(open, ts) && Covers(bs, names, open) && BindsOnly(names, bs)
    ensures ClosedAll(names, SubstituteAll(ts, bs))
    decreases ts
  {
    if ts != [] {
      SubstituteCloses(names, open, ts[0], bs);
      SubstituteAllCloses(names, open, ts[1..], bs);
      assert SubstituteAll(ts, bs)[1..] == SubstituteAll(ts[1..], bs);
    }
  }

  function NamesOf(ps: seq<Parameter>): seq<string> {
    seq(|ps|, i requires 0 <= i < |ps| => ps[i].name)
  }

  /** Each default names only parameters declared before its own. */
  predicate DefaultsLookBack(ps: seq<Parameter>) {
    forall i | 0 <= i < |ps| && ps[i].default.Some? :: Closed(NamesOf(ps)[i..], ps[i].default.value)
  }

  predicate DistinctNames(ps: seq<Parameter>) {
    forall i, j | 0 <= i < j < |ps| :: ps[i].name != ps[j].name
  }

  /** No argument of a finished list names a parameter: dependent defaults are resolved. */
  lemma {:induction false} FinishedIsClosed(ps: seq<Parameter>, inferred: seq<Binding>, bs: seq<Binding>, i: nat)
    requires Finished(ps, inferred, bs) && DefaultsLookBack(ps) && DistinctNames(ps) && i <= |ps|
    requires forall j | 0 <= j < |inferred| :: Closed(NamesOf(ps), inferred[j].ty)
    ensures forall j | 0 <= j < i :: Closed(NamesOf(ps), bs[j].ty)
  {
    if i > 0 {
      FinishedIsClosed(ps, inferred, bs, i - 1);
      var p := ps[i - 1];
      var names := NamesOf(ps);
      FindIsListed(inferred, p.name);
      if Find(inferred, p.name).None? {
        var before := bs[..i - 1];
        forall n | n in names
          ensures n in names[i - 1..] || (Find(before, n).Some? && Closed(names, Find(before, n).value))
        {
          var k :| 0 <= k < |names| && names[k] == n;
          if k < i - 1 {
            FindBound(before, k);
          } else {
            assert names[i - 1..][k - (i - 1)] == n;
          }
        }
        assert forall k | 0 <= k < |before| :: before[k].param == names[k];
        SubstituteCloses(names, names[i - 1..], p.default.value, before);
      }
    }
  }

  lemma {:induction false} FindIsListed(bs: seq<Binding>, p: string)
    ensures Find(bs, p).Some? ==> exists i :: 0 <= i < |bs| && bs[i] == Binding(p, Find(bs, p).value)
  {
    if bs != [] {
      if bs[0].param == p {
        assert bs[0] == Binding(p, Find(bs, p).value);
      } else {
        FindIsListed(bs[1..], p);
        if Find(bs, p).Some? {
          var i :| 0 <= i < |bs[1..]| && bs[1..][i] == Binding(p, Find(bs, p).value);
          assert bs[i + 1] == Binding(p, Find(bs, p).value);
        }
      }
    }
  }
}
