/** What inferred arguments mean for a program: they do not depend on the order of the positions,
    they make each declared type print as its argument's, and where one class has two spellings. */
module GenericFit {
  import opened Wrappers
  import opened GenericTypes
  import opened TypeGrammar
  import opened TypeSpelling
  import opened TypeReading
  import opened TypeMisreading
  import opened TypeCanonical
  import opened GenericTerms
  import opened GenericSharing
  import opened GenericInference

  // ---- position order ----

  /** Every declared parameter has an argument. */
  predicate Full(c: Call) {
    |c.declared| == |c.actual| == |c.closures|
  }

  /** Each position of one call occurs in the other. */
  predicate PositionsIn(a: Call, b: Call)
    requires Full(a) && Full(b)
  {
    forall i | 0 <= i < |a.declared| ::
      exists j ::
        0 <= j < |b.declared| && b.declared[j] == a.declared[i] && b.actual[j] == a.actual[i]
        && b.closures[j] == a.closures[i]
  }

  lemma {:induction false} InFlat(dss: seq<seq<Demand>>, x: Demand)
    ensures x in Flat(dss) <==> exists i :: 0 <= i < |dss| && x in dss[i]
  {
    if dss != [] {
      InFlat(dss[1..], x);
      if x in Flat(dss[1..]) {
        var i :| 0 <= i < |dss[1..]| && x in dss[1..][i];
        assert x in dss[i + 1];
      }
      if i :| 0 <= i < |dss| && x in dss[i] {
        if i > 0 {
          assert x in dss[1..][i - 1];
        }
      }
    }
  }

  lemma PositionCarriesOver(names: seq<string>, a: Call, b: Call, i: nat)
    requires Full(a) && Full(b) && PositionsIn(a, b) && i < |a.declared|
    ensures exists j ::
      0 <= j < |b.declared| && ClosurePhase(names, b)[j] == ClosurePhase(names, a)[i]
      && TypePhase(names, b)[j] == TypePhase(names, a)[i]
  {
    var j :| 0 <= j < |b.declared| && b.declared[j] == a.declared[i] && b.actual[j] == a.actual[i]
      && b.closures[j] == a.closures[i];
    assert ClosurePhase(names, b)[j] == ClosurePhase(names, a)[i] && TypePhase(names, b)[j] == TypePhase(names, a)[i];
  }

  lemma DemandsCarryOver(names: seq<string>, a: Call, b: Call, x: Demand)
    requires Full(a) && Full(b) && PositionsIn(a, b) && x in CallDemands(names, a)
    ensures x in CallDemands(names, b)
  {
    var da, ta := ClosurePhase(names, a), TypePhase(names, a);
    var db, tb := ClosurePhase(names, b), TypePhase(names, b);
    InFlat(da, x);
    InFlat(ta, x);
    InFlat(db, x);
    InFlat(tb, x);
    var i :| 0 <= i < |a.declared| && (x in da[i] || x in ta[i]);
    PositionCarriesOver(names, a, b, i);
  }

  /** Neither success nor any binding depends on the order of the positions. */
  lemma InferenceIgnoresPositionOrder(names: seq<string>, a: Call, b: Call)
    requires Full(a) && Full(b) && PositionsIn(a, b) && PositionsIn(b, a)
    ensures var x, y := AddAll([], CallDemands(names, a)), AddAll([], CallDemands(names, b));
      && (x.Ok? <==> y.Ok?)
      && (x.Ok? ==> forall p :: Find(x.value, p) == Find(y.value, p))
  {
    var x, y := CallDemands(names, a), CallDemands(names, b);
    forall d | d in x
      ensures d in y
    {
      DemandsCarryOver(names, a, b, d);
    }
    forall d | d in y
      ensures d in x
    {
      DemandsCarryOver(names, b, a, d);
    }
    AddAllIgnoresOrder(x, y);
  }

  // ---- the substituted declaration prints as the argument's type ----

  /** Type parameters are plain identifiers. */
  predicate PlainNames(names: seq<string>) {
    forall i | 0 <= i < |names| :: !HasRoot(names[i]) && !IsCWidth(names[i])
  }

  /** Where the walk opens an instantiated class, that class's name is the printed form of what it
      decodes to, and the declaration spells it alike; and there is no null at a nullable type, no
      signature and no intersection, whose types print as less than they declare. */
  predicate PrintedAlike(names: seq<string>, d: TypeExpr, a: PhpType)
    decreases d
  {
    match d
    case TNullable(e) =>
      (IsParameter(names, e) || (!a.PVoid? && !IsNullable(a))) && PrintedAlike(names, e, a)
    case TArray(e) => a.PArray? ==> PrintedAlike(names, e, a.elem)
    case TAssoc(k, v) => a.PAssoc? ==> PrintedAlike(names, k, a.key) && PrintedAlike(names, v, a.value)
    case TCallable(_, _) => false
    case TIntersection(_) => false
    case TGeneric(n, args) =>
      var actual := Instantiation(a, n, |args|);
      actual.Some? ==>
        && a.name == Describe(TGeneric(n, actual.value))
        && SpelledAllAlike(names, ToSharedAll(args), ToSharedAll(actual.value))
    case _ => true
  }

  lemma PlainName(names: seq<string>, n: Name)
    requires PlainNames(names)
    ensures Text(n) in names ==> ToShared(TNamed(n)) == Atom(Text(n))
    ensures Text(n) !in names ==> Spelling(n) !in names
  {
    if Rooted(n) {
      assert HasRoot(Spelling(n));
    }
  }

  lemma FindOutside(names: seq<string>, bs: seq<Binding>, p: string)
    requires BindsOnly(names, bs) && p !in names
    ensures Find(bs, p) == None
  {
    FindNone(bs, p);
  }

  /** A type with a spelling is printed with atoms, arrays and unions only. */
  lemma SpelledShape(a: PhpType)
    requires SpelledTerm(a).Some? && SpelledTerm(a).value.Apply?
    ensures SpelledTerm(a).value.head == "array"
  {
  }

  lemma {:induction false} InferredTypesFit(names: seq<string>, d: TypeExpr, bs: seq<Binding>, a: PhpType)
    requires TypeInstance(names, d, bs, a) && BindsOnly(names, bs) && PlainNames(names) && PrintedAlike(names, d, a)
    ensures SpelledType(a).Some? ==> Show(Substitute(Stripped(ToShared(d)), bs)) == Describe(SpelledType(a).value)
    decreases d
  {
    if SpelledType(a).Some? {
      match d
      case TNamed(n) => NamedFits(names, n, bs, a);
      case TNullable(e) => InferredTypesFit(names, e, bs, a);
      case TArray(e) => InferredTypesFit(names, e, bs, a.elem); ArrayFits(ToShared(e), bs, SpelledType(a.elem).value);
      case TAssoc(k, v) =>
        InferredTypesFit(names, k, bs, a.key);
        InferredTypesFit(names, v, bs, a.value);
        AssocFits(ToShared(k), ToShared(v), bs, SpelledType(a.key).value, SpelledType(a.value).value);
      case TGeneric(n, args) => GenericFits(names, n, args, bs, a.name, Instantiation(a, n, |args|).value);
      case _ => OtherFits(d, bs, a);
    }
  }

  lemma NamedFits(names: seq<string>, n: Name, bs: seq<Binding>, a: PhpType)
    requires TypeInstance(names, TNamed(n), bs, a) && BindsOnly(names, bs) && PlainNames(names) && SpelledType(a).Some?
    ensures Show(Substitute(Stripped(ToShared(TNamed(n))), bs)) == Describe(SpelledType(a).value)
  {
    SharedSpelling(SpelledType(a).value);
    PlainName(names, n);
    if Text(n) !in names {
      FindOutside(names, bs, Spelling(n));
    }
  }

  lemma ArrayFits(e: Term, bs: seq<Binding>, s: TypeExpr)
    requires Show(Substitute(Stripped(e), bs)) == Describe(s)
    ensures Show(Substitute(Stripped(Apply("array", [e])), bs)) == Describe(TArray(s))
  {
    var x := Substitute(Stripped(e), bs);
    assert StrippedAll([e]) == [Stripped(e)];
    assert SubstituteAll([Stripped(e)], bs) == [x];
    ShowOne(x);
  }

  lemma AssocFits(k: Term, v: Term, bs: seq<Binding>, s: TypeExpr, t: TypeExpr)
    requires Show(Substitute(Stripped(k), bs)) == Describe(s) && Show(Substitute(Stripped(v), bs)) == Describe(t)
    ensures Show(Substitute(Stripped(Apply("array", [k, v])), bs)) == Describe(TAssoc(s, t))
  {
    var x, y := Substitute(Stripped(k), bs), Substitute(Stripped(v), bs);
    assert [k, v][1..] == [v];
    assert StrippedAll([v]) == [Stripped(v)] && StrippedAll([k, v]) == [Stripped(k), Stripped(v)];
    assert [Stripped(k), Stripped(v)][1..] == [Stripped(v)];
    assert SubstituteAll([Stripped(v)], bs) == [y] && SubstituteAll([Stripped(k), Stripped(v)], bs) == [x, y];
    ShowTwo(x, y);
  }

  lemma GenericFits(names: seq<string>, n: Name, args: seq<TypeExpr>, bs: seq<Binding>, name: string,
      actual: seq<TypeExpr>)
    requires |args| == |actual| && InstanceAll(names, ToSharedAll(args), bs, ToSharedAll(actual))
      && BindsOnly(names, bs)
    requires SpelledAllAlike(names, ToSharedAll(args), ToSharedAll(actual)) && name == Describe(TGeneric(n, actual))
    ensures Show(Substitute(Stripped(ToShared(TGeneric(n, args))), bs)) == Describe(SpelledClass(name))
  {
    InstancesAreSubstitutions(names, ToSharedAll(args), bs, ToSharedAll(actual));
    SubstitutedGenericShows(n, args, bs, actual);
    ClassIsSpelled(name, n, actual);
  }

  lemma SubstitutedGenericShows(n: Name, args: seq<TypeExpr>, bs: seq<Binding>, actual: seq<TypeExpr>)
    requires SubstituteAll(StrippedAll(ToSharedAll(args)), bs) == ToSharedAll(actual)
    ensures Show(Substitute(Stripped(ToShared(TGeneric(n, args))), bs)) == Describe(TGeneric(n, actual))
  {
    SharedSpellings(actual, ", ");
  }

  lemma ClassIsSpelled(name: string, n: Name, actual: seq<TypeExpr>)
    requires name == Describe(TGeneric(n, actual))
    ensures Describe(SpelledClass(name)) == name
  {
    assert name[|Text(n)|] == '<';
    ClassSpelling(name);
  }

  /** An instantiated class name is spelled as it stands. */
  lemma ClassSpelling(name: string)
    requires '<' in name
    ensures Describe(SpelledClass(name)) == name && SpelledTerm(PObject(name)) == Some(Atom(name))
  {
    WidthHasNoBracket(name);
    assert Text(Bare(name)) == name;
  }

  lemma WidthHasNoBracket(w: string)
    ensures IsCWidth(w) ==> '<' !in w
  {
  }

  lemma OtherFits(d: TypeExpr, bs: seq<Binding>, a: PhpType)
    requires SpelledTerm(a) == Some(Substitute(ToShared(d), bs))
    requires !d.TNamed? && !d.TNullable? && !d.TArray? && !d.TAssoc? && !d.TGeneric? && !d.TBuffer? && !d.TPtr?
    ensures Show(Substitute(Stripped(ToShared(d)), bs)) == Describe(SpelledType(a).value)
  {
    SharedSpelling(SpelledType(a).value);
    if ToShared(d).Apply? {
      SpelledShape(a);
    }
  }

  // ---- one type, two spellings ----

  /** `f<T>(T $x, M<T> $m)`, called with an argument of type `a` and one of a class named `y`. */
  function PairCall(p: string, m: Name, a: PhpType, y: string): Call {
    Call([Some(TNamed(Bare(p))), Some(TGeneric(m, [TNamed(Bare(p))]))], [a, PObject(y)], [])
  }

  /** The call is inferred exactly when the class says nothing about `T`, or the argument its name
      decodes to is the first argument's own spelling. */
  lemma PairCallDecides(p: string, m: Name, a: PhpType, y: string)
    requires SpelledType(a).Some?
    ensures var instance := Instantiation(PObject(y), m, 1);
      var agrees := instance.None? || SpelledTerm(a) == Some(ToShared(instance.value[0]));
      AddAll([], CallDemands([p], PairCall(p, m, a, y))) == if agrees then Ok([Binding(p, SpelledTerm(a).value)])
        else Err(Conflict(p))
  {
    var d0, d1 := TNamed(Bare(p)), TGeneric(m, [TNamed(Bare(p))]);
    var first := Demand(p, SpelledTerm(a));
    var instance := Instantiation(PObject(y), m, 1);
    NamedDemand(p, a);
    OpenedMentions(p, m);
    if instance.Some? {
      assert instance.value == [instance.value[0]];
      OpenedDemand(p, m, instance.value[0], y);
      TwoPositions([p], d0, d1, a, PObject(y), [first], [Demand(p, Some(ToShared(instance.value[0])))]);
      TwoDemands(p, SpelledTerm(a).value, ToShared(instance.value[0]));
    } else {
      TwoPositions([p], d0, d1, a, PObject(y), [first], []);
      OneDemand(p, SpelledTerm(a).value);
    }
  }

  /** Shapes spelled one way only: no instantiated class, and no union with `null` unless it has two
      other members and `null` stands last. */
  predicate SpelledOnce(a: PhpType)
    decreases a
  {
    match a
    case PObject(name) => '<' !in name
    case PArray(e) => SpelledOnce(e)
    case PAssoc(k, v) => SpelledOnce(k) && SpelledOnce(v)
    case PUnion(ms) => SpelledOnceAll(ms) && NullIsLast(ms)
    case _ => true
  }

  predicate SpelledOnceAll(ms: seq<PhpType>)
    decreases ms
  {
    ms == [] || (SpelledOnce(ms[0]) && SpelledOnceAll(ms[1..]))
  }

  predicate NullIsLast(ms: seq<PhpType>) {
    forall i | 0 <= i < |ms| && ms[i].PVoid? :: i == |ms| - 1 >= 2
  }

  lemma NamesHaveNoBracket(n: Name)
    requires WfNamed(CanonicalName(n))
    ensures '<' !in Text(n)
  {
    CanonicalSpelling(n);
    PartsHaveNoBracket(CanonicalName(n));
  }

  lemma PartsHaveNoBracket(n: Name)
    requires WfNamed(n)
    ensures '<' !in Text(n)
  {
    if WfWidth(n) {
      WidthHasNoBracket(Text(n));
    } else if !WfClass(n) {
      assert n == Bare("callable") || n == Bare("array");
    } else {
      JoinHasNoBracket(n.parts);
    }
  }

  lemma {:induction false} JoinHasNoBracket(parts: seq<string>)
    requires forall i | 0 <= i < |parts| :: IsIdentText(parts[i])
    ensures '<' !in Join(parts, "\\")
  {
    if parts != [] {
      assert IsIdentText(parts[0]);
      JoinHasNoBracket(parts[1..]);
    }
  }

  lemma InstanceHasBracket(text: string)
    requires IsInstance(text)
    ensures '<' in text
  {
    var g := Opened(text);
    assert Describe(g)[|Text(g.name)|] == '<';
  }

  /** What the parser makes of a type's printed name, in the shared vocabulary. */
  ghost function ReadTerm(s: TypeExpr): Term {
    ToShared(Norm(Canonical(s)))
  }

  lemma NamedIsAtom(n: Name)
    ensures ToShared(TNamed(n)).Atom?
  {
  }

  lemma OpenedIsNoAtom(g: TypeExpr)
    requires g.TGeneric?
    ensures ToShared(Norm(g)).Apply?
  {
  }

  lemma InstanceDisagrees(n: Name, g: TypeExpr)
    requires Canonical(TNamed(n)) == g && g.TGeneric?
    ensures ToShared(TNamed(n)) != ReadTerm(TNamed(n))
  {
    NamedIsAtom(n);
    OpenedIsNoAtom(g);
  }

  lemma NamedTerm(n: Name)
    ensures ToShared(TNamed(n)) == Atom(Spelling(n))
  {
  }

  lemma SameSpellingAgrees(n: Name, c: Name)
    requires Canonical(TNamed(n)) == TNamed(c) && Spelling(c) == Spelling(n)
    ensures ToShared(TNamed(n)) == ReadTerm(TNamed(n))
  {
    NamedTerm(n);
    NamedTerm(c);
  }

  lemma PlainClassAgrees(n: Name)
    requires !IsInstance(Text(n))
    ensures ToShared(TNamed(n)) == ReadTerm(TNamed(n))
  {
    CanonicalSpelling(n);
    SameSpellingAgrees(n, CanonicalName(n));
  }

  lemma ClassAgrees(name: string)
    requires Resolved(SpelledClass(name))
    ensures ToShared(SpelledClass(name)) == ReadTerm(SpelledClass(name)) <==> '<' !in name
  {
    var n := SpelledClass(name).name;
    assert Text(n) == name;
    if IsInstance(name) {
      InstanceHasBracket(name);
      InstanceDisagrees(n, Opened(name));
    } else {
      NamesHaveNoBracket(n);
      PlainClassAgrees(n);
    }
  }

  /** Only `null` is spelled `null`. */
  lemma NullTerm(s: TypeExpr)
    requires Resolved(s) && ToShared(s) == ToShared(TVoid)
    ensures s.TVoid?
  {
    SharedSpelling(s);
    SharedSpelling(TVoid);
    CanonicalIsWf(s);
    DescribeIsInjective(Canonical(s), TVoid);
  }

  lemma {:induction false} SpelledAt(ms: seq<PhpType>, i: nat)
    requires SpelledTypes(ms).Some? && i < |ms|
    ensures |SpelledTypes(ms).value| == |ms| && SpelledType(ms[i]) == Some(SpelledTypes(ms).value[i])
    ensures SpelledTypes(ms).value[i].TVoid? <==> ms[i].PVoid?
  {
    if i > 0 {
      SpelledAt(ms[1..], i - 1);
    } else if |ms| > 1 {
      SpelledAt(ms[1..], 0);
    }
  }

  lemma ArrayReadsAlike(e: TypeExpr)
    ensures ToShared(TArray(e)) == ReadTerm(TArray(e)) <==> ToShared(e) == ReadTerm(e)
  {
    assert ToShared(TArray(e)) == Apply("array", [ToShared(e)]) && ReadTerm(TArray(e)) == Apply("array", [ReadTerm(e)]);
    assert [ToShared(e)][0] == ToShared(e) && [ReadTerm(e)][0] == ReadTerm(e);
  }

  lemma AssocReadsAlike(k: TypeExpr, v: TypeExpr)
    ensures ToShared(TAssoc(k, v)) == ReadTerm(TAssoc(k, v))
      <==> ToShared(k) == ReadTerm(k) && ToShared(v) == ReadTerm(v)
  {
    var x, y := [ToShared(k), ToShared(v)], [ReadTerm(k), ReadTerm(v)];
    assert ToShared(TAssoc(k, v)) == Apply("array", x) && ReadTerm(TAssoc(k, v)) == Apply("array", y);
    assert x[0] == ToShared(k) && x[1] == ToShared(v) && y[0] == ReadTerm(k) && y[1] == ReadTerm(v);
  }

  lemma {:induction false} SpelledOnceIsReadAlike(a: PhpType, s: TypeExpr)
    requires SpelledType(a) == Some(s) && Resolved(s)
    ensures ToShared(s) == ReadTerm(s) <==> SpelledOnce(a)
    decreases a
  {
    match a
    case PObject(name) => ClassAgrees(name);
    case PArray(e) => SpelledOnceIsReadAlike(e, s.elem); ArrayReadsAlike(s.elem);
    case PAssoc(k, v) =>
      SpelledOnceIsReadAlike(k, s.key);
      SpelledOnceIsReadAlike(v, s.value);
      AssocReadsAlike(s.key, s.value);
    case PUnion(ms) => MembersReadAlike(ms, s.members); UnionReadAlike(ms, s.members);
    case PMixed => WordsReadAlike();
    case PCallable => WordsReadAlike();
    case _ =>
  }

  lemma WordsReadAlike()
    ensures ToShared(TNamed(Bare("mixed"))) == ReadTerm(TNamed(Bare("mixed")))
    ensures ToShared(TNamed(Bare("callable"))) == ReadTerm(TNamed(Bare("callable")))
  {
    WordReadsAlike("mixed");
    WordReadsAlike("callable");
  }

  lemma WordReadsAlike(w: string)
    requires '<' !in w
    ensures ToShared(TNamed(Bare(w))) == ReadTerm(TNamed(Bare(w)))
  {
    assert Text(Bare(w)) == w;
    CanonicalSpelling(Bare(w));
    if IsInstance(w) {
      InstanceHasBracket(w);
    }
  }

  lemma {:induction false} MembersReadAlike(ms: seq<PhpType>, ss: seq<TypeExpr>)
    requires SpelledTypes(ms) == Some(ss) && ResolvedAll(ss)
    ensures ToSharedAll(ss) == ToSharedAll(NormAll(CanonicalAll(ss))) <==> SpelledOnceAll(ms)
    decreases ms
  {
    if ms != [] {
      SpelledOnceIsReadAlike(ms[0], ss[0]);
      MembersReadAlike(ms[1..], ss[1..]);
      assert NormAll(CanonicalAll(ss))[1..] == NormAll(CanonicalAll(ss)[1..])
        && CanonicalAll(ss)[1..] == CanonicalAll(ss[1..]);
      SharedHead(ss);
      SharedHead(NormAll(CanonicalAll(ss)));
    }
  }

  lemma SharedHead(ts: seq<TypeExpr>)
    requires ts != []
    ensures ToSharedAll(ts)[0] == ToShared(ts[0]) && ToSharedAll(ts)[1..] == ToSharedAll(ts[1..])
    ensures ToSharedAll(ts) == [ToShared(ts[0])] + ToSharedAll(ts[1..])
  {
  }

  /** A union agrees with what it is read back as exactly when its members do and normalisation
      leaves it alone. */
  lemma UnionReadAlike(ms: seq<PhpType>, ss: seq<TypeExpr>)
    requires SpelledTypes(ms) == Some(ss) && Resolved(TUnion(ss))
    requires ToSharedAll(ss) == ToSharedAll(NormAll(CanonicalAll(ss))) <==> SpelledOnceAll(ms)
    ensures ToShared(TUnion(ss)) == ReadTerm(TUnion(ss)) <==> SpelledOnceAll(ms) && NullIsLast(ms)
  {
    var ns := NormAll(CanonicalAll(ss));
    NullsInPlace(ms, ss, ns);
    NormalizedReadAlike(ss, ns, ms);
  }

  predicate SameNulls(ms: seq<PhpType>, ss: seq<TypeExpr>, ns: seq<TypeExpr>) {
    && |ms| == |ss| == |ns| >= 2 && OneNull(ns)
    && forall i | 0 <= i < |ns| :: (ns[i].TVoid? <==> ms[i].PVoid?) && (ns[i].TVoid? <==> ss[i].TVoid?)
  }

  lemma NormalizedReadAlike(ss: seq<TypeExpr>, ns: seq<TypeExpr>, ms: seq<PhpType>)
    requires SameNulls(ms, ss, ns) && ResolvedAll(ss)
    ensures Union(ToSharedAll(ss)) == ToShared(NormalizeUnion(ns))
      <==> ToSharedAll(ss) == ToSharedAll(ns) && NullIsLast(ms)
  {
    if HasNull(ns) {
      var z :| 0 <= z < |ns| && ns[z].TVoid?;
      NullUnionReadAlike(ss, ns, z);
      OnlyNullIsLast(ms, ss, ns, z);
    } else {
      assert NullIsLast(ms);
      NoNullUnion(ns);
    }
  }

  lemma OnlyNullIsLast(ms: seq<PhpType>, ss: seq<TypeExpr>, ns: seq<TypeExpr>, z: nat)
    requires SameNulls(ms, ss, ns) && z < |ns| && ns[z].TVoid?
    ensures NullIsLast(ms) <==> z == |ns| - 1 >= 2
  {
    assert ms[z].PVoid?;
  }

  lemma NullsInPlace(ms: seq<PhpType>, ss: seq<TypeExpr>, ns: seq<TypeExpr>)
    requires SpelledTypes(ms) == Some(ss) && Resolved(TUnion(ss)) && ns == NormAll(CanonicalAll(ss))
    ensures SameNulls(ms, ss, ns)
  {
    CanonicalMembers(ss);
    NormKeepsOneNull(CanonicalAll(ss));
    SpelledLength(ms);
    forall i | 0 <= i < |ns|
      ensures (ns[i].TVoid? <==> ms[i].PVoid?) && (ns[i].TVoid? <==> ss[i].TVoid?)
    {
      SpelledAt(ms, i);
    }
  }

  lemma {:induction false} SpelledLength(ms: seq<PhpType>)
    requires SpelledTypes(ms).Some?
    ensures |SpelledTypes(ms).value| == |ms|
  {
    if ms != [] {
      SpelledLength(ms[1..]);
    }
  }

  lemma NoNullUnion(ns: seq<TypeExpr>)
    requires !HasNull(ns) && |ns| >= 2
    ensures NormalizeUnion(ns) == TUnion(ns)
  {
    NoNullIsKept(ns);
  }

  lemma NullUnionReadAlike(ss: seq<TypeExpr>, ns: seq<TypeExpr>, z: nat)
    requires |ss| == |ns| >= 2 && z < |ns| && ns[z].TVoid? && OneNull(ns) && ResolvedAll(ss)
    requires forall i | 0 <= i < |ss| :: ss[i].TVoid? <==> ns[i].TVoid?
    ensures Union(ToSharedAll(ss)) == ToShared(NormalizeUnion(ns))
      <==> ToSharedAll(ss) == ToSharedAll(ns) && z == |ns| - 1 >= 2
  {
    NormalizedWithout(ns, z);
    NormalizedTerm(ss, NormalizeUnion(ns));
    if |ns| >= 3 {
      WideUnionReadAlike(ss, ns, ns[..z] + ns[z + 1..], z);
    }
  }

  lemma NormalizedWithout(ns: seq<TypeExpr>, z: nat)
    requires |ns| >= 2 && z < |ns| && ns[z].TVoid? && OneNull(ns)
    ensures var others := ns[..z] + ns[z + 1..];
      NormalizeUnion(ns) == if |ns| == 2 then TNullable(others[0]) else TUnion(others + [TVoid])
  {
    var a, b := ns[..z], ns[z + 1..];
    OthersAreNoNull(ns, z, a, b);
    OthersAround(ns, ns[z], a, b);
    NormalizedAround(ns, a + b);
  }

  lemma NormalizedTerm(ss: seq<TypeExpr>, r: TypeExpr)
    requires r.TUnion? || r.TNullable?
    ensures Union(ToSharedAll(ss)) == ToShared(r) <==> r.TUnion? && ToSharedAll(ss) == ToSharedAll(r.members)
  {
  }

  lemma WideUnionReadAlike(ss: seq<TypeExpr>, ns: seq<TypeExpr>, others: seq<TypeExpr>, z: nat)
    requires |ss| == |ns| && z < |ns| && ns[z].TVoid? && others == ns[..z] + ns[z + 1..] && ResolvedAll(ss)
    requires ss[|ss| - 1].TVoid? ==> z == |ns| - 1
    ensures ToSharedAll(ss) == ToSharedAll(others + [TVoid]) <==> ToSharedAll(ss) == ToSharedAll(ns) && z == |ns| - 1
  {
    if z == |ns| - 1 {
      assert others + [TVoid] == ns;
    } else {
      LastIsNoNull(ss, others + [TVoid]);
    }
  }

  lemma NormalizedAround(ns: seq<TypeExpr>, others: seq<TypeExpr>)
    requires NonNull(ns) == others && 1 <= |others| < |ns|
    ensures NormalizeUnion(ns) == if |others| == 1 then TNullable(others[0]) else TUnion(others + [TVoid])
  {
  }

  lemma LastIsNoNull(ss: seq<TypeExpr>, ts: seq<TypeExpr>)
    requires ss != [] && |ss| == |ts| && ResolvedAll(ss) && !ss[|ss| - 1].TVoid? && ts[|ts| - 1].TVoid?
    ensures ToSharedAll(ss) != ToSharedAll(ts)
  {
    var i := |ss| - 1;
    SharedAt(ss, i);
    SharedAt(ts, i);
    ResolvedAt(ss, i);
    if ToShared(ss[i]) == ToShared(TVoid) {
      NullTerm(ss[i]);
    }
  }

  lemma {:induction false} ResolvedAt(ts: seq<TypeExpr>, i: nat)
    requires ResolvedAll(ts) && i < |ts|
    ensures Resolved(ts[i])
  {
    if i > 0 {
      ResolvedAt(ts[1..], i - 1);
    }
  }

  lemma OthersAround(ns: seq<TypeExpr>, x: TypeExpr, a: seq<TypeExpr>, b: seq<TypeExpr>)
    requires ns == a + ([x] + b) && x.TVoid? && NoNull(a) && NoNull(b)
    ensures NonNull(ns) == a + b
  {
    NonNullConcat(a, [x] + b);
    assert ([x] + b)[1..] == b;
    NoNullIsKept(a);
    NoNullIsKept(b);
  }

  lemma OthersAreNoNull(ns: seq<TypeExpr>, z: nat, a: seq<TypeExpr>, b: seq<TypeExpr>)
    requires z < |ns| && ns[z].TVoid? && OneNull(ns) && a == ns[..z] && b == ns[z + 1..]
    ensures ns == a + ([ns[z]] + b) && NoNull(a) && NoNull(b)
  {
  }

  lemma DecodedArgument(m: Name, s: TypeExpr)
    requires Resolved(TGeneric(m, [s])) && Clean(Canonical(TGeneric(m, [s])), Ending, true)
    ensures Instantiation(PObject(InstantiatedName(Text(m), [s])), m, 1) == Some([Norm(Canonical(s))])
  {
    InstantiatedTypeInvertsExactly(m, [s]);
    assert ReadsBack(m, [s]);
    CanonicalSpelling(m);
    OneNormalized(s);
  }

  lemma OneNormalized(s: TypeExpr)
    ensures NormAll(CanonicalAll([s])) == [Norm(Canonical(s))]
  {
    var cs := CanonicalAll([s]);
    assert cs[0] == Canonical(s);
    var ns := NormAll(cs);
    assert ns[0] == Norm(cs[0]);
  }

  /** Called with a value and an `M` of that value's type, `f` is inferred exactly when the type has
      one spelling: otherwise the first position names what the second opens, or spells a union the
      parser normalises, and the call is rejected although the type fits both. */
  lemma TwoSpellingsAgreeExactly(p: string, m: Name, a: PhpType)
    requires SpelledType(a).Some? && Resolved(TGeneric(m, [SpelledType(a).value]))
    requires Clean(Canonical(TGeneric(m, [SpelledType(a).value])), Ending, true)
    ensures var s := SpelledType(a).value;
      AddAll([], CallDemands([p], PairCall(p, m, a, InstantiatedName(Text(m), [s]))))
        == if SpelledOnce(a) then Ok([Binding(p, ToShared(s))]) else Err(Conflict(p))
  {
    var s := SpelledType(a).value;
    DecodedArgument(m, s);
    SpelledOnceIsReadAlike(a, s);
    PairCallDecides(p, m, a, InstantiatedName(Text(m), [s]));
  }

  /** One instantiated class in both positions is rejected. */
  lemma SameClassIsRejected(p: string, m: Name, c: Name, args: seq<TypeExpr>)
    requires Resolved(TGeneric(c, args)) && WfClass(CanonicalName(m))
    requires Clean(TGeneric(CanonicalName(m), [Canonical(TGeneric(c, args))]), Ending, true)
    ensures var x := InstantiatedName(Text(c), args);
      AddAll([], CallDemands([p], PairCall(p, m, PObject(x), InstantiatedName(Text(m), [TNamed(Bare(x))]))))
        == Err(Conflict(p))
  {
    var x := InstantiatedName(Text(c), args);
    assert x[|Text(c)|] == '<';
    InstantiationIsCanonical(c, args);
    MentionIsRejected(p, m, x, Canonical(TGeneric(c, args)));
  }

  lemma MentionIsRejected(p: string, m: Name, x: string, g: TypeExpr)
    requires '<' in x && Resolved(TNamed(Bare(x))) && Canonical(TNamed(Bare(x))) == g && WfClass(CanonicalName(m))
    requires Clean(TGeneric(CanonicalName(m), [g]), Ending, true)
    ensures AddAll([], CallDemands([p], PairCall(p, m, PObject(x), InstantiatedName(Text(m), [TNamed(Bare(x))]))))
      == Err(Conflict(p))
  {
    NameIsSpelled(x);
    MentionInside(m, TNamed(Bare(x)), g);
    TwoSpellingsAgreeExactly(p, m, PObject(x));
  }

  lemma NameIsSpelled(x: string)
    requires '<' in x
    ensures SpelledType(PObject(x)) == Some(TNamed(Bare(x)))
  {
    WidthHasNoBracket(x);
  }

  lemma MentionInside(m: Name, mention: TypeExpr, c: TypeExpr)
    requires WfClass(CanonicalName(m)) && Resolved(mention) && Canonical(mention) == c
    ensures Resolved(TGeneric(m, [mention])) && Canonical(TGeneric(m, [mention])) == TGeneric(CanonicalName(m), [c])
  {
    OneResolved(mention);
    var cs := CanonicalAll([mention]);
    assert cs[0] == Canonical(mention) && cs == [c];
  }

  /** And so is a nullable integer, with no class in sight. */
  lemma NullableIsRejected(p: string, m: Name)
    requires WfClass(CanonicalName(m)) && !Shadowed(CanonicalName(m))
    ensures var a := PUnion([PInt, PVoid]);
      AddAll([], CallDemands([p], PairCall(p, m, a, InstantiatedName(Text(m), [TUnion([TInt, TVoid])]))))
        == Err(Conflict(p))
  {
    NullableIsSpelled();
    NullableUnionIsResolved(TInt);
    OneResolved(TUnion([TInt, TVoid]));
    CleanNullable(m);
    TwoSpellingsAgreeExactly(p, m, PUnion([PInt, PVoid]));
  }

  lemma NullableIsSpelled()
    ensures SpelledType(PUnion([PInt, PVoid])) == Some(TUnion([TInt, TVoid])) && !SpelledOnce(PUnion([PInt, PVoid]))
  {
    assert [PInt, PVoid][1..] == [PVoid] && [PVoid][1..] == [];
    assert [TVoid] + [] == [TVoid] && SpelledTypes([PVoid]) == Some([TVoid]);
    assert [TInt] + [TVoid] == [TInt, TVoid] && SpelledTypes([PInt, PVoid]) == Some([TInt, TVoid]);
    assert [PInt, PVoid][1].PVoid?;
  }

  lemma CleanNullable(m: Name)
    requires !Shadowed(CanonicalName(m))
    ensures Clean(Canonical(TGeneric(m, [TUnion([TInt, TVoid])])), Ending, true)
  {
    var cs := CanonicalAll([TInt, TVoid]);
    assert cs[0] == TInt && cs[1] == TVoid && cs == [TInt, TVoid] && cs[1..] == [TVoid] && [TVoid][1..] == [];
    var us := CanonicalAll([TUnion([TInt, TVoid])]);
    assert us[0] == TUnion(cs) && us == [TUnion(cs)] && us[1..] == [];
  }

  lemma NamedDemand(p: string, a: PhpType)
    ensures Mentions([p], TNamed(Bare(p))) && TypeDemands([p], TNamed(Bare(p)), a) == [Demand(p, SpelledTerm(a))]
  {
    assert Text(Bare(p)) == p;
  }

  lemma TwoPositions(names: seq<string>, d0: TypeExpr, d1: TypeExpr, a0: PhpType, a1: PhpType, first: seq<Demand>,
      second: seq<Demand>)
    requires Mentions(names, d0) && Mentions(names, d1)
    requires TypeDemands(names, d0, a0) == first && TypeDemands(names, d1, a1) == second
    ensures CallDemands(names, Call([Some(d0), Some(d1)], [a0, a1], [])) == first + second
  {
    var call := Call([Some(d0), Some(d1)], [a0, a1], []);
    NoClosureDemands(names, call);
    assert TypePhase(names, call) == [first, second];
    assert [first, second][1..] == [second] && [second][1..] == [] && Flat([second]) == second;
  }

  lemma OneDemand(p: string, x: Term)
    ensures AddAll([], [Demand(p, Some(x))] + []) == Ok([Binding(p, x)])
  {
    var ds := [Demand(p, Some(x))];
    assert ds + [] == ds && ds[1..] == [];
    var none: seq<Binding> := [];
    assert none + [Binding(p, x)] == [Binding(p, x)];
    assert Add(none, ds[0]) == Ok([Binding(p, x)]);
  }

  lemma TwoDemands(p: string, x: Term, y: Term)
    ensures AddAll([], [Demand(p, Some(x))] + [Demand(p, Some(y))]) == if x == y then Ok([Binding(p, x)])
      else Err(Conflict(p))
  {
    var bound, second := [Binding(p, x)], [Demand(p, Some(y))];
    OneDemand(p, x);
    assert [Demand(p, Some(x))] + [] == [Demand(p, Some(x))];
    AddAllConcat([], [Demand(p, Some(x))], second);
    assert Find(bound, p) == Some(x) && second[1..] == [];
    assert Add(bound, second[0]) == if x == y then Ok(bound) else Err(Conflict(p));
  }

  lemma NoClosureDemands(names: seq<string>, call: Call)
    requires call.closures == []
    ensures Flat(ClosurePhase(names, call)) == []
  {
    var dss := ClosurePhase(names, call);
    assert forall i | 0 <= i < |dss| :: dss[i] == [];
    FlatOfEmpty(dss);
  }

  lemma {:induction false} FlatOfEmpty(dss: seq<seq<Demand>>)
    requires forall i | 0 <= i < |dss| :: dss[i] == []
    ensures Flat(dss) == []
  {
    if dss != [] {
      FlatOfEmpty(dss[1..]);
    }
  }

  lemma OpenedMentions(p: string, m: Name)
    ensures Mentions([p], TGeneric(m, [TNamed(Bare(p))]))
  {
    assert Text(Bare(p)) == p;
    var args := [TNamed(Bare(p))];
    assert args[0] == TNamed(Bare(p)) && Mentions([p], args[0]);
    assert MentionedIn([p], args);
  }

  lemma ParameterDemand(p: string, u: Term)
    ensures DemandsAll([p], [Atom(p)], [u]) == [Demand(p, Some(u))]
  {
    var x, y := [Atom(p)], [u];
    assert x[1..] == [] && y[1..] == [] && DemandsAll([p], x, y) == [Demand(p, Some(u))];
  }

  lemma OpenedDemand(p: string, m: Name, t: TypeExpr, y: string)
    requires Instantiation(PObject(y), m, 1) == Some([t])
    ensures TypeDemands([p], TGeneric(m, [TNamed(Bare(p))]), PObject(y)) == [Demand(p, Some(ToShared(t)))]
  {
    assert Text(Bare(p)) == p && Spelling(Bare(p)) == p;
    ToSharedShort([TNamed(Bare(p))]);
    ToSharedShort([t]);
    ParameterDemand(p, ToShared(t));
  }

  // ---- positions that are not looked at ----

  /** A pointer target is printed inside its type, where substitution does not reach it. */
  predicate NoTargetIn(names: seq<string>, d: TypeExpr)
    decreases d
  {
    match d
    case TPtr(Some(n)) => Spelling(n) !in names
    case TNullable(e) => NoTargetIn(names, e)
    case TArray(e) => NoTargetIn(names, e)
    case TBuffer(e) => NoTargetIn(names, e)
    case TAssoc(k, v) => NoTargetIn(names, k) && NoTargetIn(names, v)
    case TGeneric(_, args) => NoTargetsIn(names, args)
    case _ => true
  }

  predicate NoTargetsIn(names: seq<string>, ds: seq<TypeExpr>)
    decreases ds
  {
    ds == [] || (NoTargetIn(names, ds[0]) && NoTargetsIn(names, ds[1..]))
  }

  predicate NoReservedNames(names: seq<string>) {
    PlainNames(names) && forall i | 0 <= i < |names| :: !IsBuiltInAtom(names[i])
  }

  lemma {:induction false} UnmentionedDemandsNothing(names: seq<string>, d: TypeExpr, a: Term)
    requires !Mentions(names, d) && NoTargetIn(names, d) && NoReservedNames(names)
    ensures Demands(names, ToShared(d), a) == []
    decreases d
  {
    match d
    case TNamed(n) => PlainName(names, n);
    case TNullable(e) => UnmentionedDemandsNothing(names, e, a);
    case TArray(e) =>
      if a.Apply? && |a.args| == 1 {
        UnmentionedDemandsNothing(names, e, a.args[0]);
        OneDemandsNothing(names, ToShared(e), a.args);
      }
    case TBuffer(e) =>
      if a.Apply? && |a.args| == 1 {
        UnmentionedDemandsNothing(names, e, a.args[0]);
        OneDemandsNothing(names, ToShared(e), a.args);
      }
    case TAssoc(k, v) =>
      if a.Apply? && |a.args| == 2 {
        UnmentionedDemandsNothing(names, k, a.args[0]);
        UnmentionedDemandsNothing(names, v, a.args[1]);
        TwoDemandNothing(names, ToShared(k), ToShared(v), a.args);
      }
    case TGeneric(_, args) => if a.Apply? && |a.args| == |args| { UnmentionedDemandNothing(names, args, a.args); }
    case TPtr(Some(n)) => if a.Apply? && |a.args| == 1 { OneDemandsNothing(names, Atom(Spelling(n)), a.args); }
    case TUnion(_) =>
    case TIntersection(_) =>
    case TCallable(_, _) =>
    case _ => LeafIsNoName(names, d);
  }

  lemma LeafIsNoName(names: seq<string>, d: TypeExpr)
    requires NoReservedNames(names) && !d.TNamed?
    ensures LeafName(d) !in names
  {
    assert IsBuiltInAtom(LeafName(d));
  }

  lemma OneDemandsNothing(names: seq<string>, d: Term, actual: seq<Term>)
    requires |actual| == 1 && Demands(names, d, actual[0]) == []
    ensures DemandsAll(names, [d], actual) == []
  {
  }

  lemma TwoDemandNothing(names: seq<string>, d: Term, e: Term, actual: seq<Term>)
    requires |actual| == 2 && Demands(names, d, actual[0]) == [] && Demands(names, e, actual[1]) == []
    ensures DemandsAll(names, [d, e], actual) == []
  {
    assert [d, e][1..] == [e];
    OneDemandsNothing(names, e, actual[1..]);
  }

  lemma {:induction false} UnmentionedDemandNothing(names: seq<string>, ds: seq<TypeExpr>, actual: seq<Term>)
    requires !MentionedIn(names, ds) && NoTargetsIn(names, ds) && NoReservedNames(names) && |ds| == |actual|
    ensures DemandsAll(names, ToSharedAll(ds), actual) == []
    decreases ds
  {
    if ds != [] {
      UnmentionedDemandsNothing(names, ds[0], actual[0]);
      UnmentionedDemandNothing(names, ds[1..], actual[1..]);
      assert ToSharedAll(ds)[1..] == ToSharedAll(ds[1..]);
    }
  }

  /** Inside a declared class's arguments a parameter named as a pointer target is demanded. */
  lemma {:induction false} TargetIsDemanded(names: seq<string>, d: TypeExpr)
    requires !NoTargetIn(names, d)
    ensures Demands(names, ToShared(d), Stripped(ToShared(d))) != []
    decreases d
  {
    match d
    case TPtr(Some(n)) => PointerIsDemanded(names, Spelling(n));
    case TNullable(e) => TargetIsDemanded(names, e);
    case TArray(e) => TargetIsDemanded(names, e); OneIsDemanded(names, ToShared(e));
    case TBuffer(e) => TargetIsDemanded(names, e); OneIsDemanded(names, ToShared(e));
    case TAssoc(k, v) =>
      if !NoTargetIn(names, k) { TargetIsDemanded(names, k); } else { TargetIsDemanded(names, v); }
      TwoAreDemanded(names, ToShared(k), ToShared(v));
    case TGeneric(_, args) => TargetInIsDemanded(names, args);
  }

  lemma PointerIsDemanded(names: seq<string>, target: string)
    requires target in names
    ensures Demands(names, Apply("ptr", [Atom(target)]), Stripped(Apply("ptr", [Atom(target)]))) != []
  {
    var args := [Atom(target)];
    assert StrippedAll(args) == args
      && DemandsAll(names, args, args)
      == [Demand(target, Some(Atom(target)))] + DemandsAll(names, args[1..], args[1..]);
  }

  lemma OneIsDemanded(names: seq<string>, d: Term)
    ensures Demands(names, d, Stripped(d)) != [] ==> DemandsAll(names, [d], StrippedAll([d])) != []
  {
    assert StrippedAll([d])[0] == Stripped(d);
  }

  lemma TwoAreDemanded(names: seq<string>, d: Term, e: Term)
    ensures Demands(names, d, Stripped(d)) != [] || Demands(names, e, Stripped(e)) != [] ==>
      DemandsAll(names, [d, e], StrippedAll([d, e])) != []
  {
    assert [d, e][1..] == [e] && StrippedAll([d, e])[1..] == StrippedAll([e]);
    OneIsDemanded(names, e);
    assert StrippedAll([d, e])[0] == Stripped(d);
  }

  lemma {:induction false} TargetInIsDemanded(names: seq<string>, ds: seq<TypeExpr>)
    requires !NoTargetsIn(names, ds)
    ensures DemandsAll(names, ToSharedAll(ds), StrippedAll(ToSharedAll(ds))) != []
    decreases ds
  {
    SharedHead(ds);
    assert StrippedAll(ToSharedAll(ds))[1..] == StrippedAll(ToSharedAll(ds)[1..]);
    if NoTargetIn(names, ds[0]) {
      TargetInIsDemanded(names, ds[1..]);
    } else {
      TargetIsDemanded(names, ds[0]);
    }
  }

  /** A declared class's arguments that mention no parameter demand nothing of any actual ones
      exactly when none of them names a parameter as a pointer target. */
  lemma UnmentionedArgumentsExactly(names: seq<string>, ds: seq<TypeExpr>)
    requires !MentionedIn(names, ds) && NoReservedNames(names)
    ensures (forall actual: seq<Term> | |actual| == |ds| :: DemandsAll(names, ToSharedAll(ds), actual) == [])
      <==> NoTargetsIn(names, ds)
  {
    if NoTargetsIn(names, ds) {
      forall actual: seq<Term> | |actual| == |ds|
        ensures DemandsAll(names, ToSharedAll(ds), actual) == []
      {
        UnmentionedDemandNothing(names, ds, actual);
      }
    } else {
      TargetInIsDemanded(names, ds);
    }
  }

  /** Targets the walk against an argument's type can reach: those inside a class's arguments. */
  predicate NoTargetReached(names: seq<string>, d: TypeExpr)
    decreases d
  {
    match d
    case TNullable(e) => NoTargetReached(names, e)
    case TArray(e) => NoTargetReached(names, e)
    case TAssoc(k, v) => NoTargetReached(names, k) && NoTargetReached(names, v)
    case TGeneric(_, args) => NoTargetsIn(names, args)
    case _ => true
  }

  /** Skipping a position that mentions no parameter loses no binding. */
  lemma {:induction false} SkippingLosesNothing(names: seq<string>, d: TypeExpr, a: PhpType)
    requires !Mentions(names, d) && NoTargetReached(names, d) && NoReservedNames(names)
    ensures TypeDemands(names, d, a) == []
    decreases d
  {
    match d
    case TNullable(e) => SkippingLosesNothing(names, e, a);
    case TArray(e) => if a.PArray? { SkippingLosesNothing(names, e, a.elem); }
    case TAssoc(k, v) =>
      if a.PAssoc? {
        SkippingLosesNothing(names, k, a.key);
        SkippingLosesNothing(names, v, a.value);
      }
    case TGeneric(n, args) =>
      var actual := Instantiation(a, n, |args|);
      if actual.Some? {
        UnmentionedDemandNothing(names, args, ToSharedAll(actual.value));
      }
    case _ =>
  }

  /** A declared type without its nullable wrappers. */
  function Bared(t: TypeExpr): TypeExpr
    decreases t
  {
    match t
    case TNullable(e) => Bared(e)
    case TArray(e) => TArray(Bared(e))
    case TBuffer(e) => TBuffer(Bared(e))
    case TAssoc(k, v) => TAssoc(Bared(k), Bared(v))
    case TGeneric(n, args) => TGeneric(n, BaredAll(args))
    case _ => t
  }

  function BaredAll(ts: seq<TypeExpr>): (r: seq<TypeExpr>)
    ensures |r| == |ts|
    decreases ts
  {
    if ts == [] then [] else [Bared(ts[0])] + BaredAll(ts[1..])
  }

  lemma {:induction false} BaredIsStripped(t: TypeExpr)
    ensures ToShared(Bared(t)) == Stripped(ToShared(t))
    decreases t
  {
    match t
    case TNullable(e) => BaredIsStripped(e);
    case TArray(e) => BaredIsStripped(e); StrippedPair([ToShared(e)]);
    case TBuffer(e) => BaredIsStripped(e); StrippedPair([ToShared(e)]);
    case TAssoc(k, v) => BaredIsStripped(k); BaredIsStripped(v); StrippedPair([ToShared(k), ToShared(v)]);
    case TPtr(Some(n)) => StrippedPair([Atom(Spelling(n))]);
    case TGeneric(_, args) => BaredAreStripped(args);
    case _ =>
  }

  lemma StrippedPair(ds: seq<Term>)
    requires 1 <= |ds| <= 2
    ensures StrippedAll(ds) == if |ds| == 1 then [Stripped(ds[0])] else [Stripped(ds[0]), Stripped(ds[1])]
  {
    var rest := ds[1..];
    assert |rest| == 1 ==> rest[1..] == [] && StrippedAll(rest) == [Stripped(ds[1])];
  }

  lemma {:induction false} BaredAreStripped(ts: seq<TypeExpr>)
    ensures ToSharedAll(BaredAll(ts)) == StrippedAll(ToSharedAll(ts))
    decreases ts
  {
    if ts != [] {
      BaredIsStripped(ts[0]);
      BaredAreStripped(ts[1..]);
      assert BaredAll(ts)[1..] == BaredAll(ts[1..]) && ToSharedAll(ts)[1..] == ToSharedAll(ts[1..]);
    }
  }

  /** Every class the walk reaches, named with its own declared arguments, is read back as printed. */
  predicate SelfReading(d: TypeExpr)
    decreases d
  {
    match d
    case TNullable(e) => SelfReading(e)
    case TArray(e) => SelfReading(e)
    case TAssoc(k, v) => SelfReading(k) && SelfReading(v)
    case TGeneric(n, args) => Instantiation(OwnInstance(n, args), n, |args|) == Some(BaredAll(args))
    case _ => true
  }

  function OwnInstance(n: Name, args: seq<TypeExpr>): PhpType {
    PObject(InstantiatedName(Text(n), BaredAll(args)))
  }

  /** An argument made after the declaration itself. */
  function OwnArgument(d: TypeExpr): PhpType
    decreases d
  {
    match d
    case TNullable(e) => OwnArgument(e)
    case TArray(e) => PArray(OwnArgument(e))
    case TAssoc(k, v) => PAssoc(OwnArgument(k), OwnArgument(v))
    case TGeneric(n, args) => OwnInstance(n, args)
    case _ => PMixed
  }

  lemma {:induction false} ReachedTargetIsLost(names: seq<string>, d: TypeExpr)
    requires !NoTargetReached(names, d) && SelfReading(d)
    ensures TypeDemands(names, d, OwnArgument(d)) != []
    decreases d
  {
    match d
    case TNullable(e) => ReachedTargetIsLost(names, e);
    case TArray(e) => ReachedTargetIsLost(names, e);
    case TAssoc(k, v) =>
      if !NoTargetReached(names, k) { ReachedTargetIsLost(names, k); } else { ReachedTargetIsLost(names, v); }
    case TGeneric(_, args) =>
      TargetInIsDemanded(names, args);
      BaredAreStripped(args);
  }

  /** A position that mentions no parameter is skipped without loss, whatever is passed there, exactly
      when its classes name no parameter as a pointer target. */
  lemma SkippingLosesNothingExactly(names: seq<string>, d: TypeExpr)
    requires !Mentions(names, d) && NoReservedNames(names) && SelfReading(d)
    ensures (forall a :: TypeDemands(names, d, a) == []) <==> NoTargetReached(names, d)
  {
    if NoTargetReached(names, d) {
      forall a ensures TypeDemands(names, d, a) == [] {
        SkippingLosesNothing(names, d, a);
      }
    } else {
      ReachedTargetIsLost(names, d);
    }
  }

  /** `M<ptr<T>>` against an `M<ptr<C>>`: the position mentions no parameter, so it is skipped, and
      the binding of `T` its class's name carries is lost. */
  lemma PointerTargetIsSkipped(p: string, m: Name, c: Name)
    requires WfClass(CanonicalName(m)) && !Shadowed(CanonicalName(m)) && WfTarget(CanonicalName(c))
    ensures var d := TGeneric(m, [TPtr(Some(Bare(p)))]);
      && !Mentions([p], d)
      && TypeDemands([p], d, PObject(InstantiatedName(Text(m), [TPtr(Some(c))])))
        == [Demand(p, Some(Atom(Spelling(c))))]
  {
    DecodedPointer(m, c);
    CanonicalSpelling(c);
    NotMentioned(p, m);
    PointerOpened(p, m, CanonicalName(c), InstantiatedName(Text(m), [TPtr(Some(c))]));
  }

  lemma DecodedPointer(m: Name, c: Name)
    requires WfClass(CanonicalName(m)) && !Shadowed(CanonicalName(m)) && WfTarget(CanonicalName(c))
    ensures Instantiation(PObject(InstantiatedName(Text(m), [TPtr(Some(c))])), m, 1)
      == Some([TPtr(Some(CanonicalName(c)))])
  {
    PointerResolved(m, c);
    PointerArgument(m, c);
    PointerIsNormal(c);
    DecodedArgument(m, TPtr(Some(c)));
  }

  lemma PointerIsNormal(c: Name)
    ensures Norm(Canonical(TPtr(Some(c)))) == TPtr(Some(CanonicalName(c)))
  {
  }

  lemma PointerResolved(m: Name, c: Name)
    requires WfClass(CanonicalName(m)) && WfTarget(CanonicalName(c))
    ensures Resolved(TGeneric(m, [TPtr(Some(c))]))
  {
    OneResolved(TPtr(Some(c)));
  }

  lemma NotMentioned(p: string, m: Name)
    ensures !Mentions([p], TGeneric(m, [TPtr(Some(Bare(p)))]))
  {
    var d := [TPtr(Some(Bare(p)))];
    assert d[1..] == [] && !MentionedIn([p], d);
  }

  lemma PointerOpened(p: string, m: Name, c: Name, y: string)
    requires Instantiation(PObject(y), m, 1) == Some([TPtr(Some(c))])
    ensures TypeDemands([p], TGeneric(m, [TPtr(Some(Bare(p)))]), PObject(y)) == [Demand(p, Some(Atom(Spelling(c))))]
  {
    assert Text(Bare(p)) == p && Spelling(Bare(p)) == p;
    PointerDemand(p, Spelling(c));
    ToSharedShort([TPtr(Some(Bare(p)))]);
    ToSharedShort([TPtr(Some(c))]);
  }

  lemma PointerArgument(m: Name, c: Name)
    requires !Shadowed(CanonicalName(m))
    ensures Clean(Canonical(TGeneric(m, [TPtr(Some(c))])), Ending, true)
  {
    var cs := CanonicalAll([TPtr(Some(c))]);
    assert cs[0] == TPtr(Some(CanonicalName(c))) && cs == [TPtr(Some(CanonicalName(c)))] && cs[1..] == [];
  }

  lemma PointerDemand(p: string, target: string)
    ensures DemandsAll([p], [Apply("ptr", [Atom(p)])], [Apply("ptr", [Atom(target)])])
      == [Demand(p, Some(Atom(target)))]
  {
    var x, y := [Atom(p)], [Atom(target)];
    ParameterDemand(p, Atom(target));
    var d, a := [Apply("ptr", x)], [Apply("ptr", y)];
    assert d[1..] == [] && a[1..] == [] && Demands([p], d[0], a[0]) == DemandsAll([p], x, y);
  }
}
