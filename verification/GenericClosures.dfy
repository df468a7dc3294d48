/** A call that passes a closure where the declaration writes a signature, and a call whose parameter
    occurs where inference does not look. */
module GenericClosures {
  import opened Wrappers
  import opened GenericTypes
  import opened GenericTerms
  import opened GenericSharing
  import opened GenericInference
  import opened GenericFit

  /** A call of a plain position and a signature. */
  function SignatureCall(d: TypeExpr, params: seq<TypeExpr>, ret: TypeExpr, a: PhpType, c: Closure): Call {
    Call([Some(d), Some(TCallable(params, ret))], [a, PCallable], [None, Some(c)])
  }

  /** `map<T, U>(array<T> $xs, callable(T): U $f)`, called with integers and `fn(hint): string`. */
  function MapCall(p: string, q: string, hint: TypeExpr): Call {
    SignatureCall(TArray(TNamed(Bare(p))), [TNamed(Bare(p))], TNamed(Bare(q)), PArray(PInt),
      Closure([Some(hint)], Some(TStr)))
  }

  lemma MapCallIsShaped(p: string, q: string, hint: TypeExpr)
    ensures ShapedCall([p, q], MapCall(p, q, hint))
  {
    var names, call := [p, q], MapCall(p, q, hint);
    assert names[0] == p && names[1] == q;
    assert Text(Bare(p)) == p && Text(Bare(q)) == q && Spelling(Bare(p)) == p && Spelling(Bare(q)) == q;
    forall i: nat | i < |call.declared| && HasSignature(call, i)
      ensures ClosureShaped(names, call.declared[i].value.params, call.declared[i].value.ret, call.closures[i].value)
    {
      assert i == 1;
      HintsAreShaped(names, p, q, hint);
    }
  }

  lemma HintsAreShaped(names: seq<string>, p: string, q: string, hint: TypeExpr)
    requires p in names && q in names
    ensures ClosureShaped(names, [TNamed(Bare(p))], TNamed(Bare(q)), Closure([Some(hint)], Some(TStr)))
  {
    assert Spelling(Bare(p)) == p && Spelling(Bare(q)) == q;
  }

  /** A parameter's own position binds what stands there. */
  lemma ParameterPosition(names: seq<string>, p: string, hint: TypeExpr, a: PhpType)
    requires p in names
    ensures Mentions(names, TNamed(Bare(p)))
    ensures HintDemands(names, TNamed(Bare(p)), Some(hint)) == [Demand(p, Some(ToShared(hint)))]
    ensures TypeDemands(names, TNamed(Bare(p)), a) == [Demand(p, SpelledTerm(a))]
  {
    assert Text(Bare(p)) == p && Spelling(Bare(p)) == p;
  }

  lemma OneParameterClosure(names: seq<string>, d: TypeExpr, ret: TypeExpr, hint: TypeExpr, result: TypeExpr,
      first: seq<Demand>, second: seq<Demand>)
    requires HintDemands(names, d, Some(hint)) == first && HintDemands(names, ret, Some(result)) == second
    ensures Flat(ClosureDemands(names, [d], ret, Closure([Some(hint)], Some(result)))) == first + second
  {
    assert ClosureDemands(names, [d], ret, Closure([Some(hint)], Some(result))) == [first, second];
    TwoLists(first, second);
  }

  lemma TwoLists(a: seq<Demand>, b: seq<Demand>)
    ensures Flat([a, b]) == a + b
  {
    assert [a, b][1..] == [b] && [b][1..] == [] && Flat([b]) == b;
  }

  /** What the two passes find in a call of two positions. */
  lemma TwoPhases(names: seq<string>, call: Call)
    requires |call.declared| == |call.actual| == 2
    ensures CallDemands(names, call)
      == ClosureAt(names, call, 0) + ClosureAt(names, call, 1)
       + (PositionAt(names, call.declared[0], call.actual[0]) + PositionAt(names, call.declared[1], call.actual[1]))
  {
    var x, y := ClosureAt(names, call, 0), ClosureAt(names, call, 1);
    var v := PositionAt(names, call.declared[0], call.actual[0]);
    var w := PositionAt(names, call.declared[1], call.actual[1]);
    assert ClosurePhase(names, call) == [x, y] && TypePhase(names, call) == [v, w];
    TwoLists(x, y);
    TwoLists(v, w);
  }

  lemma SignatureIsNotWalked(names: seq<string>, params: seq<TypeExpr>, ret: TypeExpr)
    ensures PositionAt(names, Some(TCallable(params, ret)), PCallable) == []
  {
  }

  lemma SignatureAt(names: seq<string>, d: TypeExpr, params: seq<TypeExpr>, ret: TypeExpr, a: PhpType, c: Closure)
    ensures var call := SignatureCall(d, params, ret, a, c);
      ClosureAt(names, call, 0) == [] && ClosureAt(names, call, 1) == Flat(ClosureDemands(names, params, ret, c))
  {
  }

  lemma SignatureCallDemands(names: seq<string>, d: TypeExpr, params: seq<TypeExpr>, ret: TypeExpr, a: PhpType,
      c: Closure, first: seq<Demand>, last: seq<Demand>)
    requires PositionAt(names, Some(d), a) == last && Flat(ClosureDemands(names, params, ret, c)) == first
    ensures CallDemands(names, SignatureCall(d, params, ret, a, c)) == first + last
  {
    var none: seq<Demand> := [];
    TwoPhases(names, SignatureCall(d, params, ret, a, c));
    SignatureAt(names, d, params, ret, a, c);
    SignatureIsNotWalked(names, params, ret);
    assert none + first + (last + none) == first + last;
  }

  lemma MapCallDemands(p: string, q: string, hint: TypeExpr)
    ensures CallDemands([p, q], MapCall(p, q, hint))
      == [Demand(p, Some(ToShared(hint))), Demand(q, Some(Atom("string")))] + [Demand(p, Some(Atom("int")))]
  {
    var names, d, e := [p, q], TNamed(Bare(p)), TNamed(Bare(q));
    var first, second := [Demand(p, Some(ToShared(hint)))], [Demand(q, Some(Atom("string")))];
    var last := [Demand(p, Some(Atom("int")))];
    assert names[0] == p && names[1] == q;
    ParameterPosition(names, p, hint, PInt);
    ParameterPosition(names, q, TStr, PStr);
    OneParameterClosure(names, d, e, hint, TStr, first, second);
    assert TypeDemands(names, TArray(d), PArray(PInt)) == last;
    SignatureCallDemands(names, TArray(d), [d], e, PArray(PInt), Closure([Some(hint)], Some(TStr)),
      first + second, last);
  }

  lemma ThreeDemands(p: string, q: string, x: Term, y: Term, z: Term)
    requires p != q
    ensures AddAll([], [Demand(p, Some(x)), Demand(q, Some(y)), Demand(p, Some(z))])
      == if x == z then Ok([Binding(p, x), Binding(q, y)]) else Err(Conflict(p))
  {
    var ds := [Demand(p, Some(x)), Demand(q, Some(y)), Demand(p, Some(z))];
    var none, one, two: seq<Binding> := [], [Binding(p, x)], [Binding(p, x), Binding(q, y)];
    assert none + [Binding(p, x)] == one && one + [Binding(q, y)] == two;
    assert one[1..] == [] && Find(one[1..], q) == None && Find(one, q) == None && Find(two, p) == Some(x);
    assert Add(none, ds[0]) == Ok(one) && Add(one, ds[1]) == Ok(two);
    assert Add(two, ds[2]) == if x == z then Ok(two) else Err(Conflict(p));
    var rest, last := ds[1..], ds[2..];
    assert rest[1..] == last && last[1..] == [] && rest[0] == ds[1] && last[0] == ds[2];
    assert AddAll(two, last) == if x == z then Ok(two) else Err(Conflict(p));
    assert AddAll(one, rest) == AddAll(two, last);
  }

  /** The closure's own hints answer the signature: `U` is bound from its return type, and the call
      succeeds, as it is matched by some substitution, exactly when it takes the array's elements. */
  lemma ClosureAnswersTheSignature(p: string, q: string, hint: TypeExpr)
    requires p != q
    ensures var call := MapCall(p, q, hint);
      && ShapedCall([p, q], call)
      && AddAll([], CallDemands([p, q], call))
        == (if ToShared(hint) == Atom("int") then Ok([Binding(p, Atom("int")), Binding(q, Atom("string"))])
            else Err(Conflict(p)))
      && ((exists bs :: Matches([p, q], bs, call)) <==> ToShared(hint) == Atom("int"))
  {
    MapCallIsShaped(p, q, hint);
    MapCallDemands(p, q, hint);
    var x := ToShared(hint);
    ThreeDemands(p, q, x, Atom("string"), Atom("int"));
    assert [Demand(p, Some(x)), Demand(q, Some(Atom("string")))] + [Demand(p, Some(Atom("int")))]
      == [Demand(p, Some(x)), Demand(q, Some(Atom("string"))), Demand(p, Some(Atom("int")))];
    InferenceDecidesMatching([p, q], MapCall(p, q, hint));
  }

  /** `f<T>(T $x, T|null $y)`, called with an integer and a nullable string. */
  function UnionCall(p: string): Call {
    Call([Some(TNamed(Bare(p))), Some(TUnion([TNamed(Bare(p)), TVoid]))], [PInt, PUnion([PStr, PVoid])], [])
  }

  lemma UnionCallDemands(p: string)
    ensures AddAll([], CallDemands([p], UnionCall(p))) == Ok([Binding(p, Atom("int"))])
  {
    var d := TUnion([TNamed(Bare(p)), TVoid]);
    NamedDemand(p, PInt);
    assert d.members[0] == TNamed(Bare(p)) && MentionedIn([p], d.members) && Mentions([p], d);
    TwoPositions([p], TNamed(Bare(p)), d, PInt, PUnion([PStr, PVoid]), [Demand(p, Some(Atom("int")))], []);
    OneDemand(p, Atom("int"));
  }

  lemma UnionMember(x: Term, bs: seq<Binding>)
    requires Union([Atom("string"), Atom("null")]) == Substitute(Union([x, Atom("null")]), bs)
    ensures Substitute(x, bs) == Atom("string")
  {
    var ts := [x, Atom("null")];
    var r := SubstituteAll(ts, bs);
    assert r[0] == Substitute(ts[0], bs);
    assert r == [Atom("string"), Atom("null")];
  }

  lemma UnionTerms(p: string)
    ensures SpelledTerm(PUnion([PStr, PVoid])) == Some(Union([Atom("string"), Atom("null")]))
    ensures ToShared(TUnion([TNamed(Bare(p)), TVoid])) == Union([Atom(p), Atom("null")])
  {
    assert Spelling(Bare(p)) == p;
    NullableStringIsSpelled();
    UnionOfTwo(TStr, TVoid);
    UnionOfTwo(TNamed(Bare(p)), TVoid);
  }

  lemma UnionOfTwo(x: TypeExpr, y: TypeExpr)
    ensures ToShared(TUnion([x, y])) == Union([ToShared(x), ToShared(y)])
  {
    var ms := [x, y];
    assert ms[1..] == [y] && [y][1..] == [];
    assert ToSharedAll(ms) == [ToShared(x), ToShared(y)];
  }

  lemma NullableStringIsSpelled()
    ensures SpelledType(PUnion([PStr, PVoid])) == Some(TUnion([TStr, TVoid]))
  {
    var ms, last := [PStr, PVoid], [PVoid];
    assert last[1..] == [] && SpelledTypes(last) == Some([TVoid] + []);
    assert [TVoid] + [] == [TVoid] && [TStr] + [TVoid] == [TStr, TVoid];
    assert ms[1..] == last && SpelledTypes(ms) == Some([TStr, TVoid]);
  }

  /** A parameter inside a union is not looked at: the call succeeds although no substitution matches
      both positions. */
  lemma UnreadPositionCanMismatch(p: string)
    ensures AddAll([], CallDemands([p], UnionCall(p))).Ok?
    ensures forall bs :: !Matches([p], bs, UnionCall(p))
  {
    UnionCallDemands(p);
    forall bs ensures !Matches([p], bs, UnionCall(p)) {
      if Matches([p], bs, UnionCall(p)) {
        UnionCallBinds(p, bs);
      }
    }
  }

  lemma UnionCallBinds(p: string, bs: seq<Binding>)
    requires Matches([p], bs, UnionCall(p))
    ensures Find(bs, p) == Some(Atom("int")) && Substitute(Atom(p), bs) == Atom("string")
  {
    var call := UnionCall(p);
    var d := TUnion([TNamed(Bare(p)), TVoid]);
    NamedDemand(p, PInt);
    assert d.members[0] == TNamed(Bare(p)) && MentionedIn([p], d.members) && Mentions([p], d);
    assert TypeInstance([p], call.declared[0].value, bs, call.actual[0]);
    assert TypeInstance([p], call.declared[1].value, bs, call.actual[1]);
    UnionTerms(p);
    UnionMember(Atom(p), bs);
  }
}
