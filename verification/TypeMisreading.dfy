/** The other half: a type whose spelling does lend a bracket to a separator is never read back as
    itself. Together with TypeReading this decides exactly when printing and reading are inverse. */
module TypeMisreading {
  import opened Wrappers
  import opened GenericTypes
  import opened TypeGrammar
  import opened TypeSpelling
  import opened TypeReading

  predicate Misread<T(==)>(r: Parsed<T>, t: T) {
    r.Fail? || r.value != t
  }

  // ---- accumulators only grow ----

  lemma {:induction false} ArgumentsGrow(before: seq<TypeExpr>, ts: seq<Token>, p: nat)
    ensures var r := ParseArguments(before, ts, p); r.Done? ==> |r.value| > |before| && r.value[..|before|] == before
    decreases |ts|
  {
    var r := ParseNested(ts, p);
    if r.Done? && At(r.rest, Comma) {
      ArgumentsGrow(before + [r.value], r.rest[1..], r.pending);
      var all := ParseArguments(before, ts, p);
      if all.Done? {
        assert all.value[..|before|] == all.value[..|before| + 1][..|before|] == (before + [r.value])[..|before|];
      }
    }
  }

  lemma {:induction false} ParametersGrow(before: seq<TypeExpr>, ts: seq<Token>)
    ensures var r := ParseParameters(before, ts); r.Done? ==> |r.value| > |before| && r.value[..|before|] == before
    decreases |ts|
  {
    var r := ParseType(ts);
    if r.Done? && At(r.rest, Comma) {
      ParametersGrow(before + [r.value], r.rest[1..]);
      var all := ParseParameters(before, ts);
      if all.Done? {
        assert all.value[..|before|] == all.value[..|before| + 1][..|before|] == (before + [r.value])[..|before|];
      }
    }
  }

  /** Some extension of the members read so far. */
  ghost predicate Extends(before: seq<TypeExpr>, ms: seq<TypeExpr>) {
    |before| <= |ms| && ms[..|before|] == before
  }

  /** More members were read; when they are all `null`, no bracket was taken from the credit. */
  ghost predicate Grown(before: seq<TypeExpr>, p: nat, c: Parsed<TypeExpr>, more: seq<TypeExpr>)
    requires before != []
  {
    c.Done? ==> c.value == NormalizeUnion(before + more) && (NonNull(more) == [] ==> c.pending == p)
  }

  ghost predicate UnionOf(before: seq<TypeExpr>, p: nat, c: Parsed<TypeExpr>)
    requires before != []
  {
    && (exists more :: Grown(before, p, c, more))
    && (c.Done? ==> !At(c.rest, Pipe))
  }

  ghost predicate IntersectionOf(before: seq<TypeExpr>, t: TypeExpr) {
    t.TIntersection? && Extends(before, t.members)
  }

  lemma WordKeepsCredit(text: string, ts: seq<Token>, p: nat)
    requires ts != []
    ensures var c := ParseWord(text, ts, p); c.Done? && c.value.TVoid? ==> c.pending == p
  {
  }

  /** Only the words for it are read as `null`, and they spend no credit. */
  lemma NullKeepsCredit(ts: seq<Token>, p: nat)
    ensures var c := ParseAtomic(ts, p); c.Done? && c.value.TVoid? ==> c.pending == p
  {
    if ts != [] && ts[0].Ident? {
      WordKeepsCredit(ts[0].text, ts, p);
    }
  }

  lemma {:induction false} UnionGrows(before: seq<TypeExpr>, ts: seq<Token>, p: nat)
    requires before != []
    ensures UnionOf(before, p, ParseUnion(before, ts, p))
    decreases |ts|
  {
    if At(ts, Pipe) {
      var m := ParseAtomic(ts[1..], p);
      if m.Done? {
        UnionGrows(before + [m.value], m.rest, m.pending);
        var more :| Grown(before + [m.value], m.pending, ParseUnion(before + [m.value], m.rest, m.pending), more);
        NullKeepsCredit(ts[1..], p);
        GrownByOne(before, p, m, ParseUnion(before, ts, p), more);
      } else {
        assert Grown(before, p, ParseUnion(before, ts, p), []);
      }
    } else {
      assert before + [] == before;
      assert Grown(before, p, ParseUnion(before, ts, p), []);
    }
  }

  lemma GrownByOne(before: seq<TypeExpr>, p: nat, m: Parsed<TypeExpr>, c: Parsed<TypeExpr>, more: seq<TypeExpr>)
    requires m.Done? && (m.value.TVoid? ==> m.pending == p) && before != []
      && Grown(before + [m.value], m.pending, c, more)
    ensures Grown(before, p, c, [m.value] + more)
  {
    assert before + ([m.value] + more) == before + [m.value] + more;
    assert ([m.value] + more)[1..] == more;
  }

  lemma {:induction false} IntersectionGrows(before: seq<TypeExpr>, ts: seq<Token>, p: nat)
    ensures var r := ParseIntersection(before, ts, p); r.Done? ==> IntersectionOf(before, r.value)
    decreases |ts|
  {
    if At(ts, Amp) && TypeStarts(ts[1..]) {
      var m := ParseAtomic(ts[1..], p);
      if m.Done? {
        IntersectionGrows(before + [m.value], m.rest, m.pending);
        var r := ParseIntersection(before, ts, p);
        if r.Done? {
          assert r.value.members[..|before|] == r.value.members[..|before| + 1][..|before|]
            == (before + [m.value])[..|before|];
        }
      }
    }
  }

  // ---- what normalisation cannot hide ----

  lemma {:induction false} NonNullConcat(a: seq<TypeExpr>, b: seq<TypeExpr>)
    ensures NonNull(a + b) == NonNull(a) + NonNull(b)
  {
    if a == [] {
      assert a + b == b;
    } else {
      assert (a + b)[1..] == a[1..] + b;
      NonNullConcat(a[1..], b);
    }
  }

  lemma {:induction false} NonNullHasNoVoid(ms: seq<TypeExpr>)
    ensures NoNull(NonNull(ms))
    ensures |NonNull(ms)| <= |ms|
    ensures |NonNull(ms)| == |ms| ==> NonNull(ms) == ms
  {
    if ms != [] {
      NonNullHasNoVoid(ms[1..]);
      assert ms == [ms[0]] + ms[1..];
    }
  }

  predicate HasNull(ms: seq<TypeExpr>) {
    exists i :: 0 <= i < |ms| && ms[i].TVoid?
  }

  lemma {:induction false} HasNullIsShorter(ms: seq<TypeExpr>)
    ensures HasNull(ms) <==> |NonNull(ms)| < |ms|
  {
    if ms != [] {
      HasNullIsShorter(ms[1..]);
      NonNullHasNoVoid(ms[1..]);
      if HasNull(ms[1..]) {
        var i :| 0 <= i < |ms[1..]| && ms[1..][i].TVoid?;
        assert ms[i + 1].TVoid?;
      }
      if i :| 0 <= i < |ms| && ms[i].TVoid? {
        if i > 0 {
          assert ms[1..][i - 1].TVoid?;
        }
      }
    }
  }

  /** What normalisation makes of a union with other members than `null`. */
  lemma NormalForm(ms: seq<TypeExpr>)
    requires |ms| >= 2 && NonNull(ms) != []
    ensures NoNull(NonNull(ms))
    ensures !HasNull(ms) ==> NormalizeUnion(ms) == TUnion(NonNull(ms))
    ensures HasNull(ms) && |NonNull(ms)| == 1 ==> NormalizeUnion(ms) == TNullable(NonNull(ms)[0])
    ensures HasNull(ms) && |NonNull(ms)| != 1 ==> NormalizeUnion(ms) == TUnion(NonNull(ms) + [TVoid])
  {
    HasNullIsShorter(ms);
    NonNullHasNoVoid(ms);
  }

  /** Unions read alike have the same other members, and `null` in both or in neither. */
  lemma AlikeUnions(a: seq<TypeExpr>, b: seq<TypeExpr>)
    requires |a| >= 2 && |b| >= 2 && NonNull(a) != [] && NormalizeUnion(a) == NormalizeUnion(b)
    ensures NonNull(a) == NonNull(b) && (HasNull(a) <==> HasNull(b))
  {
    OthersInBoth(a, b);
    NormalForm(a);
    NormalForm(b);
    AlikeForms(NonNull(a), NonNull(b), HasNull(a), HasNull(b));
  }

  function FormOf(others: seq<TypeExpr>, withNull: bool): TypeExpr {
    if !withNull then TUnion(others) else if |others| == 1 then TNullable(others[0]) else TUnion(others + [TVoid])
  }

  lemma AlikeForms(a: seq<TypeExpr>, b: seq<TypeExpr>, x: bool, y: bool)
    requires a != [] && b != [] && NoNull(a) && NoNull(b) && FormOf(a, x) == FormOf(b, y)
    ensures a == b && x == y
  {
    if FormOf(a, x).TUnion? {
      var r := FormOf(a, x).members;
      assert r[|r| - 1].TVoid? <==> x;
      assert r[|r| - 1].TVoid? <==> y;
      assert a == r[..|a|] && b == r[..|b|];
    } else {
      assert a == [a[0]] && b == [b[0]];
    }
  }

  lemma OthersInBoth(a: seq<TypeExpr>, b: seq<TypeExpr>)
    requires |a| >= 2 && |b| >= 2 && NonNull(a) != [] && NormalizeUnion(a) == NormalizeUnion(b)
    ensures NonNull(b) != []
  {
    if NonNull(b) == [] {
      NullsApart(a, b);
    }
  }

  lemma NullsApart(a: seq<TypeExpr>, b: seq<TypeExpr>)
    requires |a| >= 2 && |b| >= 2 && NonNull(a) != [] && NonNull(b) == []
    ensures NormalizeUnion(a) != NormalizeUnion(b)
  {
    NoneButNull(b);
    NormalForm(a);
    assert NormalizeUnion(b) == TUnion(b) && b[0].TVoid? && !NonNull(a)[0].TVoid?;
  }

  lemma {:induction false} NoneButNull(ms: seq<TypeExpr>)
    requires NonNull(ms) == []
    ensures forall i | 0 <= i < |ms| :: ms[i].TVoid?
  {
    if ms != [] {
      NoneButNull(ms[1..]);
      assert forall i | 1 <= i < |ms| :: ms[i] == ms[1..][i - 1];
    }
  }

  /** A different member at a position shows in the result. */
  lemma NormalizeDiffers(ms: seq<TypeExpr>, other: seq<TypeExpr>, i: nat)
    requires |ms| >= 2 && i < |ms| && i < |other| && other[..i] == ms[..i]
    requires other[i] != ms[i] && !other[i].TVoid? && !ms[i].TVoid? && Atomic(other[i])
    ensures NormalizeUnion(other) != NormalizeUnion(ms)
  {
    UnionIsComposite(ms);
    NonNullAt(ms, i);
    NonNullAt(other, i);
    if |other| >= 2 && NormalizeUnion(other) == NormalizeUnion(ms) {
      AlikeUnions(ms, other);
    }
  }

  lemma NonNullAt(ms: seq<TypeExpr>, i: nat)
    requires i < |ms| && !ms[i].TVoid?
    ensures var d := |NonNull(ms[..i])|; d < |NonNull(ms)| && NonNull(ms)[d] == ms[i]
  {
    assert ms == ms[..i] + ms[i..] && ms[i..][0] == ms[i];
    NonNullConcat(ms[..i], ms[i..]);
  }

  /** Members that leave the result as it is are all `null`. */
  lemma NormalizeGrows(ms: seq<TypeExpr>, more: seq<TypeExpr>)
    requires |ms| >= 2 && NonNull(ms) != [] && NormalizeUnion(ms + more) == NormalizeUnion(ms)
    ensures NonNull(more) == []
  {
    AlikeUnions(ms, ms + more);
    NonNullConcat(ms, more);
  }

  /** Members cannot go missing: only one of them can be `null`. */
  lemma NormalizeShrinks(ms: seq<TypeExpr>, i: nat)
    requires |ms| >= 2 && i < |ms| - 1 && !ms[i].TVoid? && OneNull(ms) && Atomic(ms[0])
    ensures NormalizeUnion(ms[..i + 1]) != NormalizeUnion(ms)
  {
    UnionIsComposite(ms);
    if i > 0 && NormalizeUnion(ms[..i + 1]) == NormalizeUnion(ms) {
      assert ms[..i + 1] + ms[i + 1..] == ms;
      NonNullAt(ms[..i + 1], i);
      NormalizeGrows(ms[..i + 1], ms[i + 1..]);
      NoneButNull(ms[i + 1..]);
      assert ms[i + 1..][0] == ms[i + 1];
      NoNullBefore(ms, i + 1);
      assert HasNull(ms);
      AlikeUnions(ms[..i + 1], ms);
    }
  }

  lemma NoNullBefore(ms: seq<TypeExpr>, i: nat)
    requires OneNull(ms) && i < |ms| && ms[i].TVoid?
    ensures !HasNull(ms[..i])
  {
  }

  lemma NormKeepsOneNull(ms: seq<TypeExpr>)
    requires WfMembers(ms) && OneNull(ms)
    ensures OneNull(NormAll(ms)) && forall i | 0 <= i < |ms| ::
      Atomic(NormAll(ms)[i]) && (NormAll(ms)[i].TVoid? <==> ms[i].TVoid?)
  {
  }

  // ---- one step of each parsing function ----

  /** Misread as something that is still no `null`. */
  predicate MisreadTyped(r: Parsed<TypeExpr>, t: TypeExpr) {
    Misread(r, t) && (r.Done? ==> !r.value.TVoid? && Atomic(r.value))
  }

  /** Read as it is, but with the `|` after it and what that joined gone. */
  predicate Lost<T(==)>(r: Parsed<T>, t: T, k: Next) {
    k.PipeNext? && r.Done? && r.value == t && !At(r.rest, Pipe)
  }

  predicate Missed(r: Parsed<TypeExpr>, t: TypeExpr, k: Next) {
    MisreadTyped(r, t) || Lost(r, t, k)
  }

  /** The `|` behind a list is gone while one of its brackets is still credited. */
  predicate Taken(c: Parsed<TypeExpr>, k: Next) {
    k.PipeNext? && c.Done? && c.pending == 1 && !At(c.rest, Pipe)
  }

  predicate CommaSeen(c: Parsed<TypeExpr>) {
    c.Done? && At(c.rest, Comma)
  }

  lemma ArrayMissed(s: seq<Token>, e: TypeExpr, k: Next)
    requires var c := ParseNested(s, 0); Misread(c, e) || CommaSeen(c) || Taken(c, k)
    ensures Missed(ParseArray([Less] + s, 0), TArray(e), k)
  {
    assert ([Less] + s)[1..] == s;
  }

  lemma ArrayFirstMisread(s: seq<Token>, e: TypeExpr, v: TypeExpr)
    requires Misread(ParseNested(s, 0), e)
    ensures MisreadTyped(ParseArray([Less] + s, 0), TAssoc(e, v))
  {
    assert ([Less] + s)[1..] == s;
  }

  lemma ArraySecondMissed(s: seq<Token>, key: TypeExpr, s2: seq<Token>, v: TypeExpr, k: Next)
    requires ParseNested(s, 0) == Done(key, [Comma] + s2, 0)
    requires var c := ParseNested(s2, 0); Misread(c, v) || Taken(c, k)
    ensures Missed(ParseArray([Less] + s, 0), TAssoc(key, v), k)
  {
    assert ([Less] + s)[1..] == s && ([Comma] + s2)[1..] == s2;
  }

  lemma BufferMissed(s: seq<Token>, e: TypeExpr, k: Next)
    requires var c := ParseNested(s, 0); Misread(c, e) || Taken(c, k)
    ensures Missed(ParseBuffer([Less] + s, 0), TBuffer(e), k)
  {
    assert ([Less] + s)[1..] == s;
  }

  /** A misread argument shows in the list, and so does an argument too many. */
  lemma ArgumentMisread(args: seq<TypeExpr>, i: nat, s: seq<Token>)
    requires i < |args|
    requires var c := ParseNested(s, 0); Misread(c, args[i]) || (i == |args| - 1 && CommaSeen(c))
    ensures Misread(ParseArguments(args[..i], s, 0), args)
  {
    var c := ParseNested(s, 0);
    if c.Done? {
      var all := ParseArguments(args[..i], s, 0);
      if At(c.rest, Comma) {
        ArgumentsGrow(args[..i] + [c.value], c.rest[1..], c.pending);
        if all.Done? {
          assert all.value[..i + 1][i] == c.value;
        }
      } else if all.Done? {
        assert all.value[i] == c.value;
      }
    }
  }

  lemma LastArgumentMissed(args: seq<TypeExpr>, s: seq<Token>, k: Next)
    requires args != []
    requires var c := ParseNested(s, 0); Misread(c, args[|args| - 1]) || CommaSeen(c) || Taken(c, k)
    ensures var r := ParseArguments(args[..|args| - 1], s, 0); Misread(r, args) || Lost(r, args, k)
  {
    var c := ParseNested(s, 0);
    if Misread(c, args[|args| - 1]) || CommaSeen(c) {
      ArgumentMisread(args, |args| - 1, s);
    } else {
      LastArgument(args[..|args| - 1], s, c.value, c.rest, c.pending);
      NextPrefix(args, |args| - 1);
    }
  }

  lemma ParameterMisread(params: seq<TypeExpr>, i: nat, s: seq<Token>)
    requires i < |params| && Misread(ParseType(s), params[i])
    ensures Misread(ParseParameters(params[..i], s), params)
  {
    var c := ParseType(s);
    if c.Done? {
      var all := ParseParameters(params[..i], s);
      if At(c.rest, Comma) {
        ParametersGrow(params[..i] + [c.value], c.rest[1..]);
        if all.Done? {
          assert all.value[..i + 1][i] == c.value;
        }
      } else if all.Done? {
        assert all.value[i] == c.value;
      }
    }
  }

  lemma SignatureMisread(s: seq<Token>, params: seq<TypeExpr>, ret: TypeExpr)
    requires params != [] && !At(s, RParen) && Misread(ParseParameters([], s), params)
    ensures MisreadTyped(ParseCallable([LParen] + s, 0), TCallable(params, ret))
  {
    assert ([LParen] + s)[1..] == s;
  }

  /** What a type becomes once its first part is read. */
  lemma AfterFirst(s: seq<Token>, v: TypeExpr, rest: seq<Token>, p: nat)
    requires !At(s, Question) && ParseAtomic(s, 0) == Done(v, rest, p)
    ensures var c := ParseNested(s, 0);
      c.Done? ==> c.value.TIntersection? || exists more :: c.value == NormalizeUnion([v] + more)
  {
    if At(rest, Amp) && TypeStarts(rest[1..]) {
      IntersectionGrows([v], rest, p);
    } else {
      UnionGrows([v], rest, p);
      var more :| Grown([v], p, ParseUnion([v], rest, p), more);
    }
  }

  lemma AtomicMisread(s: seq<Token>, t: TypeExpr)
    requires Atomic(t) && !At(s, Question) && MisreadTyped(ParseAtomic(s, 0), t)
    ensures Misread(ParseNested(s, 0), t)
  {
    var v := ParseAtomic(s, 0);
    if v.Done? {
      AfterFirst(s, v.value, v.rest, v.pending);
      var c := ParseNested(s, 0);
      if c.Done? && !c.value.TIntersection? {
        var more :| c.value == NormalizeUnion([v.value] + more);
        if more != [] {
          UnionIsComposite([v.value] + more);
        } else {
          assert [v.value] + more == [v.value];
        }
      }
    }
  }

  /** A union member that is misread shows in the union. */
  lemma MemberMisread(ms: seq<TypeExpr>, i: nat, v: TypeExpr, rest: seq<Token>, p: nat)
    requires |ms| >= 2 && i < |ms| && !ms[i].TVoid? && v != ms[i] && !v.TVoid? && Atomic(v)
    ensures Misread(ParseUnion(ms[..i] + [v], rest, p), NormalizeUnion(ms))
  {
    UnionGrows(ms[..i] + [v], rest, p);
    var c := ParseUnion(ms[..i] + [v], rest, p);
    var more :| Grown(ms[..i] + [v], p, c, more);
    if c.Done? {
      var other := ms[..i] + [v] + more;
      assert other[i] == v && other[..i] == ms[..i];
      NormalizeDiffers(ms, other, i);
    }
  }

  /** A `|` after the last member adds one, or is lost with the `null` after it. */
  lemma MemberTooMany(ms: seq<TypeExpr>, rest: seq<Token>, p: nat)
    requires |ms| >= 2 && NonNull(ms) != []
    ensures var c := ParseUnion(ms, rest, p);
      Misread(c, NormalizeUnion(ms)) || (c.Done? && c.pending == p && !At(c.rest, Pipe))
  {
    UnionGrows(ms, rest, p);
    var c := ParseUnion(ms, rest, p);
    var more :| Grown(ms, p, c, more);
    if c.Done? && c.value == NormalizeUnion(ms) {
      NormalizeGrows(ms, more);
    }
  }

  lemma OperandMisread(ms: seq<TypeExpr>, i: nat, v: TypeExpr, rest: seq<Token>, p: nat)
    requires i < |ms| && v != ms[i]
    ensures Misread(ParseIntersection(ms[..i] + [v], rest, p), TIntersection(ms))
  {
    IntersectionGrows(ms[..i] + [v], rest, p);
    var c := ParseIntersection(ms[..i] + [v], rest, p);
    if c.Done? {
      assert c.value.members[..i + 1][i] == v;
    }
  }

  lemma OperandTooMany(ms: seq<TypeExpr>, rest: seq<Token>, p: nat)
    requires At(rest, Amp) && TypeStarts(rest[1..])
    ensures Misread(ParseIntersection(ms, rest, p), TIntersection(ms))
  {
    var m := ParseAtomic(rest[1..], p);
    if m.Done? {
      IntersectionGrows(ms + [m.value], m.rest, m.pending);
    }
  }

  // ---- every unclean type is misread ----

  lemma {:induction false} MisreadAtomic(t: TypeExpr, k: Next, r: seq<Token>)
    requires Wf(t) && Atomic(t) && Follows(r, k, true) && !Clean(t, k, true)
    requires t.TCallable? ==> Outer(k)
    ensures Missed(ParseAtomic(Tokens(TypeTokens(t) + r, true), 0), Norm(t), k)
    decreases t, 5, 0
  {
    match t
    case TNamed(n) => ShadowedName(n, k, r);
    case TArray(e) => MisreadArray(e, k, r);
    case TAssoc(key, v) => MisreadAssoc(key, v, k, r);
    case TBuffer(e) => MisreadBuffer(e, k, r);
    case TGeneric(n, args) => MisreadGeneric(n, args, k, r);
    case TCallable(params, ret) => MisreadCallable(params, ret, k, r);
  }

  // ---- classes named like a built-in type ----

  /** What a built-in word is read as, with or without arguments: never a class of that name. */
  predicate BuiltInRead(c: Parsed<TypeExpr>) {
    c.Done? ==> Atomic(c.value) && !c.value.TVoid? && !c.value.TGeneric? && (c.value.TNamed? ==> WordName(c.value.name))
  }

  lemma SignatureWordRead(ts: seq<Token>)
    ensures BuiltInRead(ParseArray(ts, 0)) && BuiltInRead(ParseCallable(ts, 0))
  {
  }

  lemma TargetWordRead(ts: seq<Token>)
    ensures BuiltInRead(ParsePtr(ts, 0)) && BuiltInRead(ParseBuffer(ts, 0))
  {
  }

  lemma TypeWordRead(w: string, ts: seq<Token>)
    requires ts != [] && IsTypeWord(w) && LowerAll(w) != "void"
    ensures BuiltInRead(ParseWord(w, ts, 0))
  {
    SignatureWordRead(ts[1..]);
    TargetWordRead(ts[1..]);
    if PlainType(LowerAll(w)).Some? {
      PlainTypeRead(LowerAll(w), ts[1..]);
    } else {
      OtherTypeWords(w);
    }
  }

  lemma PlainTypeRead(lower: string, rest: seq<Token>)
    requires lower != "void" && PlainType(lower).Some?
    ensures BuiltInRead(Done(PlainType(lower).value, rest, 0))
  {
  }

  /** The type words that open a list or a signature. */
  lemma OtherTypeWords(w: string)
    requires IsTypeWord(w) && PlainType(LowerAll(w)).None?
    ensures LowerAll(w) == "array" || LowerAll(w) == "callable" || w == "ptr" || w == "pointer" || w == "buffer"
  {
  }

  lemma ShadowIsNotVoid(n: Name)
    requires WfNamed(n) && Shadowed(n)
    ensures n.parts == [n.parts[0]] && LowerAll(n.parts[0]) != "void"
  {
    if n == Bare("callable") || n == Bare("array") {
      LowerOfLower(n.parts[0]);
    }
  }

  lemma WordRead(w: string, r: seq<Token>)
    requires AfterName(r) && IsTypeWord(w) && LowerAll(w) != "void"
    ensures BuiltInRead(ParseAtomic(Tokens([Ident(w)] + r, true), 0))
  {
    First(r, true);
    Head(Ident(w), r, true);
    var ts := [Ident(w)] + Tokens(r, true);
    assert ts[1..] == Tokens(r, true);
    WordStart(w, ts, 0);
    TypeWordRead(w, ts);
  }

  /** The tokens after a name that stands on its own. */
  lemma ShadowedRead(n: Name, r: seq<Token>)
    requires WfNamed(n) && Shadowed(n) && AfterName(r)
    ensures BuiltInRead(ParseAtomic(Tokens(NameTokens(n) + r, true), 0))
  {
    ShadowIsNotVoid(n);
    assert NameTokens(n) == [Ident(n.parts[0])];
    WordRead(n.parts[0], r);
  }

  lemma ShadowedName(n: Name, k: Next, r: seq<Token>)
    requires WfNamed(n) && Follows(r, k, true) && !Clean(TNamed(n), k, true)
    ensures MisreadTyped(ParseAtomic(Tokens(NameTokens(n) + r, true), 0), TNamed(n))
  {
    ShadowedRead(n, r);
  }

  lemma GenericSplits(n: Name, args: seq<TypeExpr>, r: seq<Token>)
    ensures TypeTokens(TGeneric(n, args)) + r
      == NameTokens(n) + ([Less] + (AllTokens(args, SEPARATOR) + ([Greater] + r)))
  {
    var body := AllTokens(args, SEPARATOR);
    Regroup(NameTokens(n) + [Less], body, [Greater], r);
    RegroupTwo(NameTokens(n), [Less], body + ([Greater] + r));
  }

  lemma ShadowedBefore(n: Name, body: seq<Token>)
    requires WfNamed(n) && Shadowed(n)
    ensures BuiltInRead(ParseAtomic(Tokens(NameTokens(n) + ([Less] + body), true), 0))
  {
    ShadowedRead(n, [Less] + body);
  }

  lemma ShadowedGeneric(n: Name, args: seq<TypeExpr>, r: seq<Token>)
    requires WfClass(n) && Shadowed(n)
    ensures MisreadTyped(ParseAtomic(Tokens(TypeTokens(TGeneric(n, args)) + r, true), 0), TGeneric(n, NormAll(args)))
  {
    GenericSplits(n, args, r);
    ShadowedBefore(n, AllTokens(args, SEPARATOR) + ([Greater] + r));
    NoClassOfThatName(ParseAtomic(Tokens(TypeTokens(TGeneric(n, args)) + r, true), 0), n, NormAll(args));
  }

  lemma NoClassOfThatName(c: Parsed<TypeExpr>, n: Name, args: seq<TypeExpr>)
    requires BuiltInRead(c)
    ensures MisreadTyped(c, TGeneric(n, args))
  {
  }

  // ---- lists ----

  /** A list that swallows what follows, and whose last child does not, sees a comma. */
  lemma CommaIsNext(t: TypeExpr, k: Next, r: seq<Token>)
    requires Swallows(t, k, true) && Follows(r, k, true) && Quiet(LastChild(t), [Greater] + r, true)
    ensures (t.TArray? || t.TGeneric?) && At(Read(LastChild(t), Trail(LastChild(t)), [Greater] + r, true).rest, Comma)
  {
    First(r, true);
    assert ([Greater] + r)[1..] == r && ([Greater] + r)[2..] == r[1..];
  }

  /** The last child of a list that is unclean, or that swallows what follows the list. */
  lemma {:induction false} MisreadLast(t: TypeExpr, e: TypeExpr, k: Next, r: seq<Token>)
    requires IsList(t) && e == LastChild(t) && Wf(e) && Follows(r, k, true)
    requires !Clean(e, Closing, true) || Swallows(t, k, true)
    ensures var c := ParseNested(Tokens(TypeTokens(e) + ([Greater] + r), true), 0);
      Misread(c, Norm(e)) || (CommaSeen(c) && (t.TArray? || t.TGeneric?)) || Taken(c, k)
    decreases t, 1, 0
  {
    if Clean(e, Closing, true) && Quiet(e, [Greater] + r, true) {
      ReadNested(e, Closing, [Greater] + r, true);
      CommaIsNext(t, k, r);
    } else {
      MisreadNested(e, Closing, [Greater] + r);
    }
  }

  lemma {:induction false} MisreadArray(e: TypeExpr, k: Next, r: seq<Token>)
    requires Wf(e) && Follows(r, k, true) && !Clean(TArray(e), k, true)
    ensures Missed(ParseAtomic(Tokens(TypeTokens(TArray(e)) + r, true), 0), TArray(Norm(e)), k)
    decreases TArray(e), 3, 0
  {
    EnterArray(TypeTokens(e), r, true);
    MisreadLast(TArray(e), e, k, r);
    ArrayMissed(Tokens(TypeTokens(e) + ([Greater] + r), true), Norm(e), k);
  }

  lemma {:induction false} MisreadBuffer(e: TypeExpr, k: Next, r: seq<Token>)
    requires Wf(e) && Follows(r, k, true) && !Clean(TBuffer(e), k, true)
    ensures Missed(ParseAtomic(Tokens(TypeTokens(TBuffer(e)) + r, true), 0), TBuffer(Norm(e)), k)
    decreases TBuffer(e), 3, 0
  {
    EnterBuffer(TypeTokens(e), r, true);
    MisreadLast(TBuffer(e), e, k, r);
    BufferMissed(Tokens(TypeTokens(e) + ([Greater] + r), true), Norm(e), k);
  }

  lemma {:induction false} MisreadAssoc(key: TypeExpr, v: TypeExpr, k: Next, r: seq<Token>)
    requires Wf(key) && Wf(v) && Follows(r, k, true) && !Clean(TAssoc(key, v), k, true)
    ensures Missed(ParseAtomic(Tokens(TypeTokens(TAssoc(key, v)) + r, true), 0), TAssoc(Norm(key), Norm(v)), k)
    decreases TAssoc(key, v), 3, 0
  {
    var s2 := TypeTokens(v) + ([Greater] + r);
    var s := Tokens(TypeTokens(key) + (SEPARATOR + s2), true);
    EnterArray(TypeTokens(key) + SEPARATOR + TypeTokens(v), r, true);
    Regroup(TypeTokens(key), SEPARATOR, TypeTokens(v), [Greater] + r);
    AtSeparator(s2, true);
    if Clean(key, CommaNext, true) {
      ReadNested(key, CommaNext, SEPARATOR + s2, true);
      MisreadLast(TAssoc(key, v), v, k, r);
      ArraySecondMissed(s, Norm(key), Tokens(s2, true), Norm(v), k);
    } else {
      MisreadNested(key, CommaNext, SEPARATOR + s2);
      ArrayFirstMisread(s, Norm(key), Norm(v));
    }
  }

  lemma {:induction false} MisreadGeneric(n: Name, args: seq<TypeExpr>, k: Next, r: seq<Token>)
    requires WfClass(n) && args != [] && WfAll(args) && Follows(r, k, true) && !Clean(TGeneric(n, args), k, true)
    ensures Missed(ParseAtomic(Tokens(TypeTokens(TGeneric(n, args)) + r, true), 0), TGeneric(n, NormAll(args)), k)
    decreases TGeneric(n, args), 3, 0
  {
    if Shadowed(n) {
      ShadowedGeneric(n, args, r);
    } else {
      ClassesHaveShape(n);
      EnterClass(n, AllTokens(args, SEPARATOR), r, true);
      assert NormAll(args)[..0] == [] && args[0..] == args;
      MisreadArguments(n, args, 0, k, r);
      GenericMissed(n, ParseArguments([], Tokens(AllTokens(args, SEPARATOR) + ([Greater] + r), true), 0), NormAll(args),
        k);
    }
  }

  lemma GenericMissed(n: Name, c: Parsed<seq<TypeExpr>>, args: seq<TypeExpr>, k: Next)
    requires Misread(c, args) || Lost(c, args, k)
    ensures Missed(if c.Fail? then Fail else Done(TGeneric(n, c.value), c.rest, c.pending), TGeneric(n, args), k)
  {
  }

  lemma {:induction false} MisreadArguments(n: Name, args: seq<TypeExpr>, i: nat, k: Next, r: seq<Token>)
    requires i < |args| && WfAll(args) && Follows(r, k, true)
    requires !CleanAll(args[i..], CommaNext, Closing, true) || Swallows(TGeneric(n, args), k, true)
    ensures var c :=
      ParseArguments(NormAll(args)[..i], Tokens(AllTokens(args[i..], SEPARATOR) + ([Greater] + r), true), 0);
      Misread(c, NormAll(args)) || Lost(c, NormAll(args), k)
    decreases TGeneric(n, args), 2, |args| - i
  {
    CleanTail(args, i, CommaNext, Closing);
    if i == |args| - 1 {
      MisreadLastArgument(n, args, k, r);
    } else if Clean(args[i], CommaNext, true) {
      PassArgument(args, i, r);
      MisreadArguments(n, args, i + 1, k, r);
    } else {
      MisreadArgument(n, args, i, r);
    }
  }

  lemma {:induction false} MisreadLastArgument(n: Name, args: seq<TypeExpr>, k: Next, r: seq<Token>)
    requires args != [] && WfAll(args) && Follows(r, k, true)
    requires !Clean(args[|args| - 1], Closing, true) || Swallows(TGeneric(n, args), k, true)
    ensures var i := |args| - 1;
      var c := ParseArguments(NormAll(args)[..i], Tokens(AllTokens(args[i..], SEPARATOR) + ([Greater] + r), true), 0);
      Misread(c, NormAll(args)) || Lost(c, NormAll(args), k)
    decreases TGeneric(n, args), 1, 1
  {
    var i := |args| - 1;
    WfAt(args, i);
    SplitAt(args, i, SEPARATOR, [Greater] + r);
    MisreadLast(TGeneric(n, args), args[i], k, r);
    LastArgumentMissed(NormAll(args), Tokens(TypeTokens(args[i]) + ([Greater] + r), true), k);
  }

  /** One clean argument before another. */
  lemma PassArgument(args: seq<TypeExpr>, i: nat, r: seq<Token>)
    requires i < |args| - 1 && WfAll(args) && Clean(args[i], CommaNext, true)
    ensures ParseArguments(NormAll(args)[..i], Tokens(AllTokens(args[i..], SEPARATOR) + ([Greater] + r), true), 0)
         == ParseArguments(NormAll(args)[..i + 1], Tokens(AllTokens(args[i + 1..], SEPARATOR) + ([Greater] + r), true),
           0)
  {
    var e := args[i];
    var s := AllTokens(args[i + 1..], SEPARATOR) + ([Greater] + r);
    WfAt(args, i);
    SplitAt(args, i, SEPARATOR, [Greater] + r);
    AtSeparator(s, true);
    ReadNested(e, CommaNext, SEPARATOR + s, true);
    NextArgument(NormAll(args)[..i], Tokens(TypeTokens(e) + (SEPARATOR + s), true), Norm(e), Tokens(s, true), 0);
    NormSplit(args, i);
  }

  lemma {:induction false} MisreadArgument(n: Name, args: seq<TypeExpr>, i: nat, r: seq<Token>)
    requires i < |args| - 1 && WfAll(args) && !Clean(args[i], CommaNext, true)
    ensures Misread(ParseArguments(NormAll(args)[..i], Tokens(AllTokens(args[i..], SEPARATOR) + ([Greater] + r), true),
      0), NormAll(args))
    decreases TGeneric(n, args), 1, 0
  {
    var s := AllTokens(args[i + 1..], SEPARATOR) + ([Greater] + r);
    WfAt(args, i);
    SplitAt(args, i, SEPARATOR, [Greater] + r);
    AtSeparator(s, true);
    MisreadNested(args[i], CommaNext, SEPARATOR + s);
    ArgumentMisread(NormAll(args), i, Tokens(TypeTokens(args[i]) + (SEPARATOR + s), true));
  }

  lemma CleanTail(ts: seq<TypeExpr>, i: nat, between: Next, last: Next)
    requires i < |ts|
    ensures CleanAll(ts[i..], between, last, true) <==>
      Clean(ts[i], NextOf(ts, i, between, last), true) && (i < |ts| - 1 ==> CleanAll(ts[i + 1..], between, last, true))
  {
    assert ts[i..][1..] == ts[i + 1..];
  }

  // ---- signatures ----

  lemma {:induction false} MisreadCallable(params: seq<TypeExpr>, ret: TypeExpr, k: Next, r: seq<Token>)
    requires Wf(TCallable(params, ret)) && Follows(r, k, true) && Outer(k) && !Clean(TCallable(params, ret), k, true)
    ensures MisreadTyped(ParseAtomic(Tokens(TypeTokens(TCallable(params, ret)) + r, true), 0),
      Norm(TCallable(params, ret)))
    decreases TCallable(params, ret), 3, 0
  {
    var tail := TypeTokens(ret) + r;
    var mid := [Colon, Blank] + tail;
    var s := AllTokens(params, SEPARATOR) + ([RParen] + mid);
    EnterCallable(AllTokens(params, SEPARATOR), TypeTokens(ret), r, true);
    HeadBlank(Colon, tail, true);
    Head(RParen, mid, true);
    assert NormAll(params)[..0] == [] && params[0..] == params;
    if params != [] {
      ParametersStart(params, [RParen] + mid, true);
    }
    if NoNull(params) && CleanAll(params, CommaNext, Ending, true) {
      if params == [] {
        assert s == [RParen] + mid;
      } else {
        ReadParameters(params, 0, mid, true);
      }
      SignatureOf(Tokens(s, true), NormAll(params), Tokens(mid, true), Tokens(tail, true));
      MisreadType(ret, k, r);
    } else {
      MisreadParameters(params, 0, mid);
      SignatureMisread(Tokens(s, true), NormAll(params), Norm(ret));
    }
  }

  lemma {:induction false} MisreadParameters(params: seq<TypeExpr>, i: nat, r: seq<Token>)
    requires i < |params| && WfAll(params)
    requires !CleanAll(params[i..], CommaNext, Ending, true) || !NoNull(params[i..])
    ensures Misread(ParseParameters(NormAll(params)[..i],
      Tokens(AllTokens(params[i..], SEPARATOR) + ([RParen] + r), true)), NormAll(params))
    decreases params, 2, |params| - i
  {
    var e := params[i];
    CleanTail(params, i, CommaNext, Ending);
    assert forall j | 1 <= j < |params[i..]| :: params[i..][j] == params[i + 1..][j - 1];
    if e.TVoid? || !Clean(e, NextOf(params, i, CommaNext, Ending), true) {
      MisreadParameter(params, i, r);
    } else {
      PassParameter(params, i, r);
      MisreadParameters(params, i + 1, r);
    }
  }

  lemma {:induction false} MisreadParameter(params: seq<TypeExpr>, i: nat, r: seq<Token>)
    requires i < |params| && WfAll(params)
      && (params[i].TVoid? || !Clean(params[i], NextOf(params, i, CommaNext, Ending), true))
    ensures Misread(ParseParameters(NormAll(params)[..i],
      Tokens(AllTokens(params[i..], SEPARATOR) + ([RParen] + r), true)), NormAll(params))
    decreases params, 1, 0
  {
    var e := params[i];
    WfAt(params, i);
    SplitAt(params, i, SEPARATOR, [RParen] + r);
    if i == |params| - 1 {
      MisreadType(e, Ending, [RParen] + r);
      ParameterMisread(NormAll(params), i, Tokens(TypeTokens(e) + ([RParen] + r), true));
    } else {
      var s := AllTokens(params[i + 1..], SEPARATOR) + ([RParen] + r);
      AtSeparator(s, true);
      MisreadType(e, CommaNext, SEPARATOR + s);
      ParameterMisread(NormAll(params), i, Tokens(TypeTokens(e) + (SEPARATOR + s), true));
    }
  }

  /** One clean parameter before another. */
  lemma PassParameter(params: seq<TypeExpr>, i: nat, r: seq<Token>)
    requires i < |params| - 1 && WfAll(params) && !params[i].TVoid? && Clean(params[i], CommaNext, true)
    ensures ParseParameters(NormAll(params)[..i], Tokens(AllTokens(params[i..], SEPARATOR) + ([RParen] + r), true))
         == ParseParameters(NormAll(params)[..i + 1],
           Tokens(AllTokens(params[i + 1..], SEPARATOR) + ([RParen] + r), true))
  {
    var e := params[i];
    var s := AllTokens(params[i + 1..], SEPARATOR) + ([RParen] + r);
    WfAt(params, i);
    SplitAt(params, i, SEPARATOR, [RParen] + r);
    AtSeparator(s, true);
    ReadType(e, CommaNext, SEPARATOR + s, true);
    NextParameter(NormAll(params)[..i], Tokens(TypeTokens(e) + (SEPARATOR + s), true), Norm(e), Tokens(s, true));
    NormSplit(params, i);
  }

  lemma {:induction false} MisreadType(t: TypeExpr, k: Next, r: seq<Token>)
    requires Wf(t) && Follows(r, k, true) && Outer(k)
    requires t.TVoid? || !Clean(t, k, true) || Unbalanced(t, k, true)
    ensures Misread(ParseType(Tokens(TypeTokens(t) + r, true)), Norm(t))
    decreases t, 8, 0
  {
    if t.TVoid? {
      NullIsANameAlone(r);
    } else if Clean(t, k, true) && Quiet(t, r, true) {
      UnbalancedType(t, k, r);
    } else {
      MisreadNested(t, k, r);
      NamesAreNoNull(t, r);
      NestedMisreadShows(Norm(t), Tokens(TypeTokens(t) + r, true), Behind(r));
    }
  }

  lemma NamesAreNoNull(t: TypeExpr, r: seq<Token>)
    requires Wf(t)
    ensures Norm(t).TNamed? ==> !At(Tokens(TypeTokens(t) + r, true), NullWord)
  {
    if t.TUnion? {
      UnionIsComposite(NormAll(t.members));
    } else if t.TNamed? {
      StartOf(t);
      FirstOf(TypeTokens(t), r, true);
    }
  }

  /** `null` on its own is read as a class of that name. */
  lemma NullIsANameAlone(r: seq<Token>)
    ensures Misread(ParseType(Tokens([NullWord] + r, true)), TVoid)
  {
    Head(NullWord, r, true);
  }

  /** A type on its own may leave no bracket over. */
  lemma UnbalancedType(t: TypeExpr, k: Next, r: seq<Token>)
    requires Wf(t) && Follows(r, k, true) && Unbalanced(t, k, true) && Clean(t, k, true) && Quiet(t, r, true)
    ensures ParseType(Tokens(TypeTokens(t) + r, true)).Fail?
  {
    ReadNested(t, k, r, true);
  }

  lemma NestedMisreadShows(t: TypeExpr, s: seq<Token>, k: Next)
    requires Misread(ParseNested(s, 0), t) || Taken(ParseNested(s, 0), k)
    requires t.TNamed? ==> !At(s, NullWord)
    ensures Misread(ParseType(s), t)
  {
  }

  // ---- types inside lists ----

  /** What a bracket with a `|` behind it stands before. */
  function Behind(r: seq<Token>): Next {
    if At(r, Greater) && |r| > 1 && r[1].Pipe? then PipeNext else Ending
  }

  lemma {:induction false} MisreadNested(t: TypeExpr, k: Next, r: seq<Token>)
    requires Wf(t) && Follows(r, k, true) && Outer(k)
    requires !Clean(t, k, true) || !Quiet(t, r, true)
    ensures var c := ParseNested(Tokens(TypeTokens(t) + r, true), 0); Misread(c, Norm(t)) || Taken(c, Behind(r))
    decreases t, 7, 0
  {
    match t
    case TNullable(e) => MisreadNullable(e, k, r);
    case TUnion(ms) => MisreadUnion(ms, k, r);
    case TIntersection(ms) => MisreadIntersection(ms, k, r);
    case _ => MisreadSingle(t, k, r);
  }

  /** A separator behind the bracket that is already read. */
  lemma SeparatorSeen<T>(value: T, t: TypeExpr, r: seq<Token>)
    requires !Quiet(t, r, true) && (|r| > 1 ==> !r[1].Blank?)
    ensures var c := Read(value, Trail(t), r, true);
      && c.pending == 1
      && ((At(c.rest, Pipe) && Behind(r).PipeNext? && !t.TIntersection?)
        || (At(c.rest, Amp) && TypeStarts(c.rest[1..]) && !t.TUnion?))
  {
    First(r[1..], true);
    assert r[1..][1..] == r[2..];
  }

  lemma {:induction false} MisreadSingle(t: TypeExpr, k: Next, r: seq<Token>)
    requires Wf(t) && Atomic(t) && Follows(r, k, true) && Outer(k)
    requires !Clean(t, k, true) || !Quiet(t, r, true)
    ensures Misread(ParseNested(Tokens(TypeTokens(t) + r, true), 0), Norm(t))
    decreases t, 6, 0
  {
    var s := Tokens(TypeTokens(t) + r, true);
    AnyStart(t, r, true);
    if Clean(t, k, true) {
      ReadAtomic(t, k, r, true);
      SeparatorSeen(Norm(t), t, r);
      SingleInterrupted(s, Norm(t), Read(Norm(t), Trail(t), r, true).rest, Read(Norm(t), Trail(t), r, true).pending);
    } else {
      MisreadAtomic(t, k, r);
      AtomicMisread(s, Norm(t));
    }
  }

  /** A type that a `|` follows becomes part of a union, */
  lemma PipeAfter(t: TypeExpr, rest: seq<Token>, p: nat)
    requires Atomic(t) && At(rest, Pipe)
    ensures Misread(ParseUnion([t], rest, p), t)
  {
    var m := ParseAtomic(rest[1..], p);
    if m.Done? {
      UnionGrows([t] + [m.value], m.rest, m.pending);
      var more :| Grown([t] + [m.value], m.pending, ParseUnion([t] + [m.value], m.rest, m.pending), more);
      UnionIsComposite([t] + [m.value] + more);
    }
  }

  /** and one that `&` follows part of an intersection. */
  lemma SingleInterrupted(s: seq<Token>, t: TypeExpr, rest: seq<Token>, p: nat)
    requires Atomic(t) && !At(s, Question) && ParseAtomic(s, 0) == Done(t, rest, p)
    requires At(rest, Pipe) || (At(rest, Amp) && TypeStarts(rest[1..]))
    ensures Misread(ParseNested(s, 0), t)
  {
    if At(rest, Pipe) {
      PipeAfter(t, rest, p);
    } else {
      IntersectionGrows([t], rest, p);
    }
  }

  lemma {:induction false} MisreadNullable(e: TypeExpr, k: Next, r: seq<Token>)
    requires Wf(TNullable(e)) && Follows(r, k, true) && Outer(k)
    requires !Clean(e, k, true) || !Quiet(TNullable(e), r, true)
    ensures Misread(ParseNested(Tokens([Question] + TypeTokens(e) + r, true), 0), Norm(TNullable(e)))
    decreases TNullable(e), 4, 0
  {
    var s := TypeTokens(e) + r;
    RegroupTwo([Question], TypeTokens(e), r);
    Head(Question, s, true);
    assert ([Question] + Tokens(s, true))[1..] == Tokens(s, true);
    if Clean(e, k, true) {
      ReadAtomic(e, k, r, true);
      SeparatorSeen(Norm(e), TNullable(e), r);
    } else {
      MisreadAtomic(e, k, r);
    }
  }

  // ---- unions ----

  lemma {:induction false} MisreadUnion(ms: seq<TypeExpr>, k: Next, r: seq<Token>)
    requires Wf(TUnion(ms)) && Follows(r, k, true) && Outer(k)
    requires !CleanAll(ms, PipeNext, k, true) || !Quiet(TUnion(ms), r, true)
    ensures var c := ParseNested(Tokens(AllTokens(ms, [Pipe]) + r, true), 0);
      Misread(c, Norm(TUnion(ms))) || Taken(c, Behind(r))
    decreases TUnion(ms), 4, 0
  {
    CleanTail(ms, 0, PipeNext, k);
    assert ms[0..] == ms;
    if Clean(ms[0], PipeNext, true) {
      ReadFirstMember(ms, r, true);
      NormSplit(ms, 0);
      assert NormAll(ms)[..0] == [] && [] + [Norm(ms[0])] == [Norm(ms[0])];
      MisreadMembers(ms, 1, k, r);
    } else {
      MisreadFirstMember(ms, r);
    }
  }

  lemma {:induction false} MisreadFirstMember(ms: seq<TypeExpr>, r: seq<Token>)
    requires Wf(TUnion(ms)) && !Clean(ms[0], PipeNext, true)
    ensures Misread(ParseNested(Tokens(AllTokens(ms, [Pipe]) + r, true), 0), Norm(TUnion(ms)))
    decreases TUnion(ms), 3, 0
  {
    SplitAt(ms, 0, [Pipe], r);
    assert ms[0..] == ms;
    AnyStart(TUnion(ms), r, true);
    MisreadAtomic(ms[0], PipeNext, [Pipe] + (AllTokens(ms[1..], [Pipe]) + r));
    NormKeepsOneNull(ms);
    FirstMemberMissed(NormAll(ms), Tokens(AllTokens(ms, [Pipe]) + r, true));
  }

  lemma FirstMemberMissed(ms: seq<TypeExpr>, s: seq<Token>)
    requires |ms| >= 2 && !ms[0].TVoid? && Atomic(ms[0]) && !At(s, Question)
      && Missed(ParseAtomic(s, 0), ms[0], PipeNext)
    ensures Misread(ParseNested(s, 0), NormalizeUnion(ms))
  {
    var v := ParseAtomic(s, 0);
    UnionIsComposite(ms);
    if v.Done? && Misread(v, ms[0]) {
      if At(v.rest, Amp) && TypeStarts(v.rest[1..]) {
        IntersectionGrows([v.value], v.rest, v.pending);
      } else {
        assert ms[..0] + [v.value] == [v.value];
        MemberMisread(ms, 0, v.value, v.rest, v.pending);
      }
    } else if v.Done? && At(v.rest, Amp) && TypeStarts(v.rest[1..]) {
      IntersectionGrows([v.value], v.rest, v.pending);
    }
  }

  /** The members of a union from the i-th on, as the parser meets them. */
  function MembersFrom(ms: seq<TypeExpr>, i: nat, r: seq<Token>): Parsed<TypeExpr>
    requires 1 <= i < |ms|
  {
    ParseUnion(NormAll(ms)[..i], [Pipe] + Tokens(AllTokens(ms[i..], [Pipe]) + r, true), 0)
  }

  /** Clean members are passed one by one. */
  lemma {:induction false} PassMembers(ms: seq<TypeExpr>, i: nat, j: nat, r: seq<Token>)
    requires Wf(TUnion(ms)) && 1 <= i <= j < |ms| && forall m | i <= m < j :: Clean(ms[m], PipeNext, true)
    ensures MembersFrom(ms, i, r) == MembersFrom(ms, j, r)
    decreases j - i
  {
    if i < j {
      ReadMember(ms, i, r);
      PassMembers(ms, i + 1, j, r);
    }
  }

  /** The first member from the i-th on that is unclean, or the last one. */
  lemma {:induction false} FirstUnclean(ms: seq<TypeExpr>, i: nat, k: Next) returns (j: nat)
    requires i < |ms|
    ensures i <= j < |ms| && forall m | i <= m < j :: Clean(ms[m], PipeNext, true)
    ensures j < |ms| - 1 ==> !Clean(ms[j], PipeNext, true)
    ensures j == |ms| - 1 ==> (CleanAll(ms[i..], PipeNext, k, true) <==> Clean(ms[j], k, true))
    decreases |ms| - i
  {
    CleanTail(ms, i, PipeNext, k);
    if i == |ms| - 1 || !Clean(ms[i], PipeNext, true) {
      j := i;
    } else {
      j := FirstUnclean(ms, i + 1, k);
    }
  }

  lemma {:induction false} MisreadMembers(ms: seq<TypeExpr>, i: nat, k: Next, r: seq<Token>)
    requires Wf(TUnion(ms)) && 1 <= i < |ms| && Follows(r, k, true) && Outer(k)
    requires !CleanAll(ms[i..], PipeNext, k, true) || !Quiet(TUnion(ms), r, true)
    ensures var c := MembersFrom(ms, i, r); Misread(c, Norm(TUnion(ms))) || Taken(c, Behind(r))
    decreases TUnion(ms), 2, 0
  {
    var j := FirstUnclean(ms, i, k);
    PassMembers(ms, i, j, r);
    MisreadFrom(ms, j, k, r);
  }

  lemma {:induction false} MisreadFrom(ms: seq<TypeExpr>, j: nat, k: Next, r: seq<Token>)
    requires Wf(TUnion(ms)) && 1 <= j < |ms| && Follows(r, k, true) && Outer(k)
    requires if j < |ms| - 1 then !Clean(ms[j], PipeNext, true)
      else !Clean(ms[j], k, true) || !Quiet(TUnion(ms), r, true)
    ensures var c := MembersFrom(ms, j, r); Misread(c, Norm(TUnion(ms))) || Taken(c, Behind(r))
    decreases TUnion(ms), 1, 1
  {
    if j == |ms| - 1 {
      MisreadLastMember(ms, k, r);
    } else {
      MisreadMember(ms, j, r);
    }
  }

  /** One clean member before another. */
  lemma ReadMember(ms: seq<TypeExpr>, i: nat, r: seq<Token>)
    requires Wf(TUnion(ms)) && 1 <= i < |ms| - 1 && Clean(ms[i], PipeNext, true)
    ensures MembersFrom(ms, i, r) == MembersFrom(ms, i + 1, r)
  {
    var s := AllTokens(ms[i + 1..], [Pipe]) + r;
    WfAt(ms, i);
    SplitAt(ms, i, [Pipe], r);
    Head(Pipe, s, true);
    ReadAtomic(ms[i], PipeNext, [Pipe] + s, true);
    NextMember(NormAll(ms)[..i], Tokens(TypeTokens(ms[i]) + ([Pipe] + s), true), Norm(ms[i]), [Pipe] + Tokens(s, true),
      0);
    NormSplit(ms, i);
  }

  /** One unclean member before another: it is no `null`. */
  lemma {:induction false} MisreadMember(ms: seq<TypeExpr>, i: nat, r: seq<Token>)
    requires Wf(TUnion(ms)) && 1 <= i < |ms| - 1 && !Clean(ms[i], PipeNext, true)
    ensures Misread(MembersFrom(ms, i, r), Norm(TUnion(ms)))
    decreases TUnion(ms), 1, 0
  {
    var s := AllTokens(ms[i + 1..], [Pipe]) + r;
    WfAt(ms, i);
    SplitAt(ms, i, [Pipe], r);
    MisreadAtomic(ms[i], PipeNext, [Pipe] + s);
    NormKeepsOneNull(ms);
    MemberMissed(NormAll(ms), i, Tokens(TypeTokens(ms[i]) + ([Pipe] + s), true));
  }

  lemma MemberMissed(ms: seq<TypeExpr>, i: nat, s: seq<Token>)
    requires 1 <= i < |ms| - 1 && !ms[i].TVoid? && OneNull(ms) && Atomic(ms[0])
      && Missed(ParseAtomic(s, 0), ms[i], PipeNext)
    ensures Misread(ParseUnion(ms[..i], [Pipe] + s, 0), NormalizeUnion(ms))
  {
    var c := ParseAtomic(s, 0);
    if MisreadTyped(c, ms[i]) {
      MemberIsMisread(ms, i, s);
    } else {
      NextMember(ms[..i], s, c.value, c.rest, c.pending);
      NextPrefix(ms, i);
      NormalizeShrinks(ms, i);
    }
  }

  lemma {:induction false} MisreadLastMember(ms: seq<TypeExpr>, k: Next, r: seq<Token>)
    requires Wf(TUnion(ms)) && Follows(r, k, true) && Outer(k)
    requires !Clean(ms[|ms| - 1], k, true) || !Quiet(TUnion(ms), r, true)
    ensures var c := MembersFrom(ms, |ms| - 1, r); Misread(c, Norm(TUnion(ms))) || Taken(c, Behind(r))
    decreases TUnion(ms), 1, 0
  {
    var i := |ms| - 1;
    var e := ms[i];
    var s := Tokens(TypeTokens(e) + r, true);
    WfAt(ms, i);
    SplitAt(ms, i, [Pipe], r);
    NormKeepsOneNull(ms);
    if Clean(e, k, true) {
      ReadAtomic(e, k, r, true);
      SeparatorSeen(Norm(e), TUnion(ms), r);
      LastMemberJoined(ms, s, Read(Norm(e), Trail(e), r, true).rest, 1);
    } else {
      MisreadAtomic(e, k, r);
      MemberIsMisread(NormAll(ms), i, s);
    }
  }

  lemma LastMemberJoined(ms: seq<TypeExpr>, s: seq<Token>, rest: seq<Token>, p: nat)
    requires |ms| >= 2 && !Norm(ms[|ms| - 1]).TVoid? && ParseAtomic(s, 0) == Done(Norm(ms[|ms| - 1]), rest, p)
    ensures var c := ParseUnion(NormAll(ms)[..|ms| - 1], [Pipe] + s, 0);
      Misread(c, NormalizeUnion(NormAll(ms))) || (c.Done? && c.pending == p && !At(c.rest, Pipe))
  {
    var i := |ms| - 1;
    NextMember(NormAll(ms)[..i], s, Norm(ms[i]), rest, p);
    NormSplit(ms, i);
    NonNullAt(NormAll(ms), i);
    MemberTooMany(NormAll(ms), rest, p);
  }

  lemma MemberIsMisread(ms: seq<TypeExpr>, i: nat, s: seq<Token>)
    requires 1 <= i < |ms| && !ms[i].TVoid? && MisreadTyped(ParseAtomic(s, 0), ms[i])
    ensures Misread(ParseUnion(ms[..i], [Pipe] + s, 0), NormalizeUnion(ms))
  {
    var c := ParseAtomic(s, 0);
    if c.Done? {
      NextMember(ms[..i], s, c.value, c.rest, c.pending);
      MemberMisread(ms, i, c.value, c.rest, c.pending);
    } else {
      NoMember(ms[..i], s);
    }
  }

  lemma NoMember(before: seq<TypeExpr>, s: seq<Token>)
    requires before != [] && ParseAtomic(s, 0).Fail?
    ensures ParseUnion(before, [Pipe] + s, 0).Fail?
  {
    assert ([Pipe] + s)[1..] == s;
  }

  // ---- intersections ----

  lemma NoOperand(before: seq<TypeExpr>, s: seq<Token>)
    requires TypeStarts(s) && ParseAtomic(s, 0).Fail?
    ensures ParseIntersection(before, [Amp] + s, 0).Fail?
  {
    assert ([Amp] + s)[1..] == s;
  }

  lemma {:induction false} MisreadIntersection(ms: seq<TypeExpr>, k: Next, r: seq<Token>)
    requires Wf(TIntersection(ms)) && Follows(r, k, true) && Outer(k)
    requires !CleanAll(ms, AmpNext, k, true) || !Quiet(TIntersection(ms), r, true)
    ensures Misread(ParseNested(Tokens(AllTokens(ms, [Amp]) + r, true), 0), Norm(TIntersection(ms)))
    decreases TIntersection(ms), 4, 0
  {
    assert ms[0..] == ms;
    CleanTail(ms, 0, AmpNext, k);
    if Clean(ms[0], AmpNext, true) {
      ReadFirstOperand(ms, r, true);
      MisreadOperands(ms, 1, k, r);
    } else {
      MisreadFirstOperand(ms, r);
    }
  }

  lemma {:induction false} MisreadFirstOperand(ms: seq<TypeExpr>, r: seq<Token>)
    requires Wf(TIntersection(ms)) && !Clean(ms[0], AmpNext, true)
    ensures Misread(ParseNested(Tokens(AllTokens(ms, [Amp]) + r, true), 0), Norm(TIntersection(ms)))
    decreases TIntersection(ms), 3, 0
  {
    assert ms[0..] == ms;
    SplitAt(ms, 0, [Amp], r);
    OperandFollows(ms, 0, r, true);
    MisreadAtomic(ms[0], AmpNext, [Amp] + (AllTokens(ms[1..], [Amp]) + r));
    AnyStart(TIntersection(ms), r, true);
    FirstOperandMisread(NormAll(ms), Tokens(AllTokens(ms, [Amp]) + r, true));
  }

  lemma FirstOperandMisread(ms: seq<TypeExpr>, s: seq<Token>)
    requires |ms| >= 2 && !At(s, Question) && MisreadTyped(ParseAtomic(s, 0), ms[0])
    ensures Misread(ParseNested(s, 0), TIntersection(ms))
  {
    var v := ParseAtomic(s, 0);
    if v.Done? {
      if At(v.rest, Amp) && TypeStarts(v.rest[1..]) {
        assert ms[..0] + [v.value] == [v.value];
        OperandMisread(ms, 0, v.value, v.rest, v.pending);
      } else {
        UnionIsNoIntersection(v.value, v.rest, v.pending);
      }
    }
  }

  lemma UnionIsNoIntersection(v: TypeExpr, rest: seq<Token>, p: nat)
    requires Atomic(v)
    ensures var c := ParseUnion([v], rest, p); c.Done? ==> !c.value.TIntersection?
  {
    UnionGrows([v], rest, p);
    var more :| Grown([v], p, ParseUnion([v], rest, p), more);
    if more == [] {
      assert [v] + more == [v];
    } else {
      UnionIsComposite([v] + more);
    }
  }

  lemma {:induction false} MisreadOperands(ms: seq<TypeExpr>, i: nat, k: Next, r: seq<Token>)
    requires Wf(TIntersection(ms)) && 1 <= i < |ms| && Follows(r, k, true) && Outer(k)
    requires !CleanAll(ms[i..], AmpNext, k, true) || !Quiet(TIntersection(ms), r, true)
    ensures Misread(OperandsFrom(ms, i, r, true), Norm(TIntersection(ms)))
    decreases TIntersection(ms), 2, |ms| - i
  {
    CleanTail(ms, i, AmpNext, k);
    if i < |ms| - 1 && Clean(ms[i], AmpNext, true) {
      PassOperand(ms, i, r, true);
      MisreadOperands(ms, i + 1, k, r);
    } else {
      MisreadOperandsFrom(ms, i, k, r);
    }
  }

  lemma {:induction false} MisreadOperandsFrom(ms: seq<TypeExpr>, j: nat, k: Next, r: seq<Token>)
    requires Wf(TIntersection(ms)) && 1 <= j < |ms| && Follows(r, k, true) && Outer(k)
    requires if j < |ms| - 1 then !Clean(ms[j], AmpNext, true)
      else !Clean(ms[j], k, true) || !Quiet(TIntersection(ms), r, true)
    ensures Misread(OperandsFrom(ms, j, r, true), Norm(TIntersection(ms)))
    decreases TIntersection(ms), 1, 1
  {
    if j == |ms| - 1 {
      MisreadLastOperand(ms, k, r);
    } else {
      MisreadOperand(ms, j, r);
    }
  }

  lemma {:induction false} MisreadOperand(ms: seq<TypeExpr>, i: nat, r: seq<Token>)
    requires Wf(TIntersection(ms)) && 1 <= i < |ms| - 1 && !Clean(ms[i], AmpNext, true)
    ensures Misread(OperandsFrom(ms, i, r, true), Norm(TIntersection(ms)))
    decreases TIntersection(ms), 1, 0
  {
    WfAt(ms, i);
    OperandStarts(ms, i, r, true);
    SplitAt(ms, i, [Amp], r);
    OperandFollows(ms, i, r, true);
    MisreadAtomic(ms[i], AmpNext, [Amp] + (AllTokens(ms[i + 1..], [Amp]) + r));
    OperandIsMisread(NormAll(ms), i, Tokens(AllTokens(ms[i..], [Amp]) + r, true));
  }

  lemma {:induction false} MisreadLastOperand(ms: seq<TypeExpr>, k: Next, r: seq<Token>)
    requires Wf(TIntersection(ms)) && Follows(r, k, true) && Outer(k)
    requires !Clean(ms[|ms| - 1], k, true) || !Quiet(TIntersection(ms), r, true)
    ensures Misread(OperandsFrom(ms, |ms| - 1, r, true), Norm(TIntersection(ms)))
    decreases TIntersection(ms), 1, 0
  {
    var i := |ms| - 1;
    var e := ms[i];
    var s := Tokens(AllTokens(ms[i..], [Amp]) + r, true);
    WfAt(ms, i);
    OperandStarts(ms, i, r, true);
    SplitAt(ms, i, [Amp], r);
    if Clean(e, k, true) {
      ReadAtomic(e, k, r, true);
      var c := Read(Norm(e), Trail(e), r, true);
      NextOperand(NormAll(ms)[..i], s, Norm(e), c.rest, c.pending);
      NormSplit(ms, i);
      SeparatorSeen(Norm(e), TIntersection(ms), r);
      OperandTooMany(NormAll(ms), c.rest, c.pending);
    } else {
      MisreadAtomic(e, k, r);
      OperandIsMisread(NormAll(ms), i, s);
    }
  }

  lemma OperandIsMisread(ms: seq<TypeExpr>, i: nat, s: seq<Token>)
    requires i < |ms| && TypeStarts(s) && Misread(ParseAtomic(s, 0), ms[i])
    ensures Misread(ParseIntersection(ms[..i], [Amp] + s, 0), TIntersection(ms))
  {
    var c := ParseAtomic(s, 0);
    if c.Done? {
      NextOperand(ms[..i], s, c.value, c.rest, c.pending);
      OperandMisread(ms, i, c.value, c.rest, c.pending);
    } else {
      NoOperand(ms[..i], s);
    }
  }

  // ---- when printing and reading are inverse ----

  lemma EndOfName(lex: string -> seq<Token>, t: TypeExpr)
    requires Wf(t) && Lexes(lex)
    ensures lex(Describe(t) + ";") == TypeTokens(t) + [Semicolon]
  {
    DescribeTokens(lex, t);
    EndOfText(lex, Describe(t), TypeTokens(t));
  }

  lemma EndOfText(lex: string -> seq<Token>, text: string, tokens: seq<Token>)
    requires Lexes(lex) && lex(text) == tokens
    ensures lex(text + ";") == tokens + [Semicolon]
  {
    MarkLast(lex, text, ';');
  }

  lemma TokensOfName(t: TypeExpr)
    requires Wf(t)
    ensures Tokens(Lex(Describe(t) + ";"), true) == Tokens(TypeTokens(t) + [Semicolon], true)
  {
    LexIsALexer();
    EndOfName(Lex, t);
  }

  /** The printed name of a type is read back, in the form the parser gives unions, exactly when
      the type is clean. */
  lemma DecodeInvertsWellFormed(t: TypeExpr)
    requires Wf(t) && !t.TVoid?
    ensures Decode(Describe(t)) == Some(Norm(t)) <==> Clean(t, Ending, true)
  {
    TokensOfName(t);
    if Clean(t, Ending, true) {
      ReadType(t, Ending, [Semicolon], true);
      First([Semicolon], true);
    } else {
      MisreadType(t, Ending, [Semicolon]);
    }
  }
}
