/** Type expressions as the compiler holds them: resolved, inferred and already instantiated names
    have one canonical form, which their spelling determines and, when it is clean, reads back as. */
module TypeCanonical {
  import opened Wrappers
  import opened GenericTypes
  import opened TypeGrammar
  import opened TypeSpelling
  import opened TypeReading
  import opened TypeMisreading

  // ---- the spelling determines a well-formed type ----

  /** A copy of a type that any bracketing reads back: `null` and the words that only look like
      built-in types become classes whose names start with a letter no such word starts with. */
  function Renamed(t: TypeExpr, x: char): TypeExpr
    decreases t
  {
    match t
    case TVoid => TNamed(Bare([x]))
    case TNamed(n) => TNamed(RenamedName(n, x))
    case TPtr(Some(n)) => TPtr(Some(RenamedName(n, x)))
    case TGeneric(n, args) => TGeneric(RenamedName(n, x), RenamedAll(args, x))
    case TArray(e) => TArray(Renamed(e, x))
    case TAssoc(k, v) => TAssoc(Renamed(k, x), Renamed(v, x))
    case TBuffer(e) => TBuffer(Renamed(e, x))
    case TCallable(params, ret) => TCallable(RenamedAll(params, x), Renamed(ret, x))
    case TNullable(e) => TNullable(Renamed(e, x))
    case TUnion(ms) => TUnion(RenamedAll(ms, x))
    case TIntersection(ms) => TIntersection(RenamedAll(ms, x))
    case _ => t
  }

  function RenamedAll(ts: seq<TypeExpr>, x: char): (r: seq<TypeExpr>)
    ensures |r| == |ts| && forall i | 0 <= i < |ts| :: r[i] == Renamed(ts[i], x)
    decreases ts
  {
    if ts == [] then [] else [Renamed(ts[0], x)] + RenamedAll(ts[1..], x)
  }

  /** A type word the printer never writes for a built-in type. */
  predicate Alias(w: string) {
    IsTypeWord(w) && !Printed(w)
  }

  function RenamedWord(w: string, x: char): string {
    if Alias(w) then [x] + w else w
  }

  function RenamedName(n: Name, x: char): Name {
    Name(n.kind, seq(|n.parts|, i requires 0 <= i < |n.parts| => RenamedWord(n.parts[i], x)))
  }

  /** Letters that start no word of the language. */
  predicate FreshLetter(x: char) {
    x == 'q' || x == 'z'
  }

  lemma FreshIsPlain(w: string)
    requires IsIdentText(w) && FreshLetter(w[0])
    ensures PlainWord(w) && !IsTypeWord(w) && !Printed(w) && LowerAll(w) != "void" && LowerAll(w) != "namespace"
  {
    assert LowerAll(w)[0] == w[0];
    FreshIsNoKeyword(LowerAll(w));
    FreshIsNoConstant(w);
    FreshIsNoOtherWord(LowerAll(w));
    FreshIsNoTypeWord(LowerAll(w));
    FreshIsNoTypeWord(w);
    WordIsPlain(w);
  }

  lemma WordIsPlain(w: string)
    requires IsIdentText(w) && !IsKeyword(LowerAll(w)) && !IsConstant(w) && !IsOtherWord(LowerAll(w))
    ensures PlainWord(w)
  {
  }

  /** The remaining words with a token of their own. */
  predicate IsOtherWord(lower: string) {
    || lower == "enum" || lower == "null" || lower == "false" || lower == "true"
    || lower == "self" || lower == "static" || lower == "parent"
  }

  lemma FreshIsNoOtherWord(lower: string)
    requires lower != "" && FreshLetter(lower[0])
    ensures !IsOtherWord(lower) && lower != "namespace"
  {
  }

  lemma FreshIsNoTypeWord(w: string)
    requires w != "" && FreshLetter(w[0])
    ensures !IsBuiltIn(w) && !Printed(w) && w != "pointer" && w != "void"
  {
  }

  lemma FreshIsNoKeyword(lower: string)
    requires lower != "" && FreshLetter(lower[0])
    ensures !IsKeyword(lower)
  {
  }

  lemma FreshIsNoConstant(w: string)
    requires w != "" && FreshLetter(w[0])
    ensures !IsConstant(w)
  {
  }

  lemma AliasIsLong(w: string)
    requires Alias(w)
    ensures w != ""
  {
  }

  lemma RenamedWordFacts(w: string, x: char)
    requires FreshLetter(x) && IsIdentText(w)
    ensures IsIdentText(RenamedWord(w, x))
    ensures Alias(w) ==>
      PlainWord(RenamedWord(w, x)) && LowerAll(RenamedWord(w, x)) != "void"
      && LowerAll(RenamedWord(w, x)) != "namespace"
    ensures IsTypeWord(RenamedWord(w, x)) ==> Printed(w) && RenamedWord(w, x) == w
    ensures Printed(RenamedWord(w, x)) ==> RenamedWord(w, x) == w
  {
    if Alias(w) {
      assert IsIdentText([x] + w);
      FreshIsPlain([x] + w);
    }
  }

  lemma WidthIsNoAlias(w: string)
    requires IsCWidth(w)
    ensures !Alias(w) && '\\' !in w
  {
  }

  lemma {:induction false} JoinedHasSeparator(parts: seq<string>)
    requires |parts| >= 2
    ensures '\\' in Join(parts, "\\")
  {
    var s := Join(parts, "\\");
    assert s[|parts[0]|] == '\\';
  }

  lemma RenamedRoot(n: Name, x: char)
    requires WfNamed(n) || WfTarget(n)
    ensures Rooted(RenamedName(n, x)) == Rooted(n)
  {
    if |n.parts| >= 2 {
      JoinedIsNoWidth(n.parts);
      JoinedIsNoWidth(RenamedName(n, x).parts);
    } else if IsCWidth(n.parts[0]) {
      WidthIsNoAlias(n.parts[0]);
      assert RenamedName(n, x).parts == n.parts;
    }
  }

  lemma JoinedIsNoWidth(parts: seq<string>)
    requires |parts| >= 2
    ensures !IsCWidth(Join(parts, "\\"))
  {
    JoinedHasSeparator(parts);
    if IsCWidth(Join(parts, "\\")) {
      WidthIsNoAlias(Join(parts, "\\"));
    }
  }

  lemma RenamedPartsFacts(n: Name, x: char)
    requires FreshLetter(x) && WfName(n)
    ensures WfParts(RenamedName(n, x).parts)
  {
    var m := RenamedName(n, x);
    forall i | 0 <= i < |n.parts|
      ensures m.parts[i] == RenamedWord(n.parts[i], x) && IsIdentText(m.parts[i])
    {
      RenamedWordFacts(n.parts[i], x);
    }
    RenamedWordFacts(n.parts[0], x);
  }

  lemma RenamedNameIsWf(n: Name, x: char)
    requires FreshLetter(x) && WfName(n)
    ensures WfName(RenamedName(n, x)) && (WfClass(n) ==> WfClass(RenamedName(n, x)) && !Shadowed(RenamedName(n, x)))
  {
    RenamedPartsFacts(n, x);
    RenamedRoot(n, x);
    RenamedWordFacts(n.parts[0], x);
  }

  lemma WordsAreNoAlias()
    ensures !Alias("callable") && !Alias("array")
  {
  }

  lemma FixedName(n: Name, x: char)
    requires |n.parts| == 1 && !Alias(n.parts[0])
    ensures RenamedName(n, x) == n
  {
    assert RenamedName(n, x).parts == n.parts;
  }

  lemma WidthIsRooted(n: Name)
    requires WfWidth(n)
    ensures Rooted(n)
  {
    assert Text(n) == n.parts[0];
  }

  lemma FixedWidth(n: Name, x: char)
    requires WfWidth(n)
    ensures RenamedName(n, x) == n && !Shadowed(n)
  {
    WidthIsRooted(n);
    WidthIsNoAlias(n.parts[0]);
    FixedName(n, x);
  }

  lemma FixedWord(n: Name, x: char)
    requires n == Bare("callable") || n == Bare("array")
    ensures RenamedName(n, x) == n
  {
    WordsAreNoAlias();
    FixedName(n, x);
  }

  lemma RenamedNamedIsWf(n: Name, x: char)
    requires FreshLetter(x) && WfNamed(n)
    ensures var m := RenamedName(n, x); WfNamed(m) && (!Shadowed(m) || WordName(m))
  {
    if WfClass(n) {
      RenamedNameIsWf(n, x);
    } else if WfWidth(n) {
      FixedWidth(n, x);
    } else {
      FixedWord(n, x);
    }
  }

  lemma RenamedTargetIsWf(n: Name, x: char)
    requires FreshLetter(x) && WfTarget(n)
    ensures WfTarget(RenamedName(n, x))
  {
    if WfWidth(n) {
      FixedWidth(n, x);
    } else {
      RenamedNameIsWf(n, x);
    }
  }

  lemma NullClass(x: char)
    requires FreshLetter(x)
    ensures WfClass(Bare([x])) && !Shadowed(Bare([x]))
  {
    FreshIsPlain([x]);
  }

  /** The copy is well-formed, holds no `null`, and reads back whatever the bracketing. */
  lemma {:induction false} RenamedIsWf(t: TypeExpr, x: char, k: Next)
    requires FreshLetter(x) && Wf(t)
    ensures Wf(Renamed(t, x)) && Clean(Renamed(t, x), k, false)
    ensures !Renamed(t, x).TVoid? && (Renamed(t, x).TFalse? <==> t.TFalse?)
    decreases t, 1
  {
    CopyKeepsShape(t, x);
    match t
    case TVoid => NullClass(x);
    case TNamed(n) => RenamedNamedIsWf(n, x);
    case TPtr(Some(n)) => RenamedTargetIsWf(n, x);
    case TArray(e) => RenamedIsWf(e, x, Closing);
    case TAssoc(key, v) => RenamedIsWf(key, x, CommaNext); RenamedIsWf(v, x, Closing);
    case TBuffer(e) => RenamedIsWf(e, x, Closing);
    case TNullable(e) => RenamedIsWf(e, x, k);
    case TGeneric(_, _) => RenamedListIsWf(t, x, k);
    case TCallable(_, _) => RenamedListIsWf(t, x, k);
    case TUnion(_) => RenamedListIsWf(t, x, k);
    case TIntersection(_) => RenamedListIsWf(t, x, k);
    case _ =>
  }

  lemma {:induction false} RenamedListIsWf(t: TypeExpr, x: char, k: Next)
    requires FreshLetter(x) && Wf(t) && (t.TGeneric? || t.TCallable? || t.TUnion? || t.TIntersection?)
    ensures Wf(Renamed(t, x)) && Clean(Renamed(t, x), k, false)
    decreases t, 0
  {
    match t
    case TGeneric(n, args) => RenamedNameIsWf(n, x); RenamedAreWf(args, x, CommaNext, Closing);
    case TCallable(params, ret) => RenamedAreWf(params, x, CommaNext, Ending); RenamedIsWf(ret, x, k);
    case TUnion(ms) => RenamedAreWf(ms, x, PipeNext, k); UnionCopy(ms, x);
    case TIntersection(ms) => RenamedAreWf(ms, x, AmpNext, k); IntersectionCopy(ms, x);
  }

  lemma CopyKeepsShape(t: TypeExpr, x: char)
    ensures (Atomic(Renamed(t, x)) <==> Atomic(t)) && (Renamed(t, x).TCallable? <==> t.TCallable?)
    ensures !Renamed(t, x).TVoid? && (Renamed(t, x).TFalse? <==> t.TFalse?)
  {
  }

  lemma MembersCopy(ms: seq<TypeExpr>, x: char)
    requires WfMembers(ms)
    ensures WfMembers(RenamedAll(ms, x)) && NoNull(RenamedAll(ms, x))
    ensures forall i | 0 <= i < |ms| :: RenamedAll(ms, x)[i].TFalse? <==> ms[i].TFalse?
  {
    forall i | 0 <= i < |ms|
      ensures RenamedAll(ms, x)[i] == Renamed(ms[i], x)
    {
      CopyKeepsShape(ms[i], x);
    }
    forall t
      ensures (Atomic(Renamed(t, x)) <==> Atomic(t)) && (Renamed(t, x).TCallable? <==> t.TCallable?)
    {
      CopyKeepsShape(t, x);
    }
  }

  lemma UnionCopy(ms: seq<TypeExpr>, x: char)
    requires WfMembers(ms) && WfAll(RenamedAll(ms, x))
    ensures Wf(TUnion(RenamedAll(ms, x)))
  {
    MembersCopy(ms, x);
  }

  lemma IntersectionCopy(ms: seq<TypeExpr>, x: char)
    requires WfMembers(ms) && WfAll(RenamedAll(ms, x)) && forall i | 1 <= i < |ms| :: !ms[i].TFalse?
    ensures Wf(TIntersection(RenamedAll(ms, x)))
  {
    MembersCopy(ms, x);
  }

  lemma {:induction false} RenamedAreWf(ts: seq<TypeExpr>, x: char, between: Next, last: Next)
    requires FreshLetter(x) && WfAll(ts)
    ensures WfAll(RenamedAll(ts, x)) && CleanAll(RenamedAll(ts, x), between, last, false) && NoNull(RenamedAll(ts, x))
    ensures forall i | 0 <= i < |ts| :: RenamedAll(ts, x)[i].TFalse? <==> ts[i].TFalse?
    decreases ts
  {
    if ts != [] {
      RenamedIsWf(ts[0], x, if |ts| == 1 then last else between);
      RenamedAreWf(ts[1..], x, between, last);
      assert RenamedAll(ts, x)[1..] == RenamedAll(ts[1..], x);
    }
  }

  lemma {:induction false} NoNullIsKept(ms: seq<TypeExpr>)
    requires NoNull(ms)
    ensures NonNull(ms) == ms
  {
    if ms != [] {
      NoNullIsKept(ms[1..]);
      assert ms == [ms[0]] + ms[1..];
    }
  }

  /** Nothing in the copy is there for the parser to normalise. */
  lemma {:induction false} RenamedIsNormal(t: TypeExpr, x: char)
    requires FreshLetter(x) && Wf(t)
    ensures Norm(Renamed(t, x)) == Renamed(t, x)
    decreases t
  {
    match t
    case TGeneric(n, args) => RenamedAreNormal(args, x);
    case TArray(e) => RenamedIsNormal(e, x);
    case TAssoc(key, v) => RenamedIsNormal(key, x); RenamedIsNormal(v, x);
    case TBuffer(e) => RenamedIsNormal(e, x);
    case TCallable(params, ret) => RenamedAreNormal(params, x); RenamedIsNormal(ret, x);
    case TNullable(e) => RenamedIsNormal(e, x);
    case TUnion(ms) =>
      RenamedAreNormal(ms, x);
      RenamedAreWf(ms, x, PipeNext, Ending);
      NoNullIsKept(RenamedAll(ms, x));
    case TIntersection(ms) => RenamedAreNormal(ms, x);
    case _ =>
  }

  lemma {:induction false} RenamedAreNormal(ts: seq<TypeExpr>, x: char)
    requires FreshLetter(x) && WfAll(ts)
    ensures NormAll(RenamedAll(ts, x)) == RenamedAll(ts, x)
    decreases ts
  {
    if ts != [] {
      RenamedIsNormal(ts[0], x);
      RenamedAreNormal(ts[1..], x);
      assert RenamedAll(ts, x)[1..] == RenamedAll(ts[1..], x);
    }
  }

  // ---- renaming, token by token ----

  function RenamedToken(c: Token, x: char): Token {
    match c
    case NullWord => Ident([x])
    case Ident(w) => Ident(RenamedWord(w, x))
    case _ => c
  }

  function RenamedTokens(s: seq<Token>, x: char): (r: seq<Token>)
    ensures |r| == |s|
  {
    seq(|s|, i requires 0 <= i < |s| => RenamedToken(s[i], x))
  }

  lemma TokensConcat(a: seq<Token>, b: seq<Token>, x: char)
    ensures RenamedTokens(a + b, x) == RenamedTokens(a, x) + RenamedTokens(b, x)
  {
  }

  /** A mark or a built-in word stays what it is. */
  predicate Fixed(c: Token) {
    match c
    case NullWord => false
    case Ident(w) => Printed(w)
    case _ => true
  }

  lemma FixedToken(c: Token, x: char)
    requires Fixed(c)
    ensures RenamedTokens([c], x) == [c]
  {
  }

  lemma FixedPair(c: Token, d: Token, x: char)
    requires Fixed(c) && Fixed(d)
    ensures RenamedTokens([c, d], x) == [c, d]
  {
  }

  lemma {:induction false} RenamedParts(parts: seq<string>, renamed: seq<string>, x: char)
    requires |parts| == |renamed| && forall i | 0 <= i < |parts| :: renamed[i] == RenamedWord(parts[i], x)
    ensures RenamedTokens(PartsTokens(parts), x) == PartsTokens(renamed)
  {
    if |parts| >= 2 {
      RenamedParts(parts[1..], renamed[1..], x);
      TokensConcat([Ident(parts[0]), Backslash], PartsTokens(parts[1..]), x);
      assert RenamedTokens([Ident(parts[0]), Backslash], x) == [Ident(renamed[0]), Backslash];
    }
  }

  lemma RenamedNameTokens(n: Name, x: char)
    requires WfNamed(n) || WfTarget(n)
    ensures RenamedTokens(NameTokens(n), x) == NameTokens(RenamedName(n, x))
  {
    RenamedRoot(n, x);
    RenamedParts(n.parts, RenamedName(n, x).parts, x);
    TokensConcat([Backslash], PartsTokens(n.parts), x);
    FixedToken(Backslash, x);
  }

  /** `head<body>` */
  lemma RenamedBracket(head: seq<Token>, body: seq<Token>, newHead: seq<Token>, newBody: seq<Token>, x: char)
    requires RenamedTokens(head, x) == newHead && RenamedTokens(body, x) == newBody
    ensures RenamedTokens(head + [Less] + body + [Greater], x) == newHead + [Less] + newBody + [Greater]
  {
    TokensConcat(head + [Less] + body, [Greater], x);
    TokensConcat(head + [Less], body, x);
    TokensConcat(head, [Less], x);
    FixedToken(Less, x);
    FixedToken(Greater, x);
  }

  lemma RenamedSignature(params: seq<Token>, ret: seq<Token>, newParams: seq<Token>, newRet: seq<Token>, x: char)
    requires RenamedTokens(params, x) == newParams && RenamedTokens(ret, x) == newRet
    ensures RenamedTokens([Ident("callable")] + [LParen] + params + [RParen] + [Colon, Blank] + ret, x)
         == [Ident("callable")] + [LParen] + newParams + [RParen] + [Colon, Blank] + newRet
  {
    var head := [Ident("callable")] + [LParen];
    TokensConcat(head + params + [RParen] + [Colon, Blank], ret, x);
    TokensConcat(head + params + [RParen], [Colon, Blank], x);
    TokensConcat(head + params, [RParen], x);
    TokensConcat(head, params, x);
    TokensConcat([Ident("callable")], [LParen], x);
    FixedToken(Ident("callable"), x);
    FixedToken(LParen, x);
    FixedToken(RParen, x);
    FixedPair(Colon, Blank, x);
  }

  lemma RenamedJoin(a: seq<Token>, separator: seq<Token>, b: seq<Token>, newA: seq<Token>, newB: seq<Token>, x: char)
    requires RenamedTokens(a, x) == newA && RenamedTokens(b, x) == newB && RenamedTokens(separator, x) == separator
    ensures RenamedTokens(a + separator + b, x) == newA + separator + newB
  {
    TokensConcat(a + separator, b, x);
    TokensConcat(a, separator, x);
  }

  lemma {:induction false} RenamedTypeTokens(t: TypeExpr, x: char)
    requires Wf(t)
    ensures RenamedTokens(TypeTokens(t), x) == TypeTokens(Renamed(t, x))
    decreases t
  {
    match t
    case TVoid =>
    case TNamed(n) => RenamedNameTokens(n, x);
    case TPtr(Some(n)) =>
      RenamedNameTokens(n, x);
      FixedToken(Ident("ptr"), x);
      RenamedBracket([Ident("ptr")], NameTokens(n), [Ident("ptr")], NameTokens(RenamedName(n, x)), x);
    case TGeneric(n, args) =>
      assert WfNamed(n);
      RenamedNameTokens(n, x);
      FixedPair(Comma, Blank, x);
      RenamedAllTokens(args, SEPARATOR, x);
      RenamedBracket(NameTokens(n), AllTokens(args, SEPARATOR), NameTokens(RenamedName(n, x)),
        AllTokens(RenamedAll(args, x), SEPARATOR), x);
    case TArray(e) =>
      RenamedTypeTokens(e, x);
      FixedToken(Ident("array"), x);
      RenamedBracket([Ident("array")], TypeTokens(e), [Ident("array")], TypeTokens(Renamed(e, x)), x);
    case TAssoc(k, v) =>
      RenamedTypeTokens(k, x);
      RenamedTypeTokens(v, x);
      FixedToken(Ident("array"), x);
      FixedPair(Comma, Blank, x);
      RenamedJoin(TypeTokens(k), SEPARATOR, TypeTokens(v), TypeTokens(Renamed(k, x)), TypeTokens(Renamed(v, x)), x);
      RenamedBracket([Ident("array")], TypeTokens(k) + SEPARATOR + TypeTokens(v), [Ident("array")],
        TypeTokens(Renamed(k, x)) + SEPARATOR + TypeTokens(Renamed(v, x)), x);
    case TBuffer(e) =>
      RenamedTypeTokens(e, x);
      FixedToken(Ident("buffer"), x);
      RenamedBracket([Ident("buffer")], TypeTokens(e), [Ident("buffer")], TypeTokens(Renamed(e, x)), x);
    case TCallable(params, ret) =>
      FixedPair(Comma, Blank, x);
      RenamedAllTokens(params, SEPARATOR, x);
      RenamedTypeTokens(ret, x);
      RenamedSignature(AllTokens(params, SEPARATOR), TypeTokens(ret), AllTokens(RenamedAll(params, x), SEPARATOR),
        TypeTokens(Renamed(ret, x)), x);
    case TNullable(e) => RenamedTypeTokens(e, x); FixedToken(Question, x); TokensConcat([Question], TypeTokens(e), x);
    case TUnion(ms) => FixedToken(Pipe, x); RenamedAllTokens(ms, [Pipe], x);
    case TIntersection(ms) => FixedToken(Amp, x); RenamedAllTokens(ms, [Amp], x);
    case _ => FixedToken(TypeTokens(t)[0], x);
  }

  lemma {:induction false} RenamedAllTokens(ts: seq<TypeExpr>, separator: seq<Token>, x: char)
    requires WfAll(ts) && RenamedTokens(separator, x) == separator
    ensures RenamedTokens(AllTokens(ts, separator), x) == AllTokens(RenamedAll(ts, x), separator)
    decreases ts
  {
    if ts != [] {
      RenamedTypeTokens(ts[0], x);
      if |ts| > 1 {
        RenamedAllTokens(ts[1..], separator, x);
        assert RenamedAll(ts, x)[1..] == RenamedAll(ts[1..], x);
        RenamedJoin(TypeTokens(ts[0]), separator, AllTokens(ts[1..], separator), TypeTokens(Renamed(ts[0], x)),
          AllTokens(RenamedAll(ts[1..], x), separator), x);
      }
    }
  }

  // ---- two copies tell types apart ----

  lemma TwoLetters(v: string, w: string)
    ensures ['q'] + v != w || ['z'] + v != w
  {
    assert (['q'] + v)[0] != (['z'] + v)[0];
  }

  lemma RenamedWordsApart(v: string, w: string)
    requires RenamedWord(v, 'q') == RenamedWord(w, 'q') && RenamedWord(v, 'z') == RenamedWord(w, 'z')
    ensures v == w
  {
    TwoLetters(v, w);
    TwoLetters(w, v);
    assert (['q'] + v)[1..] == v && (['q'] + w)[1..] == w;
  }

  lemma RenamedNamesApart(m: Name, n: Name)
    requires RenamedName(m, 'q') == RenamedName(n, 'q') && RenamedName(m, 'z') == RenamedName(n, 'z')
    ensures m == n
  {
    assert |m.parts| == |RenamedName(m, 'q').parts| == |n.parts|;
    forall i | 0 <= i < |m.parts|
      ensures m.parts[i] == n.parts[i]
    {
      assert RenamedName(m, 'q').parts[i] == RenamedWord(m.parts[i], 'q')
        && RenamedName(n, 'q').parts[i] == RenamedWord(n.parts[i], 'q');
      assert RenamedName(m, 'z').parts[i] == RenamedWord(m.parts[i], 'z')
        && RenamedName(n, 'z').parts[i] == RenamedWord(n.parts[i], 'z');
      RenamedWordsApart(m.parts[i], n.parts[i]);
    }
  }

  lemma NullIsNoName(n: Name)
    ensures RenamedName(n, 'q') != Bare(['q']) || RenamedName(n, 'z') != Bare(['z'])
  {
    if |n.parts| == 1 {
      var w := n.parts[0];
      assert RenamedName(n, 'q').parts[0] == RenamedWord(w, 'q') && RenamedName(n, 'z').parts[0] == RenamedWord(w, 'z');
      if Alias(w) {
        AliasIsLong(w);
        assert |RenamedWord(w, 'q')| == 1 + |w|;
      }
    }
  }

  lemma {:induction false} RenamedApart(a: TypeExpr, b: TypeExpr)
    requires Renamed(a, 'q') == Renamed(b, 'q') && Renamed(a, 'z') == Renamed(b, 'z')
    ensures a == b
    decreases a
  {
    match a
    case TVoid => if b.TNamed? { NullIsNoName(b.name); }
    case TNamed(n) => if b.TVoid? { NullIsNoName(n); } else { RenamedNamesApart(n, b.name); }
    case TPtr(Some(n)) => RenamedNamesApart(n, b.target.value);
    case TGeneric(n, args) => RenamedNamesApart(n, b.name); RenamedAllApart(args, b.args);
    case TArray(e) => RenamedApart(e, b.elem);
    case TAssoc(k, v) => RenamedApart(k, b.key); RenamedApart(v, b.value);
    case TBuffer(e) => RenamedApart(e, b.elem);
    case TCallable(params, ret) => RenamedAllApart(params, b.params); RenamedApart(ret, b.ret);
    case TNullable(e) => RenamedApart(e, b.inner);
    case TUnion(ms) => RenamedAllApart(ms, b.members);
    case TIntersection(ms) => RenamedAllApart(ms, b.members);
    case _ =>
  }

  lemma {:induction false} RenamedAllApart(a: seq<TypeExpr>, b: seq<TypeExpr>)
    requires RenamedAll(a, 'q') == RenamedAll(b, 'q') && RenamedAll(a, 'z') == RenamedAll(b, 'z')
    ensures a == b
    decreases a
  {
    assert |a| == |RenamedAll(a, 'q')| == |b|;
    if a != [] {
      assert RenamedAll(a, 'q')[0] == Renamed(a[0], 'q') && RenamedAll(a, 'z')[0] == Renamed(a[0], 'z');
      assert RenamedAll(a, 'q')[1..] == RenamedAll(a[1..], 'q') && RenamedAll(b, 'q')[1..] == RenamedAll(b[1..], 'q');
      assert RenamedAll(a, 'z')[1..] == RenamedAll(a[1..], 'z') && RenamedAll(b, 'z')[1..] == RenamedAll(b[1..], 'z');
      RenamedApart(a[0], b[0]);
      RenamedAllApart(a[1..], b[1..]);
      assert a == [a[0]] + a[1..] && b == [b[0]] + b[1..];
    }
  }

  /** One copy of each reads back, so equal tokens give equal copies. */
  lemma CopiesAgree(a: TypeExpr, b: TypeExpr, x: char)
    requires FreshLetter(x) && Wf(a) && Wf(b) && TypeTokens(a) == TypeTokens(b)
    ensures Renamed(a, x) == Renamed(b, x)
  {
    RenamedTypeTokens(a, x);
    RenamedTypeTokens(b, x);
    RenamedIsWf(a, x, Ending);
    RenamedIsWf(b, x, Ending);
    ReadNested(Renamed(a, x), Ending, [Semicolon], false);
    ReadNested(Renamed(b, x), Ending, [Semicolon], false);
    RenamedIsNormal(a, x);
    RenamedIsNormal(b, x);
  }

  lemma TokensOfSpelling(a: TypeExpr, b: TypeExpr)
    requires Wf(a) && Wf(b) && Describe(a) == Describe(b)
    ensures TypeTokens(a) == TypeTokens(b)
  {
    LexDescribe(a);
    LexDescribe(b);
  }

  /** The spelling determines a well-formed type, whatever the parser makes of it. */
  lemma DescribeIsInjective(a: TypeExpr, b: TypeExpr)
    requires Wf(a) && Wf(b) && Describe(a) == Describe(b)
    ensures a == b
  {
    TokensOfSpelling(a, b);
    CopiesAgree(a, b, 'q');
    CopiesAgree(a, b, 'z');
    RenamedApart(a, b);
  }

  // ---- the canonical form of a resolved type ----

  lemma {:induction false} JoinSplit(s: string)
    ensures Join(Split(s), "\\") == s
  {
    if s != "" {
      JoinSplit(s[1..]);
      var more := Split(s[1..]);
      if s[0] == '\\' {
        assert Split(s)[1..] == more;
      } else if |more| > 1 {
        assert Split(s)[1..] == more[1..];
      }
      assert s == [s[0]] + s[1..];
    }
  }

  /** A name as its spelling shows it, whatever kind and segments it is held with. */
  function CanonicalName(n: Name): Name {
    var parts := Split(Text(n));
    Name(if Rooted(n) then FullyQualified else if |parts| > 1 then Qualified else Unqualified, parts)
  }

  lemma CanonicalSpelling(n: Name)
    ensures Text(CanonicalName(n)) == Text(n) && Spelling(CanonicalName(n)) == Spelling(n)
  {
    JoinSplit(Text(n));
    if |CanonicalName(n).parts| > 1 {
      JoinedIsNoWidth(CanonicalName(n).parts);
    }
  }

  /** The class a bracketed name is the name of. */
  ghost predicate NamesClass(text: string, g: TypeExpr) {
    g.TGeneric? && Wf(g) && Describe(g) == text
  }

  ghost predicate IsInstance(text: string) {
    exists g :: NamesClass(text, g)
  }

  /** The instantiated class, opened into its template and arguments. */
  ghost function Opened(text: string): (g: TypeExpr)
    requires IsInstance(text)
    ensures NamesClass(text, g)
  {
    var g :| NamesClass(text, g);
    g
  }

  lemma OpenedIs(text: string, g: TypeExpr)
    requires NamesClass(text, g)
    ensures IsInstance(text) && Opened(text) == g
  {
    DescribeIsInjective(Opened(text), g);
  }

  /** A type the compiler may print: names are resolved, inferred or already instantiated; what is
      left out are nestings no spelling shows, such as a nullable type inside a union. */
  ghost predicate Resolved(t: TypeExpr)
    decreases t
  {
    match t
    case TArray(e) => Resolved(e)
    case TAssoc(k, v) => Resolved(k) && Resolved(v)
    case TBuffer(e) => Resolved(e)
    case TPtr(Some(n)) => WfTarget(CanonicalName(n))
    case TNamed(n) => IsInstance(Text(n)) || WfNamed(CanonicalName(n))
    case TGeneric(n, args) => WfClass(CanonicalName(n)) && args != [] && ResolvedAll(args)
    case TCallable(params, ret) => ResolvedAll(params) && Resolved(ret)
    case TNullable(e) => Atomic(e) && Resolved(e)
    case TUnion(ms) => WfMembers(ms) && ResolvedAll(ms) && OneNull(ms)
    case TIntersection(ms) =>
      WfMembers(ms) && ResolvedAll(ms) && forall i | 1 <= i < |ms| :: !ms[i].TVoid? && !ms[i].TFalse?
    case _ => true
  }

  ghost predicate ResolvedAll(ts: seq<TypeExpr>)
    decreases ts
  {
    ts == [] || (Resolved(ts[0]) && ResolvedAll(ts[1..]))
  }

  ghost function CanonicalClass(n: Name): TypeExpr {
    if IsInstance(Text(n)) then Opened(Text(n)) else TNamed(CanonicalName(n))
  }

  /** The same type with every name as its spelling shows it and every instantiated class opened. */
  ghost function Canonical(t: TypeExpr): (c: TypeExpr)
    ensures (Atomic(c) <==> Atomic(t)) && (c.TVoid? <==> t.TVoid?) && (c.TFalse? <==> t.TFalse?)
      && (c.TCallable? <==> t.TCallable?)
    decreases t
  {
    match t
    case TArray(e) => TArray(Canonical(e))
    case TAssoc(k, v) => TAssoc(Canonical(k), Canonical(v))
    case TBuffer(e) => TBuffer(Canonical(e))
    case TPtr(Some(n)) => TPtr(Some(CanonicalName(n)))
    case TNamed(n) => CanonicalClass(n)
    case TGeneric(n, args) => TGeneric(CanonicalName(n), CanonicalAll(args))
    case TCallable(params, ret) => TCallable(CanonicalAll(params), Canonical(ret))
    case TNullable(e) => TNullable(Canonical(e))
    case TUnion(ms) => TUnion(CanonicalAll(ms))
    case TIntersection(ms) => TIntersection(CanonicalAll(ms))
    case _ => t
  }

  ghost function CanonicalAll(ts: seq<TypeExpr>): (r: seq<TypeExpr>)
    ensures |r| == |ts| && forall i | 0 <= i < |ts| :: r[i] == Canonical(ts[i])
    decreases ts
  {
    if ts == [] then [] else [Canonical(ts[0])] + CanonicalAll(ts[1..])
  }

  lemma CanonicalMembers(ms: seq<TypeExpr>)
    requires WfMembers(ms)
    ensures WfMembers(CanonicalAll(ms)) && (OneNull(ms) ==> OneNull(CanonicalAll(ms)))
    ensures forall i | 0 <= i < |ms| ::
      (CanonicalAll(ms)[i].TVoid? <==> ms[i].TVoid?) && (CanonicalAll(ms)[i].TFalse? <==> ms[i].TFalse?)
  {
    var cs := CanonicalAll(ms);
    forall i | 0 <= i < |ms|
      ensures (Atomic(cs[i]) <==> Atomic(ms[i])) && (cs[i].TVoid? <==> ms[i].TVoid?)
        && (cs[i].TFalse? <==> ms[i].TFalse?) && (cs[i].TCallable? <==> ms[i].TCallable?)
    {
      CanonicalKeepsShape(ms[i], cs[i]);
    }
  }

  lemma CanonicalKeepsShape(t: TypeExpr, c: TypeExpr)
    requires c == Canonical(t)
    ensures (Atomic(c) <==> Atomic(t)) && (c.TVoid? <==> t.TVoid?) && (c.TFalse? <==> t.TFalse?)
      && (c.TCallable? <==> t.TCallable?)
  {
  }

  /** The canonical form is well-formed and has the type's own spelling. */
  lemma {:induction false} CanonicalIsWf(t: TypeExpr)
    requires Resolved(t)
    ensures Wf(Canonical(t)) && Describe(Canonical(t)) == Describe(t)
    decreases t
  {
    match t
    case TArray(e) => CanonicalIsWf(e);
    case TAssoc(k, v) => CanonicalIsWf(k); CanonicalIsWf(v);
    case TBuffer(e) => CanonicalIsWf(e);
    case TPtr(Some(n)) => CanonicalSpelling(n);
    case TNamed(n) => CanonicalClassIsWf(n);
    case TGeneric(n, args) => CanonicalSpelling(n); CanonicalAreWf(args, ", ");
    case TCallable(params, ret) => CanonicalAreWf(params, ", "); CanonicalIsWf(ret);
    case TNullable(e) => CanonicalIsWf(e);
    case TUnion(ms) => CanonicalAreWf(ms, "|"); CanonicalMembers(ms);
    case TIntersection(ms) => CanonicalAreWf(ms, "&"); CanonicalMembers(ms);
    case _ =>
  }

  lemma BracketIsNoWidth(n: Name, g: TypeExpr)
    requires NamesClass(Text(n), g)
    ensures Spelling(n) == Text(n)
  {
    assert Describe(g)[|Text(g.name)|] == '<';
    if IsCWidth(Text(n)) {
      assert '<' in Text(n);
      WidthIsNoBracket(Text(n));
    }
  }

  lemma WidthIsNoBracket(w: string)
    ensures '<' in w ==> !IsCWidth(w)
  {
  }

  lemma CanonicalClassIsWf(n: Name)
    requires Resolved(TNamed(n))
    ensures Wf(CanonicalClass(n)) && Describe(CanonicalClass(n)) == Spelling(n)
  {
    CanonicalSpelling(n);
    if IsInstance(Text(n)) {
      BracketIsNoWidth(n, Opened(Text(n)));
    }
  }

  lemma {:induction false} CanonicalAreWf(ts: seq<TypeExpr>, separator: string)
    requires ResolvedAll(ts)
    ensures WfAll(CanonicalAll(ts)) && DescribeAll(CanonicalAll(ts), separator) == DescribeAll(ts, separator)
    decreases ts
  {
    if ts != [] {
      CanonicalIsWf(ts[0]);
      CanonicalAreWf(ts[1..], separator);
      assert CanonicalAll(ts)[1..] == CanonicalAll(ts[1..]);
    }
  }

  // ---- when printing and reading are inverse ----

  /** Decoding the printed name of a resolved type gives its canonical form back, with unions in
      the parser's form, exactly when that form is clean. */
  lemma DecodeInvertsExactly(t: TypeExpr)
    requires Resolved(t) && !t.TVoid?
    ensures Decode(Describe(t)) == Some(Norm(Canonical(t))) <==> Clean(Canonical(t), Ending, true)
  {
    CanonicalIsWf(t);
    DecodeInvertsWellFormed(Canonical(t));
  }

  ghost predicate ReadsBack(n: Name, args: seq<TypeExpr>) {
    InstantiatedType(InstantiatedName(Text(n), args)) == Some(TGeneric(CanonicalName(n), NormAll(CanonicalAll(args))))
  }

  /** An instantiated class name denotes its own arguments, under the same condition. */
  lemma InstantiatedTypeInvertsExactly(n: Name, args: seq<TypeExpr>)
    requires Resolved(TGeneric(n, args))
    ensures ReadsBack(n, args) <==> Clean(Canonical(TGeneric(n, args)), Ending, true)
  {
    DecodeInvertsExactly(TGeneric(n, args));
    var name := InstantiatedName(Text(n), args);
    assert name[|Text(n)|] == '<';
  }

  /** Instantiating a class inside a type turns the mention into its name and leaves the canonical
      form as it was. */
  lemma InstantiationIsCanonical(n: Name, args: seq<TypeExpr>)
    requires Resolved(TGeneric(n, args))
    ensures var mention := TNamed(Bare(InstantiatedName(Text(n), args)));
      Resolved(mention) && Canonical(mention) == Canonical(TGeneric(n, args))
  {
    var g := Canonical(TGeneric(n, args));
    CanonicalIsWf(TGeneric(n, args));
    assert Describe(g) == InstantiatedName(Text(n), args);
    OpenedIs(InstantiatedName(Text(n), args), g);
  }

  /** How a class name was resolved does not show: every kind has one canonical form. */
  lemma ResolutionIsCanonical(kind: NameKind, parts: seq<string>)
    requires !IsCWidth(Join(parts, "\\"))
    ensures CanonicalName(Name(kind, parts)) == CanonicalName(Bare(Join(parts, "\\")))
  {
  }

  // ---- printed names tell argument lists apart ----

  /** A class no template of the program can be: a carrier for a list of arguments. */
  function Carrier(args: seq<TypeExpr>): TypeExpr {
    TGeneric(Bare(['q']), args)
  }

  lemma SpellingIsNotEmpty(t: TypeExpr)
    requires Wf(t)
    ensures Describe(t) != ""
  {
    assert Lex("") == [];
    OpenOf(t);
    LexDescribe(t);
  }

  lemma {:induction false} ListsApart(a: seq<TypeExpr>, b: seq<TypeExpr>)
    requires WfAll(a) && WfAll(b) && DescribeAll(a, ", ") == DescribeAll(b, ", ")
    ensures a == b
  {
    if a == [] && b != [] {
      SpellingIsNotEmpty(b[0]);
    } else if b == [] && a != [] {
      SpellingIsNotEmpty(a[0]);
    } else if a != [] {
      NullClass('q');
      DescribeIsInjective(Carrier(a), Carrier(b));
    }
  }

  /** One template's instantiations are named alike exactly when their arguments have one
      canonical form. */
  lemma NamesAgreeExactly(base: string, a: seq<TypeExpr>, b: seq<TypeExpr>)
    requires ResolvedAll(a) && ResolvedAll(b)
    ensures InstantiatedName(base, a) == InstantiatedName(base, b) <==> CanonicalAll(a) == CanonicalAll(b)
  {
    CanonicalAreWf(a, ", ");
    CanonicalAreWf(b, ", ");
    var x, y := DescribeAll(a, ", "), DescribeAll(b, ", ");
    if InstantiatedName(base, a) == InstantiatedName(base, b) {
      assert x == (base + "<" + x + ">")[|base| + 1..|base| + 1 + |x|];
      assert y == (base + "<" + y + ">")[|base| + 1..|base| + 1 + |y|];
      ListsApart(CanonicalAll(a), CanonicalAll(b));
    }
  }

  // ---- types that are not read back ----

  lemma UncleanArgument(n: Name, args: seq<TypeExpr>, i: nat)
    requires i < |args| && !Clean(Canonical(args[i]), NextOf(args, i, CommaNext, Closing), true)
    ensures !Clean(Canonical(TGeneric(n, args)), Ending, true)
  {
    if CleanAll(CanonicalAll(args), CommaNext, Closing, true) {
      CleanAt(CanonicalAll(args), i, CommaNext, Closing, true);
    }
  }

  lemma UncleanIsMisread(n: Name, args: seq<TypeExpr>, i: nat)
    requires WfClass(CanonicalName(n)) && ResolvedAll(args) && i < |args|
    requires !Clean(Canonical(args[i]), NextOf(args, i, CommaNext, Closing), true)
    ensures !ReadsBack(n, args)
  {
    UncleanArgument(n, args, i);
    InstantiatedTypeInvertsExactly(n, args);
  }

  lemma OneResolved(t: TypeExpr)
    requires Resolved(t)
    ensures ResolvedAll([t])
  {
    assert [t][1..] == [];
  }

  /** In `Foo<array<array<int>>, string>` the bracket of the inner array is half of a `>>` that is
      already read when the comma is seen. */
  lemma NestedArrayBeforeCommaIsMisread(n: Name)
    requires WfClass(CanonicalName(n))
    ensures !ReadsBack(n, [TArray(TArray(TInt)), TStr])
  {
    assert Trail(TInt) == 0 && Trail(TArray(TArray(TInt))) == 2;
    UncleanIsMisread(n, [TArray(TArray(TInt)), TStr], 0);
  }

  /** In `Foo<callable(): array<int>>` the return type's bracket takes the one around it along. */
  lemma ReturnedArrayIsMisread(n: Name)
    requires WfClass(CanonicalName(n))
    ensures !ReadsBack(n, [TCallable([], TArray(TInt))])
  {
    assert Trail(TArray(TInt)) == 1;
    UncleanIsMisread(n, [TCallable([], TArray(TInt))], 0);
  }

  /** A callable that returns nothing is printed with `null`, which alone is read as a class. */
  lemma VoidCallableIsMisread(n: Name, params: seq<TypeExpr>)
    requires WfClass(CanonicalName(n)) && ResolvedAll(params)
    ensures !ReadsBack(n, [TCallable(params, TVoid)])
  {
    var nothing := TCallable(params, TVoid);
    assert Canonical(nothing) == TCallable(CanonicalAll(params), TVoid);
    OneResolved(nothing);
    UncleanIsMisread(n, [nothing], 0);
  }

  lemma ShadowedIsUnclean(c: Name, k: Next)
    requires !IsInstance(Text(c)) && Shadowed(CanonicalName(c)) && !WordName(CanonicalName(c))
    ensures !Clean(Canonical(TNamed(c)), k, true)
  {
    assert Canonical(TNamed(c)) == TNamed(CanonicalName(c));
  }

  /** A global class may be named like a type word in another spelling, such as `\Integer`. */
  lemma ClassNamedLikeATypeIsMisread(n: Name, c: Name)
    requires WfClass(CanonicalName(n)) && Resolved(TNamed(c)) && !IsInstance(Text(c))
    requires Shadowed(CanonicalName(c)) && !WordName(CanonicalName(c))
    ensures !ReadsBack(n, [TNamed(c)])
  {
    ShadowedIsUnclean(c, Closing);
    OneResolved(TNamed(c));
    UncleanIsMisread(n, [TNamed(c)], 0);
  }

  lemma NullableUnionIsResolved(t: TypeExpr)
    requires Resolved(t) && Atomic(t) && !t.TCallable? && !t.TVoid?
    ensures Resolved(TUnion([t, TVoid]))
  {
    OneResolved(TVoid);
    assert [t, TVoid][1..] == [TVoid];
  }

  lemma NullableUnion(ms: seq<TypeExpr>)
    requires |ms| == 2 && Atomic(ms[0]) && !ms[0].TVoid? && ms[1].TVoid?
    ensures Norm(Canonical(TUnion(ms))) == TNullable(Norm(Canonical(ms[0])))
  {
    var cs := CanonicalAll(ms);
    assert cs[0] == Canonical(ms[0]) && cs[1] == Canonical(ms[1]);
    UnionOfPair(cs, Canonical(ms[0]));
  }

  lemma UnionOfPair(cs: seq<TypeExpr>, c: TypeExpr)
    requires |cs| == 2 && cs[0] == c && cs[1].TVoid? && Atomic(c) && !c.TVoid?
    ensures Norm(TUnion(cs)) == TNullable(Norm(c))
  {
    var ns := NormAll(cs);
    assert ns[0] == Norm(cs[0]) && ns[1] == Norm(cs[1]);
    NormalizedPair(ns);
  }

  lemma NormalizedPair(ms: seq<TypeExpr>)
    requires |ms| == 2 && !ms[0].TVoid? && ms[1].TVoid?
    ensures NormalizeUnion(ms) == TNullable(ms[0])
  {
    assert NonNull(ms[1..]) == [] && NonNull(ms) == [ms[0]];
  }

  /** One type, two names: the nullable shorthand and the union it stands for read alike. */
  lemma NullableHasTwoNames(n: Name, t: TypeExpr)
    requires Resolved(t) && Atomic(t) && !t.TCallable? && !t.TVoid?
    ensures var short, long := TNullable(t), TUnion([t, TVoid]);
      && Resolved(short) && Resolved(long) && Norm(Canonical(short)) == Norm(Canonical(long))
      && InstantiatedName(Text(n), [short]) != InstantiatedName(Text(n), [long])
  {
    var short, long := TNullable(t), TUnion([t, TVoid]);
    NullableUnionIsResolved(t);
    NullableUnion([t, TVoid]);
    OneResolved(short);
    OneResolved(long);
    NamesAgreeExactly(Text(n), [short], [long]);
    assert CanonicalAll([short])[0] != CanonicalAll([long])[0];
  }
}
