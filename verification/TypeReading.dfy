/** Reading a printed type back: the parser recovers every type whose spelling does not lend a
    credited `>` to a separator that follows it. */
module TypeReading {
  import opened Wrappers
  import opened GenericTypes
  import opened TypeGrammar
  import opened TypeSpelling

  // ---- where a type stands ----

  /** What follows a type: the bracket closing its list, a separator, or the end. */
  datatype Next = Closing | CommaNext | PipeNext | AmpNext | Ending

  predicate Follows(r: seq<Token>, k: Next, glued: bool) {
    && r != []
    && match k
       case Closing => r[0].Greater? && (|r| > 1 ==> !r[1].Blank?)
       case CommaNext => r[0].Comma?
       case PipeNext => r[0].Pipe?
       case AmpNext => r[0].Amp? && TypeStarts(Tokens(r[1..], glued))
       case Ending => r[0].Semicolon? || r[0].RParen?
  }

  predicate Outer(k: Next) {
    k.Closing? || k.CommaNext? || k.Ending?
  }

  predicate IsList(t: TypeExpr) {
    t.TArray? || t.TAssoc? || t.TBuffer? || (t.TGeneric? && t.args != [])
  }

  function LastChild(t: TypeExpr): (e: TypeExpr)
    requires IsList(t)
    ensures e < t
  {
    match t
    case TArray(e) => e
    case TAssoc(_, v) => v
    case TBuffer(e) => e
    case TGeneric(_, args) => args[|args| - 1]
  }

  /** How many closing brackets, all drawing on one credit, the type's spelling ends with. */
  function Trail(t: TypeExpr): nat
    decreases t
  {
    if IsList(t) then 1 + Trail(LastChild(t))
    else
      match t
      case TPtr(Some(_)) => 1
      case TNullable(e) => Trail(e)
      case TUnion(ms) => if ms == [] then 0 else Trail(ms[|ms| - 1])
      case TIntersection(ms) => if ms == [] then 0 else Trail(ms[|ms| - 1])
      case _ => 0
  }

  /** When brackets are glued, the list's last one is half of a `>>` that is already read when the
      separator is seen, so the separator is taken as the last child's or the list's own. */
  predicate Swallows(t: TypeExpr, k: Next, glued: bool) {
    && glued && IsList(t) && Trail(t) % 2 == 0
    && match k
       case CommaNext => t.TArray? || t.TGeneric?
       case PipeNext => !LastChild(t).TIntersection?
       case AmpNext => !LastChild(t).TUnion?
       case _ => false
  }

  /** A type on its own that leaves half a `>>` to the list around it. */
  predicate Unbalanced(t: TypeExpr, k: Next, glued: bool) {
    glued && k.Closing? && Trail(t) % 2 == 1
  }

  /** A name of its own that the parser takes for a built-in type. */
  predicate Shadowed(n: Name) {
    !Rooted(n) && |n.parts| == 1 && IsTypeWord(n.parts[0])
  }

  /** The built-in words that are read as names. */
  predicate WordName(n: Name) {
    n == Bare("mixed") || n == Bare("callable") || n == Bare("array") || n == Bare("object")
  }

  predicate NoNull(ts: seq<TypeExpr>) {
    forall i | 0 <= i < |ts| :: !ts[i].TVoid?
  }

  /** No list inside the type, nor the type itself before `k`, swallows a separator; no callable
      takes or returns `null`, and none returns half a `>>` to the list around it; and no class is
      named like a built-in type. */
  predicate Clean(t: TypeExpr, k: Next, glued: bool)
    decreases t
  {
    match t
    case TNamed(n) => !Shadowed(n) || WordName(n)
    case TArray(e) => Clean(e, Closing, glued) && !Swallows(t, k, glued)
    case TAssoc(key, v) => Clean(key, CommaNext, glued) && Clean(v, Closing, glued) && !Swallows(t, k, glued)
    case TBuffer(e) => Clean(e, Closing, glued) && !Swallows(t, k, glued)
    case TGeneric(n, args) => !Shadowed(n) && CleanAll(args, CommaNext, Closing, glued) && !Swallows(t, k, glued)
    case TCallable(params, ret) =>
      NoNull(params) && CleanAll(params, CommaNext, Ending, glued) && !ret.TVoid? && Clean(ret, k, glued)
        && !Unbalanced(ret, k, glued)
    case TNullable(e) => Clean(e, k, glued)
    case TUnion(ms) => CleanAll(ms, PipeNext, k, glued)
    case TIntersection(ms) => CleanAll(ms, AmpNext, k, glued)
    case _ => true
  }

  predicate CleanAll(ts: seq<TypeExpr>, between: Next, last: Next, glued: bool)
    decreases ts
  {
    ts == [] || (Clean(ts[0], if |ts| == 1 then last else between, glued) && CleanAll(ts[1..], between, last, glued))
  }

  function NextOf(ts: seq<TypeExpr>, i: nat, between: Next, last: Next): Next {
    if i == |ts| - 1 then last else between
  }

  lemma {:induction false} CleanAt(ts: seq<TypeExpr>, i: nat, between: Next, last: Next, glued: bool)
    requires CleanAll(ts, between, last, glued) && i < |ts|
    ensures Clean(ts[i], NextOf(ts, i, between, last), glued)
  {
    if i > 0 {
      CleanAt(ts[1..], i - 1, between, last, glued);
    }
  }

  lemma {:induction false} WfAt(ts: seq<TypeExpr>, i: nat)
    requires WfAll(ts) && i < |ts|
    ensures Wf(ts[i])
  {
    if i > 0 {
      WfAt(ts[1..], i - 1);
    }
  }

  // ---- what a union is read back as ----

  /** The form the parser gives a type: a union with one `null` is the nullable shorthand, and in a
      wider one `null` comes last. */
  function Norm(t: TypeExpr): (r: TypeExpr)
    ensures Atomic(t) ==> Atomic(r) && (r.TVoid? <==> t.TVoid?)
    decreases t
  {
    match t
    case TArray(e) => TArray(Norm(e))
    case TAssoc(k, v) => TAssoc(Norm(k), Norm(v))
    case TBuffer(e) => TBuffer(Norm(e))
    case TGeneric(n, args) => TGeneric(n, NormAll(args))
    case TCallable(params, ret) => TCallable(NormAll(params), Norm(ret))
    case TNullable(e) => TNullable(Norm(e))
    case TUnion(ms) => if ms == [] then t else NormalizeUnion(NormAll(ms))
    case TIntersection(ms) => TIntersection(NormAll(ms))
    case _ => t
  }

  function NormAll(ts: seq<TypeExpr>): (r: seq<TypeExpr>)
    ensures |r| == |ts| && forall i | 0 <= i < |ts| :: r[i] == Norm(ts[i])
    decreases ts
  {
    if ts == [] then [] else [Norm(ts[0])] + NormAll(ts[1..])
  }

  lemma NextPrefix<T>(s: seq<T>, i: nat)
    requires i < |s|
    ensures s[..i] + [s[i]] == s[..i + 1]
    ensures i == |s| - 1 ==> s[..i] + [s[i]] == s
  {
  }

  lemma NormSplit(ts: seq<TypeExpr>, i: nat)
    requires i < |ts|
    ensures NormAll(ts)[..i] + [Norm(ts[i])] == NormAll(ts)[..i + 1]
    ensures i == |ts| - 1 ==> NormAll(ts)[..i] + [Norm(ts[i])] == NormAll(ts)
  {
    var ns := NormAll(ts);
    assert ns[i] == Norm(ts[i]);
    NextPrefix(ns, i);
  }

  lemma UnionIsComposite(ms: seq<TypeExpr>)
    requires |ms| >= 2
    ensures !Atomic(NormalizeUnion(ms)) && !NormalizeUnion(ms).TIntersection?
  {
  }

  lemma NormIsNoNull(t: TypeExpr)
    requires Wf(t) && !t.TVoid?
    ensures !Norm(t).TVoid?
  {
    if t.TUnion? {
      UnionIsComposite(NormAll(t.members));
    }
  }

  /** A type read inside a list ends before the list's bracket, unless that bracket is already
      read and a separator stands behind it. */
  predicate Quiet(t: TypeExpr, r: seq<Token>, glued: bool) {
    glued && Trail(t) % 2 == 1 && At(r, Greater) && |r| > 1 ==>
      && (r[1].Pipe? ==> t.TIntersection?)
      && (r[1].Amp? && TypeStarts(Tokens(r[2..], glued)) ==> t.TUnion?)
  }

  // ---- the token stream ----

  /** The outcome of reading a value whose spelling ends with `trail` brackets, before `r`. */
  function Read<T>(value: T, trail: nat, r: seq<Token>, glued: bool): Parsed<T> {
    if glued && trail % 2 == 1 && At(r, Greater) then Done(value, Tokens(r[1..], glued), 1)
    else Done(value, Tokens(r, glued), 0)
  }

  lemma Head(c: Token, s: seq<Token>, glued: bool)
    requires !c.Blank? && !c.Greater?
    ensures Tokens([c] + s, glued) == [c] + Tokens(s, glued)
  {
    assert ([c] + s)[1..] == s;
  }

  lemma HeadTwo(c: Token, d: Token, s: seq<Token>, glued: bool)
    requires !c.Blank? && !c.Greater? && !d.Blank? && !d.Greater?
    ensures Tokens([c] + ([d] + s), glued) == [c] + ([d] + Tokens(s, glued))
  {
    Head(c, [d] + s, glued);
    Head(d, s, glued);
  }

  lemma Regroup<T>(a: seq<T>, b: seq<T>, c: seq<T>, d: seq<T>)
    ensures a + b + c + d == a + (b + (c + d))
  {
  }

  lemma RegroupTwo<T>(a: seq<T>, b: seq<T>, c: seq<T>)
    ensures a + b + c == a + (b + c)
  {
  }

  lemma HeadBlank(c: Token, s: seq<Token>, glued: bool)
    requires !c.Blank? && !c.Greater?
    ensures Tokens([c, Blank] + s, glued) == [c] + Tokens(s, glued)
  {
    Head(c, [Blank] + s, glued);
    assert [c, Blank] + s == [c] + ([Blank] + s) && ([Blank] + s)[1..] == s;
  }

  /** The first token is the first raw token, or a `>>` in place of a `>`. */
  lemma First(r: seq<Token>, glued: bool)
    requires r != [] && !r[0].Blank?
    ensures var ts := Tokens(r, glued);
      ts != [] && (ts[0] == r[0] || (ts[0] == GreaterGreater && r[0] == Greater))
    ensures !r[0].Greater? ==> Tokens(r, glued)[1..] == Tokens(r[1..], glued)
  {
  }

  /** A bracket of the list, alone or with the next one. */
  lemma CloseUncredited(r: seq<Token>, glued: bool)
    ensures var ts := Tokens([Greater] + r, glued);
      CloseList(ts, 0) == Read((), 1, r, glued) && !At(ts, Comma)
  {
    var s := [Greater] + r;
    assert s[1..] == r;
    if glued && At(r, Greater) {
      assert s[2..] == r[1..];
    }
  }

  /** Closing a list after its last child: one more bracket of the trail is read. */
  lemma CloseAfter<T>(value: T, d: nat, r: seq<Token>, glued: bool)
    ensures var c := Read(value, d, [Greater] + r, glued);
      && CloseList(c.rest, c.pending) == Read((), d + 1, r, glued)
      && (At(c.rest, Comma) ==> glued && d % 2 == 1 && Tokens(r, glued) == c.rest)
  {
    assert ([Greater] + r)[1..] == r;
    CloseUncredited(r, glued);
  }

  /** After an inner type in an outer position no separator is in sight. */
  lemma NoSeparator<T>(value: T, t: TypeExpr, k: Next, r: seq<Token>, glued: bool)
    requires Follows(r, k, glued) && Outer(k) && Quiet(t, r, glued)
    ensures var rest := Read(value, Trail(t), r, glued).rest;
      && (At(rest, Pipe) ==> t.TIntersection?)
      && (At(rest, Amp) && TypeStarts(rest[1..]) ==> t.TUnion?)
  {
    First(r, glued);
    if glued && Trail(t) % 2 == 1 && At(r, Greater) && |r| > 1 {
      First(r[1..], glued);
      assert r[1..][1..] == r[2..];
    }
  }

  // ---- words ----

  lemma WordStart(w: string, ts: seq<Token>, p: nat)
    requires ts != [] && ts[0] == Ident(w) && !At(ts[1..], Backslash)
    ensures ParseAtomic(ts, p) == ParseWord(w, ts, p)
  {
  }

  lemma ArrayWord(ts: seq<Token>, p: nat)
    requires ts != [] && ts[0] == Ident("array") && !At(ts[1..], Backslash)
    ensures ParseAtomic(ts, p) == ParseArray(ts[1..], p)
  {
    WordStart("array", ts, p);
    LowerOfLower("array");
    assert "array"[0] == 'a' && "array"[1] == 'r';
  }

  lemma BufferWord(ts: seq<Token>, p: nat)
    requires ts != [] && ts[0] == Ident("buffer") && !At(ts[1..], Backslash)
    ensures ParseAtomic(ts, p) == ParseBuffer(ts[1..], p)
  {
    WordStart("buffer", ts, p);
    LowerOfLower("buffer");
    assert "buffer"[0] == 'b' && "buffer"[1] == 'u';
  }

  lemma PointerWord(ts: seq<Token>, p: nat)
    requires ts != [] && ts[0] == Ident("ptr") && !At(ts[1..], Backslash)
    ensures ParseAtomic(ts, p) == ParsePtr(ts[1..], p)
  {
    WordStart("ptr", ts, p);
    LowerOfLower("ptr");
    assert "ptr"[0] == 'p';
  }

  lemma CallableWord(ts: seq<Token>, p: nat)
    requires ts != [] && ts[0] == Ident("callable") && !At(ts[1..], Backslash)
    ensures ParseAtomic(ts, p) == ParseCallable(ts[1..], p)
  {
    WordStart("callable", ts, p);
    LowerOfLower("callable");
    assert "callable"[0] == 'c';
  }

  lemma PlainBuiltIn(t: TypeExpr, ts: seq<Token>, p: nat)
    requires BuiltIn(t) && !t.TVoid? && !t.TFalse? && ts != [] && ts[0] == Ident(Describe(t)) && !At(ts[1..], Backslash)
    ensures ParseAtomic(ts, p) == Done(t, ts[1..], p)
  {
    WordStart(Describe(t), ts, p);
    LowerOfLower(Describe(t));
  }

  lemma ClassWord(text: string, ts: seq<Token>, p: nat)
    requires ts != [] && ts[0] == Ident(text) && !At(ts[1..], Backslash) && !IsTypeWord(text)
    ensures ParseAtomic(ts, p) == ParseClass(ts, p)
  {
    WordStart(text, ts, p);
  }

  lemma WordWithoutArguments(w: string, ts: seq<Token>, p: nat)
    requires w == "mixed" || w == "object" || w == "array" || w == "callable"
    requires ts != [] && ts[0] == Ident(w) && !At(ts[1..], Backslash) && !At(ts[1..], Less) && !At(ts[1..], LParen)
    ensures ParseAtomic(ts, p) == Done(TNamed(Bare(w)), ts[1..], p)
  {
    if w == "array" {
      ArrayWord(ts, p);
    } else if w == "callable" {
      CallableWord(ts, p);
    } else {
      WordStart(w, ts, p);
      LowerOfLower(w);
    }
  }

  // ---- names ----

  /** What may follow a name. */
  predicate AfterName(r: seq<Token>) {
    r != [] && (r[0].Greater? || r[0].Less? || r[0].Comma? || r[0].Pipe? || r[0].Amp? || r[0].Semicolon?
      || r[0].RParen?)
  }

  lemma PartStep(part: string, more: seq<Token>, before: seq<string>)
    ensures ParseParts([Ident(part)] + ([Backslash] + more), before) == ParseParts(more, before + [part])
  {
    var ts := [Ident(part)] + ([Backslash] + more);
    assert ts[1..] == [Backslash] + more && ts[2..] == more;
  }

  lemma PartEnd(part: string, more: seq<Token>, before: seq<string>)
    requires !At(more, Backslash)
    ensures ParseParts([Ident(part)] + more, before) == Done(before + [part], more, 0)
  {
    assert ([Ident(part)] + more)[1..] == more;
  }

  lemma ReadLastPart(before: seq<string>, part: string, r: seq<Token>, glued: bool)
    requires AfterName(r)
    ensures ParseParts(Tokens([Ident(part)] + r, glued), before) == Done(before + [part], Tokens(r, glued), 0)
  {
    First(r, glued);
    Head(Ident(part), r, glued);
    PartEnd(part, Tokens(r, glued), before);
  }

  lemma ReadFirstPart(before: seq<string>, part: string, s: seq<Token>, glued: bool)
    ensures ParseParts(Tokens([Ident(part), Backslash] + s, glued), before)
      == ParseParts(Tokens(s, glued), before + [part])
  {
    assert [Ident(part), Backslash] + s == [Ident(part)] + ([Backslash] + s);
    HeadTwo(Ident(part), Backslash, s, glued);
    PartStep(part, Tokens(s, glued), before);
  }

  lemma {:induction false} ReadParts(before: seq<string>, parts: seq<string>, r: seq<Token>, glued: bool)
    requires parts != [] && AfterName(r)
    ensures ParseParts(Tokens(PartsTokens(parts) + r, glued), before) == Done(before + parts, Tokens(r, glued), 0)
    decreases parts
  {
    if |parts| == 1 {
      ReadLastPart(before, parts[0], r, glued);
      assert parts == [parts[0]];
    } else {
      RegroupTwo([Ident(parts[0]), Backslash], PartsTokens(parts[1..]), r);
      ReadFirstPart(before, parts[0], PartsTokens(parts[1..]) + r, glued);
      ReadParts(before + [parts[0]], parts[1..], r, glued);
      assert before + [parts[0]] + parts[1..] == before + parts;
    }
  }

  predicate ReadableName(n: Name) {
    n.parts != []
      && (if Rooted(n) then n.kind.FullyQualified? else n.kind == (if |n.parts| > 1 then Qualified else Unqualified))
  }

  lemma ReadName(n: Name, r: seq<Token>, glued: bool)
    requires ReadableName(n) && AfterName(r)
    ensures ParseName(Tokens(NameTokens(n) + r, glued)) == Done(n, Tokens(r, glued), 0)
  {
    ReadParts([], n.parts, r, glued);
    var s := PartsTokens(n.parts) + r;
    assert [] + n.parts == n.parts;
    if Rooted(n) {
      assert NameTokens(n) + r == [Backslash] + s;
      Head(Backslash, s, glued);
    } else {
      assert s[0] == Ident(n.parts[0]);
      First(s, glued);
    }
  }

  lemma NamesAreReadable(n: Name)
    requires WfNamed(n) || WfTarget(n)
    ensures ReadableName(n)
  {
    if WfWidth(n) {
      assert n.parts == [n.parts[0]];
    }
  }

  /** A name the parser takes for a class: no built-in type word on its own. */
  predicate ClassShape(n: Name) {
    ReadableName(n) && !Shadowed(n)
  }

  lemma ClassesHaveShape(n: Name)
    requires (WfClass(n) || WfWidth(n)) && !Shadowed(n)
    ensures ClassShape(n)
  {
    assert WfNamed(n);
    NamesAreReadable(n);
  }

  /** A class name leads the parser to the class branch. */
  lemma ReadClassStart(n: Name, r: seq<Token>, glued: bool)
    requires ClassShape(n) && AfterName(r)
    ensures ParseAtomic(Tokens(NameTokens(n) + r, glued), 0) == ParseClass(Tokens(NameTokens(n) + r, glued), 0)
  {
    var s := PartsTokens(n.parts) + r;
    if Rooted(n) {
      assert NameTokens(n) + r == [Backslash] + s;
      Head(Backslash, s, glued);
    } else if |n.parts| == 1 {
      First(r, glued);
      Head(Ident(n.parts[0]), r, glued);
      assert s == [Ident(n.parts[0])] + r;
      ClassWord(n.parts[0], [Ident(n.parts[0])] + Tokens(r, glued), 0);
    } else {
      var more := PartsTokens(n.parts[1..]) + r;
      assert s == [Ident(n.parts[0])] + ([Backslash] + more);
      HeadTwo(Ident(n.parts[0]), Backslash, more, glued);
    }
  }

  lemma ReadWordName(n: Name, r: seq<Token>, glued: bool)
    requires WordName(n) && AfterName(r) && !r[0].Less?
    ensures ParseAtomic(Tokens(NameTokens(n) + r, glued), 0) == Done(TNamed(n), Tokens(r, glued), 0)
  {
    First(r, glued);
    assert !Rooted(n);
    Head(Ident(n.parts[0]), r, glued);
    assert NameTokens(n) + r == [Ident(n.parts[0])] + r;
    WordWithoutArguments(n.parts[0], Tokens(NameTokens(n) + r, glued), 0);
  }

  lemma ClassAlone(ts: seq<Token>, n: Name, rest: seq<Token>)
    requires ParseAtomic(ts, 0) == ParseClass(ts, 0) && ParseName(ts) == Done(n, rest, 0) && !At(rest, Less)
    ensures ParseAtomic(ts, 0) == Done(TNamed(n), rest, 0)
  {
  }

  lemma ReadNamed(n: Name, r: seq<Token>, glued: bool)
    requires WfNamed(n) && AfterName(r) && !r[0].Less? && (!Shadowed(n) || WordName(n))
    ensures ParseAtomic(Tokens(NameTokens(n) + r, glued), 0) == Done(TNamed(n), Tokens(r, glued), 0)
  {
    if WordName(n) {
      ReadWordName(n, r, glued);
    } else {
      NamesAreReadable(n);
      ReadClassStart(n, r, glued);
      ReadName(n, r, glued);
      First(r, glued);
      ClassAlone(Tokens(NameTokens(n) + r, glued), n, Tokens(r, glued));
    }
  }

  lemma TargetOfName(ts: seq<Token>, n: Name, rest: seq<Token>)
    requires ParseName(ts) == Done(n, rest, 0) && !At(rest, Less) && CloseList(rest, 0).Done?
    ensures ParseTarget(ts, 0) == Done(n, CloseList(rest, 0).rest, CloseList(rest, 0).pending)
  {
  }

  lemma ReadTarget(n: Name, r: seq<Token>, glued: bool)
    requires ReadableName(n) && r != [] && !r[0].Blank?
    ensures ParseTarget(Tokens(NameTokens(n) + ([Greater] + r), glued), 0) == Read(n, 1, r, glued)
  {
    ReadName(n, [Greater] + r, glued);
    First([Greater] + r, glued);
    CloseAfter(n, 0, r, glued);
    TargetOfName(Tokens(NameTokens(n) + ([Greater] + r), glued), n, Tokens([Greater] + r, glued));
  }

  lemma PointerOfTarget(s: seq<Token>)
    ensures ParsePtr([Less] + s, 0) == var target := ParseTarget(s, 0);
      if target.Fail? then Fail else Done(TPtr(Some(target.value)), target.rest, target.pending)
  {
    assert ([Less] + s)[1..] == s;
  }

  lemma ReadPointer(n: Name, r: seq<Token>, glued: bool)
    requires ReadableName(n) && r != [] && !r[0].Blank?
    ensures ParseAtomic(Tokens([Ident("ptr")] + [Less] + NameTokens(n) + [Greater] + r, glued), 0)
      == Read(TPtr(Some(n)), 1, r, glued)
  {
    var s := NameTokens(n) + ([Greater] + r);
    assert [Ident("ptr")] + [Less] + NameTokens(n) + [Greater] + r == [Ident("ptr")] + ([Less] + s);
    HeadTwo(Ident("ptr"), Less, s, glued);
    PointerWord([Ident("ptr")] + ([Less] + Tokens(s, glued)), 0);
    PointerOfTarget(Tokens(s, glued));
    ReadTarget(n, r, glued);
  }

  lemma ReadBarePointer(r: seq<Token>, glued: bool)
    requires AfterName(r) && !r[0].Less?
    ensures ParseAtomic(Tokens([Ident("ptr")] + r, glued), 0) == Done(TPtr(None), Tokens(r, glued), 0)
  {
    First(r, glued);
    Head(Ident("ptr"), r, glued);
    PointerWord([Ident("ptr")] + Tokens(r, glued), 0);
  }

  lemma ReadBuiltIn(t: TypeExpr, r: seq<Token>, glued: bool)
    requires BuiltIn(t) && AfterName(r)
    ensures ParseAtomic(Tokens(TypeTokens(t) + r, glued), 0) == Done(t, Tokens(r, glued), 0)
  {
    First(r, glued);
    var c := TypeTokens(t)[0];
    assert TypeTokens(t) == [c];
    Head(c, r, glued);
    if !t.TVoid? && !t.TFalse? {
      PlainBuiltIn(t, Tokens([c] + r, glued), 0);
    }
  }

  // ---- one step of each parsing function ----

  lemma ArrayOfOne(s: seq<Token>, e: TypeExpr, rest: seq<Token>, p: nat)
    requires ParseNested(s, 0) == Done(e, rest, p) && !At(rest, Comma) && CloseList(rest, p).Done?
    ensures ParseArray([Less] + s, 0) == Done(TArray(e), CloseList(rest, p).rest, CloseList(rest, p).pending)
  {
    assert ([Less] + s)[1..] == s;
  }

  lemma ArrayOfTwo(s: seq<Token>, k: TypeExpr, s2: seq<Token>, v: TypeExpr, rest: seq<Token>, p: nat)
    requires ParseNested(s, 0) == Done(k, [Comma] + s2, 0)
    requires ParseNested(s2, 0) == Done(v, rest, p) && CloseList(rest, p).Done?
    ensures ParseArray([Less] + s, 0) == Done(TAssoc(k, v), CloseList(rest, p).rest, CloseList(rest, p).pending)
  {
    assert ([Less] + s)[1..] == s && ([Comma] + s2)[1..] == s2;
  }

  lemma BufferOfOne(s: seq<Token>, e: TypeExpr, rest: seq<Token>, p: nat)
    requires ParseNested(s, 0) == Done(e, rest, p) && CloseList(rest, p).Done?
    ensures ParseBuffer([Less] + s, 0) == Done(TBuffer(e), CloseList(rest, p).rest, CloseList(rest, p).pending)
  {
    assert ([Less] + s)[1..] == s;
  }

  lemma LastArgument(before: seq<TypeExpr>, s: seq<Token>, e: TypeExpr, rest: seq<Token>, p: nat)
    requires ParseNested(s, 0) == Done(e, rest, p) && !At(rest, Comma) && CloseList(rest, p).Done?
    ensures ParseArguments(before, s, 0) == Done(before + [e], CloseList(rest, p).rest, CloseList(rest, p).pending)
  {
  }

  lemma NextArgument(before: seq<TypeExpr>, s: seq<Token>, e: TypeExpr, more: seq<Token>, p: nat)
    requires ParseNested(s, 0) == Done(e, [Comma] + more, p)
    ensures ParseArguments(before, s, 0) == ParseArguments(before + [e], more, p)
  {
    assert ([Comma] + more)[1..] == more;
  }

  lemma LastParameter(before: seq<TypeExpr>, s: seq<Token>, e: TypeExpr, rest: seq<Token>)
    requires ParseType(s) == Done(e, [RParen] + rest, 0)
    ensures ParseParameters(before, s) == Done(before + [e], rest, 0)
  {
    assert ([RParen] + rest)[1..] == rest;
  }

  lemma NextParameter(before: seq<TypeExpr>, s: seq<Token>, e: TypeExpr, more: seq<Token>)
    requires ParseType(s) == Done(e, [Comma] + more, 0)
    ensures ParseParameters(before, s) == ParseParameters(before + [e], more)
  {
    assert ([Comma] + more)[1..] == more;
  }

  lemma GenericOf(ts: seq<Token>, n: Name, s: seq<Token>)
    requires ParseName(ts) == Done(n, [Less] + s, 0)
    ensures ParseClass(ts, 0) == var args := ParseArguments([], s, 0);
      if args.Fail? then Fail else Done(TGeneric(n, args.value), args.rest, args.pending)
  {
    assert ([Less] + s)[1..] == s;
  }

  lemma NextMember(before: seq<TypeExpr>, s: seq<Token>, e: TypeExpr, rest: seq<Token>, p: nat)
    requires before != [] && ParseAtomic(s, 0) == Done(e, rest, p)
    ensures ParseUnion(before, [Pipe] + s, 0) == ParseUnion(before + [e], rest, p)
  {
    assert ([Pipe] + s)[1..] == s;
  }

  lemma NextOperand(before: seq<TypeExpr>, s: seq<Token>, e: TypeExpr, rest: seq<Token>, p: nat)
    requires TypeStarts(s) && ParseAtomic(s, 0) == Done(e, rest, p)
    ensures ParseIntersection(before, [Amp] + s, 0) == ParseIntersection(before + [e], rest, p)
  {
    assert ([Amp] + s)[1..] == s;
  }

  /** The signature after the parameters. */
  lemma SignatureOf(s: seq<Token>, params: seq<TypeExpr>, afterParams: seq<Token>, ret: seq<Token>)
    requires if At(s, RParen) then params == [] && afterParams == s[1..]
      else ParseParameters([], s) == Done(params, afterParams, 0)
    requires afterParams == [Colon] + ret
    ensures ParseCallable([LParen] + s, 0) == var r := ParseType(ret);
      if r.Fail? then Fail else Done(TCallable(params, r.value), r.rest, 0)
  {
    assert ([LParen] + s)[1..] == s && ([Colon] + ret)[1..] == ret;
    if At(s, RParen) {
      assert ([LParen] + s)[2..] == s[1..];
    }
  }

  /** The tokens from the i-th type of a list on. */
  lemma SplitAt(ts: seq<TypeExpr>, i: nat, separator: seq<Token>, r: seq<Token>)
    requires i < |ts|
    ensures ts[..i] + [ts[i]] == ts[..i + 1]
    ensures i == |ts| - 1 ==> AllTokens(ts[i..], separator) == TypeTokens(ts[i]) && ts[..i] + [ts[i]] == ts
    ensures i < |ts| - 1 ==>
      AllTokens(ts[i..], separator) + r == TypeTokens(ts[i]) + (separator + (AllTokens(ts[i + 1..], separator) + r))
  {
    assert ts[i..][1..] == ts[i + 1..];
    if i < |ts| - 1 {
      Regroup(TypeTokens(ts[i]), separator, AllTokens(ts[i + 1..], separator), r);
    }
  }

  // ---- entering a list ----

  lemma EnterWord(w: string, body: seq<Token>, r: seq<Token>, glued: bool)
    ensures Tokens([Ident(w)] + [Less] + body + [Greater] + r, glued)
      == [Ident(w)] + ([Less] + Tokens(body + ([Greater] + r), glued))
  {
    Regroup([Ident(w)] + [Less], body, [Greater], r);
    RegroupTwo([Ident(w)], [Less], body + ([Greater] + r));
    HeadTwo(Ident(w), Less, body + ([Greater] + r), glued);
  }

  lemma EnterArray(body: seq<Token>, r: seq<Token>, glued: bool)
    ensures ParseAtomic(Tokens([Ident("array")] + [Less] + body + [Greater] + r, glued), 0)
         == ParseArray([Less] + Tokens(body + ([Greater] + r), glued), 0)
  {
    EnterWord("array", body, r, glued);
    ArrayWord([Ident("array")] + ([Less] + Tokens(body + ([Greater] + r), glued)), 0);
  }

  lemma EnterBuffer(body: seq<Token>, r: seq<Token>, glued: bool)
    ensures ParseAtomic(Tokens([Ident("buffer")] + [Less] + body + [Greater] + r, glued), 0)
         == ParseBuffer([Less] + Tokens(body + ([Greater] + r), glued), 0)
  {
    EnterWord("buffer", body, r, glued);
    BufferWord([Ident("buffer")] + ([Less] + Tokens(body + ([Greater] + r), glued)), 0);
  }

  lemma EnterClass(n: Name, body: seq<Token>, r: seq<Token>, glued: bool)
    requires ClassShape(n)
    ensures ParseAtomic(Tokens(NameTokens(n) + [Less] + body + [Greater] + r, glued), 0)
      == var args := ParseArguments([], Tokens(body + ([Greater] + r), glued), 0);
         if args.Fail? then Fail else Done(TGeneric(n, args.value), args.rest, args.pending)
  {
    var s := body + ([Greater] + r);
    Regroup(NameTokens(n) + [Less], body, [Greater], r);
    RegroupTwo(NameTokens(n), [Less], s);
    ReadClassStart(n, [Less] + s, glued);
    ReadName(n, [Less] + s, glued);
    Head(Less, s, glued);
    GenericOf(Tokens(NameTokens(n) + ([Less] + s), glued), n, Tokens(s, glued));
  }

  lemma EnterCallable(params: seq<Token>, ret: seq<Token>, r: seq<Token>, glued: bool)
    ensures ParseAtomic(Tokens([Ident("callable")] + [LParen] + params + [RParen] + [Colon, Blank] + ret + r, glued), 0)
         == ParseCallable([LParen] + Tokens(params + ([RParen] + ([Colon, Blank] + (ret + r))), glued), 0)
  {
    var s := params + ([RParen] + ([Colon, Blank] + (ret + r)));
    Regroup([Ident("callable")] + [LParen] + params + [RParen], [Colon, Blank], ret, r);
    Regroup([Ident("callable")] + [LParen], params, [RParen], [Colon, Blank] + (ret + r));
    RegroupTwo([Ident("callable")], [LParen], s);
    HeadTwo(Ident("callable"), LParen, s, glued);
    CallableWord([Ident("callable")] + ([LParen] + Tokens(s, glued)), 0);
  }

  /** A separator between two types of a list. */
  lemma AtSeparator(s: seq<Token>, glued: bool)
    ensures Follows(SEPARATOR + s, CommaNext, glued)
    ensures Tokens(SEPARATOR + s, glued) == [Comma] + Tokens(s, glued)
  {
    HeadBlank(Comma, s, glued);
  }

  // ---- what a type's spelling starts with ----

  lemma {:induction false} StartOf(t: TypeExpr)
    requires Wf(t) && Atomic(t)
    ensures TypeTokens(t) != []
    ensures TypeTokens(t)[0] == NullWord <==> t.TVoid?
    ensures TypeTokens(t)[0] == FalseWord <==> t.TFalse?
    ensures t.TVoid? || t.TFalse? || TypeTokens(t)[0].Ident? || TypeTokens(t)[0].Backslash?
  {
    match t
    case TNamed(n) => NamesAreReadable(n); NameStart(n);
    case TGeneric(n, _) => assert WfNamed(n); NamesAreReadable(n); NameStart(n);
    case _ =>
  }

  lemma NameStart(n: Name)
    requires ReadableName(n)
    ensures NameTokens(n) != [] && (NameTokens(n)[0].Ident? || NameTokens(n)[0].Backslash?)
  {
  }

  lemma FirstOf(ts: seq<Token>, r: seq<Token>, glued: bool)
    requires ts != [] && !ts[0].Blank? && !ts[0].Greater?
    ensures Tokens(ts + r, glued) != [] && Tokens(ts + r, glued)[0] == ts[0]
  {
    First(ts + r, glued);
  }

  /** What the tokens of any type start with. */
  predicate Opens(t: TypeExpr, c: Token) {
    && c != RParen && !c.Blank? && !c.Greater?
    && (c == Question <==> t.TNullable?)
  }

  lemma {:induction false} OpenOf(t: TypeExpr)
    requires Wf(t)
    ensures TypeTokens(t) != [] && Opens(t, TypeTokens(t)[0])
  {
    match t
    case TNullable(_) =>
    case TUnion(ms) => StartOf(ms[0]);
    case TIntersection(ms) => StartOf(ms[0]);
    case _ => StartOf(t);
  }

  lemma {:induction false} AnyStart(t: TypeExpr, r: seq<Token>, glued: bool)
    requires Wf(t)
    ensures var ts := Tokens(TypeTokens(t) + r, glued); ts != [] && Opens(t, ts[0])
  {
    OpenOf(t);
    FirstOf(TypeTokens(t), r, glued);
  }

  // ---- reading a whole type ----

  lemma ListEnd(t: TypeExpr, k: Next, r: seq<Token>, glued: bool)
    requires IsList(t) && Follows(r, k, glued) && !Swallows(t, k, glued)
    ensures Follows([Greater] + r, Closing, glued) && Quiet(LastChild(t), [Greater] + r, glued)
    ensures glued && Trail(LastChild(t)) % 2 == 1 && (t.TArray? || t.TGeneric?) ==> !At(Tokens(r, glued), Comma)
  {
    First(r, glued);
    assert ([Greater] + r)[2..] == r[1..];
  }

  lemma CloseAfterLast(t: TypeExpr, r: seq<Token>, glued: bool)
    requires IsList(t)
    requires glued && Trail(LastChild(t)) % 2 == 1 && (t.TArray? || t.TGeneric?) ==> !At(Tokens(r, glued), Comma)
    ensures var c := Read(LastChild(t), Trail(LastChild(t)), [Greater] + r, glued);
      && CloseList(c.rest, c.pending) == Read((), Trail(t), r, glued)
      && (t.TArray? || t.TGeneric? ==> !At(c.rest, Comma))
  {
    CloseAfter(LastChild(t), Trail(LastChild(t)), r, glued);
  }

  lemma {:induction false} ReadAtomic(t: TypeExpr, k: Next, r: seq<Token>, glued: bool)
    requires Wf(t) && Atomic(t) && Follows(r, k, glued) && Clean(t, k, glued)
    requires t.TCallable? ==> Outer(k)
    ensures ParseAtomic(Tokens(TypeTokens(t) + r, glued), 0) == Read(Norm(t), Trail(t), r, glued)
    decreases t, 5, 0
  {
    if IsList(t) {
      ReadList(t, k, r, glued);
    } else if t.TCallable? {
      ReadCallable(t.params, t.ret, k, r, glued);
    } else {
      ReadLeaf(t, r, glued);
    }
  }

  lemma {:induction false} ReadList(t: TypeExpr, k: Next, r: seq<Token>, glued: bool)
    requires Wf(t) && IsList(t) && Follows(r, k, glued) && Clean(t, k, glued)
    ensures ParseAtomic(Tokens(TypeTokens(t) + r, glued), 0) == Read(Norm(t), Trail(t), r, glued)
    decreases t, 4, 0
  {
    match t
    case TArray(e) => ReadArray(e, k, r, glued);
    case TAssoc(key, v) => ReadAssoc(key, v, k, r, glued);
    case TBuffer(e) => ReadBuffer(e, k, r, glued);
    case TGeneric(n, args) => ClassesHaveShape(n); ReadGeneric(n, args, k, r, glued);
  }

  lemma ReadLeaf(t: TypeExpr, r: seq<Token>, glued: bool)
    requires Wf(t) && Atomic(t) && AfterName(r) && !r[0].Less?
    requires !IsList(t) && !t.TGeneric? && !t.TCallable? && (t.TNamed? ==> !Shadowed(t.name) || WordName(t.name))
    ensures ParseAtomic(Tokens(TypeTokens(t) + r, glued), 0) == Read(Norm(t), Trail(t), r, glued)
  {
    match t
    case TPtr(Some(n)) => NamesAreReadable(n); ReadPointer(n, r, glued);
    case TPtr(None) => ReadBarePointer(r, glued);
    case TNamed(n) => ReadNamed(n, r, glued);
    case _ => ReadBuiltIn(t, r, glued);
  }

  /** The last child of a list, and the bracket after it. */
  lemma {:induction false} ReadLast(t: TypeExpr, e: TypeExpr, k: Next, r: seq<Token>, glued: bool)
    requires IsList(t) && e == LastChild(t) && Wf(e) && Follows(r, k, glued)
    requires Clean(e, Closing, glued) && !Swallows(t, k, glued)
    ensures var c := ParseNested(Tokens(TypeTokens(e) + ([Greater] + r), glued), 0);
      && c.Done? && c.value == Norm(e)
      && CloseList(c.rest, c.pending) == Read((), Trail(t), r, glued)
      && (t.TArray? || t.TGeneric? ==> !At(c.rest, Comma))
    decreases t, 1, 0
  {
    ListEnd(t, k, r, glued);
    ReadNested(e, Closing, [Greater] + r, glued);
    CloseAfterLast(t, r, glued);
  }

  lemma {:induction false} ReadArray(e: TypeExpr, k: Next, r: seq<Token>, glued: bool)
    requires Wf(e) && Follows(r, k, glued) && Clean(TArray(e), k, glued)
    ensures ParseAtomic(Tokens(TypeTokens(TArray(e)) + r, glued), 0)
      == Read(Norm(TArray(e)), Trail(TArray(e)), r, glued)
    decreases TArray(e), 3, 0
  {
    EnterArray(TypeTokens(e), r, glued);
    ReadLast(TArray(e), e, k, r, glued);
    var c := ParseNested(Tokens(TypeTokens(e) + ([Greater] + r), glued), 0);
    ArrayOfOne(Tokens(TypeTokens(e) + ([Greater] + r), glued), Norm(e), c.rest, c.pending);
  }

  lemma {:induction false} ReadBuffer(e: TypeExpr, k: Next, r: seq<Token>, glued: bool)
    requires Wf(e) && Follows(r, k, glued) && Clean(TBuffer(e), k, glued)
    ensures ParseAtomic(Tokens(TypeTokens(TBuffer(e)) + r, glued), 0)
      == Read(Norm(TBuffer(e)), Trail(TBuffer(e)), r, glued)
    decreases TBuffer(e), 3, 0
  {
    EnterBuffer(TypeTokens(e), r, glued);
    ReadLast(TBuffer(e), e, k, r, glued);
    var c := ParseNested(Tokens(TypeTokens(e) + ([Greater] + r), glued), 0);
    BufferOfOne(Tokens(TypeTokens(e) + ([Greater] + r), glued), Norm(e), c.rest, c.pending);
  }

  lemma {:induction false} ReadAssoc(key: TypeExpr, v: TypeExpr, k: Next, r: seq<Token>, glued: bool)
    requires Wf(key) && Wf(v) && Follows(r, k, glued) && Clean(TAssoc(key, v), k, glued)
    ensures ParseAtomic(Tokens(TypeTokens(TAssoc(key, v)) + r, glued), 0)
      == Read(Norm(TAssoc(key, v)), Trail(TAssoc(key, v)), r, glued)
    decreases TAssoc(key, v), 3, 0
  {
    var s2 := TypeTokens(v) + ([Greater] + r);
    EnterArray(TypeTokens(key) + SEPARATOR + TypeTokens(v), r, glued);
    Regroup(TypeTokens(key), SEPARATOR, TypeTokens(v), [Greater] + r);
    AtSeparator(s2, glued);
    ReadNested(key, CommaNext, SEPARATOR + s2, glued);
    ReadLast(TAssoc(key, v), v, k, r, glued);
    var c := ParseNested(Tokens(s2, glued), 0);
    ArrayOfTwo(Tokens(TypeTokens(key) + (SEPARATOR + s2), glued), Norm(key), Tokens(s2, glued), Norm(v), c.rest,
      c.pending);
  }

  lemma {:induction false} ReadGeneric(n: Name, args: seq<TypeExpr>, k: Next, r: seq<Token>, glued: bool)
    requires ClassShape(n) && args != [] && WfAll(args) && Follows(r, k, glued) && Clean(TGeneric(n, args), k, glued)
    ensures ParseAtomic(Tokens(TypeTokens(TGeneric(n, args)) + r, glued), 0)
      == Read(Norm(TGeneric(n, args)), Trail(TGeneric(n, args)), r, glued)
    decreases TGeneric(n, args), 3, 0
  {
    EnterClass(n, AllTokens(args, SEPARATOR), r, glued);
    ReadArguments(n, args, 0, k, r, glued);
    assert NormAll(args)[..0] == [] && args[0..] == args;
  }

  lemma {:induction false} ReadArguments(n: Name, args: seq<TypeExpr>, i: nat, k: Next, r: seq<Token>, glued: bool)
    requires i < |args| && WfAll(args) && Follows(r, k, glued)
    requires CleanAll(args, CommaNext, Closing, glued) && !Swallows(TGeneric(n, args), k, glued)
    ensures ParseArguments(NormAll(args)[..i], Tokens(AllTokens(args[i..], SEPARATOR) + ([Greater] + r), glued), 0)
         == Read(NormAll(args), Trail(TGeneric(n, args)), r, glued)
    decreases TGeneric(n, args), 2, |args| - i
  {
    var e := args[i];
    WfAt(args, i);
    CleanAt(args, i, CommaNext, Closing, glued);
    SplitAt(args, i, SEPARATOR, [Greater] + r);
    NormSplit(args, i);
    if i == |args| - 1 {
      ReadLast(TGeneric(n, args), e, k, r, glued);
      var c := ParseNested(Tokens(TypeTokens(e) + ([Greater] + r), glued), 0);
      LastArgument(NormAll(args)[..i], Tokens(TypeTokens(e) + ([Greater] + r), glued), Norm(e), c.rest, c.pending);
    } else {
      var s := AllTokens(args[i + 1..], SEPARATOR) + ([Greater] + r);
      AtSeparator(s, glued);
      ReadNested(e, CommaNext, SEPARATOR + s, glued);
      NextArgument(NormAll(args)[..i], Tokens(TypeTokens(e) + (SEPARATOR + s), glued), Norm(e), Tokens(s, glued), 0);
      ReadArguments(n, args, i + 1, k, r, glued);
    }
  }

  lemma {:induction false} ReadCallable(params: seq<TypeExpr>, ret: TypeExpr, k: Next, r: seq<Token>, glued: bool)
    requires Wf(TCallable(params, ret)) && Follows(r, k, glued) && Outer(k) && Clean(TCallable(params, ret), k, glued)
    ensures ParseAtomic(Tokens(TypeTokens(TCallable(params, ret)) + r, glued), 0)
      == Done(Norm(TCallable(params, ret)), Tokens(r, glued), 0)
    decreases TCallable(params, ret), 3, 0
  {
    var tail := TypeTokens(ret) + r;
    var mid := [Colon, Blank] + tail;
    var s := AllTokens(params, SEPARATOR) + ([RParen] + mid);
    EnterCallable(AllTokens(params, SEPARATOR), TypeTokens(ret), r, glued);
    HeadBlank(Colon, tail, glued);
    Head(RParen, mid, glued);
    if params == [] {
      assert s == [RParen] + mid;
    } else {
      ReadParameters(params, 0, mid, glued);
      assert NormAll(params)[..0] == [] && params[0..] == params;
      ParametersStart(params, [RParen] + mid, glued);
    }
    SignatureOf(Tokens(s, glued), NormAll(params), Tokens(mid, glued), Tokens(tail, glued));
    ReadType(ret, k, r, glued);
  }

  /** A parameter list does not start with its closing parenthesis. */
  lemma ParametersStart(params: seq<TypeExpr>, r: seq<Token>, glued: bool)
    requires params != [] && WfAll(params)
    ensures !At(Tokens(AllTokens(params, SEPARATOR) + r, glued), RParen)
  {
    OpenOf(params[0]);
    FirstOf(AllTokens(params, SEPARATOR), r, glued);
  }

  lemma {:induction false} ReadParameters(params: seq<TypeExpr>, i: nat, r: seq<Token>, glued: bool)
    requires i < |params| && WfAll(params) && NoNull(params)
    requires CleanAll(params, CommaNext, Ending, glued)
    ensures ParseParameters(NormAll(params)[..i], Tokens(AllTokens(params[i..], SEPARATOR) + ([RParen] + r), glued))
      == Done(NormAll(params), Tokens(r, glued), 0)
    decreases params, 0, |params| - i
  {
    var e := params[i];
    WfAt(params, i);
    CleanAt(params, i, CommaNext, Ending, glued);
    SplitAt(params, i, SEPARATOR, [RParen] + r);
    NormSplit(params, i);
    if i == |params| - 1 {
      ReadType(e, Ending, [RParen] + r, glued);
      Head(RParen, r, glued);
      LastParameter(NormAll(params)[..i], Tokens(TypeTokens(e) + ([RParen] + r), glued), Norm(e), Tokens(r, glued));
    } else {
      var s := AllTokens(params[i + 1..], SEPARATOR) + ([RParen] + r);
      AtSeparator(s, glued);
      ReadType(e, CommaNext, SEPARATOR + s, glued);
      NextParameter(NormAll(params)[..i], Tokens(TypeTokens(e) + (SEPARATOR + s), glued), Norm(e), Tokens(s, glued));
      ReadParameters(params, i + 1, r, glued);
    }
  }

  /** In a position of its own a type is read back with no bracket left over. */
  lemma {:induction false} ReadType(t: TypeExpr, k: Next, r: seq<Token>, glued: bool)
    requires Wf(t) && !t.TVoid? && Follows(r, k, glued) && Outer(k)
    requires Clean(t, k, glued) && !Unbalanced(t, k, glued)
    ensures ParseType(Tokens(TypeTokens(t) + r, glued)) == Done(Norm(t), Tokens(r, glued), 0)
    decreases t, 8, 0
  {
    NormIsNoNull(t);
    ReadNested(t, k, r, glued);
  }

  /** The members of a union from the i-th on. */
  lemma {:induction false} ReadMembers(ms: seq<TypeExpr>, i: nat, k: Next, r: seq<Token>, glued: bool)
    requires Wf(TUnion(ms)) && 1 <= i < |ms| && Follows(r, k, glued) && Outer(k)
    requires CleanAll(ms, PipeNext, k, glued)
    requires Quiet(TUnion(ms), r, glued)
    ensures ParseUnion(NormAll(ms)[..i], [Pipe] + Tokens(AllTokens(ms[i..], [Pipe]) + r, glued), 0)
      == Read(Norm(TUnion(ms)), Trail(TUnion(ms)), r, glued)
    decreases TUnion(ms), 2, |ms| - i
  {
    var e := ms[i];
    WfAt(ms, i);
    CleanAt(ms, i, PipeNext, k, glued);
    SplitAt(ms, i, [Pipe], r);
    NormSplit(ms, i);
    if i == |ms| - 1 {
      ReadAtomic(e, k, r, glued);
      var c := Read(Norm(e), Trail(e), r, glued);
      NextMember(NormAll(ms)[..i], Tokens(TypeTokens(e) + r, glued), Norm(e), c.rest, c.pending);
      NoSeparator(e, TUnion(ms), k, r, glued);
    } else {
      var s := AllTokens(ms[i + 1..], [Pipe]) + r;
      Head(Pipe, s, glued);
      ReadAtomic(e, PipeNext, [Pipe] + s, glued);
      NextMember(NormAll(ms)[..i], Tokens(TypeTokens(e) + ([Pipe] + s), glued), Norm(e), [Pipe] + Tokens(s, glued), 0);
      ReadMembers(ms, i + 1, k, r, glued);
    }
  }

  lemma UnionAfterFirst(s: seq<Token>, v: TypeExpr, rest: seq<Token>)
    requires !At(s, Question) && ParseAtomic(s, 0) == Done(v, rest, 0) && At(rest, Pipe)
    ensures ParseNested(s, 0) == ParseUnion([v], rest, 0)
  {
  }

  /** The first member before the others. */
  lemma {:induction false} ReadFirstMember(ms: seq<TypeExpr>, r: seq<Token>, glued: bool)
    requires Wf(TUnion(ms)) && Clean(ms[0], PipeNext, glued)
    ensures ParseNested(Tokens(AllTokens(ms, [Pipe]) + r, glued), 0)
         == ParseUnion([Norm(ms[0])], [Pipe] + Tokens(AllTokens(ms[1..], [Pipe]) + r, glued), 0)
    decreases TUnion(ms), 3, 0
  {
    var s := AllTokens(ms[1..], [Pipe]) + r;
    SplitAt(ms, 0, [Pipe], r);
    assert ms[0..] == ms;
    AnyStart(ms[0], [Pipe] + s, glued);
    Head(Pipe, s, glued);
    ReadAtomic(ms[0], PipeNext, [Pipe] + s, glued);
    UnionAfterFirst(Tokens(TypeTokens(ms[0]) + ([Pipe] + s), glued), Norm(ms[0]), [Pipe] + Tokens(s, glued));
  }

  lemma {:induction false} ReadUnion(ms: seq<TypeExpr>, k: Next, r: seq<Token>, glued: bool)
    requires Wf(TUnion(ms)) && Follows(r, k, glued) && Outer(k)
    requires CleanAll(ms, PipeNext, k, glued)
    requires Quiet(TUnion(ms), r, glued)
    ensures ParseNested(Tokens(AllTokens(ms, [Pipe]) + r, glued), 0)
      == Read(Norm(TUnion(ms)), Trail(TUnion(ms)), r, glued)
    decreases TUnion(ms), 4, 0
  {
    ReadFirstMember(ms, r, glued);
    NormSplit(ms, 0);
    assert NormAll(ms)[..0] == [] && [] + [Norm(ms[0])] == [Norm(ms[0])];
    ReadMembers(ms, 1, k, r, glued);
  }

  lemma OperandStarts(ms: seq<TypeExpr>, i: nat, r: seq<Token>, glued: bool)
    requires Wf(TIntersection(ms)) && 1 <= i < |ms|
    ensures TypeStarts(Tokens(AllTokens(ms[i..], [Amp]) + r, glued))
  {
    WfAt(ms, i);
    StartOf(ms[i]);
    FirstOf(AllTokens(ms[i..], [Amp]), r, glued);
  }

  /** Between two operands stands an `&` that a type follows. */
  lemma OperandFollows(ms: seq<TypeExpr>, i: nat, r: seq<Token>, glued: bool)
    requires Wf(TIntersection(ms)) && i + 1 < |ms|
    ensures var s := AllTokens(ms[i + 1..], [Amp]) + r;
      Follows([Amp] + s, AmpNext, glued) && Tokens([Amp] + s, glued) == [Amp] + Tokens(s, glued)
  {
    var s := AllTokens(ms[i + 1..], [Amp]) + r;
    OperandStarts(ms, i + 1, r, glued);
    assert ([Amp] + s)[1..] == s;
    Head(Amp, s, glued);
  }

  /** One operand before another. */
  lemma {:induction false} ReadOperand(ms: seq<TypeExpr>, i: nat, r: seq<Token>, glued: bool)
    requires Wf(TIntersection(ms)) && i + 1 < |ms| && Clean(ms[i], AmpNext, glued)
    ensures ParseAtomic(Tokens(AllTokens(ms[i..], [Amp]) + r, glued), 0)
         == Done(Norm(ms[i]), [Amp] + Tokens(AllTokens(ms[i + 1..], [Amp]) + r, glued), 0)
    decreases TIntersection(ms), 1, 0
  {
    WfAt(ms, i);
    SplitAt(ms, i, [Amp], r);
    OperandFollows(ms, i, r, glued);
    ReadAtomic(ms[i], AmpNext, [Amp] + (AllTokens(ms[i + 1..], [Amp]) + r), glued);
  }

  /** The operands of an intersection from the i-th on, as the parser meets them. */
  function OperandsFrom(ms: seq<TypeExpr>, i: nat, r: seq<Token>, glued: bool): Parsed<TypeExpr>
    requires 1 <= i < |ms|
  {
    ParseIntersection(NormAll(ms)[..i], [Amp] + Tokens(AllTokens(ms[i..], [Amp]) + r, glued), 0)
  }

  lemma StepOperand(ms: seq<TypeExpr>, i: nat, r: seq<Token>, glued: bool)
    requires 1 <= i && i + 1 < |ms| && TypeStarts(Tokens(AllTokens(ms[i..], [Amp]) + r, glued))
    requires ParseAtomic(Tokens(AllTokens(ms[i..], [Amp]) + r, glued), 0)
          == Done(Norm(ms[i]), [Amp] + Tokens(AllTokens(ms[i + 1..], [Amp]) + r, glued), 0)
    ensures OperandsFrom(ms, i, r, glued)
         == OperandsFrom(ms, i + 1, r, glued)
  {
    NormSplit(ms, i);
    NextOperand(NormAll(ms)[..i], Tokens(AllTokens(ms[i..], [Amp]) + r, glued), Norm(ms[i]),
      [Amp] + Tokens(AllTokens(ms[i + 1..], [Amp]) + r, glued), 0);
  }

  lemma {:induction false} ReadLastOperand(ms: seq<TypeExpr>, k: Next, r: seq<Token>, glued: bool)
    requires Wf(TIntersection(ms)) && Follows(r, k, glued) && Outer(k)
    requires Clean(ms[|ms| - 1], k, glued) && Quiet(TIntersection(ms), r, glued)
    ensures OperandsFrom(ms, |ms| - 1, r, glued)
         == Read(Norm(TIntersection(ms)), Trail(TIntersection(ms)), r, glued)
    decreases TIntersection(ms), 1, 0
  {
    var i := |ms| - 1;
    var e := ms[i];
    WfAt(ms, i);
    OperandStarts(ms, i, r, glued);
    SplitAt(ms, i, [Amp], r);
    NormSplit(ms, i);
    ReadAtomic(e, k, r, glued);
    var c := Read(Norm(e), Trail(e), r, glued);
    NextOperand(NormAll(ms)[..i], Tokens(TypeTokens(e) + r, glued), Norm(e), c.rest, c.pending);
    NoSeparator(e, TIntersection(ms), k, r, glued);
  }

  lemma {:induction false} PassOperand(ms: seq<TypeExpr>, i: nat, r: seq<Token>, glued: bool)
    requires Wf(TIntersection(ms)) && 1 <= i && i + 1 < |ms| && Clean(ms[i], AmpNext, glued)
    ensures OperandsFrom(ms, i, r, glued)
         == OperandsFrom(ms, i + 1, r, glued)
    decreases TIntersection(ms), 1, 1
  {
    OperandStarts(ms, i, r, glued);
    ReadOperand(ms, i, r, glued);
    StepOperand(ms, i, r, glued);
  }

  /** The operands of an intersection from the i-th on. */
  lemma {:induction false} ReadOperands(ms: seq<TypeExpr>, i: nat, k: Next, r: seq<Token>, glued: bool)
    requires Wf(TIntersection(ms)) && 1 <= i < |ms| && Follows(r, k, glued) && Outer(k)
    requires CleanAll(ms, AmpNext, k, glued)
    requires Quiet(TIntersection(ms), r, glued)
    ensures OperandsFrom(ms, i, r, glued)
         == Read(Norm(TIntersection(ms)), Trail(TIntersection(ms)), r, glued)
    decreases TIntersection(ms), 2, |ms| - i
  {
    CleanAt(ms, i, AmpNext, k, glued);
    if i == |ms| - 1 {
      ReadLastOperand(ms, k, r, glued);
    } else {
      PassOperand(ms, i, r, glued);
      ReadOperands(ms, i + 1, k, r, glued);
    }
  }

  lemma IntersectionAfterFirst(s: seq<Token>, ms: seq<TypeExpr>, rest: seq<Token>)
    requires ms != [] && !At(s, Question) && ParseAtomic(s, 0) == Done(ms[0], [Amp] + rest, 0) && TypeStarts(rest)
    ensures ParseNested(s, 0) == ParseIntersection(ms[..1], [Amp] + rest, 0)
  {
    assert ms[..1] == [ms[0]] && ([Amp] + rest)[1..] == rest;
  }

  /** The first operand before the others. */
  lemma {:induction false} ReadFirstOperand(ms: seq<TypeExpr>, r: seq<Token>, glued: bool)
    requires Wf(TIntersection(ms)) && Clean(ms[0], AmpNext, glued)
    ensures ParseNested(Tokens(AllTokens(ms, [Amp]) + r, glued), 0) == OperandsFrom(ms, 1, r, glued)
    decreases TIntersection(ms), 3, 0
  {
    assert ms[0..] == ms;
    NoQuestionFirst(ms, r, glued);
    OperandStarts(ms, 1, r, glued);
    ReadOperand(ms, 0, r, glued);
    FirstOfOperands(Tokens(AllTokens(ms, [Amp]) + r, glued), ms, r, glued);
  }

  lemma NoQuestionFirst(ms: seq<TypeExpr>, r: seq<Token>, glued: bool)
    requires Wf(TIntersection(ms))
    ensures !At(Tokens(AllTokens(ms, [Amp]) + r, glued), Question)
  {
    AnyStart(TIntersection(ms), r, glued);
  }

  lemma FirstOfOperands(s: seq<Token>, ms: seq<TypeExpr>, r: seq<Token>, glued: bool)
    requires |ms| >= 2 && !At(s, Question) && TypeStarts(Tokens(AllTokens(ms[1..], [Amp]) + r, glued))
    requires ParseAtomic(s, 0) == Done(Norm(ms[0]), [Amp] + Tokens(AllTokens(ms[1..], [Amp]) + r, glued), 0)
    ensures ParseNested(s, 0) == OperandsFrom(ms, 1, r, glued)
  {
    IntersectionAfterFirst(s, NormAll(ms), Tokens(AllTokens(ms[1..], [Amp]) + r, glued));
  }

  lemma {:induction false} ReadIntersection(ms: seq<TypeExpr>, k: Next, r: seq<Token>, glued: bool)
    requires Wf(TIntersection(ms)) && Follows(r, k, glued) && Outer(k)
    requires CleanAll(ms, AmpNext, k, glued)
    requires Quiet(TIntersection(ms), r, glued)
    ensures ParseNested(Tokens(AllTokens(ms, [Amp]) + r, glued), 0)
      == Read(Norm(TIntersection(ms)), Trail(TIntersection(ms)), r, glued)
    decreases TIntersection(ms), 4, 0
  {
    CleanAt(ms, 0, AmpNext, k, glued);
    ReadFirstOperand(ms, r, glued);
    ReadOperands(ms, 1, k, r, glued);
  }

  lemma {:induction false} ReadNullable(e: TypeExpr, k: Next, r: seq<Token>, glued: bool)
    requires Wf(TNullable(e)) && Follows(r, k, glued) && Outer(k) && Clean(e, k, glued)
    requires Quiet(TNullable(e), r, glued)
    ensures ParseNested(Tokens([Question] + TypeTokens(e) + r, glued), 0)
      == Read(Norm(TNullable(e)), Trail(e), r, glued)
    decreases TNullable(e), 4, 0
  {
    var s := TypeTokens(e) + r;
    RegroupTwo([Question], TypeTokens(e), r);
    Head(Question, s, glued);
    assert ([Question] + Tokens(s, glued))[1..] == Tokens(s, glued);
    ReadAtomic(e, k, r, glued);
    NoSeparator(e, TNullable(e), k, r, glued);
  }

  lemma {:induction false} ReadSingle(t: TypeExpr, k: Next, r: seq<Token>, glued: bool)
    requires Wf(t) && Atomic(t) && Follows(r, k, glued) && Outer(k) && Clean(t, k, glued) && Quiet(t, r, glued)
    ensures ParseNested(Tokens(TypeTokens(t) + r, glued), 0) == Read(Norm(t), Trail(t), r, glued)
    decreases t, 6, 0
  {
    AnyStart(t, r, glued);
    ReadAtomic(t, k, r, glued);
    NoSeparator(t, t, k, r, glued);
  }

  /** Inside a list a type is read back, with one bracket more when its last one was half of a `>>`. */
  lemma {:induction false} ReadNested(t: TypeExpr, k: Next, r: seq<Token>, glued: bool)
    requires Wf(t) && Follows(r, k, glued) && Outer(k) && Clean(t, k, glued) && Quiet(t, r, glued)
    ensures ParseNested(Tokens(TypeTokens(t) + r, glued), 0) == Read(Norm(t), Trail(t), r, glued)
    decreases t, 7, 0
  {
    match t
    case TNullable(e) => ReadNullable(e, k, r, glued);
    case TUnion(ms) => ReadUnion(ms, k, r, glued);
    case TIntersection(ms) => ReadIntersection(ms, k, r, glued);
    case _ => ReadSingle(t, k, r, glued);
  }
}
