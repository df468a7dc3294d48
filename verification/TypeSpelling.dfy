/** Printed types as the lexer sees them: which type expressions have an unambiguous spelling,
    and the tokens that spelling is made of. */
module TypeSpelling {
  import opened Wrappers
  import opened GenericTypes
  import opened TypeGrammar

  // ---- well-formed types ----

  predicate IsIdentText(text: string) {
    text != "" && IsIdentStart(text[0]) && forall i | 0 <= i < |text| :: IsIdentContinue(text[i])
  }

  predicate LabelCode(n: int, first: bool) {
    65 <= n <= 90 || 97 <= n <= 122 || n == 95 || n >= 128 || (!first && 48 <= n <= 57)
  }

  /** Identifiers are PHP's labels: a letter, an underscore or a character beyond ASCII, and then
      these and digits. */
  lemma LabelsExactly(text: string)
    ensures IsIdentText(text) <==> text != "" && forall i | 0 <= i < |text| :: LabelCode(text[i] as int, i == 0)
  {
    forall i | 0 <= i < |text|
      ensures IsIdentStart(text[i]) <==> LabelCode(text[i] as int, true)
      ensures IsIdentContinue(text[i]) <==> LabelCode(text[i] as int, false)
    {
    }
  }

  /** A word the lexer reads as an ordinary identifier. */
  predicate PlainWord(text: string) {
    IsIdentText(text) && Word(text) == Ident(text)
  }

  predicate IsBuiltIn(lower: string) {
    || lower == "int" || lower == "integer" || lower == "float" || lower == "double" || lower == "real"
    || lower == "bool" || lower == "boolean" || lower == "string" || lower == "void" || lower == "never"
    || lower == "iterable" || lower == "array" || lower == "mixed" || lower == "callable" || lower == "object"
  }

  predicate IsTypeWord(text: string) {
    IsBuiltIn(LowerAll(text)) || text == "ptr" || text == "pointer" || text == "buffer"
  }

  /** The built-in words a printed type can contain. */
  predicate Printed(w: string) {
    || w == "int" || w == "float" || w == "string" || w == "bool" || w == "never" || w == "iterable"
    || w == "array" || w == "callable" || w == "buffer" || w == "ptr"
  }

  /** Segments the lexer reads as one name: on its own a segment must be no keyword, and a leading
      `namespace` is the relative prefix. */
  predicate WfParts(parts: seq<string>) {
    && parts != [] && (forall i | 0 <= i < |parts| :: IsIdentText(parts[i]))
    && (|parts| == 1 ==> PlainWord(parts[0]))
    && (|parts| >= 2 ==> LowerAll(parts[0]) != "namespace")
  }

  /** A name whose kind is the one its spelling shows. */
  predicate WfName(n: Name) {
    WfParts(n.parts) && !Rooted(n) && n.kind == (if |n.parts| > 1 then Qualified else Unqualified)
  }

  /** A class name; no class is named exactly as a built-in type is printed. */
  predicate WfClass(n: Name) {
    WfName(n) && (|n.parts| == 1 ==> !Printed(n.parts[0]) && LowerAll(n.parts[0]) != "void")
  }

  /** The C widths keep their root, so that a class of that name stays apart from the width. */
  predicate WfWidth(n: Name) {
    n.kind.FullyQualified? && |n.parts| == 1 && IsCWidth(n.parts[0]) && PlainWord(n.parts[0])
  }

  predicate WfNamed(n: Name) {
    WfClass(n) || WfWidth(n) || n == Bare("callable") || n == Bare("array")
  }

  predicate WfTarget(n: Name) {
    WfWidth(n) || WfName(n)
  }

  predicate Atomic(t: TypeExpr) {
    !t.TUnion? && !t.TIntersection? && !t.TNullable?
  }

  /** A callable signature ends where its return type ends, so only the last member of a union or
      an intersection can be one. */
  predicate WfMembers(ms: seq<TypeExpr>) {
    |ms| >= 2 && forall i | 0 <= i < |ms| :: Atomic(ms[i]) && (ms[i].TCallable? ==> i == |ms| - 1)
  }

  predicate OneNull(ms: seq<TypeExpr>) {
    forall i, j | 0 <= i < j < |ms| :: !(ms[i].TVoid? && ms[j].TVoid?)
  }

  /** The type expressions with an unambiguous spelling. */
  predicate Wf(t: TypeExpr)
    decreases t
  {
    match t
    case TArray(e) => Wf(e)
    case TAssoc(k, v) => Wf(k) && Wf(v)
    case TBuffer(e) => Wf(e)
    case TPtr(Some(n)) => WfTarget(n)
    case TNamed(n) => WfNamed(n)
    case TGeneric(n, args) => WfClass(n) && args != [] && WfAll(args)
    case TCallable(params, ret) => WfAll(params) && Wf(ret)
    case TNullable(e) => Atomic(e) && Wf(e)
    case TUnion(ms) => WfMembers(ms) && WfAll(ms) && OneNull(ms)
    case TIntersection(ms) =>
      WfMembers(ms) && WfAll(ms) && forall i | 1 <= i < |ms| :: !ms[i].TVoid? && !ms[i].TFalse?
    case _ => true
  }

  predicate WfAll(ts: seq<TypeExpr>)
    decreases ts
  {
    ts == [] || (Wf(ts[0]) && WfAll(ts[1..]))
  }

  // ---- the tokens of a printed type ----

  function PartsTokens(parts: seq<string>): seq<Token> {
    if parts == [] then []
    else if |parts| == 1 then [Ident(parts[0])]
    else [Ident(parts[0]), Backslash] + PartsTokens(parts[1..])
  }

  function NameTokens(n: Name): seq<Token> {
    if Rooted(n) then [Backslash] + PartsTokens(n.parts) else PartsTokens(n.parts)
  }

  const SEPARATOR: seq<Token> := [Comma, Blank]

  function TypeTokens(t: TypeExpr): seq<Token>
    decreases t
  {
    match t
    case TInt => [Ident("int")]
    case TFloat => [Ident("float")]
    case TStr => [Ident("string")]
    case TBool => [Ident("bool")]
    case TFalse => [FalseWord]
    case TVoid => [NullWord]
    case TNever => [Ident("never")]
    case TIterable => [Ident("iterable")]
    case TCallable(params, ret) =>
      [Ident("callable")] + [LParen] + AllTokens(params, SEPARATOR) + [RParen] + [Colon, Blank] + TypeTokens(ret)
    case TNamed(n) => NameTokens(n)
    case TArray(e) => [Ident("array")] + [Less] + TypeTokens(e) + [Greater]
    case TAssoc(k, v) => [Ident("array")] + [Less] + (TypeTokens(k) + SEPARATOR + TypeTokens(v)) + [Greater]
    case TBuffer(e) => [Ident("buffer")] + [Less] + TypeTokens(e) + [Greater]
    case TGeneric(n, args) => NameTokens(n) + [Less] + AllTokens(args, SEPARATOR) + [Greater]
    case TNullable(e) => [Question] + TypeTokens(e)
    case TPtr(None) => [Ident("ptr")]
    case TPtr(Some(n)) => [Ident("ptr")] + [Less] + NameTokens(n) + [Greater]
    case TUnion(ms) => AllTokens(ms, [Pipe])
    case TIntersection(ms) => AllTokens(ms, [Amp])
  }

  function AllTokens(ts: seq<TypeExpr>, separator: seq<Token>): seq<Token>
    decreases ts
  {
    if ts == [] then []
    else if |ts| == 1 then TypeTokens(ts[0])
    else TypeTokens(ts[0]) + separator + AllTokens(ts[1..], separator)
  }

  // ---- the lexer on printed types ----

  lemma {:induction false} WordLengthConcat(a: string, b: string)
    requires b != "" ==> !IsIdentContinue(b[0])
    ensures WordLength(a + b) == WordLength(a)
  {
    if a == "" {
      assert a + b == b;
    } else {
      assert (a + b)[1..] == a[1..] + b;
      WordLengthConcat(a[1..], b);
    }
  }

  lemma {:induction false} WordLengthWhole(a: string, b: string)
    requires WordLength(a) < |a|
    ensures WordLength(a + b) == WordLength(a)
  {
    if a != "" && IsIdentContinue(a[0]) {
      assert (a + b)[1..] == a[1..] + b;
      WordLengthWhole(a[1..], b);
    }
  }

  lemma {:induction false} WordLengthIsFull(a: string)
    requires WordLength(a) == |a|
    ensures forall i | 0 <= i < |a| :: IsIdentContinue(a[i])
  {
    if a != "" {
      WordLengthIsFull(a[1..]);
      assert forall i | 1 <= i < |a| :: a[i] == a[1..][i - 1];
    }
  }

  predicate Seam(a: string, b: string) {
    a == "" || b == "" || !IsIdentContinue(a[|a| - 1]) || !IsIdentContinue(b[0])
  }

  lemma FirstWordUnchanged(a: string, b: string)
    requires a != "" && b != "" && Seam(a, b)
    ensures WordLength(a[1..] + b) == WordLength(a[1..]) || !IsIdentStart(a[0])
  {
    if WordLength(a[1..]) == |a| - 1 && IsIdentStart(a[0]) {
      WordLengthIsFull(a[1..]);
      if |a| > 1 {
        assert a[|a| - 1] == a[1..][|a| - 2];
      }
      WordLengthConcat(a[1..], b);
    } else if WordLength(a[1..]) < |a| - 1 {
      WordLengthWhole(a[1..], b);
    }
  }

  lemma SeamOfTail(a: string, b: string, n: nat)
    requires Seam(a, b) && n <= |a|
    ensures Seam(a[n..], b)
  {
    if n < |a| {
      assert a[n..][|a| - n - 1] == a[|a| - 1];
    }
  }

  /** Two texts can be scanned apart when no word runs across the seam. */
  lemma {:induction false} ScanConcat(a: string, b: string)
    requires Seam(a, b)
    ensures Scan(a + b) == Scan(a) + Scan(b)
    decreases |a|, 1
  {
    if a == "" {
      assert a + b == b;
    } else if b == "" {
      assert a + b == a;
    } else if IsIdentStart(a[0]) {
      ScanConcatWord(a, b);
    } else {
      ScanConcatMark(a, b);
    }
  }

  lemma ScanMarkFirst(a: string)
    requires a != "" && !IsIdentStart(a[0])
    ensures Scan(a) == [Mark(a[0])] + Scan(a[1..])
  {
  }

  lemma {:induction false} ScanConcatMark(a: string, b: string)
    requires Seam(a, b) && a != "" && !IsIdentStart(a[0])
    ensures Scan(a + b) == Scan(a) + Scan(b)
    decreases |a|, 0
  {
    assert (a + b)[1..] == a[1..] + b;
    SeamOfTail(a, b, 1);
    ScanConcat(a[1..], b);
    ScanMarkFirst(a);
    ScanMarkFirst(a + b);
    AppendAfter(Mark(a[0]), Scan(a[1..]), Scan(b));
  }

  /** The first word and what is left after it are the same with or without the second text. */
  lemma SplitWord(a: string, b: string, n: nat)
    requires Seam(a, b) && a != "" && b != "" && IsIdentStart(a[0]) && n == FirstWord(a)
    ensures n == FirstWord(a + b) && (a + b)[..n] == a[..n] && (a + b)[n..] == a[n..] + b
  {
    assert (a + b)[1..] == a[1..] + b;
    FirstWordUnchanged(a, b);
  }

  lemma {:induction false} ScanConcatWord(a: string, b: string)
    requires Seam(a, b) && a != "" && b != "" && IsIdentStart(a[0])
    ensures Scan(a + b) == Scan(a) + Scan(b)
    decreases |a|, 0
  {
    var n := FirstWord(a);
    SplitWord(a, b, n);
    SeamOfTail(a, b, n);
    ScanConcat(a[n..], b);
    ScanWordFirst(a);
    ScanWordFirst(a + b);
    AppendAfter(Run(a[..n]), Scan(a[n..]), Scan(b));
  }

  lemma ScanWordFirst(a: string)
    requires a != "" && IsIdentStart(a[0])
    ensures Scan(a) == [Run(a[..FirstWord(a)])] + Scan(a[FirstWord(a)..])
  {
  }

  lemma AppendAfter<T>(x: T, p: seq<T>, q: seq<T>)
    ensures [x] + (p + q) == ([x] + p) + q
  {
  }

  /** A mark that no reserved-word rule looks across: not the name separator, and of the call and
      `::` marks only the one behind a single word or a closed parameter list. */
  predicate Splits(p: seq<Lexeme>, c: char) {
    c != '\\' && (c == '(' ==> |p| == 1) && (c == ':' ==> p != [] && p[|p| - 1] == Mark(')'))
  }

  /** What a lexeme becomes does not depend on what stands behind such a mark, */
  lemma SegmentLeft(p: seq<Lexeme>, q: seq<Lexeme>, c: char, i: nat, value: bool)
    requires i < |p| && Splits(p, c) && p[i].Run?
    ensures IsSegment(p + [Mark(c)] + q, i, value) == IsSegment(p, i, value)
  {
    var all := p + [Mark(c)] + q;
    assert all[|p|] == Mark(c) && forall j | 0 <= j < |p| :: all[j] == p[j];
    assert forall j: int, d: char | j < |p| :: IsMark(all, j, d) == IsMark(p, j, d);
    assert forall j | j < |p| :: IsRun(all, j) == IsRun(p, j);
    assert LeadsName(all, i) == LeadsName(p, i);
  }

  /** nor on what stands before it. */
  lemma SegmentRight(p: seq<Lexeme>, q: seq<Lexeme>, c: char, i: nat, value: bool)
    requires i < |q| && c != '\\'
    ensures IsSegment(p + [Mark(c)] + q, |p| + 1 + i, value) == IsSegment(q, i, value)
  {
    var all := p + [Mark(c)] + q;
    assert all[|p|] == Mark(c) && forall j | 0 <= j < |q| :: all[|p| + 1 + j] == q[j];
    assert forall j: int, d: char | 0 <= j :: IsMark(all, |p| + 1 + j, d) == IsMark(q, j, d);
    assert forall j | 0 <= j :: IsRun(all, |p| + 1 + j) == IsRun(q, j);
    assert LeadsName(all, |p| + 1 + i) == LeadsName(q, i);
  }

  lemma {:induction false} WordLengthOfWord(text: string)
    requires forall i | 0 <= i < |text| :: IsIdentContinue(text[i])
    ensures WordLength(text) == |text|
  {
    if text != "" {
      WordLengthOfWord(text[1..]);
    }
  }

  lemma ScanWord(text: string)
    requires IsIdentText(text)
    ensures Scan(text) == [Run(text)] && Lex(text) == [Word(text)]
  {
    WordLengthOfWord(text[1..]);
    assert text[..|text|] == text && text[|text|..] == "";
    assert Scan(text) == [Run(text)];
    LoneWord(Word, IsValueWord, text);
  }

  lemma LoneWord(word: string -> Token, value: string -> bool, text: string)
    ensures ClassifyAll(word, value, [Run(text)]) == [word(text)]
  {
    assert !IsSegment([Run(text)], 0, value(text));
  }

  lemma ScanSymbol(c: char)
    requires !IsIdentStart(c)
    ensures Scan([c]) == [Mark(c)]
  {
    assert [c][1..] == "" && Scan([c]) == [Mark(c)];
  }

  lemma LowerOfLower(text: string)
    requires forall i | 0 <= i < |text| :: 'a' <= text[i] <= 'z'
    ensures LowerAll(text) == text
  {
  }

  /** Length and first letters that no reserved word has. */
  predicate FreeShape(n: nat, a: char, b: char) {
    || (n == 3 && (a == 'i' || a == 'p'))
    || (n == 4 && (a == 'b' || a == 'n'))
    || (n == 5 && (a == 'a' || (a == 'f' && (b == 'l' || b == 'a')) || (a == 'm' && b == 'i') || a == 'n'))
    || (n == 6 && (a == 'b' || a == 'o' || (a == 's' && b == 't')))
    || (n == 8 && ((a == 'c' && b == 'a') || a == 'i'))
  }

  lemma NotReserved(w: string)
    requires |w| >= 2 && FreeShape(|w|, w[0], w[1])
    ensures !IsKeyword(w) && !IsConstant(w) && w != "enum"
  {
  }

  lemma NotSpecial(w: string)
    requires |w| >= 3 && FreeShape(|w|, w[0], w[1])
    requires (w[0] == 'n' ==> w[1] != 'u') && (w[0] == 'f' ==> w[1] != 'a') && (w[0] == 's' ==> w[2] != 'a')
    ensures w != "null" && w != "false" && w != "true" && w != "self" && w != "static" && w != "parent"
  {
  }

  lemma OrdinaryWord(w: string)
    requires !IsKeyword(w) && !IsConstant(w) && w != "enum" && LowerAll(w) == w
    requires w != "null" && w != "false" && w != "true" && w != "self" && w != "static" && w != "parent"
    ensures Word(w) == Ident(w)
  {
  }

  /** The built-in type words the printer uses are ordinary words to the lexer. */
  lemma LexFree(w: string)
    requires |w| >= 3 && FreeShape(|w|, w[0], w[1])
    requires (w[0] == 'n' ==> w[1] != 'u') && (w[0] == 'f' ==> w[1] != 'a') && (w[0] == 's' ==> w[2] != 'a')
    requires forall i | 0 <= i < |w| :: 'a' <= w[i] <= 'z'
    ensures Knows(Lex, w)
  {
    LowerOfLower(w);
    NotReserved(w);
    NotSpecial(w);
    OrdinaryWord(w);
    ScanWord(w);
  }

  lemma LexNull()
    ensures Lex("null") == [NullWord]
  {
    LowerOfLower("null");
    NotReserved("null");
    ScanWord("null");
  }

  lemma LexFalse()
    ensures Lex("false") == [FalseWord]
  {
    LowerOfLower("false");
    NotReserved("false");
    ScanWord("false");
    assert "false" != "null";
  }

  lemma LexMark(a: string, c: char, b: string)
    requires !IsIdentContinue(c) && Splits(Scan(a), c)
    ensures Lex(a + [c] + b) == Lex(a) + [Symbol(c)] + Lex(b)
  {
    ScanConcat(a + [c], b);
    ScanConcat(a, [c]);
    ScanSymbol(c);
    LexOfSplit(Word, IsValueWord, Scan(a), c, Scan(b));
  }

  lemma LexOfSplit(word: string -> Token, value: string -> bool, p: seq<Lexeme>, c: char, q: seq<Lexeme>)
    requires Splits(p, c)
    ensures ClassifyAll(word, value, p + [Mark(c)] + q)
      == ClassifyAll(word, value, p) + [Symbol(c)] + ClassifyAll(word, value, q)
  {
    var all := p + [Mark(c)] + q;
    var parts := ClassifyAll(word, value, p) + [Symbol(c)] + ClassifyAll(word, value, q);
    forall i | 0 <= i < |all|
      ensures ClassifyAll(word, value, all)[i] == parts[i]
    {
      if i < |p| {
        if p[i].Run? {
          SegmentLeft(p, q, c, i, value(p[i].text));
        }
      } else if i > |p| {
        SegmentRight(p, q, c, i - |p| - 1, q[i - |p| - 1].Run? && value(q[i - |p| - 1].text));
      }
    }
  }

  /** A class name the parser turns into a built-in type instead. */
  lemma LexBuiltInName(word: string)
    requires word == "callable" || word == "array"
    ensures Lex(Spelling(Bare(word))) == NameTokens(Bare(word))
  {
    LexFree(word);
  }

  // ---- what the structural proof needs of the lexer ----

  ghost predicate SplitsAtMarks(lex: string -> seq<Token>) {
    && lex("") == []
    && forall a, c, b | !IsIdentContinue(c) && c != '\\' && c != '(' && c != ':' ::
      lex(a + [c] + b) == lex(a) + [Symbol(c)] + lex(b)
  }

  /** The two places of a signature where a word and a mark of other grammars meet. */
  ghost predicate SplitsSignatures(lex: string -> seq<Token>) {
    && (forall b :: lex("callable" + "(" + b) == [Ident("callable"), LParen] + lex(b))
    && (forall a, b :: lex(a + ")" + ":" + b) == lex(a + ")") + [Colon] + lex(b))
  }

  ghost predicate Knows(lex: string -> seq<Token>, w: string) {
    lex(w) == [Ident(w)]
  }

  ghost predicate KnowsWords(lex: string -> seq<Token>) {
    && (forall w | Printed(w) :: Knows(lex, w))
    && lex("null") == [NullWord] && lex("false") == [FalseWord]
  }

  ghost predicate KnowsNames(lex: string -> seq<Token>) {
    forall n | WfNamed(n) || WfTarget(n) :: lex(Spelling(n)) == NameTokens(n)
  }

  ghost predicate Lexes(lex: string -> seq<Token>) {
    SplitsAtMarks(lex) && SplitsSignatures(lex) && KnowsWords(lex) && KnowsNames(lex)
  }

  lemma LexSplits()
    ensures SplitsAtMarks(Lex)
  {
    forall a, c, b | !IsIdentContinue(c) && c != '\\' && c != '(' && c != ':'
      ensures Lex(a + [c] + b) == Lex(a) + [Symbol(c)] + Lex(b)
    {
      LexMark(a, c, b);
    }
  }

  lemma CallableIsAWord()
    ensures Scan("callable") == [Run("callable")] && Knows(Lex, "callable")
  {
    LexFree("callable");
    ScanWord("callable");
  }

  lemma CallOf(lex: string -> seq<Token>, w: string, b: string)
    requires Knows(lex, w) && lex(w + ['('] + b) == lex(w) + [Symbol('(')] + lex(b)
    ensures lex(w + "(" + b) == [Ident(w), LParen] + lex(b)
  {
    assert w + "(" + b == w + ['('] + b;
  }

  lemma LexWordMark(w: string, b: string)
    requires Scan(w) == [Run(w)]
    ensures Lex(w + ['('] + b) == Lex(w) + [Symbol('(')] + Lex(b)
  {
    LexMark(w, '(', b);
  }

  lemma LexCall(b: string)
    ensures Lex("callable" + "(" + b) == [Ident("callable"), LParen] + Lex(b)
  {
    CallableIsAWord();
    LexWordMark("callable", b);
    CallOf(Lex, "callable", b);
  }

  lemma EndsClosed(a: string)
    ensures Splits(Scan(a + ")"), ':')
  {
    ScanConcat(a, ")");
    ScanSymbol(')');
  }

  lemma LexReturn(a: string, b: string)
    ensures Lex(a + ")" + ":" + b) == Lex(a + ")") + [Colon] + Lex(b)
  {
    EndsClosed(a);
    LexColon(a + ")", b);
  }

  lemma LexColon(x: string, b: string)
    requires Splits(Scan(x), ':')
    ensures Lex(x + ":" + b) == Lex(x) + [Colon] + Lex(b)
  {
    LexSymbol(x, ':', Colon, ":", b);
  }

  lemma LexSymbol(x: string, c: char, token: Token, text: string, b: string)
    requires Splits(Scan(x), c) && !IsIdentContinue(c) && Symbol(c) == token && text == [c]
    ensures Lex(x + text + b) == Lex(x) + [token] + Lex(b)
  {
    LexMark(x, c, b);
  }

  lemma LexSplitsSignatures()
    ensures SplitsSignatures(Lex)
  {
    forall b
      ensures Lex("callable" + "(" + b) == [Ident("callable"), LParen] + Lex(b)
    {
      LexCall(b);
    }
    forall a, b
      ensures Lex(a + ")" + ":" + b) == Lex(a + ")") + [Colon] + Lex(b)
    {
      LexReturn(a, b);
    }
  }

  lemma LexKnowsPrinted(w: string)
    requires Printed(w)
    ensures Knows(Lex, w)
  {
    LexFree(w);
  }

  lemma LexKnowsWords()
    ensures KnowsWords(Lex)
  {
    forall w | Printed(w)
      ensures Knows(Lex, w)
    {
      LexKnowsPrinted(w);
    }
    LexNull();
    LexFalse();
  }

  // ---- the tokens of a name ----

  /** The words of a name and the separators between them. */
  function Segments(parts: seq<string>): seq<Lexeme> {
    seq(if parts == [] then 0 else 2 * |parts| - 1,
      i requires 0 <= i && (parts == [] ==> i < 0) && (parts != [] ==> i < 2 * |parts| - 1) =>
      if i % 2 == 0 then Run(parts[i / 2]) else Mark('\\'))
  }

  lemma SegmentsStep(parts: seq<string>)
    requires |parts| >= 2
    ensures Segments(parts) == [Run(parts[0]), Mark('\\')] + Segments(parts[1..])
  {
  }

  lemma {:induction false} ScanName(parts: seq<string>)
    requires parts != [] && forall i | 0 <= i < |parts| :: IsIdentText(parts[i])
    ensures Scan(Join(parts, "\\")) == Segments(parts)
  {
    ScanWord(parts[0]);
    if |parts| >= 2 {
      var more := Join(parts[1..], "\\");
      ScanName(parts[1..]);
      ScanConcat(parts[0], ['\\']);
      ScanConcat(parts[0] + ['\\'], more);
      ScanSymbol('\\');
      SegmentsStep(parts);
    }
  }

  lemma {:induction false} PartsTokensAt(parts: seq<string>, i: nat)
    requires i < |parts|
    ensures |PartsTokens(parts)| == 2 * |parts| - 1
    ensures PartsTokens(parts)[2 * i] == Ident(parts[i])
    ensures i + 1 < |parts| ==> PartsTokens(parts)[2 * i + 1] == Backslash
  {
    if |parts| >= 2 {
      PartsTokensAt(parts[1..], if i == 0 then 0 else i - 1);
      var more := PartsTokens(parts[1..]);
      assert PartsTokens(parts) == [Ident(parts[0]), Backslash] + more;
      if i > 0 {
        assert PartsTokens(parts)[2 * i] == more[2 * (i - 1)] && parts[1..][i - 1] == parts[i];
        assert i + 1 < |parts| ==> PartsTokens(parts)[2 * i + 1] == more[2 * (i - 1) + 1];
      }
    }
  }

  /** Every word of a qualified name is a segment of it, however reserved it is elsewhere. */
  lemma SegmentOfName(parts: seq<string>, i: nat, value: bool)
    requires |parts| >= 2 && i < |parts| && LowerAll(parts[0]) != "namespace"
    ensures IsSegment(Segments(parts), 2 * i, value)
  {
    var found := Segments(parts);
    if i == 0 {
      assert found[0] == Run(parts[0]) && found[1] == Mark('\\') && found[2] == Run(parts[1]);
    } else {
      assert found[2 * i - 1] == Mark('\\') && found[2 * i - 2] == Run(parts[i - 1]);
      if i > 1 {
        assert found[2 * i - 3] == Mark('\\');
      }
    }
  }

  lemma NameClassifiesAt(word: string -> Token, value: string -> bool, parts: seq<string>, i: nat)
    requires WfParts(parts) && (|parts| == 1 ==> word(parts[0]) == Ident(parts[0])) && i < |Segments(parts)|
    ensures |PartsTokens(parts)| == |Segments(parts)|
      && Classify(word, value, Segments(parts), i) == PartsTokens(parts)[i]
  {
    var found := Segments(parts);
    var h := i / 2;
    PartsTokensAt(parts, h);
    if i % 2 == 0 {
      assert i == 2 * h && found[i] == Run(parts[h]);
      if |parts| >= 2 {
        SegmentOfName(parts, h, value(parts[h]));
      }
    } else {
      assert i == 2 * h + 1 && found[i] == Mark('\\');
    }
  }

  lemma NameClassifies(word: string -> Token, value: string -> bool, parts: seq<string>)
    requires WfParts(parts) && (|parts| == 1 ==> word(parts[0]) == Ident(parts[0]))
    ensures ClassifyAll(word, value, Segments(parts)) == PartsTokens(parts)
  {
    var got, want := ClassifyAll(word, value, Segments(parts)), PartsTokens(parts);
    NameClassifiesAt(word, value, parts, 0);
    forall i | 0 <= i < |got|
      ensures got[i] == want[i]
    {
      NameClassifiesAt(word, value, parts, i);
    }
  }

  lemma RootedClassifies(word: string -> Token, value: string -> bool, w: string)
    requires word(w) == Ident(w)
    ensures ClassifyAll(word, value, [Mark('\\'), Run(w)]) == [Backslash, Ident(w)]
  {
  }

  lemma RootedWordTokens(w: string)
    requires PlainWord(w)
    ensures Lex("\\" + w) == [Backslash, Ident(w)]
  {
    ScanWord(w);
    ScanSymbol('\\');
    ScanConcat("\\", w);
    assert Scan("\\" + w) == [Mark('\\'), Run(w)];
    RootedClassifies(Word, IsValueWord, w);
  }

  lemma LexKnowsName(n: Name)
    requires WfNamed(n) || WfTarget(n)
    ensures Lex(Spelling(n)) == NameTokens(n)
  {
    if n == Bare("callable") || n == Bare("array") {
      LexBuiltInName(n.parts[0]);
    } else if WfWidth(n) {
      RootedWordTokens(n.parts[0]);
    } else {
      ScanName(n.parts);
      NameClassifies(Word, IsValueWord, n.parts);
    }
  }

  lemma LexKnowsNames()
    ensures KnowsNames(Lex)
  {
    forall n | WfNamed(n) || WfTarget(n)
      ensures Lex(Spelling(n)) == NameTokens(n)
    {
      LexKnowsName(n);
    }
  }

  lemma LexIsALexer()
    ensures Lexes(Lex)
  {
    LexSplits();
    LexSplitsSignatures();
    LexKnowsWords();
    LexKnowsNames();
  }

  // ---- the tokens of a printed type, for any such lexer ----

  lemma Spelled(lex: string -> seq<Token>, w: string)
    requires Lexes(lex) && Printed(w)
    ensures lex(w) == [Ident(w)]
  {
    assert Knows(lex, w);
  }

  /** A mark that splits any text. */
  predicate Free(c: char) {
    !IsIdentContinue(c) && c != '\\' && c != '(' && c != ':'
  }

  lemma MarkAt(lex: string -> seq<Token>, a: string, c: char, b: string)
    requires Lexes(lex) && Free(c)
    ensures lex(a + [c] + b) == lex(a) + [Symbol(c)] + lex(b)
  {
  }

  lemma MarkLast(lex: string -> seq<Token>, a: string, c: char)
    requires Lexes(lex) && Free(c)
    ensures lex(a + [c]) == lex(a) + [Symbol(c)]
  {
    MarkAt(lex, a, c, "");
    assert a + [c] + "" == a + [c];
  }

  lemma MarkFirst(lex: string -> seq<Token>, c: char, b: string)
    requires Lexes(lex) && Free(c)
    ensures lex([c] + b) == [Symbol(c)] + lex(b)
  {
    MarkAt(lex, "", c, b);
    assert "" + [c] + b == [c] + b;
  }

  lemma MarksAt(lex: string -> seq<Token>, a: string, c: char, d: char, b: string)
    requires Lexes(lex) && Free(c) && Free(d)
    ensures lex(a + [c, d] + b) == lex(a) + [Symbol(c), Symbol(d)] + lex(b)
  {
    MarkAt(lex, a + [c], d, b);
    MarkLast(lex, a, c);
    assert a + [c] + [d] + b == a + [c, d] + b;
  }

  /** `head<inside>` */
  lemma Bracketed(lex: string -> seq<Token>, head: string, inside: string)
    requires Lexes(lex)
    ensures lex(head + "<" + inside + ">") == lex(head) + [Less] + lex(inside) + [Greater]
  {
    MarkLast(lex, head + "<" + inside, '>');
    MarkAt(lex, head, '<', inside);
  }

  lemma CommaAt(lex: string -> seq<Token>, a: string, b: string)
    requires Lexes(lex)
    ensures lex(a + ", " + b) == lex(a) + SEPARATOR + lex(b)
  {
    MarksAt(lex, a, ',', ' ', b);
  }

  lemma ReturnAt(lex: string -> seq<Token>, a: string, b: string)
    requires Lexes(lex)
    ensures lex(a + ")" + ": " + b) == lex(a) + [RParen] + [Colon, Blank] + lex(b)
  {
    MarkLast(lex, a, ')');
    MarkFirst(lex, ' ', b);
    assert a + ")" == a + [')'] && " " + b == [' '] + b;
    assert lex(a + ")" + ":" + (" " + b)) == lex(a + ")") + [Colon] + lex(" " + b);
    assert a + ")" + ":" + (" " + b) == a + ")" + ": " + b;
  }

  /** The lexer finds exactly the tokens of a printed type. */
  lemma {:induction false} DescribeTokens(lex: string -> seq<Token>, t: TypeExpr)
    requires Wf(t) && Lexes(lex)
    ensures lex(Describe(t)) == TypeTokens(t)
    decreases t, 1
  {
    match t
    case TArray(e) => DescribeTokens(lex, e); Bracketed(lex, "array", Describe(e)); Spelled(lex, "array");
    case TAssoc(k, v) => DescribeTokens(lex, k); DescribeTokens(lex, v); AssocTokens(lex, k, v);
    case TBuffer(e) => DescribeTokens(lex, e); Bracketed(lex, "buffer", Describe(e)); Spelled(lex, "buffer");
    case TPtr(target) => PointerTokens(lex, target);
    case TGeneric(n, args) => ClassTokens(lex, n); DescribeAllTokens(lex, args, ','); GenericTokens(lex, n, args);
    case TCallable(params, ret) =>
      DescribeAllTokens(lex, params, ',');
      DescribeTokens(lex, ret);
      SignatureTokens(lex, params, ret);
    case TNullable(e) => DescribeTokens(lex, e); MarkFirst(lex, '?', Describe(e));
    case TUnion(ms) => DescribeAllTokens(lex, ms, '|');
    case TIntersection(ms) => DescribeAllTokens(lex, ms, '&');
    case TNamed(_) =>
    case _ => BuiltInTokens(lex, t);
  }

  predicate BuiltIn(t: TypeExpr) {
    t.TInt? || t.TFloat? || t.TBool? || t.TFalse? || t.TStr? || t.TVoid? || t.TNever? || t.TIterable?
  }

  lemma BuiltInTokens(lex: string -> seq<Token>, t: TypeExpr)
    requires Lexes(lex) && BuiltIn(t)
    ensures lex(Describe(t)) == TypeTokens(t)
  {
    if !t.TFalse? && !t.TVoid? {
      Spelled(lex, Describe(t));
    }
  }

  lemma ClassTokens(lex: string -> seq<Token>, n: Name)
    requires WfClass(n) && Lexes(lex)
    ensures lex(Text(n)) == NameTokens(n)
  {
    assert WfNamed(n);
    assert Spelling(n) == Text(n);
  }

  lemma GenericTokens(lex: string -> seq<Token>, n: Name, args: seq<TypeExpr>)
    requires Lexes(lex) && lex(Text(n)) == NameTokens(n) && lex(DescribeAll(args, ", ")) == AllTokens(args, SEPARATOR)
    ensures lex(Describe(TGeneric(n, args))) == TypeTokens(TGeneric(n, args))
  {
    Bracketed(lex, Text(n), DescribeAll(args, ", "));
  }

  lemma PointerTokens(lex: string -> seq<Token>, target: Option<Name>)
    requires Lexes(lex) && (target.Some? ==> WfTarget(target.value))
    ensures lex(Describe(TPtr(target))) == TypeTokens(TPtr(target))
  {
    Spelled(lex, "ptr");
    match target
    case None =>
    case Some(n) =>
      Bracketed(lex, "ptr", Spelling(n));
      assert lex(Spelling(n)) == NameTokens(n);
  }

  lemma AssocTokens(lex: string -> seq<Token>, k: TypeExpr, v: TypeExpr)
    requires Lexes(lex) && lex(Describe(k)) == TypeTokens(k) && lex(Describe(v)) == TypeTokens(v)
    ensures lex(Describe(TAssoc(k, v))) == TypeTokens(TAssoc(k, v))
  {
    CommaAt(lex, Describe(k), Describe(v));
    Bracketed(lex, "array", Describe(k) + ", " + Describe(v));
    Spelled(lex, "array");
  }

  lemma SignatureTokens(lex: string -> seq<Token>, params: seq<TypeExpr>, ret: TypeExpr)
    requires Lexes(lex) && lex(DescribeAll(params, ", ")) == AllTokens(params, SEPARATOR)
      && lex(Describe(ret)) == TypeTokens(ret)
    ensures lex(Describe(TCallable(params, ret))) == TypeTokens(TCallable(params, ret))
  {
    var inside := DescribeAll(params, ", ");
    assert lex("callable" + "(" + inside) == [Ident("callable"), LParen] + lex(inside);
    ReturnAt(lex, "callable" + "(" + inside, Describe(ret));
  }

  function Separator(c: char): (string, seq<Token>) {
    if c == ',' then (", ", SEPARATOR) else ([c], [Symbol(c)])
  }

  lemma {:induction false} DescribeAllTokens(lex: string -> seq<Token>, ts: seq<TypeExpr>, c: char)
    requires WfAll(ts) && Lexes(lex) && (c == ',' || c == '|' || c == '&')
    ensures lex(DescribeAll(ts, Separator(c).0)) == AllTokens(ts, Separator(c).1)
    decreases ts, 2
  {
    if ts != [] {
      DescribeTokens(lex, ts[0]);
      if |ts| > 1 {
        DescribeAllTokens(lex, ts[1..], c);
        var more := DescribeAll(ts[1..], Separator(c).0);
        if c == ',' {
          CommaAt(lex, Describe(ts[0]), more);
        } else {
          MarkAt(lex, Describe(ts[0]), c, more);
        }
      }
    }
  }

  lemma LexDescribe(t: TypeExpr)
    requires Wf(t)
    ensures Lex(Describe(t)) == TypeTokens(t)
  {
    LexIsALexer();
    DescribeTokens(Lex, t);
  }
}
