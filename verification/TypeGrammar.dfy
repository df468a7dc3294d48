/** The language's own type grammar, as instantiated names are read back through it: the words
    and symbols a printed type is made of, and the parser with its `>>` credit. */
module TypeGrammar {
  import opened Wrappers
  import opened GenericTypes

  datatype Token =
    | Ident(text: string) | Soft(text: string) | Reserved(text: string)
    | NullWord | FalseWord | TrueWord | SelfWord | StaticWord | ParentWord
    | Backslash | Less | Greater | GreaterGreater | Comma | Pipe | Amp | Question
    | LParen | RParen | Colon | Semicolon | Blank | Other(c: char)

  // ---- the lexer ----

  predicate IsIdentStart(c: char) {
    'a' <= c <= 'z' || 'A' <= c <= 'Z' || c == '_' || c >= '\U{80}'
  }

  predicate IsIdentContinue(c: char) {
    IsIdentStart(c) || '0' <= c <= '9'
  }

  function Lower(c: char): char {
    if 'A' <= c <= 'Z' then c + 32 as char else c
  }

  function LowerAll(s: string): string {
    seq(|s|, i requires 0 <= i < |s| => Lower(s[i]))
  }

  /** The words the lexer reserves, in lower case. */
  predicate IsKeyword(text: string) {
    || text == "and" || text == "or" || text == "xor" || text == "instanceof" || text == "echo" || text == "if"
    || text == "ifdef" || text == "else" || text == "elseif" || text == "while" || text == "for" || text == "break"
    || text == "continue" || text == "function" || text == "return" || text == "yield" || text == "do"
    || text == "foreach" || text == "as" || text == "try" || text == "catch" || text == "finally" || text == "throw"
    || text == "extends" || text == "implements" || text == "interface" || text == "abstract" || text == "final"
    || text == "print" || text == "switch" || text == "case" || text == "default" || text == "match"
    || text == "include" || text == "include_once" || text == "require" || text == "require_once" || text == "fn"
    || text == "use" || text == "namespace" || text == "const" || text == "global" || text == "declare"
    || text == "enddeclare" || text == "endif" || text == "endwhile" || text == "endfor" || text == "endforeach"
    || text == "endswitch" || text == "goto" || text == "trait" || text == "insteadof" || text == "class"
    || text == "new" || text == "clone" || text == "public" || text == "protected"
    || text == "private" || text == "readonly" || text == "extern" || text == "packed" || text == "__dir__"
    || text == "__file__" || text == "__line__" || text == "__function__" || text == "__class__"
    || text == "__method__" || text == "__namespace__" || text == "__trait__"
  }

  /** The constants the lexer spells as tokens, in their exact case. */
  predicate IsConstant(text: string) {
    || text == "INF" || text == "NAN" || text == "PHP_INT_MAX" || text == "PHP_INT_MIN" || text == "PHP_FLOAT_MAX"
    || text == "M_PI" || text == "M_E" || text == "M_SQRT2" || text == "M_PI_2" || text == "M_PI_4"
    || text == "M_LOG2E" || text == "M_LOG10E" || text == "PHP_FLOAT_MIN" || text == "PHP_FLOAT_EPSILON"
    || text == "STDIN" || text == "STDOUT" || text == "STDERR" || text == "PHP_EOL" || text == "PHP_OS"
    || text == "DIRECTORY_SEPARATOR"
  }

  /** The token a scanned word becomes; `enum` and the constants still serve as names. */
  function Word(text: string): Token {
    var lower := LowerAll(text);
    if IsKeyword(lower) then Reserved(text)
    else if lower == "enum" || IsConstant(text) then Soft(text)
    else if lower == "null" then NullWord
    else if lower == "false" then FalseWord
    else if lower == "true" then TrueWord
    else if lower == "self" then SelfWord
    else if lower == "static" then StaticWord
    else if lower == "parent" then ParentWord
    else Ident(text)
  }

  function Symbol(c: char): Token {
    match c
    case '\\' => Backslash
    case '<' => Less
    case '>' => Greater
    case ',' => Comma
    case '|' => Pipe
    case '&' => Amp
    case '?' => Question
    case '(' => LParen
    case ')' => RParen
    case ':' => Colon
    case ';' => Semicolon
    case ' ' => Blank
    case _ => Other(c)
  }

  /** How many characters of the text continue an identifier. */
  function WordLength(s: string): (n: nat)
    ensures n <= |s|
  {
    if s == "" || !IsIdentContinue(s[0]) then 0 else 1 + WordLength(s[1..])
  }

  /** The length of the word a text starts with. */
  function FirstWord(s: string): (n: nat)
    requires s != ""
    ensures 1 <= n <= |s|
  {
    1 + WordLength(s[1..])
  }

  datatype Lexeme = Run(text: string) | Mark(c: char)

  /** The words and single characters of a text. */
  function Scan(s: string): seq<Lexeme> {
    if s == "" then []
    else if IsIdentStart(s[0]) then
      [Run(s[..FirstWord(s)])] + Scan(s[FirstWord(s)..])
    else [Mark(s[0])] + Scan(s[1..])
  }

  predicate IsRun(found: seq<Lexeme>, i: int) {
    0 <= i < |found| && found[i].Run?
  }

  predicate IsMark(found: seq<Lexeme>, i: int, c: char) {
    0 <= i < |found| && found[i] == Mark(c)
  }

  predicate IsNamespaceWord(found: seq<Lexeme>, i: int) {
    IsRun(found, i) && LowerAll(found[i].text) == "namespace"
  }

  predicate LeadsName(found: seq<Lexeme>, i: int) {
    !IsNamespaceWord(found, i) && IsMark(found, i + 1, '\\') && IsRun(found, i + 2)
  }

  /** A constant alone behind a leading `namespace\`, which stays the relative prefix. */
  predicate BareRelative(found: seq<Lexeme>, i: int) {
    && IsNamespaceWord(found, i - 2) && !IsMark(found, i - 3, '\\')
    && !IsMark(found, i + 1, '\\') && !IsMark(found, i + 1, '(')
      && !(IsMark(found, i + 1, ':') && IsMark(found, i + 2, ':'))
  }

  predicate IsValueWord(text: string) {
    var lower := LowerAll(text);
    IsConstant(text) || lower == "true" || lower == "false" || lower == "null"
  }

  /** Whether a word is a segment of a qualified name, and so no keyword: it touches a `\`, a
      leading one only when another word touches that `\` too; a constant only inside a name. */
  predicate IsSegment(found: seq<Lexeme>, i: int, value: bool) {
    || LeadsName(found, i)
    || (IsMark(found, i - 1, '\\') && (value ==> IsRun(found, i - 2) && !BareRelative(found, i)))
  }

  function Classify(word: string -> Token, value: string -> bool, found: seq<Lexeme>, i: nat): Token
    requires i < |found|
  {
    match found[i]
    case Run(text) => if IsSegment(found, i, value(text)) then Ident(text) else word(text)
    case Mark(c) => Symbol(c)
  }

  function ClassifyAll(word: string -> Token, value: string -> bool, found: seq<Lexeme>): seq<Token> {
    seq(|found|, i requires 0 <= i < |found| => Classify(word, value, found, i))
  }

  function Lex(s: string): seq<Token> {
    ClassifyAll(Word, IsValueWord, Scan(s))
  }

  /** The tokens the parser sees: blanks are dropped and, in the real lexer (`glued`), two
      adjacent closing brackets are the right-shift operator. */
  function Tokens(s: seq<Token>, glued: bool): seq<Token> {
    if s == [] then []
    else if s[0].Blank? then Tokens(s[1..], glued)
    else if glued && s[0].Greater? && |s| > 1 && s[1].Greater? then [GreaterGreater] + Tokens(s[2..], glued)
    else [s[0]] + Tokens(s[1..], glued)
  }

  // ---- the parser ----

  /** A parse: the value, the unread tokens, and the closing brackets already credited. */
  datatype Parsed<+T> = Fail | Done(value: T, rest: seq<Token>, pending: nat)

  predicate At(ts: seq<Token>, t: Token) {
    ts != [] && ts[0] == t
  }

  predicate AtPart(ts: seq<Token>) {
    ts != [] && (ts[0].Ident? || ts[0].Soft?)
  }

  /** Consumes the `>` that closes a list: a credit, a `>`, or half of a `>>`. */
  function CloseList(ts: seq<Token>, pending: nat): Parsed<()> {
    if pending > 0 then Done((), ts, pending - 1)
    else if At(ts, Greater) then Done((), ts[1..], 0)
    else if At(ts, GreaterGreater) then Done((), ts[1..], 1)
    else Fail
  }

  /** The remaining `\`-separated segments of a name. */
  function ParseParts(ts: seq<Token>, parts: seq<string>): (r: Parsed<seq<string>>)
    ensures r.Done? ==> |r.rest| < |ts| && r.pending == 0
  {
    if !AtPart(ts) then Fail
    else
      var all := parts + [ts[0].text];
      if At(ts[1..], Backslash) then ParseParts(ts[2..], all) else Done(all, ts[1..], 0)
  }

  function ParseName(ts: seq<Token>): (r: Parsed<Name>)
    ensures r.Done? ==> |r.rest| < |ts|
  {
    var rooted := At(ts, Backslash);
    var r := ParseParts(if rooted then ts[1..] else ts, []);
    if r.Fail? then Fail
    else
      var kind := if rooted then FullyQualified else if |r.value| > 1 then Qualified else Unqualified;
      Done(Name(kind, r.value), r.rest, 0)
  }

  /** Whether `&` here is followed by another type, rather than by a by-reference variable. */
  predicate TypeStarts(ts: seq<Token>) {
    At(ts, Backslash) || (ts != [] && ts[0].Ident?) || At(ts, SelfWord) || At(ts, StaticWord) || At(ts, ParentWord)
  }

  function NonNull(members: seq<TypeExpr>): seq<TypeExpr> {
    if members == [] then []
    else (if members[0].TVoid? then [] else [members[0]]) + NonNull(members[1..])
  }

  /** `T|null` becomes `?T`; a wider union keeps one `null`, at the end. */
  function NormalizeUnion(members: seq<TypeExpr>): TypeExpr
    requires members != []
  {
    var rest := NonNull(members);
    if |rest| < |members| && rest != [] then
      if |rest| == 1 then TNullable(rest[0]) else TUnion(rest + [TVoid])
    else if |members| == 1 then members[0]
    else TUnion(members)
  }

  /** A type on its own: no closing bracket may be left over. */
  function ParseType(ts: seq<Token>): (r: Parsed<TypeExpr>)
    ensures r.Done? ==> |r.rest| < |ts|
    decreases |ts|, 4
  {
    var r := ParseNested(ts, 0);
    if r.Fail? || r.pending > 0 then Fail
    else if At(ts, NullWord) && r.value.TVoid? then Done(TNamed(Bare("null")), r.rest, 0)
    else r
  }

  /** A type inside the lists that share one credit. */
  function ParseNested(ts: seq<Token>, pending: nat): (r: Parsed<TypeExpr>)
    ensures r.Done? ==> |r.rest| < |ts|
    decreases |ts|, 3
  {
    if At(ts, Question) then
      var r := ParseAtomic(ts[1..], pending);
      if r.Fail? || At(r.rest, Pipe) || (At(r.rest, Amp) && TypeStarts(r.rest[1..])) then Fail
      else Done(TNullable(r.value), r.rest, r.pending)
    else
      var r := ParseAtomic(ts, pending);
      if r.Fail? then Fail
      else if At(r.rest, Amp) && TypeStarts(r.rest[1..]) then ParseIntersection([r.value], r.rest, r.pending)
      else ParseUnion([r.value], r.rest, r.pending)
  }

  function ParseIntersection(members: seq<TypeExpr>, ts: seq<Token>, pending: nat): (r: Parsed<TypeExpr>)
    ensures r.Done? ==> |r.rest| <= |ts|
    decreases |ts|, 2
  {
    if At(ts, Amp) && TypeStarts(ts[1..]) then
      var r := ParseAtomic(ts[1..], pending);
      if r.Fail? then Fail else ParseIntersection(members + [r.value], r.rest, r.pending)
    else Done(TIntersection(members), ts, pending)
  }

  function ParseUnion(members: seq<TypeExpr>, ts: seq<Token>, pending: nat): (r: Parsed<TypeExpr>)
    requires members != []
    ensures r.Done? ==> |r.rest| <= |ts|
    decreases |ts|, 2
  {
    if At(ts, Pipe) then
      var r := ParseAtomic(ts[1..], pending);
      if r.Fail? then Fail else ParseUnion(members + [r.value], r.rest, r.pending)
    else Done(NormalizeUnion(members), ts, pending)
  }

  /** The arguments after `<`, up to and including the closing bracket. */
  function ParseArguments(args: seq<TypeExpr>, ts: seq<Token>, pending: nat): (r: Parsed<seq<TypeExpr>>)
    ensures r.Done? ==> |r.rest| < |ts|
    decreases |ts|, 4
  {
    var r := ParseNested(ts, pending);
    if r.Fail? then Fail
    else if At(r.rest, Comma) then ParseArguments(args + [r.value], r.rest[1..], r.pending)
    else
      var close := CloseList(r.rest, r.pending);
      if close.Fail? then Fail else Done(args + [r.value], close.rest, close.pending)
  }

  /** The parameters of a callable signature, up to and including the `)`. */
  function ParseParameters(params: seq<TypeExpr>, ts: seq<Token>): (r: Parsed<seq<TypeExpr>>)
    ensures r.Done? ==> |r.rest| < |ts|
    decreases |ts|, 5
  {
    var r := ParseType(ts);
    if r.Fail? then Fail
    else if At(r.rest, Comma) then ParseParameters(params + [r.value], r.rest[1..])
    else if At(r.rest, RParen) then Done(params + [r.value], r.rest[1..], 0)
    else Fail
  }

  function ParseCallable(ts: seq<Token>, pending: nat): (r: Parsed<TypeExpr>)
    ensures r.Done? ==> |r.rest| <= |ts|
    decreases |ts|, 6
  {
    if !At(ts, LParen) then Done(TNamed(Bare("callable")), ts, pending)
    else
      var params := if At(ts[1..], RParen) then Done([], ts[2..], 0) else ParseParameters([], ts[1..]);
      if params.Fail? || !At(params.rest, Colon) then Fail
      else
        var ret := ParseType(params.rest[1..]);
        if ret.Fail? then Fail else Done(TCallable(params.value, ret.value), ret.rest, pending)
  }

  function ParseArray(ts: seq<Token>, pending: nat): (r: Parsed<TypeExpr>)
    ensures r.Done? ==> |r.rest| <= |ts|
    decreases |ts|, 6
  {
    if !At(ts, Less) then Done(TNamed(Bare("array")), ts, pending)
    else
      var first := ParseNested(ts[1..], pending);
      if first.Fail? then Fail
      else if At(first.rest, Comma) then
        var second := ParseNested(first.rest[1..], first.pending);
        if second.Fail? then Fail
        else
          var close := CloseList(second.rest, second.pending);
          if close.Fail? then Fail else Done(TAssoc(first.value, second.value), close.rest, close.pending)
      else
        var close := CloseList(first.rest, first.pending);
        if close.Fail? then Fail else Done(TArray(first.value), close.rest, close.pending)
  }

  function ParseBuffer(ts: seq<Token>, pending: nat): (r: Parsed<TypeExpr>)
    ensures r.Done? ==> |r.rest| <= |ts|
    decreases |ts|, 6
  {
    if !At(ts, Less) then Fail
    else
      var inner := ParseNested(ts[1..], pending);
      if inner.Fail? then Fail
      else
        var close := CloseList(inner.rest, inner.pending);
        if close.Fail? then Fail else Done(TBuffer(inner.value), close.rest, close.pending)
  }

  /** A pointer target up to its closing bracket; a nested pointer becomes part of the name. */
  function ParseTarget(ts: seq<Token>, pending: nat): (r: Parsed<Name>)
    ensures r.Done? ==> |r.rest| < |ts|
    decreases |ts|
  {
    var name := ParseName(ts);
    if name.Fail? then Fail
    else
      var nested := name.value.kind.Unqualified? && (Text(name.value) == "ptr" || Text(name.value) == "pointer")
        && At(name.rest, Less);
      var inner := if nested then ParseTarget(name.rest[1..], pending) else Done(name.value, name.rest, pending);
      if inner.Fail? then Fail
      else
        var target := if nested
          then Bare("ptr<" + (if inner.value.kind.FullyQualified? then "\\" else "") + Text(inner.value) + ">")
          else name.value;
        var close := CloseList(inner.rest, inner.pending);
        if close.Fail? then Fail else Done(target, close.rest, close.pending)
  }

  function ParsePtr(ts: seq<Token>, pending: nat): (r: Parsed<TypeExpr>)
    ensures r.Done? ==> |r.rest| <= |ts|
  {
    if !At(ts, Less) then Done(TPtr(None), ts, pending)
    else
      var target := ParseTarget(ts[1..], pending);
      if target.Fail? then Fail else Done(TPtr(Some(target.value)), target.rest, target.pending)
  }

  function ParseClass(ts: seq<Token>, pending: nat): (r: Parsed<TypeExpr>)
    ensures r.Done? ==> |r.rest| < |ts|
    decreases |ts|, 0
  {
    var name := ParseName(ts);
    if name.Fail? then Fail
    else if !At(name.rest, Less) then Done(TNamed(name.value), name.rest, pending)
    else
      var args := ParseArguments([], name.rest[1..], pending);
      if args.Fail? then Fail else Done(TGeneric(name.value, args.value), args.rest, args.pending)
  }

  /** The built-in words that stand for a type by themselves. */
  function PlainType(lower: string): Option<TypeExpr> {
    if lower == "int" || lower == "integer" then Some(TInt)
    else if lower == "float" || lower == "double" || lower == "real" then Some(TFloat)
    else if lower == "bool" || lower == "boolean" then Some(TBool)
    else if lower == "string" then Some(TStr)
    else if lower == "void" then Some(TVoid)
    else if lower == "never" then Some(TNever)
    else if lower == "iterable" then Some(TIterable)
    else if lower == "mixed" then Some(TNamed(Bare("mixed")))
    else if lower == "object" then Some(TNamed(Bare("object")))
    else None
  }

  /** One type that is no union, intersection or nullable shorthand. */
  function ParseAtomic(ts: seq<Token>, pending: nat): (r: Parsed<TypeExpr>)
    ensures r.Done? ==> |r.rest| < |ts|
    decreases |ts|, 2
  {
    if ts == [] then Fail
    else
      match ts[0]
      case NullWord => Done(TVoid, ts[1..], pending)
      case FalseWord => Done(TFalse, ts[1..], pending)
      case TrueWord => Done(TBool, ts[1..], pending)
      case SelfWord => Done(TNamed(Bare("self")), ts[1..], pending)
      case StaticWord => Done(TNamed(Bare("static")), ts[1..], pending)
      case ParentWord => Done(TNamed(Bare("parent")), ts[1..], pending)
      case Backslash => ParseClass(ts, pending)
      case Soft(_) => ParseClass(ts, pending)
      case Ident(text) => if At(ts[1..], Backslash) then ParseClass(ts, pending) else ParseWord(text, ts, pending)
      case _ => Fail
  }

  /** An unqualified word: a built-in type, or else a class. */
  function ParseWord(text: string, ts: seq<Token>, pending: nat): (r: Parsed<TypeExpr>)
    requires ts != []
    ensures r.Done? ==> |r.rest| < |ts|
    decreases |ts|, 1
  {
    var lower := LowerAll(text);
    var plain := PlainType(lower);
    if plain.Some? then Done(plain.value, ts[1..], pending)
    else if lower == "array" then ParseArray(ts[1..], pending)
    else if lower == "callable" then ParseCallable(ts[1..], pending)
    else if text == "ptr" || text == "pointer" then ParsePtr(ts[1..], pending)
    else if text == "buffer" then ParseBuffer(ts[1..], pending)
    else ParseClass(ts, pending)
  }

  // ---- decode_instantiated_type ----

  /** Reads an instantiated class name back: the whole name must be one type. */
  function Decode(name: string): Option<TypeExpr> {
    var r := ParseType(Tokens(Lex(name + ";"), true));
    if r.Done? && At(r.rest, Semicolon) then Some(r.value) else None
  }

  /** An ordinary class name, without `<`, denotes nothing. */
  function InstantiatedType(name: string): Option<TypeExpr> {
    if '<' in name then Decode(name) else None
  }
}
