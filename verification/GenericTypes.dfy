/** The type syntax of the generics pass and the names it prints for instantiations. */
module GenericTypes {
  import opened Wrappers

  datatype NameKind = Unqualified | Qualified | FullyQualified

  /** A PHP name, segment by segment. */
  datatype Name = Name(kind: NameKind, parts: seq<string>)

  function Bare(text: string): Name {
    Name(Unqualified, [text])
  }

  function Join(parts: seq<string>, separator: string): string {
    if parts == [] then ""
    else if |parts| == 1 then parts[0]
    else parts[0] + separator + Join(parts[1..], separator)
  }

  /** The `\`-separated segments of a text. */
  function Split(s: string): (r: seq<string>)
    ensures r != []
  {
    if s == "" then [""]
    else if s[0] == '\\' then [""] + Split(s[1..])
    else
      var more := Split(s[1..]);
      [[s[0]] + more[0]] + more[1..]
  }

  /** The canonical backslash-joined spelling. */
  function Text(n: Name): string {
    Join(n.parts, "\\")
  }

  /** The C widths a pointer may address. */
  predicate IsCWidth(text: string) {
    || text == "i8" || text == "u8" || text == "i16" || text == "u16" || text == "i32" || text == "u32"
    || text == "i64" || text == "u64" || text == "f32" || text == "f64"
  }

  datatype TypeExpr =
    | TInt | TFloat | TBool | TFalse | TStr | TVoid | TNever | TIterable
    | TArray(elem: TypeExpr)
    | TAssoc(key: TypeExpr, value: TypeExpr)
    | TPtr(target: Option<Name>)
    | TBuffer(elem: TypeExpr)
    | TNamed(name: Name)
    | TGeneric(name: Name, args: seq<TypeExpr>)
    | TCallable(params: seq<TypeExpr>, ret: TypeExpr)
    | TNullable(inner: TypeExpr)
    | TUnion(members: seq<TypeExpr>)
    | TIntersection(members: seq<TypeExpr>)

  /** A leading root is printed only where it tells a class apart from a C width. */
  predicate Rooted(n: Name) {
    !n.kind.Unqualified? && IsCWidth(Text(n))
  }

  function Spelling(n: Name): string {
    if Rooted(n) then "\\" + Text(n) else Text(n)
  }

  /** The canonical spelling of a type. */
  function Describe(t: TypeExpr): string
    decreases t
  {
    match t
    case TInt => "int"
    case TFloat => "float"
    case TStr => "string"
    case TBool => "bool"
    case TFalse => "false"
    case TVoid => "null"
    case TNever => "never"
    case TIterable => "iterable"
    case TCallable(params, ret) => "callable" + "(" + DescribeAll(params, ", ") + ")" + ": " + Describe(ret)
    case TNamed(n) => Spelling(n)
    case TArray(e) => "array" + "<" + Describe(e) + ">"
    case TAssoc(k, v) => "array" + "<" + (Describe(k) + ", " + Describe(v)) + ">"
    case TBuffer(e) => "buffer" + "<" + Describe(e) + ">"
    case TGeneric(n, args) => Text(n) + "<" + DescribeAll(args, ", ") + ">"
    case TNullable(e) => "?" + Describe(e)
    case TPtr(None) => "ptr"
    case TPtr(Some(n)) => "ptr" + "<" + Spelling(n) + ">"
    case TUnion(ms) => DescribeAll(ms, "|")
    case TIntersection(ms) => DescribeAll(ms, "&")
  }

  function DescribeAll(ts: seq<TypeExpr>, separator: string): string
    decreases ts
  {
    if ts == [] then ""
    else if |ts| == 1 then Describe(ts[0])
    else Describe(ts[0]) + separator + DescribeAll(ts[1..], separator)
  }

  /** The name of one instantiation of a template, e.g. `identity<int>`. */
  function InstantiatedName(base: string, args: seq<TypeExpr>): string {
    base + "<" + DescribeAll(args, ", ") + ">"
  }
}
