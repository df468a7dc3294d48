/** The bridge between the compiler's type expressions and the shared generic terms. */
module GenericSharing {
  import opened Wrappers
  import opened GenericTypes
  import opened GenericTerms

  // ---- the conversions ----

  /** The printed name of a type that has no parts. */
  function LeafName(t: TypeExpr): string {
    match t
    case TInt => "int"
    case TFloat => "float"
    case TStr => "string"
    case TBool => "bool"
    case TFalse => "false"
    case TVoid => "null"
    case TNever => "never"
    case TIterable => "iterable"
    case TNamed(n) => Spelling(n)
    case _ => "ptr"
  }

  function ToShared(t: TypeExpr): Term
    decreases t
  {
    match t
    case TArray(e) => Apply("array", [ToShared(e)])
    case TAssoc(k, v) => Apply("array", [ToShared(k), ToShared(v)])
    case TPtr(Some(n)) => Apply("ptr", [Atom(Spelling(n))])
    case TBuffer(e) => Apply("buffer", [ToShared(e)])
    case TGeneric(n, args) => Apply(Text(n), ToSharedAll(args))
    case TNullable(e) => Nullable(ToShared(e))
    case TUnion(ms) => Union(ToSharedAll(ms))
    case TIntersection(ms) => Intersection(ToSharedAll(ms))
    case TCallable(params, ret) => Callable(ToSharedAll(params), ToShared(ret))
    case _ => Atom(LeafName(t))
  }

  function ToSharedAll(ts: seq<TypeExpr>): (r: seq<Term>)
    ensures |r| == |ts|
    decreases ts
  {
    if ts == [] then [] else [ToShared(ts[0])] + ToSharedAll(ts[1..])
  }

  predicate HasRoot(s: string) {
    s != "" && s[0] == '\\'
  }

  function TrimRoots(s: string): string {
    if HasRoot(s) then TrimRoots(s[1..]) else s
  }

  function NamedOf(name: string): TypeExpr {
    if name == "int" then TInt
    else if name == "float" then TFloat
    else if name == "string" then TStr
    else if name == "bool" then TBool
    else if name == "false" then TFalse
    else if name == "null" then TVoid
    else if name == "ptr" then TPtr(None)
    else if name == "never" then TNever
    else if name == "iterable" then TIterable
    else if HasRoot(name) then TNamed(Name(FullyQualified, Split(TrimRoots(name))))
    else TNamed(Bare(name))
  }

  function TargetOf(target: string): Name {
    if HasRoot(target) then Name(FullyQualified, Split(target[1..])) else Bare(target)
  }

  function AppliedTo(head: string, args: seq<TypeExpr>): TypeExpr {
    if head == "array" && |args| == 1 then TArray(args[0])
    else if head == "array" && |args| == 2 then TAssoc(args[0], args[1])
    else if head == "buffer" && |args| == 1 then TBuffer(args[0])
    else TGeneric(Bare(head), args)
  }

  function FromShared(t: Term): TypeExpr
    decreases t
  {
    match t
    case Atom(name) => NamedOf(name)
    case Apply(head, args) =>
      if head == "ptr" && |args| == 1 then TPtr(Some(TargetOf(Show(args[0])))) else AppliedTo(head, FromSharedAll(args))
    case Nullable(inner) => TNullable(FromShared(inner))
    case Union(ms) => TUnion(FromSharedAll(ms))
    case Intersection(ms) => TIntersection(FromSharedAll(ms))
    case Callable(params, ret) => TCallable(FromSharedAll(params), FromShared(ret))
  }

  function FromSharedAll(ts: seq<Term>): (r: seq<TypeExpr>)
    ensures |r| == |ts|
    decreases ts
  {
    if ts == [] then [] else [FromShared(ts[0])] + FromSharedAll(ts[1..])
  }

  /** The spelling of a shared term. */
  function Show(t: Term): string
    decreases t
  {
    match t
    case Atom(name) => name
    case Apply(head, args) => head + "<" + ShowAll(args, ", ") + ">"
    case Nullable(inner) => "?" + Show(inner)
    case Union(ms) => ShowAll(ms, "|")
    case Intersection(ms) => ShowAll(ms, "&")
    case Callable(params, ret) => "callable" + "(" + ShowAll(params, ", ") + ")" + ": " + Show(ret)
  }

  function ShowAll(ts: seq<Term>, separator: string): string
    decreases ts
  {
    if ts == [] then ""
    else if |ts| == 1 then Show(ts[0])
    else Show(ts[0]) + separator + ShowAll(ts[1..], separator)
  }

  /** Both vocabularies print one identity. */
  lemma {:induction false} SharedSpelling(t: TypeExpr)
    ensures Show(ToShared(t)) == Describe(t)
    decreases t, 0
  {
    match t
    case TArray(e) => SharedSpelling(e); ShowOne(ToShared(e));
    case TAssoc(k, v) => SharedSpelling(k); SharedSpelling(v); ShowTwo(ToShared(k), ToShared(v));
    case TPtr(Some(n)) => ShowOne(Atom(Spelling(n)));
    case TPtr(None) =>
    case TBuffer(e) => SharedSpelling(e); ShowOne(ToShared(e));
    case TGeneric(_, args) => SharedSpellings(args, ", ");
    case TNullable(e) => SharedSpelling(e);
    case TUnion(ms) => SharedSpellings(ms, "|");
    case TIntersection(ms) => SharedSpellings(ms, "&");
    case TCallable(params, ret) => SharedSpellings(params, ", "); SharedSpelling(ret);
    case _ =>
  }

  lemma ShowOne(a: Term)
    ensures ShowAll([a], ", ") == Show(a)
  {
  }

  lemma ShowTwo(a: Term, b: Term)
    ensures ShowAll([a, b], ", ") == Show(a) + ", " + Show(b)
  {
    assert [a, b][1..] == [b];
  }

  lemma {:induction false} SharedSpellings(ts: seq<TypeExpr>, separator: string)
    ensures ShowAll(ToSharedAll(ts), separator) == DescribeAll(ts, separator)
    decreases ts, 0
  {
    if ts != [] {
      SharedSpelling(ts[0]);
      SharedSpellings(ts[1..], separator);
      assert ToSharedAll(ts)[1..] == ToSharedAll(ts[1..]);
    }
  }

  // ---- where the conversions are inverse ----

  /** A name the shared vocabulary keeps: rooted only to tell a class from a C width. */
  predicate KeptName(s: string) {
    HasRoot(s) ==> IsCWidth(s[1..])
  }

  predicate Proper(t: Term)
    decreases t
  {
    match t
    case Atom(name) => KeptName(name)
    case Apply(head, args) => ProperAll(args) && (head == "ptr" && |args| == 1 ==> args[0].Atom?)
    case Nullable(inner) => Proper(inner)
    case Union(ms) => ProperAll(ms)
    case Intersection(ms) => ProperAll(ms)
    case Callable(params, ret) => ProperAll(params) && Proper(ret)
  }

  predicate ProperAll(ts: seq<Term>)
    decreases ts
  {
    ts == [] || (Proper(ts[0]) && ProperAll(ts[1..]))
  }

  lemma WidthHasNoSeparator(w: string)
    requires IsCWidth(w)
    ensures !HasRoot(w) && Split(w) == [w]
  {
    if |w| == 2 {
      SplitPlain(w);
    } else {
      SplitPlain(w);
    }
  }

  lemma {:induction false} SplitPlain(w: string)
    requires forall i | 0 <= i < |w| :: w[i] != '\\'
    ensures Split(w) == [w]
  {
    if w != "" {
      SplitPlain(w[1..]);
      assert w == [w[0]] + w[1..];
    }
  }

  lemma RootedWidth(s: string)
    requires HasRoot(s) && IsCWidth(s[1..])
    ensures TrimRoots(s) == s[1..] && Split(s[1..]) == [s[1..]]
    ensures Spelling(Name(FullyQualified, [s[1..]])) == s
  {
    WidthHasNoSeparator(s[1..]);
    assert s == "\\" + s[1..];
  }

  /** The names the shared vocabulary gives to built-in types. */
  predicate IsBuiltInAtom(name: string) {
    || name == "int" || name == "float" || name == "string" || name == "bool" || name == "false" || name == "null"
    || name == "ptr" || name == "never" || name == "iterable"
  }

  lemma BuiltInAtomBack(name: string)
    requires IsBuiltInAtom(name)
    ensures ToShared(NamedOf(name)) == Atom(name)
  {
  }

  lemma ClassAtomBack(name: string)
    requires !IsBuiltInAtom(name) && !HasRoot(name)
    ensures NamedOf(name) == TNamed(Bare(name)) && ToShared(TNamed(Bare(name))) == Atom(name)
  {
    assert Text(Bare(name)) == name;
  }

  lemma WidthAtomBack(name: string)
    requires HasRoot(name) && IsCWidth(name[1..])
    ensures NamedOf(name) == TNamed(Name(FullyQualified, [name[1..]])) && ToShared(NamedOf(name)) == Atom(name)
  {
    RootedWidth(name);
    RootIsNoBuiltIn(name);
  }

  lemma RootIsNoBuiltIn(name: string)
    requires HasRoot(name)
    ensures !IsBuiltInAtom(name)
  {
  }

  lemma NamedOfBack(name: string)
    requires KeptName(name)
    ensures ToShared(NamedOf(name)) == Atom(name)
  {
    if HasRoot(name) {
      WidthAtomBack(name);
    } else if IsBuiltInAtom(name) {
      BuiltInAtomBack(name);
    } else {
      ClassAtomBack(name);
    }
  }

  lemma TargetOfBack(target: string)
    requires KeptName(target)
    ensures Spelling(TargetOf(target)) == target
  {
    if HasRoot(target) {
      RootedWidth(target);
    }
  }

  /** A proper shared term survives the way to the compiler and back. */
  lemma {:induction false} FromSharedBack(t: Term)
    requires Proper(t)
    ensures ToShared(FromShared(t)) == t
    decreases t
  {
    match t
    case Atom(name) => NamedOfBack(name);
    case Apply(head, args) =>
      if head == "ptr" && |args| == 1 {
        assert Proper(args[0]);
        PointerBack(args[0].name);
        assert args == [args[0]];
      } else {
        FromSharedAllBack(args);
        ApplyBack(head, FromSharedAll(args));
      }
    case Nullable(inner) => FromSharedBack(inner);
    case Union(ms) => FromSharedAllBack(ms);
    case Intersection(ms) => FromSharedAllBack(ms);
    case Callable(params, ret) => FromSharedAllBack(params); FromSharedBack(ret);
  }

  lemma PointerBack(target: string)
    requires KeptName(target)
    ensures ToShared(TPtr(Some(TargetOf(target)))) == Apply("ptr", [Atom(target)])
  {
    TargetOfBack(target);
  }

  lemma ToSharedShort(ts: seq<TypeExpr>)
    ensures |ts| == 1 ==> ToSharedAll(ts) == [ToShared(ts[0])]
    ensures |ts| == 2 ==> ToSharedAll(ts) == [ToShared(ts[0]), ToShared(ts[1])]
  {
    if |ts| == 2 {
      assert ts[1..] == [ts[1]];
    }
  }

  lemma GenericBack(head: string, args: seq<TypeExpr>)
    ensures ToShared(TGeneric(Bare(head), args)) == Apply(head, ToSharedAll(args))
  {
    assert Text(Bare(head)) == head;
  }

  lemma ArrayBack(args: seq<TypeExpr>)
    requires |args| == 1
    ensures ToShared(TArray(args[0])) == Apply("array", ToSharedAll(args))
  {
    ToSharedShort(args);
  }

  lemma AssocBack(args: seq<TypeExpr>)
    requires |args| == 2
    ensures ToShared(TAssoc(args[0], args[1])) == Apply("array", ToSharedAll(args))
  {
    ToSharedShort(args);
  }

  lemma BufferBack(args: seq<TypeExpr>)
    requires |args| == 1
    ensures ToShared(TBuffer(args[0])) == Apply("buffer", ToSharedAll(args))
  {
    ToSharedShort(args);
    BufferTerm(args[0]);
  }

  lemma BufferTerm(e: TypeExpr)
    ensures ToShared(TBuffer(e)) == Apply("buffer", [ToShared(e)])
  {
  }

  lemma ApplyBack(head: string, args: seq<TypeExpr>)
    ensures ToShared(AppliedTo(head, args)) == Apply(head, ToSharedAll(args))
  {
    GenericBack(head, args);
    if |args| == 1 {
      ArrayBack(args);
      BufferBack(args);
    } else if |args| == 2 {
      AssocBack(args);
    }
  }

  lemma SharedCons(x: TypeExpr, xs: seq<TypeExpr>)
    ensures ToSharedAll([x] + xs) == [ToShared(x)] + ToSharedAll(xs)
  {
    assert ([x] + xs)[1..] == xs;
  }

  lemma {:induction false} FromSharedAllBack(ts: seq<Term>)
    requires ProperAll(ts)
    ensures ToSharedAll(FromSharedAll(ts)) == ts
    decreases ts
  {
    if ts != [] {
      FromSharedBack(ts[0]);
      FromSharedAllBack(ts[1..]);
      SharedCons(FromShared(ts[0]), FromSharedAll(ts[1..]));
      assert ts == [ts[0]] + ts[1..];
    }
  }

  /** A type expression the shared vocabulary can carry without losing its form. */
  predicate Kept(t: TypeExpr) {
    FromShared(ToShared(t)) == t && Proper(ToShared(t))
  }

  /** What comes back from a proper term can go there again. */
  lemma FromSharedIsKept(t: Term)
    requires Proper(t)
    ensures Kept(FromShared(t))
  {
    FromSharedBack(t);
  }
}
