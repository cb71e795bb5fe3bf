/** What the pretty-printer writes, form by form: which types read as functions,
    tuples, byrefs and pointers, where names and arguments go, and where
    parentheses stand. */
module DisplayLaws {
  import opened Signatures
  import opened SegmentArgs
  import opened TypeSyntax
  import opened Text
  import opened Display

  // ---- which tree a type reads as ----

  ghost predicate SystemTuple(n: TypeName) {
    Join(n.namespace, ".") == "System" && (n.name == "Tuple" || n.name == "ValueTuple")
  }

  ghost predicate FSharpFunction(n: TypeName) {
    Join(n.namespace, ".") == "Microsoft.FSharp.Core" && n.name == "FSharpFunc"
  }

  lemma SystemIsNotFSharp()
    ensures "System" != "Microsoft.FSharp.Core" && "Tuple" != "ValueTuple"
  {
    assert "System"[0] != "Microsoft.FSharp.Core"[0] && "Tuple"[0] != "ValueTuple"[0];
  }

  lemma SystemTupleIsTuple(n: TypeName)
    ensures SystemTuple(n) <==> TupleKind(n).Some?
    ensures SystemTuple(n) ==> !IsFunc(n) && TupleKind(n).value == (n.name == "ValueTuple")
  {
    SystemIsNotFSharp();
  }

  /** Arguments are shown each in its place. */
  lemma {:induction false} EachShows(sp: Spelling, args: seq<NullableType>, i: nat)
    requires i < |args|
    ensures ShowAll(sp, args)[i] == ShowNullable(sp, args[i])
    decreases |args|
  {
    if i > 0 { EachShows(sp, args[1..], i - 1); }
  }

  /** A tuple reads as its flattened elements, a value tuple as a struct one. */
  lemma TupleShows(sp: Spelling, n: TypeName, args: Vec<NullableType>)
    requires SystemTuple(n) && |args| >= 2
    ensures Show(sp, NamedRef(n, args)) == Tuple(n.name == "ValueTuple", ShowAll(sp, FlattenTuple(args)))
  {
    SystemTupleIsTuple(n);
    ElemsAreFlattened(sp, args);
  }

  /** So an F# tuple of any width shows as one flat tuple. */
  lemma TupleShowsFlat(sp: Spelling, n: TypeName, elems: seq<NullableType>)
    requires SystemTuple(n) && |elems| >= 2
    ensures Show(sp, Nest(n, elems)) == Tuple(n.name == "ValueTuple", ShowAll(sp, elems))
  {
    SystemTupleIsTuple(n);
    FlattenUndoesNest(n, elems);
    TupleShows(sp, n, Nest(n, elems).args);
  }

  /** Only a tuple in the eighth and last slot is flattened. */
  lemma FlattenLeavesAlone(args: seq<NullableType>)
    requires |args| != 8 || !args[7].ty.NamedRef? || !SystemTuple(args[7].ty.name)
    ensures FlattenTuple(args) == args
  {
    if |args| == 8 && args[7].ty.NamedRef? { SystemTupleIsTuple(args[7].ty.name); }
  }

  /** An F# function reads as an arrow from its first argument to its second. */
  lemma FunctionShows(sp: Spelling, n: TypeName, from: NullableType, to: NullableType)
    requires FSharpFunction(n)
    ensures Show(sp, NamedRef(n, [from, to])) == Fun(ShowNullable(sp, from), ShowNullable(sp, to))
  {
    EachShows(sp, [from, to], 1);
  }

  /** Byrefs, pointers and arrays. */
  lemma ConstructorsShow(sp: Spelling, t: TypeRef)
    ensures Show(sp, ByRefRef(t, true)) == Path([Seg("inref", [Show(sp, t)])])
    ensures Show(sp, ByRefRef(t, false)) == Path([Seg("byref", [Show(sp, t)])])
    ensures Show(sp, PtrRef(t)) == Path([Seg("nativeptr", [Show(sp, t)])])
    ensures Show(sp, VoidPtrRef) == Path([Seg("voidptr", [])])
  {
  }

  /** A rank is shown by one comma less, and a rank of 0 like a rank of 1;
      bounds are not shown. */
  lemma ArrayShows(sp: Spelling, e: NullableType, rank: nat, sizes: seq<nat>, lows: seq<int>)
    ensures var s := Show(sp, ArrayRef(e, rank, sizes, lows));
      && s.ArrayOf? && s.elem == ShowNullable(sp, e)
      && (rank >= 1 ==> s.commas + 1 == rank) && (rank == 0 ==> s.commas == 0)
  {
  }

  lemma LeavesShow(sp: Spelling, p: Primitive, i: nat, isMethod: bool)
    ensures Show(sp, PrimRef(p)) == Path([Seg(sp.primitive(p), [])])
    ensures Show(sp, Var(i, isMethod)) == Path([Seg(sp.typar(i, isMethod), [])])
  {
  }

  /** `layers` byrefs around a type that is none. */
  function ByRefs(layers: seq<bool>, t: TypeRef): TypeRef {
    if layers == [] then t else ByRefRef(ByRefs(layers[1..], t), layers[0])
  }

  function Tycons(layers: seq<bool>, s: Shown): Shown {
    if layers == [] then s else Path([Seg(if layers[0] then "inref" else "byref", [Tycons(layers[1..], s)])])
  }

  /** An annotation puts its mark inside every byref around the type; the other
      two states put none. */
  lemma {:induction false} AnnotationShows(sp: Spelling, layers: seq<bool>, t: TypeRef)
    requires !t.ByRefRef?
    ensures ShowNullable(sp, Nullable(ByRefs(layers, t), Annotated)) == Tycons(layers, Maybe(Show(sp, t)))
    ensures forall n :: n != Annotated ==>
      ShowNullable(sp, Nullable(ByRefs(layers, t), n)) == Tycons(layers, Show(sp, t))
    decreases |layers|
  {
    if layers != [] {
      AnnotationShows(sp, layers[1..], t);
      var inner := ByRefs(layers[1..], t);
      assert ShowNullable(sp, Nullable(inner, Annotated)) == ShowAnnotated(sp, inner);
      assert ShowNullable(sp, Nullable(inner, Oblivious)) == Show(sp, inner);
    }
  }

  /** A type that is none of these shows under its name: alone, behind its one
      argument, or in front of its two or more in angle brackets. */
  lemma NameShows(sp: Spelling, n: TypeName, args: Vec<NullableType>)
    requires !(FSharpFunction(n) && |args| == 2) && !(SystemTuple(n) && |args| >= 2)
    requires !('/' in n.name && |n.arities| == |Split(n.name, '/')| && Sum(n.arities) == |args|)
    ensures var s, name := Show(sp, NamedRef(n, args)), ShownName(sp, n);
      && (|args| == 0 ==> s.Path? && Bare(s.segs, name))
      && (|args| == 1 ==> s == Postfix(ShowNullable(sp, args[0]), name))
      && (|args| >= 2 ==>
          && s.Path? && |s.segs| == |name| && Bare(s.segs[..|name| - 1], name[..|name| - 1])
          && s.segs[|name| - 1] == Seg(name[|name| - 1], ShowAll(sp, args)))
  {
    SystemTupleIsTuple(n);
    GuardIsExact(|Split(n.name, '/')|, n.arities, |args|);
  }

  /** An abbreviation, or each segment of the name as F# spells it. */
  function ShownName(sp: Spelling, n: TypeName): (r: seq<string>)
    ensures r != []
  {
    var segments := Split(n.name, '/');
    if sp.abbreviation(Join(n.namespace, "."), n.name).Some?
      then [sp.abbreviation(Join(n.namespace, "."), n.name).value]
      else seq(|segments|, i requires 0 <= i < |segments| => sp.name(segments[i]))
  }

  ghost predicate Bare(segs: seq<Seg>, name: seq<string>) {
    |segs| == |name| && forall i :: 0 <= i < |segs| ==> segs[i] == Seg(name[i], [])
  }

  /** A nested name whose arities account for its arguments shows each argument
      on the segment that declares it. */
  lemma NestedShows(sp: Spelling, n: TypeName, args: Vec<NullableType>)
    requires '/' in n.name && |n.arities| == |Split(n.name, '/')| && Sum(n.arities) == |args|
    ensures var s, names := Show(sp, NamedRef(n, args)), Split(n.name, '/');
      && s.Path? && |s.segs| == |names|
      && forall i :: 0 <= i < |names| ==>
           s.segs[i] == Seg(sp.name(names[i]), Slices(n.arities, ShowAll(sp, args))[i])
  {
    NestedNameIsPlain(n);
    GuardIsExact(|Split(n.name, '/')|, n.arities, |args|);
  }

  // ---- how a tree is written ----

  /** Parts with a token between each two. */
  function Between(parts: seq<seq<Token>>, sep: Token): seq<Token> {
    if parts == [] then []
    else if |parts| == 1 then parts[0]
    else parts[0] + [sep] + Between(parts[1..], sep)
  }

  /** In front of an arrow or a postfix name, and in a tuple: a function alone
      needs parentheses. */
  function BehindStar(s: Shown): seq<Token> {
    if s.Fun? then [LParen] + Print(s) + [RParen] else Print(s)
  }

  /** In front of brackets and of a question mark: a postfix application needs
      them too. */
  function BeforeSuffix(s: Shown): seq<Token> {
    if s.Fun? || s.Postfix? then [LParen] + Print(s) + [RParen] else Print(s)
  }

  function Idents(name: seq<string>): (r: seq<seq<Token>>)
    ensures |r| == |name|
  {
    seq(|name|, i requires 0 <= i < |name| => [Ident(name[i])])
  }

  function Elements(es: seq<Shown>): (r: seq<seq<Token>>)
    ensures |r| == |es|
  {
    seq(|es|, i requires 0 <= i < |es| => BehindStar(es[i]))
  }

  function Texts(es: seq<Shown>): (r: seq<seq<Token>>)
    ensures |r| == |es|
  {
    seq(|es|, i requires 0 <= i < |es| => Print(es[i]))
  }

  /** Parentheses stand exactly there. */
  lemma Parenthesises(a: Shown, b: Shown, name: seq<string>, n: nat)
    ensures Print(Fun(a, b)) == BehindStar(a) + [Arrow] + Print(b)
    ensures Print(Postfix(a, name)) == BehindStar(a) + Between(Idents(name), Dot)
    ensures Print(Maybe(a)) == BeforeSuffix(a) + [Question]
    ensures Print(ArrayOf(a, n)) == BeforeSuffix(a) + ([LBracket] + seq(n, _ => Comma) + [RBracket])
  {
    NameIsDotted(name);
    CommasAre(n);
  }

  lemma {:induction false} NameIsDotted(name: seq<string>)
    ensures PrintName(name) == Between(Idents(name), Dot)
    decreases |name|
  {
    if |name| > 1 {
      NameIsDotted(name[1..]);
      assert Idents(name)[1..] == Idents(name[1..]);
    }
  }

  lemma {:induction false} CommasAre(n: nat)
    ensures Commas(n) == seq(n, _ => Comma)
  {
    if n > 0 { CommasAre(n - 1); }
  }

  /** A tuple's elements stand between stars in parentheses of its own. */
  lemma TuplePrints(isStruct: bool, es: seq<Shown>)
    ensures Print(Tuple(isStruct, es))
      == (if isStruct then [Struct] else []) + ([LParen] + Between(Elements(es), Star) + [RParen])
  {
    ElemsAreStarred(es);
  }

  lemma {:induction false} ElemsAreStarred(es: seq<Shown>)
    ensures PrintElems(es) == Between(Elements(es), Star)
    decreases |es|
  {
    if |es| > 1 {
      ElemsAreStarred(es[1..]);
      assert Elements(es)[1..] == Elements(es[1..]);
    }
  }

  /** Arguments stand between commas in angle brackets behind their segment. */
  function Segment(g: Seg): seq<Token> {
    [Ident(g.name)] +
    if g.args == [] then []
    else [LAngle] + Between(Texts(g.args), Comma) + [RAngle]
  }

  function Segments(segs: seq<Seg>): (r: seq<seq<Token>>)
    ensures |r| == |segs|
  {
    seq(|segs|, i requires 0 <= i < |segs| => Segment(segs[i]))
  }

  lemma PathPrints(segs: seq<Seg>)
    ensures Print(Path(segs)) == Between(Segments(segs), Dot)
  {
    SegsAreDotted(segs);
  }

  lemma {:induction false} SegsAreDotted(segs: seq<Seg>)
    ensures PrintSegs(segs) == Between(Segments(segs), Dot)
    decreases |segs|
  {
    if segs != [] {
      ArgsAreListed(segs[0].args);
      assert PrintSeg(segs[0]) == Segment(segs[0]);
    }
    if |segs| > 1 {
      SegsAreDotted(segs[1..]);
      assert Segments(segs)[1..] == Segments(segs[1..]);
    }
  }

  lemma {:induction false} ArgsAreListed(es: seq<Shown>)
    ensures PrintArgs(es) == Between(Texts(es), Comma)
    decreases |es|
  {
    if |es| > 1 {
      ArgsAreListed(es[1..]);
      assert Texts(es)[1..] == Texts(es[1..]);
    }
  }
}
