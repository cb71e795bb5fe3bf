/** The F# pretty-printer for types: precedence-driven parentheses, arrows,
    flattened tuples, postfix generics and nested names, as token sequences. */
module Display {
  import opened Options
  import opened Signatures
  import opened SegmentArgs
  import opened TypeSyntax
  import opened Text
  import DocIds

  /** The printer's tables: how F# spells an identifier, which well-known types
      it abbreviates, and the names of primitives and type parameters in scope. */
  datatype Spelling = Spelling(
    name: string -> string,
    abbreviation: (string, string) -> Option<string>,
    primitive: Primitive -> string,
    typar: (nat, bool) -> string)

  datatype Rendered = Rendered(tokens: seq<Token>, prec: Prec)

  function Wrap(min: Prec, r: Rendered): seq<Token> {
    if Looser(r.prec, min) then Paren(r.tokens) else r.tokens
  }

  function ByrefTycon(readonly: bool): string { if readonly then "inref" else "byref" }

  function Dotted(namespace: seq<string>): string { Join(namespace, ".") }

  predicate IsFunc(n: TypeName) { Dotted(n.namespace) == "Microsoft.FSharp.Core" && n.name == "FSharpFunc" }

  /** `tuple_kind`: `Some(true)` for `System.ValueTuple`. */
  function TupleKind(n: TypeName): Option<bool> {
    if Dotted(n.namespace) != "System" then None
    else if n.name == "ValueTuple" then Some(true)
    else if n.name == "Tuple" then Some(false)
    else None
  }

  predicate IsTuple(t: TypeRef) { t.NamedRef? && TupleKind(t.name).Some? }

  /** The name a type is displayed under outside the distributing branch. */
  function DisplayName(sp: Spelling, n: TypeName): (r: seq<string>)
    ensures r != []
  {
    match sp.abbreviation(Dotted(n.namespace), n.name)
    case Some(a) => [a]
    case None => SpellAll(sp, Split(n.name, '/'))
  }

  function SpellAll(sp: Spelling, names: seq<string>): (r: seq<string>)
    ensures |r| == |names|
  {
    seq(|names|, i requires 0 <= i < |names| => sp.name(names[i]))
  }

  /** Whether `render_nested` is asked, and answers. */
  predicate Nests(n: TypeName, args: nat) {
    '/' in n.name && Distributable(|Split(n.name, '/')|, n.arities, args)
  }

  // ---- tokens of lists ----

  function Stars(rs: seq<Rendered>): seq<Token> {
    if rs == [] then []
    else if |rs| == 1 then Wrap(PostfixPrec, rs[0])
    else Wrap(PostfixPrec, rs[0]) + [Star] + Stars(rs[1..])
  }

  function CommaList(rs: seq<Rendered>): seq<Token> {
    if rs == [] then []
    else if |rs| == 1 then rs[0].tokens
    else rs[0].tokens + [Comma] + CommaList(rs[1..])
  }

  function SegTokens(name: string, args: seq<Rendered>): seq<Token> {
    [Ident(name)] + (if args == [] then [] else [LAngle] + CommaList(args) + [RAngle])
  }

  function SegsTokens(names: seq<string>, slices: seq<seq<Rendered>>): seq<Token>
    requires |names| == |slices|
  {
    if names == [] then []
    else if |names| == 1 then SegTokens(names[0], slices[0])
    else SegTokens(names[0], slices[0]) + [Dot] + SegsTokens(names[1..], slices[1..])
  }

  // ---- the printer ----

  function Render(sp: Spelling, t: TypeRef): Rendered
    decreases t, 0
  {
    match t
    case PrimRef(p) => Rendered([Ident(sp.primitive(p))], AtomPrec)
    case Var(i, isMethod) => Rendered([Ident(sp.typar(i, isMethod))], AtomPrec)
    case ArrayRef(e, rank, _, _) =>
      Rendered(Wrap(AtomPrec, RenderNullable(sp, e)) + Brackets(if rank == 0 then 0 else rank - 1), AtomPrec)
    case ByRefRef(i, readonly) => Rendered(SegTokens(ByrefTycon(readonly), [Render(sp, i)]), AtomPrec)
    case PtrRef(p) => Rendered(SegTokens("nativeptr", [Render(sp, p)]), AtomPrec)
    case VoidPtrRef => Rendered([Ident("voidptr")], AtomPrec)
    case NamedRef(n, args) =>
      if IsFunc(n) && |args| == 2 then
        var rs := RenderAll(sp, args);
        Rendered(Wrap(PostfixPrec, rs[0]) + [Arrow] + rs[1].tokens, ArrowPrec)
      else if TupleKind(n).Some? && |args| >= 2 then
        Rendered((if TupleKind(n).value then [Struct] else []) + Paren(Stars(RenderElems(sp, args))), AtomPrec)
      else
        RenderPlain(sp, n, RenderAll(sp, args))
  }

  /** The rest of `render_named`, once its arguments are rendered. */
  function RenderPlain(sp: Spelling, n: TypeName, rs: Vec<Rendered>): Rendered {
    if Nests(n, |rs|) then
      GuardIsExact(|Split(n.name, '/')|, n.arities, |rs|);
      Rendered(SegsTokens(SpellAll(sp, Split(n.name, '/')), Slices(n.arities, rs)), AtomPrec)
    else
      var display := DisplayName(sp, n);
      if |rs| == 0 then Rendered(PrintName(display), AtomPrec)
      else if |rs| == 1 then Rendered(Wrap(PostfixPrec, rs[0]) + PrintName(display), PostfixPrec)
      else Rendered(PrintName(display) + [LAngle] + CommaList(rs) + [RAngle], AtomPrec)
  }

  /** `render_nullable`. */
  function RenderNullable(sp: Spelling, n: NullableType): Rendered
    decreases n, 0
  {
    if n.nullability == Annotated then RenderAnnotated(sp, n.ty) else Render(sp, n.ty)
  }

  /** The `?` goes inside a byref, which carries no annotation of its own. */
  function RenderAnnotated(sp: Spelling, t: TypeRef): Rendered
    decreases t, 1
  {
    if t.ByRefRef? then Rendered(SegTokens(ByrefTycon(t.readonly), [RenderAnnotated(sp, t.inner)]), AtomPrec)
    else Rendered(Wrap(AtomPrec, Render(sp, t)) + [Question], AtomPrec)
  }

  function RenderAll(sp: Spelling, args: seq<NullableType>): (r: seq<Rendered>)
    ensures |r| == |args|
    decreases args, 0
  {
    if args == [] then [] else [RenderNullable(sp, args[0])] + RenderAll(sp, args[1..])
  }

  /** The rendered elements of a tuple, its `TRest` chain flattened. */
  function RenderElems(sp: Spelling, args: seq<NullableType>): seq<Rendered>
    decreases args, 1
  {
    if |args| == 8 && IsTuple(args[7].ty)
      then RenderAll(sp, args[..7]) + RenderRest(sp, args[7]) else RenderAll(sp, args)
  }

  function RenderRest(sp: Spelling, n: NullableType): seq<Rendered>
    requires IsTuple(n.ty)
    decreases n, 0
  {
    RenderRestType(sp, n.ty)
  }

  function RenderRestType(sp: Spelling, t: TypeRef): seq<Rendered>
    requires IsTuple(t)
    decreases t, 0
  {
    RenderElems(sp, t.args)
  }

  // ---- what the printed type says ----

  function NoArgs(names: seq<string>): (r: seq<Seg>)
    ensures |r| == |names|
  {
    seq(|names|, i requires 0 <= i < |names| => Seg(names[i], []))
  }

  function SegsWith(names: seq<string>, slices: seq<seq<Shown>>): (r: seq<Seg>)
    requires |names| == |slices|
    ensures |r| == |names|
  {
    seq(|names|, i requires 0 <= i < |names| => Seg(names[i], slices[i]))
  }

  /** The arguments on the last segment. */
  function LastWith(names: seq<string>, args: seq<Shown>): seq<Seg>
    requires names != []
  {
    NoArgs(names[..|names| - 1]) + [Seg(names[|names| - 1], args)]
  }

  /** The tree a type reads as: tuples flattened, namespaces forgotten, arities
      resolved, annotations and array ranks kept. No precedence is involved. */
  function Show(sp: Spelling, t: TypeRef): Shown
    decreases t, 0
  {
    match t
    case PrimRef(p) => Path([Seg(sp.primitive(p), [])])
    case Var(i, isMethod) => Path([Seg(sp.typar(i, isMethod), [])])
    case ArrayRef(e, rank, _, _) => ArrayOf(ShowNullable(sp, e), if rank == 0 then 0 else rank - 1)
    case ByRefRef(i, readonly) => Path([Seg(ByrefTycon(readonly), [Show(sp, i)])])
    case PtrRef(p) => Path([Seg("nativeptr", [Show(sp, p)])])
    case VoidPtrRef => Path([Seg("voidptr", [])])
    case NamedRef(n, args) =>
      if IsFunc(n) && |args| == 2 then
        var ss := ShowAll(sp, args);
        Fun(ss[0], ss[1])
      else if TupleKind(n).Some? && |args| >= 2 then Tuple(TupleKind(n).value, ShowElems(sp, args))
      else ShowPlain(sp, n, ShowAll(sp, args))
  }

  function ShowPlain(sp: Spelling, n: TypeName, ss: Vec<Shown>): Shown {
    if Nests(n, |ss|) then
      GuardIsExact(|Split(n.name, '/')|, n.arities, |ss|);
      Path(SegsWith(SpellAll(sp, Split(n.name, '/')), Slices(n.arities, ss)))
    else
      var display := DisplayName(sp, n);
      if |ss| == 0 then Path(NoArgs(display))
      else if |ss| == 1 then Postfix(ss[0], display)
      else Path(LastWith(display, ss))
  }

  function ShowNullable(sp: Spelling, n: NullableType): Shown
    decreases n, 0
  {
    if n.nullability == Annotated then ShowAnnotated(sp, n.ty) else Show(sp, n.ty)
  }

  function ShowAnnotated(sp: Spelling, t: TypeRef): Shown
    decreases t, 1
  {
    if t.ByRefRef? then Path([Seg(ByrefTycon(t.readonly), [ShowAnnotated(sp, t.inner)])]) else Maybe(Show(sp, t))
  }

  function ShowAll(sp: Spelling, args: seq<NullableType>): (r: seq<Shown>)
    ensures |r| == |args|
    decreases args, 0
  {
    if args == [] then [] else [ShowNullable(sp, args[0])] + ShowAll(sp, args[1..])
  }

  function ShowElems(sp: Spelling, args: seq<NullableType>): (r: seq<Shown>)
    ensures |args| >= 2 ==> |r| >= 2
    decreases args, 1
  {
    if |args| == 8 && IsTuple(args[7].ty) then ShowAll(sp, args[..7]) + ShowRest(sp, args[7]) else ShowAll(sp, args)
  }

  function ShowRest(sp: Spelling, n: NullableType): seq<Shown>
    requires IsTuple(n.ty)
    decreases n, 0
  {
    ShowRestType(sp, n.ty)
  }

  function ShowRestType(sp: Spelling, t: TypeRef): seq<Shown>
    requires IsTuple(t)
    decreases t, 0
  {
    ShowElems(sp, t.args)
  }

  // ---- the printer prints that tree ----

  ghost predicate Prints(r: Rendered, s: Shown) {
    r.tokens == Print(s) && r.prec == PrecOf(s) && WellFormed(s)
  }

  ghost predicate PrintsAll(rs: seq<Rendered>, ss: seq<Shown>) {
    |rs| == |ss| && forall i :: 0 <= i < |rs| ==> Prints(rs[i], ss[i])
  }

  lemma WrapPrints(min: Prec, r: Rendered, s: Shown)
    requires Prints(r, s)
    ensures Wrap(min, r) == PrintAt(min, s)
  {
  }

  lemma {:induction false} AllWellFormed(rs: seq<Rendered>, ss: seq<Shown>)
    requires PrintsAll(rs, ss)
    ensures WellFormedAll(ss)
    decreases |ss|
  {
    if ss != [] { AllWellFormed(rs[1..], ss[1..]); }
  }

  lemma {:induction false} StarsPrint(rs: seq<Rendered>, ss: seq<Shown>)
    requires PrintsAll(rs, ss)
    ensures Stars(rs) == PrintElems(ss)
    decreases |rs|
  {
    if rs != [] {
      StarsPrint(rs[1..], ss[1..]);
      WrapPrints(PostfixPrec, rs[0], ss[0]);
    }
  }

  lemma {:induction false} CommaListPrints(rs: seq<Rendered>, ss: seq<Shown>)
    requires PrintsAll(rs, ss)
    ensures CommaList(rs) == PrintArgs(ss)
    decreases |rs|
  {
    if rs != [] { CommaListPrints(rs[1..], ss[1..]); }
  }

  lemma SegPrints(name: string, rs: seq<Rendered>, ss: seq<Shown>)
    requires PrintsAll(rs, ss)
    ensures SegTokens(name, rs) == PrintSeg(Seg(name, ss)) && WellFormedSeg(Seg(name, ss))
  {
    CommaListPrints(rs, ss);
    AllWellFormed(rs, ss);
  }

  lemma {:induction false} SegsPrint(names: seq<string>, rs: seq<seq<Rendered>>, ss: seq<seq<Shown>>)
    requires |names| == |rs| == |ss| && forall i :: 0 <= i < |names| ==> PrintsAll(rs[i], ss[i])
    ensures SegsTokens(names, rs) == PrintSegs(SegsWith(names, ss)) && WellFormedSegs(SegsWith(names, ss))
    decreases |names|
  {
    if names != [] {
      SegPrints(names[0], rs[0], ss[0]);
      SegsPrint(names[1..], rs[1..], ss[1..]);
      assert SegsWith(names, ss)[1..] == SegsWith(names[1..], ss[1..]);
    }
  }

  lemma {:induction false} SlicesPrint(arities: seq<nat>, rs: seq<Rendered>, ss: seq<Shown>)
    requires PrintsAll(rs, ss) && Sum(arities) == |rs|
    ensures forall i :: 0 <= i < |arities| ==> PrintsAll(Slices(arities, rs)[i], Slices(arities, ss)[i])
    decreases |arities|
  {
    if arities != [] { SlicesPrint(arities[1..], rs[arities[0]..], ss[arities[0]..]); }
  }

  lemma {:induction false} NamePrints(names: seq<string>)
    requires names != []
    ensures PrintName(names) == PrintSegs(NoArgs(names)) && WellFormedSegs(NoArgs(names))
    decreases |names|
  {
    var segs, seg := NoArgs(names), Seg(names[0], []);
    assert segs[0] == seg && WellFormedSeg(seg) && PrintSeg(seg) == [Ident(names[0])];
    if |names| > 1 {
      NamePrints(names[1..]);
      assert segs[1..] == NoArgs(names[1..]);
      assert PrintSegs(segs) == PrintSeg(seg) + [Dot] + PrintSegs(segs[1..]);
      assert [Ident(names[0]), Dot] == [Ident(names[0])] + [Dot];
    } else {
      assert segs[1..] == [];
      assert PrintSegs(segs) == PrintSeg(seg);
      assert WellFormedSegs(segs[1..]);
    }
  }

  lemma {:induction false} LastPrints(names: seq<string>, rs: seq<Rendered>, ss: seq<Shown>)
    requires names != [] && rs != [] && PrintsAll(rs, ss)
    ensures PrintName(names) + [LAngle] + CommaList(rs) + [RAngle] == PrintSegs(LastWith(names, ss))
    ensures WellFormedSegs(LastWith(names, ss))
    decreases |names|
  {
    CommaListPrints(rs, ss);
    SegPrints(names[|names| - 1], rs, ss);
    if |names| == 1 {
      assert NoArgs(names[..0]) == [] && LastWith(names, ss)[1..] == [];
    } else {
      LastPrints(names[1..], rs, ss);
      assert names[1..][..|names| - 2] == names[..|names| - 1][1..];
      assert LastWith(names, ss)[0] == Seg(names[0], []);
      assert LastWith(names, ss)[1..] == LastWith(names[1..], ss);
      assert [Ident(names[0]), Dot] == PrintSeg(Seg(names[0], [])) + [Dot];
    }
  }

  lemma PlainPrints(sp: Spelling, n: TypeName, rs: Vec<Rendered>, ss: Vec<Shown>)
    requires PrintsAll(rs, ss)
    ensures Prints(RenderPlain(sp, n, rs), ShowPlain(sp, n, ss))
  {
    var names, display := SpellAll(sp, Split(n.name, '/')), DisplayName(sp, n);
    if Nests(n, |rs|) {
      GuardIsExact(|Split(n.name, '/')|, n.arities, |rs|);
      SlicesPrint(n.arities, rs, ss);
      SegsPrint(names, Slices(n.arities, rs), Slices(n.arities, ss));
    } else if |rs| == 0 {
      NamePrints(display);
    } else if |rs| == 1 {
      WrapPrints(PostfixPrec, rs[0], ss[0]);
    } else {
      LastPrints(display, rs, ss);
    }
  }

  lemma OneSegPrints(name: string, rs: seq<Rendered>, ss: seq<Shown>)
    requires PrintsAll(rs, ss)
    ensures SegTokens(name, rs) == Print(Path([Seg(name, ss)])) && WellFormed(Path([Seg(name, ss)]))
  {
    SegPrints(name, rs, ss);
    var segs := [Seg(name, ss)];
    assert segs[1..] == [];
    assert WellFormedSegs(segs);
  }

  lemma {:induction false} RenderPrints(sp: Spelling, t: TypeRef)
    ensures Prints(Render(sp, t), Show(sp, t))
    decreases t, 0
  {
    match t
    case PrimRef(p) => OneSegPrints(sp.primitive(p), [], []);
    case Var(i, isMethod) => OneSegPrints(sp.typar(i, isMethod), [], []);
    case VoidPtrRef => OneSegPrints("voidptr", [], []);
    case ArrayRef(e, rank, sizes, lows) =>
      RenderNullablePrints(sp, e);
      WrapPrints(AtomPrec, RenderNullable(sp, e), ShowNullable(sp, e));
    case ByRefRef(i, readonly) =>
      RenderPrints(sp, i);
      OneSegPrints(ByrefTycon(readonly), [Render(sp, i)], [Show(sp, i)]);
    case PtrRef(p) =>
      RenderPrints(sp, p);
      OneSegPrints("nativeptr", [Render(sp, p)], [Show(sp, p)]);
    case NamedRef(n, args) =>
      RenderAllPrints(sp, args);
      if IsFunc(n) && |args| == 2 {
        WrapPrints(PostfixPrec, RenderAll(sp, args)[0], ShowAll(sp, args)[0]);
      } else if TupleKind(n).Some? && |args| >= 2 {
        RenderElemsPrint(sp, args);
        StarsPrint(RenderElems(sp, args), ShowElems(sp, args));
        AllWellFormed(RenderElems(sp, args), ShowElems(sp, args));
      } else {
        PlainPrints(sp, n, RenderAll(sp, args), ShowAll(sp, args));
      }
  }

  lemma {:induction false} RenderAnnotatedPrints(sp: Spelling, t: TypeRef)
    ensures Prints(RenderAnnotated(sp, t), ShowAnnotated(sp, t))
    decreases t, 1
  {
    if t.ByRefRef? {
      RenderAnnotatedPrints(sp, t.inner);
      OneSegPrints(ByrefTycon(t.readonly), [RenderAnnotated(sp, t.inner)], [ShowAnnotated(sp, t.inner)]);
    } else {
      RenderPrints(sp, t);
      WrapPrints(AtomPrec, Render(sp, t), Show(sp, t));
    }
  }

  lemma {:induction false} RenderNullablePrints(sp: Spelling, n: NullableType)
    ensures Prints(RenderNullable(sp, n), ShowNullable(sp, n))
    decreases n, 0
  {
    if n.nullability == Annotated { RenderAnnotatedPrints(sp, n.ty); } else { RenderPrints(sp, n.ty); }
  }

  lemma {:induction false} RenderAllPrints(sp: Spelling, args: seq<NullableType>)
    ensures PrintsAll(RenderAll(sp, args), ShowAll(sp, args))
    decreases args, 0
  {
    if args != [] {
      RenderNullablePrints(sp, args[0]);
      RenderAllPrints(sp, args[1..]);
    }
  }

  lemma {:induction false} RenderElemsPrint(sp: Spelling, args: seq<NullableType>)
    ensures PrintsAll(RenderElems(sp, args), ShowElems(sp, args))
    decreases args, 1
  {
    if |args| == 8 && IsTuple(args[7].ty) {
      RenderAllPrints(sp, args[..7]);
      RenderRestPrints(sp, args[7]);
    } else {
      RenderAllPrints(sp, args);
    }
  }

  lemma {:induction false} RenderRestPrints(sp: Spelling, n: NullableType)
    requires IsTuple(n.ty)
    ensures PrintsAll(RenderRest(sp, n), ShowRest(sp, n))
    decreases n, 0
  {
    RenderRestTypePrints(sp, n.ty);
  }

  lemma {:induction false} RenderRestTypePrints(sp: Spelling, t: TypeRef)
    requires IsTuple(t)
    ensures PrintsAll(RenderRestType(sp, t), ShowRestType(sp, t))
    decreases t, 0
  {
    RenderElemsPrint(sp, t.args);
  }

  /** The printed tokens of any type are unambiguous: a parser for the grammar
      recovers the tree the type reads as, and nothing is left over. */
  lemma RenderIsUnambiguous(sp: Spelling, t: TypeRef)
    ensures ParseType(Render(sp, t).tokens) == Got(Show(sp, t), [])
  {
    RenderPrints(sp, t);
    PrintIsUnambiguous(Show(sp, t));
  }

  /** The same for a type with its own annotation. */
  lemma RenderNullableIsUnambiguous(sp: Spelling, n: NullableType)
    ensures ParseType(RenderNullable(sp, n).tokens) == Got(ShowNullable(sp, n), [])
  {
    RenderNullablePrints(sp, n);
    PrintIsUnambiguous(ShowNullable(sp, n));
  }

  // ---- tuples ----

  /** `flatten_tuple`. */
  function FlattenTuple(args: seq<NullableType>): seq<NullableType>
    decreases args
  {
    if |args| == 8 && IsTuple(args[7].ty) then args[..7] + FlattenRest(args[7]) else args
  }

  function FlattenRest(n: NullableType): seq<NullableType>
    requires IsTuple(n.ty)
    decreases n
  {
    FlattenRestType(n.ty)
  }

  function FlattenRestType(t: TypeRef): seq<NullableType>
    requires IsTuple(t)
    decreases t
  {
    FlattenTuple(t.args)
  }

  lemma {:induction false} ShowAllConcat(sp: Spelling, a: seq<NullableType>, b: seq<NullableType>)
    ensures ShowAll(sp, a + b) == ShowAll(sp, a) + ShowAll(sp, b)
    decreases |a|
  {
    if a == [] {
      assert a + b == b;
    } else {
      ShowAllConcat(sp, a[1..], b);
      assert (a + b)[1..] == a[1..] + b;
    }
  }

  /** The elements shown are the flattened elements, each shown in turn. */
  lemma {:induction false} ElemsAreFlattened(sp: Spelling, args: seq<NullableType>)
    ensures ShowElems(sp, args) == ShowAll(sp, FlattenTuple(args))
    decreases args
  {
    if |args| == 8 && IsTuple(args[7].ty) {
      RestIsFlattened(sp, args[7]);
      ShowAllConcat(sp, args[..7], FlattenRest(args[7]));
    }
  }

  lemma {:induction false} RestIsFlattened(sp: Spelling, n: NullableType)
    requires IsTuple(n.ty)
    ensures ShowRest(sp, n) == ShowAll(sp, FlattenRest(n))
    decreases n
  {
    RestTypeIsFlattened(sp, n.ty);
  }

  lemma {:induction false} RestTypeIsFlattened(sp: Spelling, t: TypeRef)
    requires IsTuple(t)
    ensures ShowRestType(sp, t) == ShowAll(sp, FlattenRestType(t))
    decreases t
  {
    ElemsAreFlattened(sp, t.args);
  }

  /** The CLR's encoding of a tuple: eight-wide groups, the overflow nested in
      the last slot. */
  function Nest(tuple: TypeName, elems: seq<NullableType>): TypeRef
    requires elems != []
    decreases |elems|
  {
    if |elems| <= 7 then NamedRef(tuple, elems)
    else NamedRef(tuple, elems[..7] + [Unannotated(Nest(tuple, elems[7..]))])
  }

  /** Flattening undoes the nesting, whatever the elements are: tuples among
      them are left alone. */
  lemma {:induction false} FlattenUndoesNest(tuple: TypeName, elems: seq<NullableType>)
    requires TupleKind(tuple).Some? && elems != []
    ensures FlattenTuple(Nest(tuple, elems).args) == elems
    decreases |elems|
  {
    if |elems| > 7 {
      FlattenUndoesNest(tuple, elems[7..]);
      var inner := Unannotated(Nest(tuple, elems[7..]));
      var args := elems[..7] + [inner];
      assert args[7] == inner && args[..7] == elems[..7];
      assert FlattenRest(inner) == elems[7..];
      assert elems == elems[..7] + elems[7..];
    }
  }

  // ---- both printers of nested names ----

  /** What both printers do with a nested name whose arities account for its
      arguments: every argument goes to the segment that declares it. */
  ghost predicate BothDistribute(sp: Spelling, n: TypeName, args: Vec<NullableType>)
    requires |n.arities| == |Split(n.name, '/')| && Sum(n.arities) == |args|
  {
    var segs := Split(n.name, '/');
    && Render(sp, NamedRef(n, args))
        == Rendered(SegsTokens(SpellAll(sp, segs), Slices(n.arities, RenderAll(sp, args))), AtomPrec)
    && DocIds.TypeEnc(NamedRef(n, args)) == DocIds.Namespace(n.namespace)
         + Join(DocIds.SegmentsEnc(segs, Slices(n.arities, DocIds.EncAll(args, DocIds.Roslyn))), ".")
  }

  /** What both do otherwise: the whole list once, at the end (or, for a single
      argument on display, in front). */
  ghost predicate BothFallBack(sp: Spelling, n: TypeName, args: Vec<NullableType>) {
    var display := PrintName(DisplayName(sp, n));
    var rs := RenderAll(sp, args);
    && Render(sp, NamedRef(n, args)).tokens
       == (if args == [] then display
           else if |args| == 1 then Wrap(PostfixPrec, rs[0]) + display
           else display + [LAngle] + CommaList(rs) + [RAngle])
    && DocIds.TypeEnc(NamedRef(n, args)) == DocIds.Namespace(n.namespace)
         + (Join(DocIds.StripAll(Split(n.name, '/')), ".")
            + (if args == [] then "" else DocIds.Braced(DocIds.EncAll(args, DocIds.Roslyn))))
  }

  lemma NestedNameIsPlain(n: TypeName)
    requires '/' in n.name
    ensures !IsFunc(n) && TupleKind(n) == None
  {
    assert '/' !in "FSharpFunc" && '/' !in "ValueTuple" && '/' !in "Tuple";
  }

  /** The encoder of documentation IDs and the pretty-printer distribute on the
      same nested types: exactly those whose true arity sum is right, whatever
      the machine words add up to. */
  lemma PrintersAgreeOnNesting(sp: Spelling, n: TypeName, args: Vec<NullableType>)
    requires '/' in n.name
    ensures if |n.arities| == |Split(n.name, '/')| && Sum(n.arities) == |args|
            then BothDistribute(sp, n, args) else BothFallBack(sp, n, args)
  {
    NestedNameIsPlain(n);
    GuardIsExact(|Split(n.name, '/')|, n.arities, |args|);
  }

  // ---- the nested name as a loop ----

  function JoinDots(parts: seq<seq<Token>>): seq<Token> {
    if parts == [] then []
    else if |parts| == 1 then parts[0]
    else parts[0] + [Dot] + JoinDots(parts[1..])
  }

  function SegParts(names: seq<string>, slices: seq<seq<Rendered>>): (r: seq<seq<Token>>)
    requires |names| == |slices|
    ensures |r| == |names|
  {
    seq(|names|, i requires 0 <= i < |names| => SegTokens(names[i], slices[i]))
  }

  lemma {:induction false} SegsTokensJoin(names: seq<string>, slices: seq<seq<Rendered>>)
    requires |names| == |slices|
    ensures SegsTokens(names, slices) == JoinDots(SegParts(names, slices))
    decreases |names|
  {
    if |names| > 1 {
      SegsTokensJoin(names[1..], slices[1..]);
      assert SegParts(names, slices)[1..] == SegParts(names[1..], slices[1..]);
    }
  }

  /** `render_nested`: `None` unless the arities account for the arguments. */
  method RenderNested(sp: Spelling, n: TypeName, args: Vec<NullableType>) returns (r: Option<seq<Token>>)
    requires '/' in n.name
    ensures r.Some? <==> Nests(n, |args|)
    ensures r.Some? ==> Render(sp, NamedRef(n, args)) == Rendered(r.value, AtomPrec)
  {
    var segments := Split(n.name, '/');
    var slices := Distribute(|segments|, n.arities, RenderAll(sp, args));
    GuardIsExact(|segments|, n.arities, |args|);
    if slices.None? {
      return None;
    }
    var out := [];
    var i := 0;
    while i < |segments|
      invariant 0 <= i <= |segments|
      invariant out == SegParts(SpellAll(sp, segments), slices.value)[..i]
    {
      out := out + [SegTokens(sp.name(segments[i]), slices.value[i])];
      i := i + 1;
    }
    assert out == SegParts(SpellAll(sp, segments), slices.value);
    SegsTokensJoin(SpellAll(sp, segments), slices.value);
    NestedNameIsPlain(n);
    r := Some(JoinDots(out));
  }
}
