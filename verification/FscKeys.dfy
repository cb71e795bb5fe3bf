/** The keys the F# compiler records for a method: a signature of F# types in
    which byrefs, pointers, erased pointers and wide tuples may be spelled
    otherwise than in the IL, at any depth. Exactly which of them the checker
    accepts. */
module FscKeys {
  import opened Options
  import opened Decimals
  import opened Text
  import opened Signatures
  import opened ArraySuffixes
  import opened DocIds
  import opened Skeletons
  import opened ParamRules
  import opened FsTypes
  import opened FscTuples
  import Lists

  // ---- a respelled node shows outside brackets ----

  lemma LastDiffers(a: string, b: string, c: char, d: char)
    requires Last(a, c) && Last(b, d) && c != d
    ensures a != b
  {
  }

  /** Some respelled node, at whatever depth: the text and the IL encoding differ
      outside brackets, so `arrays_fit` refuses them. */
  lemma {:induction false} RespellingShows(f: FsType, fewer: Dialect)
    requires PlainType(f) && Respelled(f)
    ensures Skeleton(Written(f, fewer)) != Skeleton(TypeEnc(Compiled(f)))
    decreases f, 1
  {
    CompiledIsPlain(f);
    match f
    case Named(_, _) => RespellingShowsInName(f, fewer);
    case Array(_, _, _, _) => RespellingShowsBefore(f, f.element, fewer);
    case Pointer(of) => RespellingShowsBefore(f, of, fewer);
    case Reference(of) => RespellingShowsBefore(f, of, fewer);
    case ByrefOf(_, _, _) => AbbreviationShows(f, fewer);
    case SigPtrOf(_) => AbbreviationShows(f, fewer);
    case NativePtr(of) =>
      WrittenIsSound(of, fewer);
      NativePtrShows(Written(of, fewer));
      IntPtrText();
    case VoidPtrName => VoidPtrShows();
    case FlatTuple(_, _) => FlatTupleShows(f, fewer);
  }

  lemma IntPtrText()
    ensures TypeEnc(INT_PTR) == "System.IntPtr" && Skeleton("System.IntPtr") == "System.IntPtr"
  {
    PrimitiveNamesArePlain(ValuePrimitive(13));
    assert WidePrimitiveName(13) == "IntPtr" && "System." + "IntPtr" == "System.IntPtr";
    PlainIsSound(PrimitiveName(ValuePrimitive(13)));
  }

  lemma NativePtrShows(pointee: string)
    requires Sound(pointee)
    ensures Skeleton(pointee + "*") != Skeleton("System.IntPtr")
  {
    IntPtrText();
    MarkedIsSound(pointee, "*");
    LastDiffers(Skeleton(pointee + "*"), "System.IntPtr", '*', 'r');
  }

  lemma VoidPtrShows()
    ensures Skeleton("Microsoft.FSharp.Core.voidptr") != Skeleton("System.Void*")
  {
    VoidPtrIsPlain();
    VoidTextIsPlain();
    PlainDiffers("Microsoft.FSharp.Core.voidptr", "System.Void*", 'r', '*');
  }

  lemma PlainDiffers(a: string, b: string, c: char, d: char)
    requires Plain(a) && Plain(b) && Last(a, c) && Last(b, d) && c != d
    ensures Skeleton(a) != Skeleton(b)
  {
    PlainIsSound(a);
    PlainIsSound(b);
  }

  lemma AbbreviationShows(f: FsType, fewer: Dialect)
    requires PlainType(f) && (f.ByrefOf? || f.SigPtrOf?)
    ensures Skeleton(Written(f, fewer)) != Skeleton(TypeEnc(Compiled(f)))
  {
    WrittenIsSound(f.of, fewer);
    CompiledIsPlain(f.of);
    EncIsSound(Compiled(f.of), Roslyn);
    if f.ByrefOf? { WrittenAreSound(f.kinds, fewer); }
    AbbreviatedNodeIsSound(f, fewer);
    MarkTexts(f, fewer);
    BraceIsNoMark(Written(f, fewer), TypeEnc(Compiled(f.of)), Mark(f));
  }

  lemma BraceIsNoMark(key: string, il: string, mark: string)
    requires Last(Skeleton(key), '}') && Sound(il) && (mark == "*" || mark == "@")
    ensures Skeleton(key) != Skeleton(il + mark)
  {
    MarkedIsSound(il, mark);
    LastDiffers(Skeleton(key), Skeleton(il + mark), '}', mark[0]);
  }

  /** What stands behind the node, brackets or a mark, is the same on both sides. */
  lemma {:induction false} RespellingShowsBefore(f: FsType, of: FsType, fewer: Dialect)
    requires PlainType(f) && Respelled(f)
    requires match f
             case Array(e, _, _, _) => of == e
             case Pointer(o) => of == o
             case Reference(o) => of == o
             case _ => false
    ensures Skeleton(Written(f, fewer)) != Skeleton(TypeEnc(Compiled(f)))
    decreases f, 0
  {
    WrittenIsSound(of, fewer);
    CompiledIsPlain(of);
    EncIsSound(Compiled(of), Roslyn);
    RespellingShows(of, fewer);
    var back := if f.Array? then "[]" else Mark(f);
    BehindNode(f, of, fewer, back);
    if Skeleton(Written(f, fewer)) == Skeleton(TypeEnc(Compiled(f))) {
      Lists.CancelBack(Skeleton(Written(of, fewer)), Skeleton(TypeEnc(Compiled(of))), back);
    }
  }

  lemma BehindNode(f: FsType, of: FsType, fewer: Dialect, back: string)
    requires Sound(Written(of, fewer)) && Sound(TypeEnc(Compiled(of)))
    requires match f
             case Array(e, _, _, _) => of == e && back == "[]"
             case Pointer(o) => of == o && back == Mark(f)
             case Reference(o) => of == o && back == Mark(f)
             case _ => false
    ensures Skeleton(Written(f, fewer)) == Skeleton(Written(of, fewer)) + back
    ensures Skeleton(TypeEnc(Compiled(f))) == Skeleton(TypeEnc(Compiled(of))) + back
  {
    if f.Array? {
      ArrayTexts(f, fewer);
      BehindElement(Written(of, fewer), f.rank, f.sizes, f.lowerBounds, fewer(Compiled(f)));
      BehindElement(TypeEnc(Compiled(of)), f.rank, f.sizes, f.lowerBounds, false);
    } else {
      MarkTexts(f, fewer);
      MarkedIsSound(Written(of, fewer), back);
      MarkedIsSound(TypeEnc(Compiled(of)), back);
    }
  }

  lemma {:induction false} RespellingShowsInName(f: FsType, fewer: Dialect)
    requires PlainType(f) && Respelled(f) && f.Named?
    ensures Skeleton(Written(f, fewer)) != Skeleton(TypeEnc(Compiled(f)))
    decreases f, 0
  {
    var xs, ys := WrittenAll(f.args, fewer), EncAll(CompiledAll(f.args), Roslyn);
    WrittenAreSound(f.args, fewer);
    CompiledArePlain(f.args);
    EncsAreSound(CompiledAll(f.args), Roslyn);
    RespellingShowsInList(f.args, fewer);
    NameIsSound(f.name, xs);
    NameIsSound(f.name, ys);
    SameNameSameArguments(f.name, xs, ys);
  }

  lemma SameNameSameArguments(name: TypeName, xs: Vec<string>, ys: Vec<string>)
    requires |xs| == |ys| && forall i :: 0 <= i < |xs| ==> Sound(xs[i]) && Sound(ys[i])
    ensures var segs, front := Split(name.name, '/'), Namespace(name.namespace);
      front + NameEnc(segs, name.arities, SkeletonsOf(xs)) == front + NameEnc(segs, name.arities, SkeletonsOf(ys))
      ==> SkeletonsOf(xs) == SkeletonsOf(ys)
  {
    var segs, front := Split(name.name, '/'), Namespace(name.namespace);
    var x, y := NameEnc(segs, name.arities, SkeletonsOf(xs)), NameEnc(segs, name.arities, SkeletonsOf(ys));
    if front + x == front + y {
      Lists.Cancel(front, x, y);
      NameIsUnique(segs, name.arities, SkeletonsOf(xs), SkeletonsOf(ys));
    }
  }

  lemma {:induction false} RespellingShowsInList(args: seq<FsType>, fewer: Dialect)
    requires PlainTypes(args) && AnyRespelled(args)
    ensures SkeletonsOf(WrittenAll(args, fewer)) != SkeletonsOf(EncAll(CompiledAll(args), Roslyn))
    decreases args
  {
    var xs, ys := WrittenAll(args, fewer), EncAll(CompiledAll(args), Roslyn);
    assert CompiledAll(args)[1..] == CompiledAll(args[1..]);
    SkeletonsRest(xs);
    SkeletonsRest(ys);
    assert xs[1..] == WrittenAll(args[1..], fewer) && ys[1..] == EncAll(CompiledAll(args[1..]), Roslyn);
    if Respelled(args[0]) {
      RespellingShows(args[0], fewer);
      assert EncNullable(Unannotated(Compiled(args[0])), Roslyn) == TypeEnc(Compiled(args[0]));
      assert xs[0] == Written(args[0], fewer) && ys[0] == TypeEnc(Compiled(args[0]));
      assert SkeletonsOf(xs)[0] != SkeletonsOf(ys)[0];
    } else {
      RespellingShowsInList(args[1..], fewer);
      assert SkeletonsOf(xs)[1..] != SkeletonsOf(ys)[1..];
    }
  }

  lemma RespelledNeverFitsAsText(f: FsType, fewer: Dialect)
    requires PlainType(f) && Respelled(f)
    ensures !ArraysFit(Written(f, fewer), TypeEnc(Compiled(f)))
  {
    RespellingShows(f, fewer);
    if ArraysFit(Written(f, fewer), TypeEnc(Compiled(f))) {
      FittingHasOneSkeleton(Written(f, fewer), TypeEnc(Compiled(f)));
    }
  }

  // ---- exactly which F# types are accepted ----

  /** Below an array, a type argument or a plain byref or pointer no rule looks
      for a respelled node, and none knows a flat tuple: the checker refuses the
      type. */
  lemma HiddenRespellingIsRefused(f: FsType, fewer: Dialect)
    requires PlainType(f) && Respelled(f)
    requires f.Named? || f.Array? || f.Pointer? || f.Reference? || f.FlatTuple?
    ensures !ParamFits(Written(f, fewer), TypeEnc(Compiled(f)))
  {
    RespelledNeverFitsAsText(f, fewer);
    if f.Named? || f.FlatTuple? {
      if f.Named? { NamedEnds(f, fewer); } else { FlatTupleEnds(f); }
      NoRuleForNames(Written(f, fewer), TypeEnc(Compiled(f)));
    } else {
      MarkedEnds(f, fewer);
      NoRuleBehindMark(Written(f, fewer), TypeEnc(Compiled(f)),
                       if f.Array? then ']' else if f.Pointer? then '*' else '@');
    }
  }

  lemma MarkedEnds(f: FsType, fewer: Dialect)
    requires f.Array? || f.Pointer? || f.Reference?
    ensures var c := if f.Array? then ']' else if f.Pointer? then '*' else '@';
      Last(Written(f, fewer), c) && Last(TypeEnc(Compiled(f)), c)
  {
    match f
    case Array(e, rank, sizes, lows) =>
      ArrayTexts(f, fewer);
      SuffixEnds(Written(e, fewer), rank, sizes, lows, fewer(Compiled(f)));
      SuffixEnds(TypeEnc(Compiled(e)), rank, sizes, lows, false);
    case Pointer(of) => MarkTexts(f, fewer);
    case Reference(of) => MarkTexts(f, fewer);
  }

  lemma SuffixEnds(s: string, rank: nat, sizes: seq<nat>, lows: seq<int>, fewer: bool)
    ensures Last(s + ArraySuffix(rank, sizes, lows, fewer), ']')
  {
    var suffix := ArraySuffix(rank, sizes, lows, fewer);
    assert Last(suffix, ']');
    assert (s + suffix)[|s + suffix| - 1] == suffix[|suffix| - 1];
  }

  lemma FlatTupleEnds(f: FsType)
    requires PlainType(f) && f.FlatTuple?
    ensures '{' in TypeEnc(Compiled(f)) && Last(TypeEnc(Compiled(f)), '}')
  {
    var elems := CompiledAll(f.elems);
    var slots := SlotTexts(f.isStruct, elems);
    WideTupleEncodes(f.isStruct, elems);
    EndsInBrace(TupleText(f.isStruct), slots);
    assert Braced(slots)[0] == '{' && '{' in Braced(slots);
  }

  lemma NamedEnds(f: FsType, fewer: Dialect)
    requires PlainType(f) && Respelled(f) && f.Named?
    ensures '{' in TypeEnc(Compiled(f))
    ensures Last(Written(f, fewer), '}') ==> Last(TypeEnc(Compiled(f)), '}')
  {
    var front, segs := Namespace(f.name.namespace), Split(f.name.name, '/');
    var xs, ys := WrittenAll(f.args, fewer), EncAll(CompiledAll(f.args), Roslyn);
    NamespaceIsPlain(f.name.namespace);
    NameShowsBrace(segs, f.name.arities, ys);
    NamesEndAlike(segs, f.name.arities, xs, ys);
    FrontEnds(front, NameEnc(segs, f.name.arities, xs));
    FrontEnds(front, NameEnc(segs, f.name.arities, ys));
    assert TypeEnc(Compiled(f)) == front + NameEnc(segs, f.name.arities, ys);
  }

  /** The checker accepts what is written for an F# type exactly when every node
      above a respelled one is a byref or pointer that is abbreviated itself, and
      no flat tuple stands outside a `nativeptr`. */
  lemma {:induction false} WrittenFitsExactly(f: FsType, fewer: Dialect)
    requires PlainType(f)
    ensures ParamFits(Written(f, fewer), TypeEnc(Compiled(f))) <==> Reached(f)
    decreases f
  {
    match f
    case ByrefOf(abbrev, of, kinds) =>
      WrittenFitsExactly(of, fewer);
      RespelledNeverFitsAsText(f, fewer);
      WrittenIsSound(of, fewer);
      WrittenAreSound(kinds, fewer);
      MarkTexts(f, fewer);
      AbbreviatedByrefFits(Written(f, fewer), abbrev, Written(of, fewer), WrittenAll(kinds, fewer),
                           TypeEnc(Compiled(of)));
    case SigPtrOf(of) =>
      WrittenFitsExactly(of, fewer);
      RespelledNeverFitsAsText(f, fewer);
      WrittenIsSound(of, fewer);
      MarkTexts(f, fewer);
      AbbreviatedSigPtrFits(Written(of, fewer), TypeEnc(Compiled(of)));
    case NativePtr(of) =>
      IntPtrText();
      NativePtrFits(Written(of, fewer));
    case VoidPtrName => VoidPtrFits();
    case _ =>
      if Respelled(f) {
        HiddenRespellingIsRefused(f, fewer);
      } else {
        UnrespelledIsEncoded(f, fewer);
        CompiledIsPlain(f);
        DialectFits(Compiled(f), fewer);
        SameTextFits(Written(f, fewer), TypeEnc(Compiled(f)));
      }
  }

  /** The smallest such refusal: an array of `nativeptr`, which the IL has as an
      array of `System.IntPtr`. */
  lemma NativePtrArrayIsRefused(pointee: FsType, fewer: Dialect)
    requires PlainType(pointee)
    ensures !ParamFits(Written(pointee, fewer) + "*" + "[]", "System.IntPtr" + "[]")
  {
    var f := FsType.Array(NativePtr(pointee), 1, [], []);
    ArrayTexts(f, fewer);
    IntPtrText();
    VectorSuffix(fewer(Compiled(f)));
    VectorSuffix(false);
    HiddenRespellingIsRefused(f, fewer);
  }

  /** So `nativeptr<int>[]` is refused. */
  lemma NativePtrOfIntArrayIsRefused()
    ensures !ParamFits("System.Int32" + "*" + "[]", "System.IntPtr" + "[]")
  {
    Int32Text();
    NativePtrArrayIsRefused(Type(PrimRef(ValuePrimitive(7))), Roslyn);
  }

  lemma Int32Text()
    ensures TypeEnc(PrimRef(ValuePrimitive(7))) == "System.Int32"
  {
    assert WidePrimitiveName(7) == "Int32" && "System." + "Int32" == "System.Int32";
  }

  lemma VectorSuffix(fewer: bool)
    ensures ArraySuffix(1, [], [], fewer) == "[]"
  {
    assert "[" + "" + "]" == "[]";
  }

  // ---- the whole key ----

  /** An SRTP witness: a function from the given types. */
  function Witness(args: seq<FsType>, fewer: Dialect): string {
    WITNESS + Join(WrittenAll(args, fewer), ",") + "}"
  }

  const WITNESS := "Microsoft.FSharp.Core.FSharpFunc{"

  lemma WitnessIsPlain() returns (name: string)
    ensures Plain(name) && WITNESS == name + "{"
  {
    name := "Microsoft.FSharp.Core.FSharpFunc";
  }

  lemma WitnessIsWitness(args: seq<FsType>, fewer: Dialect)
    requires PlainTypes(args)
    ensures IsWitness(Witness(args, fewer)) && Closed(Witness(args, fewer))
  {
    WrittenAreSound(args, fewer);
    var name := WitnessIsPlain();
    AbbreviatedIsSound(WITNESS, name, WrittenAll(args, fewer));
    Stripped(WITNESS, Join(WrittenAll(args, fewer), ","));
  }

  /** A recorded key: the measure parameters the IL erases, the witnesses in
      front, and the F# type of each parameter. */
  datatype Recorded = Recorded(measures: nat, witnesses: seq<seq<FsType>>, types: seq<FsType>)

  /** It is a key for this method: its types compile to the IL's parameters. */
  ghost predicate Records(rec: Recorded, m: Method) {
    && |rec.types| == |m.parameters|
    && (forall i :: 0 <= i < |rec.types| ==>
          PlainType(rec.types[i]) && TypeEnc(Compiled(rec.types[i])) == ParamEnc(m.parameters[i]))
    && (forall i :: 0 <= i < |rec.witnesses| ==> PlainTypes(rec.witnesses[i]))
  }

  function Witnesses(rec: Recorded, fewer: Dialect): (r: seq<string>)
    ensures |r| == |rec.witnesses| && forall i :: 0 <= i < |r| ==> r[i] == Witness(rec.witnesses[i], fewer)
  {
    seq(|rec.witnesses|, i requires 0 <= i < |rec.witnesses| => Witness(rec.witnesses[i], fewer))
  }

  function WrittenParams(rec: Recorded, fewer: Dialect): (r: seq<string>)
    ensures |r| == |rec.types| && forall i :: 0 <= i < |r| ==> r[i] == Written(rec.types[i], fewer)
  {
    seq(|rec.types|, i requires 0 <= i < |rec.types| => Written(rec.types[i], fewer))
  }

  /** The recorded key's text. */
  function FscKey(decl: string, m: Method, rec: Recorded, fewer: Dialect): string {
    HeadWith(decl, m, m.genericArity + rec.measures) + ArgList(Witnesses(rec, fewer) + WrittenParams(rec, fewer))
  }

  lemma ParamsAreClosed(m: Method, rec: Recorded, fewer: Dialect)
    requires Records(rec, m)
    ensures var ps := Witnesses(rec, fewer) + WrittenParams(rec, fewer);
      forall i :: 0 <= i < |ps| ==> Closed(ps[i])
    ensures forall i :: 0 <= i < |rec.witnesses| ==> IsWitness(Witnesses(rec, fewer)[i])
  {
    forall i | 0 <= i < |rec.witnesses|
      ensures IsWitness(Witnesses(rec, fewer)[i]) && Closed(Witnesses(rec, fewer)[i])
    {
      WitnessIsWitness(rec.witnesses[i], fewer);
    }
    forall i | 0 <= i < |rec.types| ensures Closed(WrittenParams(rec, fewer)[i]) {
      WrittenIsSound(rec.types[i], fewer);
    }
  }

  /** The key splits back into its head, its witnesses and its parameters. */
  lemma FscKeySplits(decl: string, m: Method, rec: Recorded, fewer: Dialect)
    requires '(' !in decl && '(' !in m.name && Records(rec, m)
    ensures SplitKey(FscKey(decl, m, rec, fewer))
         == Some((HeadWith(decl, m, m.genericArity + rec.measures), Witnesses(rec, fewer) + WrittenParams(rec, fewer)))
  {
    var head := HeadWith(decl, m, m.genericArity + rec.measures);
    var params := Witnesses(rec, fewer) + WrittenParams(rec, fewer);
    HeadHasNoParen(decl, m, m.genericArity + rec.measures);
    ParamsAreClosed(m, rec, fewer);
    assert FscKey(decl, m, rec, fewer) == head + ArgList(params);
    KeySplits(head, params);
  }

  lemma ParamsFitExactly(m: Method, rec: Recorded, fewer: Dialect, i: nat)
    requires Records(rec, m) && i < |rec.types|
    ensures ParamFits(WrittenParams(rec, fewer)[i], ParamEncs(m.parameters)[i]) <==> Reached(rec.types[i])
  {
    WrittenFitsExactly(rec.types[i], fewer);
  }

  /** A recorded key, with any witnesses, array dialect and number of measure
      parameters up to those the IL erased, is accepted exactly when the checker
      reaches every respelled node of every parameter, and the name of a key
      without an arity is not read to carry more than that number. */
  lemma FscKeyFits(decl: string, m: Method, rec: Recorded, fewer: Dialect, erasedTypars: nat)
    requires '(' !in decl && '(' !in m.name && Records(rec, m)
    requires rec.measures <= erasedTypars && m.genericArity + rec.measures <= USIZE_MAX
    ensures MethodKeyFits(FscKey(decl, m, rec, fewer), m, erasedTypars) <==>
      && (m.genericArity + rec.measures > 0 || KeyArity(Stem(decl, m)) <= erasedTypars)
      && forall i :: 0 <= i < |rec.types| ==> Reached(rec.types[i])
  {
    var arity := m.genericArity + rec.measures;
    FscKeySplits(decl, m, rec, fewer);
    ParamsAreClosed(m, rec, fewer);
    ArityOfHead(decl, m, arity);
    SplitFits(FscKey(decl, m, rec, fewer), HeadWith(decl, m, arity),
              Witnesses(rec, fewer), WrittenParams(rec, fewer),
              ParamEncs(m.parameters), m.genericArity, erasedTypars);
    forall i | 0 <= i < |rec.types|
      ensures ParamFits(WrittenParams(rec, fewer)[i], ParamEncs(m.parameters)[i]) <==> Reached(rec.types[i])
    {
      ParamsFitExactly(m, rec, fewer, i);
    }
  }
}
