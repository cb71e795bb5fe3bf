/** F# types as the compiler records them in a key: types in which byrefs,
    pointers, erased pointers and wide tuples may be spelled otherwise than in
    the IL, at any depth. */
module FsTypes {
  import opened Options
  import opened Text
  import opened Signatures
  import opened ArraySuffixes
  import opened DocIds
  import opened Skeletons
  import opened ParamRules
  import Lists

  // ---- F# types ----

  /** A type as the compiler sees it: one that is written as the IL has it, or a
      node above types of either kind. The last five nodes are respelled: a
      byref by one of its abbreviations, with whatever kind arguments it takes,
      a pointer by `ilsigptr`, a `nativeptr`, which the IL erases, as a pointer,
      `voidptr`, and a wide tuple, which the IL nests, with all its elements. */
  datatype FsType =
    | Type(t: TypeRef)
    | Named(name: TypeName, args: Vec<FsType>)
    | Array(element: FsType, rank: nat, sizes: seq<nat>, lowerBounds: seq<int>)
    | Pointer(of: FsType)
    | Reference(of: FsType)
    | ByrefOf(abbrev: ByrefName, of: FsType, kinds: seq<FsType>)
    | SigPtrOf(of: FsType)
    | NativePtr(of: FsType)
    | VoidPtrName
    | FlatTuple(isStruct: bool, elems: Vec<FsType>)

  const INT_PTR := PrimRef(ValuePrimitive(13))

  /** The IL type it is compiled to. */
  function Compiled(f: FsType): TypeRef
    decreases f
  {
    match f
    case Type(t) => t
    case Named(name, args) => NamedRef(name, CompiledAll(args))
    case Array(e, rank, sizes, lows) => ArrayRef(Unannotated(Compiled(e)), rank, sizes, lows)
    case Pointer(of) => PtrRef(Compiled(of))
    case Reference(of) => ByRefRef(Compiled(of), false)
    case ByrefOf(_, of, _) => ByRefRef(Compiled(of), false)
    case SigPtrOf(of) => PtrRef(Compiled(of))
    case NativePtr(_) => INT_PTR
    case VoidPtrName => VoidPtrRef
    case FlatTuple(isStruct, elems) => NestedTuple(isStruct, CompiledAll(elems))
  }

  function TupleName(isStruct: bool, arity: nat): TypeName {
    TypeName(None, ["System"], if isStruct then "ValueTuple" else "Tuple", [arity])
  }

  /** The CLR's eight-wide groups, the overflow nested in the last slot. */
  function NestedTuple(isStruct: bool, elems: Vec<NullableType>): TypeRef
    decreases |elems|
  {
    if |elems| <= 7 then NamedRef(TupleName(isStruct, |elems|), elems)
    else NamedRef(TupleName(isStruct, 8), elems[..7] + [Unannotated(NestedTuple(isStruct, elems[7..]))])
  }

  function CompiledAll(args: seq<FsType>): (r: seq<NullableType>)
    ensures |r| == |args|
    decreases args
  {
    if args == [] then [] else [Unannotated(Compiled(args[0]))] + CompiledAll(args[1..])
  }

  /** The text written for it, in an array dialect. */
  function Written(f: FsType, fewer: Dialect): string
    decreases f
  {
    match f
    case Type(t) => Enc(t, fewer)
    case Named(name, args) =>
      Namespace(name.namespace) + NameEnc(Split(name.name, '/'), name.arities, WrittenAll(args, fewer))
    case Array(e, rank, sizes, lows) => Written(e, fewer) + ArraySuffix(rank, sizes, lows, fewer(Compiled(f)))
    case Pointer(of) => Written(of, fewer) + "*"
    case Reference(of) => Written(of, fewer) + "@"
    case ByrefOf(abbrev, of, kinds) =>
      Abbreviation(abbrev) + Join([Written(of, fewer)] + WrittenAll(kinds, fewer), ",") + "}"
    case SigPtrOf(of) => SIG_PTR + Join([Written(of, fewer)], ",") + "}"
    case NativePtr(of) => Written(of, fewer) + "*"
    case VoidPtrName => "Microsoft.FSharp.Core.voidptr"
    case FlatTuple(isStruct, elems) => TupleText(isStruct) + Braced(WrittenAll(elems, fewer))
  }

  function TupleText(isStruct: bool): string { if isStruct then "System.ValueTuple" else "System.Tuple" }

  function WrittenAll(args: seq<FsType>, fewer: Dialect): (r: seq<string>)
    ensures |r| == |args|
    decreases args
  {
    if args == [] then [] else [Written(args[0], fewer)] + WrittenAll(args[1..], fewer)
  }

  /** No name in it holds a delimiter, and a flat tuple is one the IL nests. */
  ghost predicate PlainType(f: FsType)
    decreases f
  {
    match f
    case Type(t) => PlainNames(t)
    case Named(name, args) =>
      && Plain(name.name) && (forall i :: 0 <= i < |name.namespace| ==> Plain(name.namespace[i]))
      && PlainTypes(args)
    case Array(e, _, _, _) => PlainType(e)
    case ByrefOf(_, of, kinds) => PlainType(of) && PlainTypes(kinds)
    case VoidPtrName => true
    case FlatTuple(_, elems) => |elems| >= 8 && PlainTypes(elems)
    case _ => PlainType(f.of)
  }

  ghost predicate PlainTypes(args: seq<FsType>)
    decreases args
  {
    args == [] || (PlainType(args[0]) && PlainTypes(args[1..]))
  }

  /** Some node of it is respelled. */
  predicate Respelled(f: FsType)
    decreases f
  {
    match f
    case Type(_) => false
    case Named(_, args) => AnyRespelled(args)
    case Array(e, _, _, _) => Respelled(e)
    case Pointer(of) => Respelled(of)
    case Reference(of) => Respelled(of)
    case _ => true
  }

  predicate AnyRespelled(args: seq<FsType>)
    decreases args
  {
    args != [] && (Respelled(args[0]) || AnyRespelled(args[1..]))
  }

  /** Every node above a respelled one is a byref or pointer abbreviated itself;
      below a `nativeptr` anything may stand, and a flat tuple nowhere else. */
  predicate Reached(f: FsType) {
    match f
    case ByrefOf(_, of, _) => Reached(of)
    case SigPtrOf(of) => Reached(of)
    case NativePtr(_) => true
    case VoidPtrName => true
    case _ => !Respelled(f)
  }

  // ---- without respelled nodes it is the IL's encoding in the dialect ----

  lemma {:induction false} UnrespelledIsEncoded(f: FsType, fewer: Dialect)
    requires !Respelled(f)
    ensures Written(f, fewer) == Enc(Compiled(f), fewer)
    decreases f
  {
    match f
    case Type(_) =>
    case Named(_, args) => UnrespelledAreEncoded(args, fewer);
    case Array(e, _, _, _) => UnrespelledIsEncoded(e, fewer);
    case Pointer(of) => UnrespelledIsEncoded(of, fewer);
    case Reference(of) => UnrespelledIsEncoded(of, fewer);
  }

  lemma {:induction false} UnrespelledAreEncoded(args: seq<FsType>, fewer: Dialect)
    requires !AnyRespelled(args)
    ensures WrittenAll(args, fewer) == EncAll(CompiledAll(args), fewer)
    decreases args
  {
    if args != [] {
      UnrespelledIsEncoded(args[0], fewer);
      UnrespelledAreEncoded(args[1..], fewer);
      assert CompiledAll(args)[1..] == CompiledAll(args[1..]);
    }
  }

  lemma {:induction false} CompiledIsPlain(f: FsType)
    requires PlainType(f)
    ensures PlainNames(Compiled(f))
    decreases f
  {
    match f
    case Type(_) =>
    case Named(_, args) => CompiledArePlain(args);
    case Array(e, _, _, _) => CompiledIsPlain(e);
    case NativePtr(_) =>
    case VoidPtrName =>
    case FlatTuple(isStruct, elems) =>
      CompiledArePlain(elems);
      TupleIsPlain(isStruct, CompiledAll(elems));
    case _ => CompiledIsPlain(f.of);
  }

  lemma TupleWordIsPlain(isStruct: bool)
    ensures Plain("System") && Plain(if isStruct then "ValueTuple" else "Tuple") && Plain(TupleText(isStruct))
  {
  }

  lemma {:induction false} TupleIsPlain(isStruct: bool, elems: Vec<NullableType>)
    requires PlainNamesAll(elems)
    ensures PlainNames(NestedTuple(isStruct, elems))
    decreases |elems|
  {
    TupleWordIsPlain(isStruct);
    if |elems| > 7 {
      PlainSlices(elems, 7);
      TupleIsPlain(isStruct, elems[7..]);
      PlainSnoc(elems[..7], Unannotated(NestedTuple(isStruct, elems[7..])));
    }
  }

  lemma {:induction false} PlainSlices(args: seq<NullableType>, k: nat)
    requires PlainNamesAll(args) && k <= |args|
    ensures PlainNamesAll(args[..k]) && PlainNamesAll(args[k..])
    decreases k
  {
    if k > 0 {
      PlainSlices(args[1..], k - 1);
      assert args[..k][1..] == args[1..][..k - 1] && args[k..] == args[1..][k - 1..];
    }
  }

  lemma {:induction false} PlainSnoc(args: seq<NullableType>, last: NullableType)
    requires PlainNamesAll(args) && PlainNamesIn(last)
    ensures PlainNamesAll(args + [last])
    decreases |args|
  {
    if args == [] {
      assert [last][1..] == [];
    } else {
      PlainSnoc(args[1..], last);
      assert (args + [last])[1..] == args[1..] + [last];
    }
  }

  lemma {:induction false} CompiledArePlain(args: seq<FsType>)
    requires PlainTypes(args)
    ensures PlainNamesAll(CompiledAll(args))
    decreases args
  {
    if args != [] {
      CompiledIsPlain(args[0]);
      CompiledArePlain(args[1..]);
      assert CompiledAll(args)[1..] == CompiledAll(args[1..]);
    }
  }

  // ---- what is written is closed, and so is its skeleton ----

  /** `name{a,b}`, where `abbrev` is the name with its brace. */
  lemma AbbreviatedIsSound(abbrev: string, name: string, args: seq<string>)
    requires abbrev == name + "{" && Plain(name) && forall i :: 0 <= i < |args| ==> Sound(args[i])
    ensures Sound(abbrev + Join(args, ",") + "}")
    ensures var s := Skeleton(abbrev + Join(args, ",") + "}"); Last(s, '}') && (name != [] ==> s[0] == name[0])
  {
    PlainIsSound(name);
    BracedIsSound(args);
    SoundConcat(name, Braced(args));
    Lists.Associate4(name, "{", Join(args, ","), "}");
    assert Last(Braced(SkeletonsOf(args)), '}');
  }

  lemma AbbreviationIsPlain(b: ByrefName) returns (name: string)
    ensures Plain(name) && Abbreviation(b) == name + "{" && name != [] && name[0] == 'M'
  {
    match b
    case Byref => name := "Microsoft.FSharp.Core.byref";
    case Inref => name := "Microsoft.FSharp.Core.inref";
    case Outref => name := "Microsoft.FSharp.Core.outref";
  }

  lemma SigPtrIsPlain() returns (name: string)
    ensures Plain(name) && SIG_PTR == name + "{" && name != [] && name[0] == 'M'
  {
    name := "Microsoft.FSharp.Core.ilsigptr";
  }

  lemma VoidTextIsPlain()
    ensures Plain("System.Void*")
  {
  }

  /** An abbreviated node over sound arguments. */
  lemma AbbreviatedNodeIsSound(f: FsType, fewer: Dialect)
    requires f.ByrefOf? || f.SigPtrOf?
    requires Sound(Written(f.of, fewer))
    requires f.ByrefOf? ==> forall i :: 0 <= i < |f.kinds| ==> Sound(WrittenAll(f.kinds, fewer)[i])
    ensures Sound(Written(f, fewer))
    ensures Last(Skeleton(Written(f, fewer)), '}') && Skeleton(Written(f, fewer))[0] == 'M'
  {
    if f.ByrefOf? {
      var name := AbbreviationIsPlain(f.abbrev);
      AbbreviatedIsSound(Abbreviation(f.abbrev), name, [Written(f.of, fewer)] + WrittenAll(f.kinds, fewer));
    } else {
      var name := SigPtrIsPlain();
      AbbreviatedIsSound(SIG_PTR, name, [Written(f.of, fewer)]);
    }
  }

  /** A mark behind a sound text. */
  lemma MarkedIsSound(s: string, mark: string)
    requires Sound(s) && (mark == "*" || mark == "@")
    ensures Sound(s + mark) && Skeleton(s + mark) == Skeleton(s) + mark
  {
    PlainIsSound(mark);
    SoundConcat(s, mark);
  }

  lemma VoidPtrIsPlain()
    ensures Plain("Microsoft.FSharp.Core.voidptr")
  {
  }

  lemma TupleIsSound(isStruct: bool, args: seq<string>)
    requires forall i :: 0 <= i < |args| ==> Sound(args[i])
    ensures var s := TupleText(isStruct) + Braced(args);
      Sound(s) && Skeleton(s) == TupleText(isStruct) + Braced(SkeletonsOf(args))
  {
    TupleWordIsPlain(isStruct);
    PlainIsSound(TupleText(isStruct));
    BracedIsSound(args);
    SoundConcat(TupleText(isStruct), Braced(args));
  }

  /** Whatever is respelled where, the text is closed and hides its commas. */
  lemma {:induction false} WrittenIsSound(f: FsType, fewer: Dialect)
    requires PlainType(f)
    ensures Sound(Written(f, fewer))
    decreases f
  {
    match f
    case Type(t) => EncIsSound(t, fewer);
    case Named(name, args) =>
      WrittenAreSound(args, fewer);
      NameIsSound(name, WrittenAll(args, fewer));
    case Array(e, rank, sizes, lows) =>
      WrittenIsSound(e, fewer);
      SuffixIsSound(rank, sizes, lows, fewer(Compiled(f)));
      SoundConcat(Written(e, fewer), ArraySuffix(rank, sizes, lows, fewer(Compiled(f))));
    case ByrefOf(abbrev, of, kinds) =>
      WrittenIsSound(of, fewer);
      WrittenAreSound(kinds, fewer);
      AbbreviatedNodeIsSound(f, fewer);
    case SigPtrOf(of) =>
      WrittenIsSound(of, fewer);
      AbbreviatedNodeIsSound(f, fewer);
    case VoidPtrName =>
      VoidPtrIsPlain();
      PlainIsSound(Written(f, fewer));
    case FlatTuple(isStruct, elems) =>
      WrittenAreSound(elems, fewer);
      TupleIsSound(isStruct, WrittenAll(elems, fewer));
    case _ =>
      WrittenIsSound(f.of, fewer);
      MarkedIsSound(Written(f.of, fewer), if f.Reference? then "@" else "*");
  }

  lemma {:induction false} WrittenAreSound(args: seq<FsType>, fewer: Dialect)
    requires PlainTypes(args)
    ensures forall i :: 0 <= i < |args| ==> Sound(WrittenAll(args, fewer)[i])
    decreases args
  {
    if args != [] {
      WrittenIsSound(args[0], fewer);
      WrittenAreSound(args[1..], fewer);
    }
  }

  lemma ArrayTexts(f: FsType, fewer: Dialect)
    requires f.Array?
    ensures Written(f, fewer)
         == Written(f.element, fewer) + ArraySuffix(f.rank, f.sizes, f.lowerBounds, fewer(Compiled(f)))
    ensures TypeEnc(Compiled(f))
         == TypeEnc(Compiled(f.element)) + ArraySuffix(f.rank, f.sizes, f.lowerBounds, false)
  {
    assert EncNullable(Unannotated(Compiled(f.element)), Roslyn) == TypeEnc(Compiled(f.element));
  }

  lemma BehindElement(s: string, rank: nat, sizes: seq<nat>, lows: seq<int>, fewer: bool)
    requires Sound(s)
    ensures Skeleton(s + ArraySuffix(rank, sizes, lows, fewer)) == Skeleton(s) + "[]"
  {
    SuffixIsSound(rank, sizes, lows, fewer);
    SoundConcat(s, ArraySuffix(rank, sizes, lows, fewer));
  }

  /** How the IL encoding marks a byref or a pointer. */
  function Mark(f: FsType): (r: string)
    requires f.Pointer? || f.Reference? || f.ByrefOf? || f.SigPtrOf?
    ensures r == "*" || r == "@"
  {
    if f.Pointer? || f.SigPtrOf? then "*" else "@"
  }

  lemma MarkTexts(f: FsType, fewer: Dialect)
    requires f.Pointer? || f.Reference? || f.ByrefOf? || f.SigPtrOf?
    ensures TypeEnc(Compiled(f)) == TypeEnc(Compiled(f.of)) + Mark(f)
    ensures f.Pointer? || f.Reference? ==> Written(f, fewer) == Written(f.of, fewer) + Mark(f)
  {
  }
}
