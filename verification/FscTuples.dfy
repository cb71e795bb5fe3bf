/** A wide tuple written flat differs from the nested tuple the IL has, whatever
    its elements are. */
module FscTuples {
  import opened Options
  import opened Text
  import opened Signatures
  import opened SegmentArgs
  import opened ArraySuffixes
  import opened DocIds
  import opened Skeletons
  import opened ParamRules
  import opened FsTypes
  import Lists

  // ---- no type is written as the one-tuple of its IL type ----

  /** Two names that differ only in their arguments, cut at the first list of
      them: the text before it, its length, and the texts behind it. */
  datatype FirstList = FirstList(front: string, count: nat, behind: string, behind': string)

  ghost predicate CutsBoth(c: FirstList, text: string, text': string, xs: seq<string>, ys: seq<string>)
    requires |xs| == |ys|
  {
    && 0 < c.count <= |xs| && '{' !in c.front
    && text == c.front + (Braced(xs[..c.count]) + c.behind)
    && text' == c.front + (Braced(ys[..c.count]) + c.behind')
    && (c.behind == [] || c.behind[0] == '.')
    && (c.behind == [] ==> c.count == |xs| && c.behind' == [])
  }

  lemma FirstArguments(segs: seq<string>, arities: seq<nat>, xs: Vec<string>, ys: Vec<string>) returns (c: FirstList)
    requires xs != [] && |xs| == |ys| && forall i :: 0 <= i < |segs| ==> Plain(segs[i])
    ensures CutsBoth(c, NameEnc(segs, arities, xs), NameEnc(segs, arities, ys), xs, ys)
  {
    GuardIsExact(|segs|, arities, |xs|);
    if Distributable(|segs|, arities, |xs|) {
      c := FirstOfSegments(segs, arities, xs, ys);
    } else {
      var names := StripAll(segs);
      c := FirstList(Join(names, "."), |xs|, "", "");
      forall i | 0 <= i < |names| ensures '{' !in names[i] { PlainHasNoBrace(segs[i]); }
      JoinLacksBrace(names);
      assert xs[..|xs|] == xs && Braced(xs) + "" == Braced(xs);
      assert ys[..|ys|] == ys && Braced(ys) + "" == Braced(ys);
    }
  }

  lemma PlainHasNoBrace(seg: string)
    requires Plain(seg)
    ensures '{' !in StripArity(seg)
  {
    StripIsPlain(seg);
    var s := StripArity(seg);
    forall i | 0 <= i < |s| ensures s[i] != '{' { assert PlainChar(s[i]); }
  }

  lemma {:induction false} JoinLacksBrace(names: seq<string>)
    requires forall i :: 0 <= i < |names| ==> '{' !in names[i]
    ensures '{' !in Join(names, ".")
    decreases |names|
  {
    if |names| > 1 { JoinLacksBrace(names[1..]); }
  }

  lemma {:induction false} FirstOfSegments(segs: seq<string>, arities: seq<nat>, xs: seq<string>, ys: seq<string>)
    returns (c: FirstList)
    requires |segs| == |arities| && Sum(arities) == |xs| == |ys| > 0
    requires forall i :: 0 <= i < |segs| ==> Plain(segs[i])
    ensures CutsBoth(c, Join(SegmentsEnc(segs, Slices(arities, xs)), "."),
                     Join(SegmentsEnc(segs, Slices(arities, ys)), "."), xs, ys)
    decreases |segs|
  {
    var k, name := arities[0], StripArity(segs[0]);
    PlainHasNoBrace(segs[0]);
    SegmentsInPieces(segs, arities, xs);
    SegmentsInPieces(segs, arities, ys);
    var x := Join(SegmentsEnc(segs[1..], Slices(arities[1..], xs[k..])), ".");
    var y := Join(SegmentsEnc(segs[1..], Slices(arities[1..], ys[k..])), ".");
    if k > 0 {
      c := if |segs| == 1 then FirstList(name, k, "", "") else FirstList(name, k, "." + x, "." + y);
      if |segs| == 1 { assert arities[1..] == []; }
      CutsHere(c, xs, ys);
    } else {
      assert xs[k..] == xs && ys[k..] == ys;
      var d := FirstOfSegments(segs[1..], arities[1..], xs, ys);
      c := FirstList(name + "." + d.front, d.count, d.behind, d.behind');
      CutsLater(name, d, x, y, xs, ys);
    }
  }

  lemma CutsHere(c: FirstList, xs: seq<string>, ys: seq<string>)
    requires |xs| == |ys| && 0 < c.count <= |xs| && '{' !in c.front
    requires c.behind == [] || c.behind[0] == '.'
    requires c.behind == [] ==> c.count == |xs| && c.behind' == []
    ensures CutsBoth(c, c.front + Braced(xs[..c.count]) + c.behind, c.front + Braced(ys[..c.count]) + c.behind', xs, ys)
  {
    Lists.Associate(c.front, Braced(xs[..c.count]), c.behind);
    Lists.Associate(c.front, Braced(ys[..c.count]), c.behind');
  }

  lemma CutsLater(name: string, d: FirstList, x: string, y: string, xs: seq<string>, ys: seq<string>)
    requires |xs| == |ys| && CutsBoth(d, x, y, xs, ys) && '{' !in name
    ensures CutsBoth(FirstList(name + "." + d.front, d.count, d.behind, d.behind'),
                     name + ("." + x), name + ("." + y), xs, ys)
  {
    PutBefore(name, d.front, Braced(xs[..d.count]) + d.behind);
    PutBefore(name, d.front, Braced(ys[..d.count]) + d.behind');
  }

  lemma PutBefore(name: string, front: string, rest: string)
    ensures name + ("." + (front + rest)) == name + "." + front + rest
  {
  }

  /** The first segment with its arguments, and the others. */
  lemma SegmentsInPieces(segs: seq<string>, arities: seq<nat>, xs: seq<string>)
    requires segs != [] && |segs| == |arities| && Sum(arities) == |xs|
    ensures Join(SegmentsEnc(segs, Slices(arities, xs)), ".")
         == SegmentEnc(segs[0], xs[..arities[0]])
            + (if |segs| == 1 then ""
               else "." + Join(SegmentsEnc(segs[1..], Slices(arities[1..], xs[arities[0]..])), "."))
  {
    var slices := Slices(arities, xs);
    assert slices[0] == xs[..arities[0]] && slices[1..] == Slices(arities[1..], xs[arities[0]..]);
    if |segs| == 1 {
      assert SegmentsEnc(segs, slices) == [SegmentEnc(segs[0], slices[0])];
      assert SegmentEnc(segs[0], slices[0]) + "" == SegmentEnc(segs[0], slices[0]);
    } else {
      FirstSegment(segs, slices);
    }
  }

  /** A name that is the one-tuple of the same name over other arguments is that
      tuple word itself, over one argument. */
  lemma NameAsTuple(front: string, segs: seq<string>, arities: seq<nat>, xs: Vec<string>, ys: Vec<string>, tup: string)
    requires xs != [] && |xs| == |ys| && forall i :: 0 <= i < |segs| ==> Plain(segs[i])
    requires forall i :: 0 <= i < |xs| ==> Closed(xs[i])
    requires '{' !in front && '{' !in tup && Closed(front + NameEnc(segs, arities, ys))
    ensures front + NameEnc(segs, arities, xs) == tup + Braced([front + NameEnc(segs, arities, ys)]) ==>
      |xs| == 1 && xs[0] == tup + Braced([ys[0]])
  {
    var c := FirstArguments(segs, arities, xs, ys);
    var il := front + NameEnc(segs, arities, ys);
    if front + NameEnc(segs, arities, xs) == tup + Braced([il]) {
      var zs := xs[..c.count];
      Lists.Associate(front, c.front, Braced(zs) + c.behind);
      BracedOpens(zs, c.behind);
      BracedOpens([il], "");
      assert Braced([il]) + "" == Braced([il]);
      MarkIsUnique(front + c.front, Join(zs, ",") + ("}" + c.behind), tup, Join([il], ",") + ("}" + ""), '{');
      BracedIsUnique(zs, c.behind, [il], "");
      Lists.Associate(front, c.front, Braced(ys[..c.count]) + c.behind');
      assert xs == zs && ys[..c.count] == [ys[0]] && Braced([ys[0]]) + "" == Braced([ys[0]]);
    }
  }

  lemma BracedOpens(args: seq<string>, behind: string)
    ensures Braced(args) + behind == "{" + (Join(args, ",") + ("}" + behind))
  {
  }

  lemma {:induction false} NeverItsOwnTuple(f: FsType, isStruct: bool, fewer: Dialect)
    requires PlainType(f)
    ensures Skeleton(Written(f, fewer)) != Skeleton(TupleText(isStruct) + Braced([TypeEnc(Compiled(f))]))
    decreases f, 1
  {
    CompiledIsPlain(f);
    EncIsSound(Compiled(f), Roslyn);
    var il := TypeEnc(Compiled(f));
    TupleOfOne(isStruct, il);
    if !Respelled(f) {
      UnrespelledIsEncoded(f, fewer);
      DialectFits(Compiled(f), fewer);
      FittingHasOneSkeleton(Written(f, fewer), il);
      TupleIsLonger(isStruct, Skeleton(il));
    } else if f.Named? {
      NamedIsNotItsTuple(f, isStruct, fewer);
    } else {
      OthersAreNoTuple(f, isStruct, fewer, Skeleton(il));
    }
  }

  lemma TupleOfOne(isStruct: bool, il: string)
    requires Sound(il)
    ensures Skeleton(TupleText(isStruct) + Braced([il])) == TupleText(isStruct) + Braced([Skeleton(il)])
  {
    TupleIsSound(isStruct, [il]);
    assert SkeletonsOf([il]) == [Skeleton(il)];
  }

  lemma TupleIsLonger(isStruct: bool, il: string)
    ensures il != TupleText(isStruct) + Braced([il])
  {
    assert |Braced([il])| == |il| + 2;
  }

  lemma {:induction false} NamedIsNotItsTuple(f: FsType, isStruct: bool, fewer: Dialect)
    requires PlainType(f) && Respelled(f) && f.Named?
    ensures Skeleton(Written(f, fewer)) != TupleText(isStruct) + Braced([Skeleton(TypeEnc(Compiled(f)))])
    decreases f, 0
  {
    var front, segs, tup := Namespace(f.name.namespace), Split(f.name.name, '/'), TupleText(isStruct);
    var ws, es := WrittenAll(f.args, fewer), EncAll(CompiledAll(f.args), Roslyn);
    WrittenAreSound(f.args, fewer);
    CompiledArePlain(f.args);
    EncsAreSound(CompiledAll(f.args), Roslyn);
    NameIsSound(f.name, ws);
    NameIsSound(f.name, es);
    assert TypeEnc(Compiled(f)) == front + NameEnc(segs, f.name.arities, es);
    NamespaceIsPlain(f.name.namespace);
    SplitIsPlain(f.name.name, '/');
    TupleWordIsPlain(isStruct);
    PlainLacksBrace(front);
    PlainLacksBrace(tup);
    NameAsTuple(front, segs, f.name.arities, SkeletonsOf(ws), SkeletonsOf(es), tup);
    if |f.args| == 1 {
      LastElement(f.args, fewer);
      CompiledIsPlain(f.args[0]);
      EncIsSound(Compiled(f.args[0]), Roslyn);
      NeverItsOwnTuple(f.args[0], isStruct, fewer);
      TupleOfOne(isStruct, TypeEnc(Compiled(f.args[0])));
      assert EncNullable(CompiledAll(f.args)[0], Roslyn) == TypeEnc(Compiled(f.args[0]));
    }
  }

  lemma PlainLacksBrace(s: string)
    requires Plain(s)
    ensures '{' !in s
  {
    forall i | 0 <= i < |s| ensures s[i] != '{' { assert PlainChar(s[i]); }
  }

  lemma OthersAreNoTuple(f: FsType, isStruct: bool, fewer: Dialect, il: string)
    requires PlainType(f) && Respelled(f) && !f.Named? && Closed(il)
    ensures Skeleton(Written(f, fewer)) != TupleText(isStruct) + Braced([il])
  {
    EndsInBrace(TupleText(isStruct), [il]);
    match f
    case Array(e, _, _, _) =>
      WrittenIsSound(e, fewer);
      ArrayTexts(f, fewer);
      BehindElement(Written(e, fewer), f.rank, f.sizes, f.lowerBounds, fewer(Compiled(f)));
    case Pointer(of) => MarkedIsNoTuple(f, fewer);
    case Reference(of) => MarkedIsNoTuple(f, fewer);
    case NativePtr(of) => MarkedIsNoTuple(f, fewer);
    case FlatTuple(isStruct', elems) =>
      WrittenAreSound(elems, fewer);
      TupleIsSound(isStruct', WrittenAll(elems, fewer));
      TupleCounts(TupleText(isStruct'), SkeletonsOf(WrittenAll(elems, fewer)), TupleText(isStruct), il);
    case _ =>
      FSharpCoreFirst(f, fewer);
      TupleFirst(isStruct, [il]);
  }

  lemma MarkedIsNoTuple(f: FsType, fewer: Dialect)
    requires PlainType(f) && (f.Pointer? || f.Reference? || f.NativePtr?)
    ensures var s := Skeleton(Written(f, fewer)); s != [] && !Last(s, '}')
  {
    WrittenIsSound(f.of, fewer);
    MarkedIsSound(Written(f.of, fewer), if f.Reference? then "@" else "*");
  }

  lemma TupleCounts(tup: string, xs: seq<string>, tup': string, il: string)
    requires |xs| >= 8 && (forall i :: 0 <= i < |xs| ==> Closed(xs[i])) && Closed(il)
    requires '{' !in tup && '{' !in tup'
    ensures tup + Braced(xs) != tup' + Braced([il])
  {
    if tup + Braced(xs) == tup' + Braced([il]) {
      BracedOpens(xs, "");
      BracedOpens([il], "");
      assert Braced(xs) + "" == Braced(xs) && Braced([il]) + "" == Braced([il]);
      MarkIsUnique(tup, Join(xs, ",") + ("}" + ""), tup', Join([il], ",") + ("}" + ""), '{');
      BracedIsUnique(xs, "", [il], "");
    }
  }

  lemma FSharpCoreFirst(f: FsType, fewer: Dialect)
    requires PlainType(f) && (f.ByrefOf? || f.SigPtrOf? || f.VoidPtrName?)
    ensures var s := Skeleton(Written(f, fewer)); s != [] && s[0] == 'M'
  {
    if f.VoidPtrName? {
      VoidPtrIsPlain();
      PlainIsSound(Written(f, fewer));
    } else {
      WrittenIsSound(f.of, fewer);
      if f.ByrefOf? { WrittenAreSound(f.kinds, fewer); }
      AbbreviatedNodeIsSound(f, fewer);
    }
  }

  lemma TupleFirst(isStruct: bool, args: seq<string>)
    ensures (TupleText(isStruct) + Braced(args))[0] == 'S'
  {
    assert TupleText(isStruct)[0] == 'S';
  }

  // ---- a flat tuple shows outside brackets ----

  lemma TupleWord(isStruct: bool)
    ensures var word := if isStruct then "ValueTuple" else "Tuple";
      && Split(word, '/') == [word] && StripArity(word) == word && "System." + word == TupleText(isStruct)
  {
    var word := if isStruct then "ValueTuple" else "Tuple";
    NotIn(word, '/');
    NotIn(word, '`');
  }

  lemma {:induction false} NotIn(s: string, c: char)
    requires c !in s
    ensures IndexOf(s, c) == None && LastIndexOf(s, c) == None
    decreases |s|
  {
    IndexOfAbsent(s, c);
    if s != [] { NotIn(s[..|s| - 1], c); }
  }

  /** A tuple's encoding is its word over its arguments. */
  lemma TupleEncodes(isStruct: bool, args: Vec<NullableType>)
    requires args != []
    ensures TypeEnc(NamedRef(TupleName(isStruct, |args|), args)) == TupleText(isStruct) + Braced(EncAll(args, Roslyn))
  {
    var word, encs := if isStruct then "ValueTuple" else "Tuple", EncAll(args, Roslyn);
    TupleWord(isStruct);
    OneSegment(word, encs);
    SystemNamespace();
    Lists.Associate("System.", word, Braced(encs));
  }

  lemma SystemNamespace()
    ensures Namespace(["System"]) == "System."
  {
    assert ["System"][1..] == [] && "System" + "." + "" == "System.";
  }

  lemma OneSegment(word: string, encs: Vec<string>)
    requires StripArity(word) == word && encs != []
    ensures NameEnc([word], [|encs|], encs) == word + Braced(encs)
  {
    var arities := [|encs|];
    assert arities[1..] == [] && ArityTotal(arities, 0) == |encs| && Sum(arities) == |encs|;
    assert encs[|encs|..] == [] && encs[..|encs|] == encs;
    assert Slices(arities, encs) == [encs];
    assert SegmentsEnc([word], [encs]) == [SegmentEnc(word, encs)];
  }

  /** The eight slots of a wide tuple's IL encoding. */
  function SlotTexts(isStruct: bool, elems: Vec<NullableType>): (r: seq<string>)
    requires |elems| >= 8
    ensures |r| == 8
  {
    EncAll(elems[..7], Roslyn) + [TypeEnc(NestedTuple(isStruct, elems[7..]))]
  }

  lemma WideTupleEncodes(isStruct: bool, elems: Vec<NullableType>)
    requires |elems| >= 8
    ensures TypeEnc(NestedTuple(isStruct, elems)) == TupleText(isStruct) + Braced(SlotTexts(isStruct, elems))
  {
    var last := Unannotated(NestedTuple(isStruct, elems[7..]));
    var slots := elems[..7] + [last];
    EncAllSnoc(elems[..7], last);
    TupleEncodes(isStruct, slots);
    assert |slots| == 8 && NestedTuple(isStruct, elems) == NamedRef(TupleName(isStruct, |slots|), slots);
  }

  lemma SlotsAreSound(isStruct: bool, elems: Vec<NullableType>)
    requires |elems| >= 8 && PlainNamesAll(elems)
    ensures forall i :: 0 <= i < 8 ==> Sound(SlotTexts(isStruct, elems)[i])
  {
    PlainSlices(elems, 7);
    EncsAreSound(elems[..7], Roslyn);
    TupleIsPlain(isStruct, elems[7..]);
    EncIsSound(NestedTuple(isStruct, elems[7..]), Roslyn);
  }

  lemma {:induction false} EncAllSnoc(args: seq<NullableType>, last: NullableType)
    ensures EncAll(args + [last], Roslyn) == EncAll(args, Roslyn) + [TypeEnc(last.ty)]
    decreases |args|
  {
    if args == [] {
      assert [last][1..] == [];
      assert EncNullable(last, Roslyn) == TypeEnc(last.ty);
    } else {
      EncAllSnoc(args[1..], last);
      assert (args + [last])[1..] == args[1..] + [last];
    }
  }

  lemma FlatTupleShows(f: FsType, fewer: Dialect)
    requires PlainType(f) && f.FlatTuple?
    ensures Skeleton(Written(f, fewer)) != Skeleton(TypeEnc(Compiled(f)))
  {
    var elems := CompiledAll(f.elems);
    var xs, ys := WrittenAll(f.elems, fewer), SlotTexts(f.isStruct, elems);
    WrittenAreSound(f.elems, fewer);
    CompiledArePlain(f.elems);
    SlotsAreSound(f.isStruct, elems);
    WideTupleEncodes(f.isStruct, elems);
    TupleIsSound(f.isStruct, xs);
    TupleIsSound(f.isStruct, ys);
    TuplesDiffer(TupleText(f.isStruct), xs, ys);
    if |f.elems| == 8 { EighthDiffers(f, fewer); }
  }

  lemma EighthDiffers(f: FsType, fewer: Dialect)
    requires PlainType(f) && f.FlatTuple? && |f.elems| == 8
    ensures Skeleton(WrittenAll(f.elems, fewer)[7]) != Skeleton(SlotTexts(f.isStruct, CompiledAll(f.elems))[7])
  {
    var elems := CompiledAll(f.elems);
    LastElement(f.elems, fewer);
    NeverItsOwnTuple(f.elems[7], f.isStruct, fewer);
    OneTuple(f.isStruct, elems[7..]);
  }

  /** Equal skeletons would have as many elements, and the last ones equal. */
  lemma TuplesDiffer(tup: string, xs: seq<string>, ys: seq<string>)
    requires |xs| >= 8 && |ys| == 8
    requires (forall i :: 0 <= i < |xs| ==> Sound(xs[i])) && (forall i :: 0 <= i < |ys| ==> Sound(ys[i]))
    ensures tup + Braced(SkeletonsOf(xs)) == tup + Braced(SkeletonsOf(ys)) ==>
      |xs| == 8 && Skeleton(xs[7]) == Skeleton(ys[7])
  {
    var a, b := SkeletonsOf(xs), SkeletonsOf(ys);
    if tup + Braced(a) == tup + Braced(b) {
      Lists.Cancel(tup, Braced(a), Braced(b));
      assert Braced(a) + [] == Braced(a) && Braced(b) + [] == Braced(b);
      BracedIsUnique(a, [], b, []);
      assert a[7] == b[7];
    }
  }

  lemma {:induction false} LastElement(args: seq<FsType>, fewer: Dialect)
    requires args != []
    ensures WrittenAll(args, fewer)[|args| - 1] == Written(args[|args| - 1], fewer)
    ensures CompiledAll(args)[|args| - 1] == Unannotated(Compiled(args[|args| - 1]))
    ensures PlainTypes(args) ==> PlainType(args[|args| - 1])
    decreases |args|
  {
    if |args| > 1 { LastElement(args[1..], fewer); }
  }

  lemma OneTuple(isStruct: bool, elems: Vec<NullableType>)
    requires |elems| == 1
    ensures TypeEnc(NestedTuple(isStruct, elems)) == TupleText(isStruct) + Braced([TypeEnc(elems[0].ty)])
  {
    TupleEncodes(isStruct, elems);
    assert elems[1..] == [] && EncNullable(elems[0], Roslyn) == TypeEnc(elems[0].ty);
    assert EncAll(elems, Roslyn) == [TypeEnc(elems[0].ty)];
  }
}
