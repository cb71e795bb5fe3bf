/** How the F# compiler's own spellings read, and which IL type each stands
    for. */
module FsTypeLaws {
  import opened Text
  import opened Signatures
  import opened DocIds
  import opened ParamRules
  import opened FsTypes
  import KeyLaws
  import Display
  import DisplayLaws

  /** Each byref abbreviation under its own name, its kinds behind its type. */
  lemma ByrefsAreSpelled(of: FsType, kinds: seq<FsType>, fewer: Dialect)
    ensures var inner := Join([Written(of, fewer)] + WrittenAll(kinds, fewer), ",");
      && Written(ByrefOf(Byref, of, kinds), fewer) == "Microsoft.FSharp.Core.byref{" + inner + "}"
      && Written(ByrefOf(Inref, of, kinds), fewer) == "Microsoft.FSharp.Core.inref{" + inner + "}"
      && Written(ByrefOf(Outref, of, kinds), fewer) == "Microsoft.FSharp.Core.outref{" + inner + "}"
  {
  }

  lemma JoinOne(s: string, sep: string)
    ensures Join([s], sep) == s
  {
  }

  lemma SigPtrIsSpelled(of: FsType, fewer: Dialect)
    ensures Written(SigPtrOf(of), fewer) == "Microsoft.FSharp.Core.ilsigptr{" + Written(of, fewer) + "}"
  {
    JoinOne(Written(of, fewer), ",");
  }

  /** A `nativeptr` is written as the pointer it is no more in the IL. */
  lemma PointersAreSpelled(of: FsType, fewer: Dialect)
    ensures Written(NativePtr(of), fewer) == Written(of, fewer) + "*"
    ensures Written(VoidPtrName, fewer) == "Microsoft.FSharp.Core.voidptr"
  {
  }

  /** What the IL has for them. */
  lemma PointersAreCompiled(of: FsType)
    ensures Compiled(VoidPtrName) == VoidPtrRef && Compiled(SigPtrOf(of)) == PtrRef(Compiled(of))
    ensures Compiled(NativePtr(of)).PrimRef? && PrimitiveName(Compiled(NativePtr(of)).prim) == "System.IntPtr"
  {
    KeyLaws.PrimitivesAreNamed(13);
    assert "System." + "IntPtr" == "System.IntPtr";
  }

  /** The IL type of a wide tuple is a `System` tuple whose flattened elements
      are the tuple's own. */
  lemma {:induction false} TuplesAreNested(isStruct: bool, elems: Vec<NullableType>)
    requires elems != []
    ensures var t := NestedTuple(isStruct, elems);
      && t.NamedRef? && DisplayLaws.SystemTuple(t.name) && t.name.name == (if isStruct then "ValueTuple" else "Tuple")
      && t.name.arities == [|t.args|] && |t.args| <= 8
      && Display.FlattenTuple(t.args) == elems
    decreases |elems|
  {
    TupleNameIsSystem(isStruct, |elems|);
    TupleNameIsSystem(isStruct, 8);
    if |elems| > 7 {
      TuplesAreNested(isStruct, elems[7..]);
      var inner := Unannotated(NestedTuple(isStruct, elems[7..]));
      var args := elems[..7] + [inner];
      assert args[7] == inner && args[..7] == elems[..7];
      DisplayLaws.SystemTupleIsTuple(inner.ty.name);
      assert Display.FlattenRest(inner) == elems[7..];
      assert elems == elems[..7] + elems[7..];
    }
  }

  lemma TupleNameIsSystem(isStruct: bool, arity: nat)
    ensures DisplayLaws.SystemTuple(TupleName(isStruct, arity)) && TupleName(isStruct, arity).arities == [arity]
    ensures TupleName(isStruct, arity).name == if isStruct then "ValueTuple" else "Tuple"
  {
    assert Join(["System"], ".") == "System";
  }

  /** Written flat, it is one name with all its elements. */
  lemma FlatTuplesAreSpelled(elems: Vec<FsType>, fewer: Dialect)
    ensures Written(FlatTuple(true, elems), fewer)
      == "System.ValueTuple" + ("{" + Join(WrittenAll(elems, fewer), ",") + "}")
    ensures Written(FlatTuple(false, elems), fewer)
      == "System.Tuple" + ("{" + Join(WrittenAll(elems, fewer), ",") + "}")
  {
  }

  /** Arguments are written each in its place. */
  lemma {:induction false} EachIsWritten(args: seq<FsType>, fewer: Dialect, i: nat)
    requires i < |args|
    ensures WrittenAll(args, fewer)[i] == Written(args[i], fewer)
    ensures CompiledAll(args)[i] == Nullable(Compiled(args[i]), Oblivious)
    decreases |args|
  {
    if i > 0 { EachIsWritten(args[1..], fewer, i - 1); }
  }
}
