/** The nullability walk as the projector runs it: one mutable index, advanced
    by every byte consumed, shared by the whole recursion. */
module CursorWalk {
  import opened Options
  import opened Signatures
  import opened Projection
  import Lists

  class Cursor {
    var idx: nat

    constructor ()
      ensures idx == 0
    {
      idx := 0;
    }

    /** `consume_nullable_byte`. */
    method Next(src: Source) returns (b: Option<Nullability>)
      modifies this
      ensures b == Consume(src, old(idx))
      ensures idx == old(idx) + if b.Some? then 1 else 0
    {
      b := Consume(src, idx);
      if b.Some? {
        idx := idx + 1;
      }
    }
  }

  /** A result and the index behind it are what the specification says; after a
      refusal the index no longer matters. */
  ghost predicate Agrees<T(!new)>(spec: Option<Walked<T>>, r: Option<T>, idx: nat) {
    match r case None => spec.None? case Some(v) => spec == Some(Walked(v, idx))
  }

  /** `walk_nullable_sig`. */
  method WalkNullableSig(img: Image, p: Position, src: Source, cursor: Cursor) returns (r: Option<NullableType>)
    modifies cursor
    ensures Agrees(WalkPosition(img, p, src, old(cursor.idx)), r, cursor.idx)
    decreases p
  {
    var mods := ClassifyMods(img, p.mods);
    if mods != Some(NO_MODIFIERS) {
      return None;
    }
    r := WalkNullableTy(img, p.ty, src, cursor);
  }

  /** `walk_nullable_ty`. */
  method WalkNullableTy(img: Image, ty: TypeSig, src: Source, cursor: Cursor) returns (r: Option<NullableType>)
    modifies cursor
    ensures Agrees(WalkType(img, ty, src, old(cursor.idx)), r, cursor.idx)
    decreases ty, 2
  {
    match ty
    case Prim(p) =>
      if p == Object || p == String {
        r := Annotated(src, cursor, Some(PrimRef(p)));
      } else {
        r := Some(Unannotated(PrimRef(p)));
      }
    case TypeVar(n) =>
      r := Annotated(src, cursor, match TyparIndex(n) case None => None case Some(i) => Some(Var(i, false)));
    case MethodVar(n) =>
      r := Annotated(src, cursor, match TyparIndex(n) case None => None case Some(i) => Some(Var(i, true)));
    case SzArray(e) => r := WalkArray(img, ty, e, Some(1), [], [], src, cursor);
    case Array(e, rank, sizes, lows) =>
      r := WalkArray(img, ty, e, ArrayRank(rank, sizes, lows), sizes, lows, src, cursor);
    case Named(kind, s) => r := WalkNamed(img, ty, kind, s, [], src, cursor);
    case Generic(kind, s, args) => r := WalkNamed(img, ty, kind, s, args, src, cursor);
    case Ptr(p) => r := WalkPointer(img, ty, p, src, cursor);
    case VoidPtr =>
      var b := cursor.Next(src);
      r := if b.None? then None else Some(Unannotated(VoidPtrRef));
    case TypedByRef => r := match TypedReference(img) case None => None case Some(t) => Some(Unannotated(t));
    case ByRef(_) => r := None;
  }

  method Annotated(src: Source, cursor: Cursor, ty: Option<TypeRef>) returns (r: Option<NullableType>)
    modifies cursor
    ensures Agrees(Annotate(src, old(cursor.idx), ty), r, cursor.idx)
  {
    if ty.None? {
      return None;
    }
    var b := cursor.Next(src);
    r := if b.None? then None else Some(Nullable(ty.value, b.value));
  }

  /** Both array shapes: the array's own byte, then the element. */
  method WalkArray(img: Image, ghost ty: TypeSig, e: Position, rank: Option<nat>, sizes: seq<nat>, lows: seq<int>,
                   src: Source, cursor: Cursor) returns (r: Option<NullableType>)
    requires (ty == SzArray(e) && rank == Some(1) && sizes == [] && lows == [])
          || (ty.Array? && ty == Array(e, ty.rank, sizes, lows) && rank == ArrayRank(ty.rank, sizes, lows))
    modifies cursor
    ensures Agrees(WalkType(img, ty, src, old(cursor.idx)), r, cursor.idx)
    decreases ty, 0
  {
    var outer := cursor.Next(src);
    if outer.None? {
      return None;
    }
    var element := WalkNullableSig(img, e, src, cursor);
    if element.None? || rank.None? {
      return None;
    }
    r := Some(Nullable(ArrayRef(element.value, rank.value, sizes, lows), outer.value));
  }

  /** A pointer's byte and its pointee's annotation are consumed and dropped. */
  method WalkPointer(img: Image, ghost ty: TypeSig, p: Position, src: Source, cursor: Cursor)
    returns (r: Option<NullableType>)
    requires ty == Ptr(p)
    modifies cursor
    ensures Agrees(WalkType(img, ty, src, old(cursor.idx)), r, cursor.idx)
    decreases ty, 0
  {
    var outer := cursor.Next(src);
    if outer.None? {
      return None;
    }
    var pointee := WalkNullableSig(img, p, src, cursor);
    r := if pointee.None? then None else Some(Unannotated(PtrRef(pointee.value.ty)));
  }

  /** `walk_named`, of a named type with or without arguments. */
  method WalkNamed(img: Image, ghost ty: TypeSig, kind: NamedKind, s: Scope, args: Vec<Position>,
                   src: Source, cursor: Cursor) returns (r: Option<NullableType>)
    requires ty == Generic(kind, s, args) || (ty == Named(kind, s) && args == [])
    modifies cursor
    ensures Agrees(WalkType(img, ty, src, old(cursor.idx)), r, cursor.idx)
    decreases ty, 1
  {
    var outer := Oblivious;
    if kind == ValueType {
      if args != [] && img.resolve(s).None? {
        return None;
      }
      if args != [] && !IsSystemNullable(img, s) {
        var dropped := cursor.Next(src);
        if dropped.None? {
          return None;
        }
      }
    } else {
      var b := cursor.Next(src);
      if b.None? {
        return None;
      }
      outer := b.value;
    }
    var typeArgs := WalkEach(img, ty, args, src, cursor);
    if typeArgs.None? {
      return None;
    }
    var t := NamedFromScope(img, s, typeArgs.value);
    r := if t.None? then None else Some(Nullable(t.value, outer));
  }

  /** A list walked so far, with what the walk of its remainder gives. */
  ghost function Continued(done: seq<NullableType>, rest: Option<Walked<seq<NullableType>>>)
    : Option<Walked<seq<NullableType>>>
  {
    match rest case None => None case Some(w) => Some(Walked(done + w.value, w.idx))
  }

  lemma ContinueOne(img: Image, args: seq<Position>, i: nat, src: Source, idx: nat, done: seq<NullableType>)
    requires i < |args|
    ensures Continued(done, WalkArgs(img, args[i..], src, idx))
         == match WalkPosition(img, args[i], src, idx)
            case None => None
            case Some(w) => Continued(done + [w.value], WalkArgs(img, args[i + 1..], src, w.idx))
  {
    Lists.From(args, i);
    match WalkPosition(img, args[i], src, idx)
    case None =>
    case Some(w) =>
      match WalkArgs(img, args[i + 1..], src, w.idx)
      case None =>
      case Some(rest) => Lists.Associate(done, [w.value], rest.value);
  }

  /** The arguments, left to right, over one index. */
  method WalkEach(img: Image, ghost ty: TypeSig, args: seq<Position>, src: Source, cursor: Cursor)
    returns (r: Option<seq<NullableType>>)
    requires args == Children(ty) && (ty.Generic? || args == [])
    modifies cursor
    ensures Agrees(WalkArgs(img, args, src, old(cursor.idx)), r, cursor.idx)
    decreases ty, 0
  {
    var done: seq<NullableType> := [];
    ghost var whole := WalkArgs(img, args, src, cursor.idx);
    assert args[0..] == args;
    if whole.Some? { assert [] + whole.value.value == whole.value.value; }
    var i := 0;
    while i < |args|
      invariant 0 <= i <= |args|
      invariant Continued(done, WalkArgs(img, args[i..], src, cursor.idx)) == whole
    {
      ContinueOne(img, args, i, src, cursor.idx, done);
      var walked := WalkNullableSig(img, args[i], src, cursor);
      if walked.None? {
        return None;
      }
      done := done + [walked.value];
      i := i + 1;
    }
    assert done + [] == done;
    r := Some(done);
  }

  /** `walk_type` under a byte source: a vector must be used up exactly. */
  method WalkAll(img: Image, ty: TypeSig, src: Source) returns (r: Option<NullableType>)
    ensures r == WalkWhole(img, ty, src)
  {
    var cursor := new Cursor();
    var walked := WalkNullableTy(img, ty, src, cursor);
    r := if walked.Some? && src.Vector? && cursor.idx != |src.v| then None else walked;
  }
}
