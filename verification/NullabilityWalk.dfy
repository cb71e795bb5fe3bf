/** What the pre-order nullability walk computes: when it succeeds, how it
    relates to the oblivious projection, and what becomes of each byte. */
module NullabilityWalk {
  import opened Options
  import opened Signatures
  import opened Projection

  /** No byref anywhere in the type. */
  ghost predicate ByRefFree(ty: TypeSig)
    decreases ty
  {
    match ty
    case ByRef(_) => false
    case Generic(_, _, args) => ByRefFreeAll(args)
    case SzArray(e) => ByRefFreeAt(e)
    case Array(e, _, _, _) => ByRefFreeAt(e)
    case Ptr(p) => ByRefFreeAt(p)
    case _ => true
  }

  ghost predicate ByRefFreeAt(p: Position)
    decreases p
  {
    ByRefFree(p.ty)
  }

  ghost predicate ByRefFreeAll(ps: seq<Position>)
    decreases ps
  {
    ps == [] || (ByRefFreeAt(ps[0]) && ByRefFreeAll(ps[1..]))
  }

  // ---- the bytes a type takes, and which of them its projection keeps ----

  /** A named type's node takes no byte when it is a value type without type
      arguments, or `System.Nullable<T>`. */
  ghost predicate TakesNoByte(img: Image, kind: NamedKind, s: Scope, generic: bool) {
    kind == ValueType
    && (!generic || match img.resolve(s)
                    case None => false
                    case Some(n) => n.namespace == ["System"] && n.name == "Nullable")
  }

  ghost function OuterSlot(img: Image, kind: NamedKind, s: Scope, generic: bool, keep: bool): seq<bool> {
    if TakesNoByte(img, kind, s, generic) then [] else [keep && kind != ValueType]
  }

  /** One entry per byte-consuming node in pre-order: is its byte kept? Bytes of
      generic value types, of pointers and of a pointee's own node are not. */
  ghost function Slots(img: Image, ty: TypeSig, keep: bool): seq<bool>
    decreases ty
  {
    match ty
    case Prim(p) => if p == Object || p == String then [keep] else []
    case TypeVar(_) => [keep]
    case MethodVar(_) => [keep]
    case SzArray(e) => [keep] + SlotsAt(img, e, true)
    case Array(e, _, _, _) => [keep] + SlotsAt(img, e, true)
    case Named(kind, s) => OuterSlot(img, kind, s, false, keep)
    case Generic(kind, s, args) => OuterSlot(img, kind, s, args != [], keep) + SlotsAll(img, args)
    case Ptr(p) => [false] + SlotsAt(img, p, false)
    case VoidPtr => [false]
    case TypedByRef => []
    case ByRef(_) => []
  }

  ghost function SlotsAt(img: Image, p: Position, keep: bool): seq<bool>
    decreases p
  {
    Slots(img, p.ty, keep)
  }

  ghost function SlotsAll(img: Image, ps: seq<Position>): seq<bool>
    decreases ps
  {
    if ps == [] then [] else SlotsAt(img, ps[0], true) + SlotsAll(img, ps[1..])
  }

  ghost function Count(img: Image, ty: TypeSig): nat { |Slots(img, ty, true)| }

  lemma KeepDoesNotCount(img: Image, ty: TypeSig)
    ensures |Slots(img, ty, false)| == |Slots(img, ty, true)|
  {
  }

  /** The source still holds `n` bytes at `idx`. */
  ghost predicate Enough(src: Source, idx: nat, n: nat) {
    src.Scalar? || n == 0 || idx + n <= |src.v|
  }

  // ---- the walk refines the oblivious projection ----

  /** With enough bytes the walk succeeds exactly on the byref-free projectable
      types, uses exactly one byte per slot, and erases to the projection. */
  ghost predicate Refines(img: Image, ty: TypeSig, src: Source, idx: nat) {
    var walk := WalkType(img, ty, src, idx);
    && (walk.Some? <==> ProjectType(img, ty, false).Some? && ByRefFree(ty) && Enough(src, idx, Count(img, ty)))
    && (walk.Some? ==>
          && walk.value.idx == idx + Count(img, ty)
          && Some(Erase(walk.value.value.ty)) == ProjectType(img, ty, false))
  }

  lemma {:induction false} WalkRefines(img: Image, ty: TypeSig, src: Source, idx: nat)
    ensures Refines(img, ty, src, idx)
    decreases ty, 1
  {
    if ty.SzArray? || ty.Array? {
      WalkRefinesArray(img, ty, src, idx);
    } else if ty.Generic? {
      WalkRefinesGeneric(img, ty, src, idx);
    } else if ty.Ptr? {
      WalkRefinesAt(img, ty.pointee, src, idx + 1);
      KeepDoesNotCount(img, ty.pointee.ty);
      assert Slots(img, ty, true) == [false] + Slots(img, ty.pointee.ty, false);
    }
  }

  lemma {:induction false} WalkRefinesArray(img: Image, ty: TypeSig, src: Source, idx: nat)
    requires ty.SzArray? || ty.Array?
    ensures Refines(img, ty, src, idx)
    decreases ty, 0
  {
    WalkRefinesAt(img, ty.element, src, idx + 1);
    assert Slots(img, ty, true) == [true] + Slots(img, ty.element.ty, true);
  }

  lemma {:induction false} WalkRefinesGeneric(img: Image, ty: TypeSig, src: Source, idx: nat)
    requires ty.Generic?
    ensures Refines(img, ty, src, idx)
    decreases ty, 0
  {
    WalkRefinesAll(img, ty.args, src, if OuterConsumes(img, ty.kind, ty.scope, ty.args != []) then idx + 1 else idx);
  }

  lemma {:induction false} WalkRefinesAt(img: Image, p: Position, src: Source, idx: nat)
    ensures var walk := WalkPosition(img, p, src, idx);
      && (walk.Some? <==> ProjectPosition(img, p).Some? && ByRefFreeAt(p) && Enough(src, idx, Count(img, p.ty)))
      && (walk.Some? ==>
            && walk.value.idx == idx + Count(img, p.ty)
            && Some(Erase(walk.value.value.ty)) == ProjectPosition(img, p))
    decreases p
  {
    WalkRefines(img, p.ty, src, idx);
  }

  lemma {:induction false} WalkRefinesAll(img: Image, ps: seq<Position>, src: Source, idx: nat)
    ensures var walk := WalkArgs(img, ps, src, idx);
      && (walk.Some? <==> ProjectArgs(img, ps).Some? && ByRefFreeAll(ps) && Enough(src, idx, |SlotsAll(img, ps)|))
      && (walk.Some? ==>
            && walk.value.idx == idx + |SlotsAll(img, ps)|
            && Some(EraseAll(walk.value.value)) == ProjectArgs(img, ps))
    decreases ps
  {
    if ps != [] {
      WalkRefinesAt(img, ps[0], src, idx);
      WalkRefinesAll(img, ps[1..], src, idx + Count(img, ps[0].ty));
    }
  }

  // ---- every byte goes where it belongs ----

  /** Reading the annotations back in pre-order: `None` where nothing is kept. */
  ghost function ReadBack(img: Image, ty: TypeSig, t: TypeRef, outer: Option<Nullability>): seq<Option<Nullability>>
    decreases ty
  {
    match ty
    case Prim(p) => if p == Object || p == String then [outer] else []
    case TypeVar(_) => [outer]
    case MethodVar(_) => [outer]
    case SzArray(e) => [outer]
      + (if t.ArrayRef? then ReadBackAt(img, e, t.element.ty, Some(t.element.nullability)) else [])
    case Array(e, _, _, _) =>
      [outer] + (if t.ArrayRef? then ReadBackAt(img, e, t.element.ty, Some(t.element.nullability)) else [])
    case Named(kind, s) =>
      if TakesNoByte(img, kind, s, false) then [] else [if kind == ValueType then None else outer]
    case Generic(kind, s, args) =>
      (if TakesNoByte(img, kind, s, args != []) then [] else [if kind == ValueType then None else outer])
      + (if t.NamedRef? then ReadBackAll(img, args, t.args) else [])
    case Ptr(p) => [None] + (if t.PtrRef? then ReadBackAt(img, p, t.pointee, None) else [])
    case VoidPtr => [None]
    case TypedByRef => []
    case ByRef(_) => []
  }

  ghost function ReadBackAt(img: Image, p: Position, t: TypeRef, outer: Option<Nullability>): seq<Option<Nullability>>
    decreases p
  {
    ReadBack(img, p.ty, t, outer)
  }

  ghost function ReadBackAll(img: Image, ps: seq<Position>, ts: seq<NullableType>): seq<Option<Nullability>>
    decreases ps
  {
    if ps == [] || ts == [] then []
    else ReadBackAt(img, ps[0], ts[0].ty, Some(ts[0].nullability)) + ReadBackAll(img, ps[1..], ts[1..])
  }

  /** `back` shows the kept bytes of `v` from `idx` on, slot by slot. */
  ghost predicate SlotShows(back: Option<Nullability>, kept: bool, v: seq<Nullability>, at: nat) {
    at < |v| && back == if kept then Some(v[at]) else None
  }

  ghost predicate Shows(back: seq<Option<Nullability>>, slots: seq<bool>, v: seq<Nullability>, idx: nat) {
    && |back| == |slots|
    && forall i :: 0 <= i < |slots| ==> SlotShows(back[i], slots[i], v, idx + i)
  }

  lemma ShowsConcat(
    b1: seq<Option<Nullability>>, s1: seq<bool>, b2: seq<Option<Nullability>>, s2: seq<bool>,
    v: seq<Nullability>, idx: nat)
    requires Shows(b1, s1, v, idx) && Shows(b2, s2, v, idx + |s1|)
    ensures Shows(b1 + b2, s1 + s2, v, idx)
  {
    forall i | 0 <= i < |s1 + s2| ensures SlotShows((b1 + b2)[i], (s1 + s2)[i], v, idx + i) {
      if i < |s1| {
        assert SlotShows(b1[i], s1[i], v, idx + i);
      } else {
        assert SlotShows(b2[i - |s1|], s2[i - |s1|], v, idx + |s1| + (i - |s1|));
      }
    }
  }

  ghost function OuterIf(keep: bool, n: Nullability): Option<Nullability> { if keep then Some(n) else None }

  ghost predicate TypeShows(img: Image, ty: TypeSig, v: seq<Nullability>, idx: nat, keep: bool)
    requires WalkType(img, ty, Vector(v), idx).Some?
  {
    var w := WalkType(img, ty, Vector(v), idx).value.value;
    Shows(ReadBack(img, ty, w.ty, OuterIf(keep, w.nullability)), Slots(img, ty, keep), v, idx)
  }

  lemma {:induction false} WalkShows(img: Image, ty: TypeSig, v: seq<Nullability>, idx: nat, keep: bool)
    requires WalkType(img, ty, Vector(v), idx).Some?
    ensures TypeShows(img, ty, v, idx, keep)
    decreases ty, 1
  {
    if ty.SzArray? || ty.Array? {
      WalkShowsArray(img, ty, v, idx, keep);
    } else if ty.Generic? {
      WalkShowsGeneric(img, ty, v, idx, keep);
    } else if ty.Ptr? {
      WalkShowsPtr(img, ty, v, idx, keep);
    }
  }

  lemma {:induction false} WalkShowsArray(img: Image, ty: TypeSig, v: seq<Nullability>, idx: nat, keep: bool)
    requires WalkType(img, ty, Vector(v), idx).Some? && (ty.SzArray? || ty.Array?)
    ensures TypeShows(img, ty, v, idx, keep)
    decreases ty, 0
  {
    var e := ty.element;
    WalkShowsAt(img, e, v, idx + 1, true);
    var inner := WalkPosition(img, e, Vector(v), idx + 1).value.value;
    ShowsConcat([OuterIf(keep, v[idx])], [keep], ReadBackAt(img, e, inner.ty, Some(inner.nullability)),
      SlotsAt(img, e, true), v, idx);
  }

  lemma {:induction false} WalkShowsPtr(img: Image, ty: TypeSig, v: seq<Nullability>, idx: nat, keep: bool)
    requires WalkType(img, ty, Vector(v), idx).Some? && ty.Ptr?
    ensures TypeShows(img, ty, v, idx, keep)
    decreases ty, 0
  {
    var p := ty.pointee;
    WalkShowsAt(img, p, v, idx + 1, false);
    var inner := WalkPosition(img, p, Vector(v), idx + 1).value.value;
    ShowsConcat([None], [false], ReadBackAt(img, p, inner.ty, None), SlotsAt(img, p, false), v, idx);
  }

  lemma {:induction false} WalkShowsGeneric(img: Image, ty: TypeSig, v: seq<Nullability>, idx: nat, keep: bool)
    requires WalkType(img, ty, Vector(v), idx).Some? && ty.Generic?
    ensures TypeShows(img, ty, v, idx, keep)
    decreases ty, 0
  {
    var kind, s, args := ty.kind, ty.scope, ty.args;
    var outer := NamedOuter(img, kind, s, args != [], Vector(v), idx).value;
    WalkShowsAll(img, args, v, outer.idx);
    var ws := WalkArgs(img, args, Vector(v), outer.idx).value.value;
    var back := if OuterConsumes(img, kind, s, args != [])
      then [if kind == ValueType then None else OuterIf(keep, outer.value)] else [];
    assert Shows(back, OuterSlot(img, kind, s, args != [], keep), v, idx);
    ShowsConcat(back, OuterSlot(img, kind, s, args != [], keep),
                ReadBackAll(img, args, ws), SlotsAll(img, args), v, idx);
  }

  lemma {:induction false} WalkShowsAt(img: Image, p: Position, v: seq<Nullability>, idx: nat, keep: bool)
    requires WalkPosition(img, p, Vector(v), idx).Some?
    ensures var w := WalkPosition(img, p, Vector(v), idx).value.value;
      Shows(ReadBackAt(img, p, w.ty, OuterIf(keep, w.nullability)), SlotsAt(img, p, keep), v, idx)
    decreases p
  {
    WalkShows(img, p.ty, v, idx, keep);
  }

  lemma {:induction false} WalkShowsAll(img: Image, ps: seq<Position>, v: seq<Nullability>, idx: nat)
    requires WalkArgs(img, ps, Vector(v), idx).Some?
    ensures var ws := WalkArgs(img, ps, Vector(v), idx).value.value;
      |ws| == |ps| && Shows(ReadBackAll(img, ps, ws), SlotsAll(img, ps), v, idx)
    decreases ps
  {
    if ps != [] {
      var first := WalkPosition(img, ps[0], Vector(v), idx).value;
      WalkRefinesAt(img, ps[0], Vector(v), idx);
      WalkShowsAt(img, ps[0], v, idx, true);
      WalkShowsAll(img, ps[1..], v, first.idx);
      var ws := WalkArgs(img, ps, Vector(v), idx).value.value;
      var rest := WalkArgs(img, ps[1..], Vector(v), first.idx).value.value;
      assert ws[0] == first.value && ws[1..] == rest;
      ShowsConcat(ReadBackAt(img, ps[0], ws[0].ty, Some(ws[0].nullability)), SlotsAt(img, ps[0], true),
                  ReadBackAll(img, ps[1..], rest), SlotsAll(img, ps[1..]), v, idx);
    }
  }

  // ---- and nothing else matters ----

  /** Two byte vectors agree on every kept slot from `idx` on. */
  ghost predicate Agree(slots: seq<bool>, v: seq<Nullability>, w: seq<Nullability>, idx: nat) {
    forall i :: 0 <= i < |slots| && slots[i] && idx + i < |v| && idx + i < |w| ==> v[idx + i] == w[idx + i]
  }

  lemma AgreeParts(s1: seq<bool>, s2: seq<bool>, v: seq<Nullability>, w: seq<Nullability>, idx: nat)
    requires Agree(s1 + s2, v, w, idx)
    ensures Agree(s1, v, w, idx) && Agree(s2, v, w, idx + |s1|)
  {
    forall i | 0 <= i < |s1| && s1[i] && idx + i < |v| && idx + i < |w| ensures v[idx + i] == w[idx + i] {
      assert (s1 + s2)[i];
    }
    forall i | 0 <= i < |s2| && s2[i] && idx + |s1| + i < |v| && idx + |s1| + i < |w|
      ensures v[idx + |s1| + i] == w[idx + |s1| + i]
    {
      assert (s1 + s2)[|s1| + i] && idx + (|s1| + i) == idx + |s1| + i;
    }
  }

  /** The two walks give one type, and one annotation where it is kept. */
  ghost predicate SameWalk(img: Image, ty: TypeSig, v: seq<Nullability>, w: seq<Nullability>, idx: nat, keep: bool)
    requires WalkType(img, ty, Vector(v), idx).Some? && WalkType(img, ty, Vector(w), idx).Some?
  {
    var a, b := WalkType(img, ty, Vector(v), idx).value, WalkType(img, ty, Vector(w), idx).value;
    a.idx == b.idx && a.value.ty == b.value.ty && (keep ==> a.value == b.value)
  }

  lemma {:induction false} WalkDetermined(
    img: Image, ty: TypeSig, v: seq<Nullability>, w: seq<Nullability>, idx: nat, keep: bool)
    requires WalkType(img, ty, Vector(v), idx).Some? && WalkType(img, ty, Vector(w), idx).Some?
    requires Agree(Slots(img, ty, keep), v, w, idx)
    ensures SameWalk(img, ty, v, w, idx, keep)
    decreases ty, 1
  {
    match ty
    case SzArray(e) => WalkDeterminedArray(img, ty, e, v, w, idx, keep);
    case Array(e, rank, sizes, lows) => WalkDeterminedArray(img, ty, e, v, w, idx, keep);
    case Ptr(p) =>
      AgreeParts([false], SlotsAt(img, p, false), v, w, idx);
      WalkDeterminedAt(img, p, v, w, idx + 1, false);
    case Generic(kind, s, args) => WalkDeterminedGeneric(img, ty, v, w, idx, keep);
    case Named(kind, s) =>
      assert keep && kind != ValueType ==> Slots(img, ty, keep)[0];
    case Prim(p) =>
      assert keep && !p.ValuePrimitive? ==> Slots(img, ty, keep)[0];
    case TypeVar(i) =>
      assert keep ==> Slots(img, ty, keep)[0];
    case MethodVar(i) =>
      assert keep ==> Slots(img, ty, keep)[0];
    case _ =>
  }

  lemma {:induction false} WalkDeterminedArray(
    img: Image, ty: TypeSig, e: Position, v: seq<Nullability>, w: seq<Nullability>, idx: nat, keep: bool)
    requires WalkType(img, ty, Vector(v), idx).Some? && WalkType(img, ty, Vector(w), idx).Some?
    requires Agree(Slots(img, ty, keep), v, w, idx) && (ty.SzArray? || ty.Array?) && e == ty.element
    ensures SameWalk(img, ty, v, w, idx, keep)
    decreases ty, 0
  {
    AgreeParts([keep], SlotsAt(img, e, true), v, w, idx);
    WalkDeterminedAt(img, e, v, w, idx + 1, true);
    assert keep ==> [keep][0];
  }

  lemma {:induction false} WalkDeterminedGeneric(
    img: Image, ty: TypeSig, v: seq<Nullability>, w: seq<Nullability>, idx: nat, keep: bool)
    requires WalkType(img, ty, Vector(v), idx).Some? && WalkType(img, ty, Vector(w), idx).Some?
    requires Agree(Slots(img, ty, keep), v, w, idx) && ty.Generic?
    ensures SameWalk(img, ty, v, w, idx, keep)
    decreases ty, 0
  {
    var outer := OuterSlot(img, ty.kind, ty.scope, ty.args != [], keep);
    AgreeParts(outer, SlotsAll(img, ty.args), v, w, idx);
    WalkDeterminedAll(img, ty.args, v, w, idx + |outer|);
    assert keep && ty.kind != ValueType ==> outer[0];
  }

  lemma {:induction false} WalkDeterminedAt(
    img: Image, p: Position, v: seq<Nullability>, w: seq<Nullability>, idx: nat, keep: bool)
    requires WalkPosition(img, p, Vector(v), idx).Some? && WalkPosition(img, p, Vector(w), idx).Some?
    requires Agree(SlotsAt(img, p, keep), v, w, idx)
    ensures var a, b := WalkPosition(img, p, Vector(v), idx).value, WalkPosition(img, p, Vector(w), idx).value;
      a.idx == b.idx && a.value.ty == b.value.ty && (keep ==> a.value == b.value)
    decreases p
  {
    WalkDetermined(img, p.ty, v, w, idx, keep);
  }

  lemma {:induction false} WalkDeterminedAll(
    img: Image, ps: seq<Position>, v: seq<Nullability>, w: seq<Nullability>, idx: nat)
    requires WalkArgs(img, ps, Vector(v), idx).Some? && WalkArgs(img, ps, Vector(w), idx).Some?
    requires Agree(SlotsAll(img, ps), v, w, idx)
    ensures WalkArgs(img, ps, Vector(v), idx) == WalkArgs(img, ps, Vector(w), idx)
    decreases ps
  {
    if ps != [] {
      WalkRefinesAt(img, ps[0], Vector(v), idx);
      AgreeParts(SlotsAt(img, ps[0], true), SlotsAll(img, ps[1..]), v, w, idx);
      WalkDeterminedAt(img, ps[0], v, w, idx, true);
      WalkDeterminedAll(img, ps[1..], v, w, idx + Count(img, ps[0].ty));
    }
  }

  // ---- the results, at a whole position ----

  /** With a scalar source the walk and the oblivious projection succeed on the
      same inputs exactly when the type is byref-free: the oblivious path also
      projects a byref below the top, which the walk refuses. */
  lemma ScalarWalkMatchesProjection(img: Image, ty: TypeSig, b: Nullability)
    ensures WalkWhole(img, ty, Scalar(b)).Some? <==> ProjectType(img, ty, false).Some? && ByRefFree(ty)
    ensures WalkWhole(img, ty, Scalar(b)).Some? ==>
      Some(Erase(WalkWhole(img, ty, Scalar(b)).value.ty)) == ProjectType(img, ty, false)
  {
    WalkRefines(img, ty, Scalar(b), 0);
  }

  /** The two paths really part on a byref below the top. */
  lemma PathsPartOnNestedByRef(img: Image)
    ensures var ty := SzArray(Position([], ByRef(Position([], Prim(Object)))));
      ProjectType(img, ty, false).Some? && WalkWhole(img, ty, Scalar(Annotated)).None?
  {
    var inner := Position([], Prim(Object));
    var byref := Position([], ByRef(inner));
    assert ProjectPosition(img, inner) == Some(PrimRef(Object));
    assert ProjectPosition(img, byref) == Some(ByRefRef(PrimRef(Object), false));
    WalkRefines(img, SzArray(byref), Scalar(Annotated), 0);
  }

  /** A byte vector is accepted exactly when the type is projectable and
      byref-free and there is exactly one byte per slot. */
  lemma VectorWalkAccepts(img: Image, ty: TypeSig, v: seq<Nullability>)
    ensures WalkWhole(img, ty, Vector(v)).Some? <==>
      ProjectType(img, ty, false).Some? && ByRefFree(ty) && |v| == Count(img, ty)
    ensures WalkWhole(img, ty, Vector(v)).Some? ==>
      Some(Erase(WalkWhole(img, ty, Vector(v)).value.ty)) == ProjectType(img, ty, false)
  {
    WalkRefines(img, ty, Vector(v), 0);
  }

  /** The annotations read back are exactly the kept bytes, in order. */
  lemma VectorWalkReadsBack(img: Image, ty: TypeSig, v: seq<Nullability>)
    requires WalkWhole(img, ty, Vector(v)).Some?
    ensures var t := WalkWhole(img, ty, Vector(v)).value;
      Shows(ReadBack(img, ty, t.ty, Some(t.nullability)), Slots(img, ty, true), v, 0)
  {
    WalkShows(img, ty, v, 0, true);
  }

  /** Two vectors give one result exactly when they agree on the kept bytes. */
  lemma VectorWalkKeepsExactly(img: Image, ty: TypeSig, v: seq<Nullability>, w: seq<Nullability>)
    requires WalkWhole(img, ty, Vector(v)).Some? && WalkWhole(img, ty, Vector(w)).Some?
    ensures WalkWhole(img, ty, Vector(v)) == WalkWhole(img, ty, Vector(w)) <==> Agree(Slots(img, ty, true), v, w, 0)
  {
    VectorWalkReadsBack(img, ty, v);
    VectorWalkReadsBack(img, ty, w);
    if Agree(Slots(img, ty, true), v, w, 0) {
      WalkDetermined(img, ty, v, w, 0, true);
    }
    if WalkWhole(img, ty, Vector(v)) == WalkWhole(img, ty, Vector(w)) {
      var walked := WalkWhole(img, ty, Vector(v)).value;
      var back := ReadBack(img, ty, walked.ty, Some(walked.nullability));
      forall i | 0 <= i < |back| && Slots(img, ty, true)[i] && 0 + i < |v| && 0 + i < |w| ensures v[0 + i] == w[0 + i] {
        assert SlotShows(back[i], true, v, 0 + i) && SlotShows(back[i], true, w, 0 + i);
      }
    }
  }

  // ---- from the attribute's payload ----

  /** `decode_nullable_byte_source` on a `byte[]` payload: every byte 0, 1 or 2;
      an empty array refused; a single byte broadcast. */
  function FromByte(b: nat): Option<Nullability> {
    if b == 0 then Some(Oblivious) else if b == 1 then Some(NotAnnotated) else if b == 2 then Some(Annotated) else None
  }

  function FromBytes(bs: seq<nat>): Option<seq<Nullability>> {
    if bs == [] then Some([])
    else match (FromByte(bs[0]), FromBytes(bs[1..]))
         case (Some(n), Some(ns)) => Some([n] + ns)
         case _ => None
  }

  function DecodePayload(bs: seq<nat>): Attribute {
    match FromBytes(bs)
    case None => Unreadable
    case Some(v) => if |v| == 0 then Unreadable else if |v| == 1 then Bytes(Scalar(v[0])) else Bytes(Vector(v))
  }

  /** The byte Roslyn writes for a state. */
  ghost function ByteOf(n: Nullability): nat {
    match n case Oblivious => 0 case NotAnnotated => 1 case Annotated => 2
  }

  /** A payload decodes exactly when every byte is a state's, and to those states. */
  lemma {:induction false} FromBytesTotal(bs: seq<nat>)
    ensures FromBytes(bs).Some? <==> forall i :: 0 <= i < |bs| ==> bs[i] <= 2
    ensures FromBytes(bs).Some? ==>
      && |FromBytes(bs).value| == |bs|
      && forall i :: 0 <= i < |bs| ==> ByteOf(FromBytes(bs).value[i]) == bs[i]
    decreases |bs|
  {
    if bs != [] {
      FromBytesTotal(bs[1..]);
      assert forall i :: 0 < i < |bs| ==> bs[i] == bs[1..][i - 1];
      assert forall i :: 0 <= i < |bs| - 1 ==> bs[1..][i] == bs[i + 1];
    }
  }

  /** One byte is a scalar, more are a vector, each byte under its own meaning;
      no bytes, or an unknown one, cannot be read. */
  lemma PayloadReads(bs: seq<nat>)
    ensures DecodePayload(bs) == Unreadable <==> bs == [] || exists i :: 0 <= i < |bs| && bs[i] > 2
    ensures DecodePayload(bs) != Unreadable ==>
      match DecodePayload(bs)
      case Bytes(Scalar(b)) => |bs| == 1 && ByteOf(b) == bs[0]
      case Bytes(Vector(v)) => |bs| > 1 && |v| == |bs| && forall i :: 0 <= i < |bs| ==> ByteOf(v[i]) == bs[i]
      case _ => false
  {
    FromBytesTotal(bs);
  }

  /** A position with a `byte[]` attribute projects exactly when its type is
      projectable and byref-free, every byte is a known state, and there is one
      byte for each slot or a single byte for all of them. */
  lemma PayloadAccepted(img: Image, ty: TypeSig, bs: seq<nat>, context: Option<Nullability>)
    ensures AnnotateType(img, ty, DecodePayload(bs), context).Some? <==>
      && ProjectType(img, ty, false).Some? && ByRefFree(ty)
      && (forall i :: 0 <= i < |bs| ==> bs[i] <= 2)
      && (|bs| == 1 || (|bs| > 1 && |bs| == Count(img, ty)))
  {
    FromBytesTotal(bs);
    if FromBytes(bs).Some? && |bs| > 0 {
      var v := FromBytes(bs).value;
      if |bs| == 1 {
        ScalarWalkMatchesProjection(img, ty, v[0]);
      } else {
        VectorWalkAccepts(img, ty, v);
      }
    }
  }
}
