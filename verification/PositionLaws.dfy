/** What a projected position shows: an independent description of the entity
    model's type for every signature, and from it the type, byref, read-only
    mark and annotation of every parameter and return. */
module PositionLaws {
  import opened Options
  import opened Signatures
  import opened Projection
  import opened NullabilityWalk
  import Lists

  // ---- modifier runs ----

  /** A scope that resolves to this type. */
  ghost predicate Resolves(img: Image, s: Scope, namespace: seq<string>, name: string) {
    match img.resolve(s) case None => false case Some(n) => n.namespace == namespace && n.name == name
  }

  /** `modreq(System.Runtime.InteropServices.InAttribute)`. */
  ghost predicate IsIn(img: Image, m: CustomMod) {
    m.required && Resolves(img, m.modifier, ["System", "Runtime", "InteropServices"], "InAttribute")
  }

  /** `modreq(System.Runtime.CompilerServices.IsVolatile)`. */
  ghost predicate IsVol(img: Image, m: CustomMod) {
    m.required && Resolves(img, m.modifier, ["System", "Runtime", "CompilerServices"], "IsVolatile")
  }

  ghost predicate HasIn(img: Image, run: seq<CustomMod>) { exists i :: 0 <= i < |run| && IsIn(img, run[i]) }

  ghost predicate HasVol(img: Image, run: seq<CustomMod>) { exists i :: 0 <= i < |run| && IsVol(img, run[i]) }

  /** Every required modifier of the run is one of the two. */
  ghost predicate Understood(img: Image, run: seq<CustomMod>) {
    forall i :: 0 <= i < |run| && run[i].required ==> IsIn(img, run[i]) || IsVol(img, run[i])
  }

  lemma {:induction false} ClassifyFromExact(img: Image, run: seq<CustomMod>, acc: Modifiers)
    ensures ClassifyFrom(img, run, acc).Some? <==> Understood(img, run)
    ensures ClassifyFrom(img, run, acc).Some? ==>
      ClassifyFrom(img, run, acc).value
      == Modifiers(acc.readonlyRef || HasIn(img, run), acc.volatile || HasVol(img, run))
    decreases |run|
  {
    if run != [] {
      var rest := run[1..];
      assert forall i :: 0 < i < |run| ==> run[i] == rest[i - 1];
      assert forall i :: 0 <= i < |rest| ==> rest[i] == run[i + 1];
      ClassifyFromExact(img, rest, acc);
      ClassifyFromExact(img, rest, acc.(readonlyRef := true));
      ClassifyFromExact(img, rest, acc.(volatile := true));
      assert HasIn(img, run) <==> IsIn(img, run[0]) || HasIn(img, rest);
      assert HasVol(img, run) <==> IsVol(img, run[0]) || HasVol(img, rest);
    }
  }

  /** A run is classified exactly when every required modifier is understood, and
      as what it holds. */
  lemma ClassifyExact(img: Image, run: seq<CustomMod>)
    ensures Classify(img, run).Some? <==> Understood(img, run)
    ensures Classify(img, run).Some? ==> Classify(img, run).value == Modifiers(HasIn(img, run), HasVol(img, run))
  {
    ClassifyFromExact(img, run, NO_MODIFIERS);
  }

  /** No required modifier at all. */
  ghost predicate Unmodified(run: seq<CustomMod>) { forall i :: 0 <= i < |run| ==> !run[i].required }

  lemma UnmodifiedExact(img: Image, run: seq<CustomMod>)
    ensures Classify(img, run) == Some(Modifiers(false, false)) <==> Unmodified(run)
  {
    ClassifyExact(img, run);
    if Understood(img, run) && !HasIn(img, run) && !HasVol(img, run) {
      forall i | 0 <= i < |run| ensures !run[i].required { }
    }
  }

  // ---- the type a signature depicts ----

  /** `t` is the unannotated picture of `ty`; a byref below it carries its own
      position's read-only mark, the one at the top `readonlyRef`. */
  ghost predicate Depicts(img: Image, ty: TypeSig, readonlyRef: bool, t: TypeRef)
    decreases ty
  {
    match ty
    case Prim(p) => t == PrimRef(p)
    case Named(_, s) => t.NamedRef? && img.resolve(s) == Some(t.name) && t.args == []
    case Generic(_, s, args) => t.NamedRef? && img.resolve(s) == Some(t.name) && DepictsAll(img, args, t.args)
    case TypeVar(n) => n < 0x1_0000 && t == Var(n, false)
    case MethodVar(n) => n < 0x1_0000 && t == Var(n, true)
    case SzArray(e) => t.ArrayRef? && t == ArrayRef(t.element, 1, [], []) && DepictsIn(img, e, t.element)
    case Array(e, rank, sizes, lows) =>
      && t.ArrayRef? && t == ArrayRef(t.element, rank, sizes, lows) && DepictsIn(img, e, t.element)
      && rank < 0x100 && (rank == 1 ==> sizes != [] || lows != [])
    case Ptr(p) => t.PtrRef? && DepictsAt(img, p, t.pointee)
    case VoidPtr => t == VoidPtrRef
    case ByRef(i) => t.ByRefRef? && t.readonly == readonlyRef && DepictsAt(img, i, t.inner)
    case TypedByRef => t.NamedRef? && img.typedReference == Some(t.name) && t.args == []
  }

  /** A position: understood, not volatile, and read-only only as a byref. */
  ghost predicate DepictsAt(img: Image, p: Position, t: TypeRef)
    decreases p, 0
  {
    && Understood(img, p.mods) && !HasVol(img, p.mods) && (HasIn(img, p.mods) ==> p.ty.ByRef?)
    && Depicts(img, p.ty, HasIn(img, p.mods), t)
  }

  ghost predicate DepictsIn(img: Image, p: Position, n: NullableType)
    decreases p, 1
  {
    n.nullability == Oblivious && DepictsAt(img, p, n.ty)
  }

  ghost predicate DepictsAll(img: Image, ps: seq<Position>, ns: seq<NullableType>)
    decreases ps
  {
    if ps == [] then ns == [] else ns != [] && DepictsIn(img, ps[0], ns[0]) && DepictsAll(img, ps[1..], ns[1..])
  }

  /** The oblivious projection is exactly that picture: it succeeds when there is
      one, and gives it. */
  lemma {:induction false} ProjectTypeDepicts(img: Image, ty: TypeSig, readonlyRef: bool, t: TypeRef)
    ensures ProjectType(img, ty, readonlyRef) == Some(t) <==> Depicts(img, ty, readonlyRef, t)
    decreases ty, 1
  {
    match ty
    case Generic(_, s, args) => ProjectGenericDepicts(img, ty, readonlyRef, t);
    case SzArray(e) => if t.ArrayRef? { ProjectPositionDepicts(img, e, t.element.ty); }
    case Array(e, _, _, _) => if t.ArrayRef? { ProjectPositionDepicts(img, e, t.element.ty); }
    case Ptr(p) => if t.PtrRef? { ProjectPositionDepicts(img, p, t.pointee); }
    case ByRef(i) => if t.ByRefRef? { ProjectPositionDepicts(img, i, t.inner); }
    case _ =>
  }

  lemma {:induction false} ProjectGenericDepicts(img: Image, ty: TypeSig, readonlyRef: bool, t: TypeRef)
    requires ty.Generic?
    ensures ProjectType(img, ty, readonlyRef) == Some(t) <==> Depicts(img, ty, readonlyRef, t)
    decreases ty, 0
  {
    if t.NamedRef? { ProjectArgsDepict(img, ty.args, t.args); }
  }

  lemma {:induction false} ProjectPositionDepicts(img: Image, p: Position, t: TypeRef)
    ensures ProjectPosition(img, p) == Some(t) <==> DepictsAt(img, p, t)
    decreases p
  {
    ClassifyExact(img, p.mods);
    ProjectTypeDepicts(img, p.ty, HasIn(img, p.mods), t);
  }

  lemma {:induction false} ProjectArgsDepict(img: Image, ps: seq<Position>, ns: seq<NullableType>)
    ensures ProjectArgs(img, ps) == Some(ns) <==> DepictsAll(img, ps, ns)
    decreases ps
  {
    if ps != [] && ns != [] {
      ProjectPositionDepicts(img, ps[0], ns[0].ty);
      ProjectArgsDepict(img, ps[1..], ns[1..]);
      if ProjectArgs(img, ps) == Some(ns) {
        assert ProjectArgs(img, ps[1..]) == Some(ns[1..]);
      }
      if DepictsAll(img, ps, ns) {
        assert DepictsIn(img, ps[0], ns[0]);
        assert ns[0] == Unannotated(ns[0].ty);
        assert ns == [ns[0]] + ns[1..];
      }
    }
  }

  lemma {:induction false} DepictedIsErased(img: Image, ty: TypeSig, readonlyRef: bool, t: TypeRef)
    requires Depicts(img, ty, readonlyRef, t)
    ensures Erase(t) == t
    decreases ty
  {
    match ty
    case Generic(_, _, args) => DepictedAreErased(img, args, t.args);
    case SzArray(e) => DepictedAtIsErased(img, e, t.element.ty);
    case Array(e, _, _, _) => DepictedAtIsErased(img, e, t.element.ty);
    case Ptr(p) => DepictedAtIsErased(img, p, t.pointee);
    case ByRef(i) => DepictedAtIsErased(img, i, t.inner);
    case _ =>
  }

  lemma {:induction false} DepictedAtIsErased(img: Image, p: Position, t: TypeRef)
    requires DepictsAt(img, p, t)
    ensures Erase(t) == t
    decreases p
  {
    DepictedIsErased(img, p.ty, HasIn(img, p.mods), t);
  }

  lemma {:induction false} DepictedAreErased(img: Image, ps: seq<Position>, ns: seq<NullableType>)
    requires DepictsAll(img, ps, ns)
    ensures EraseAll(ns) == ns
    decreases ps
  {
    if ps != [] {
      DepictedAtIsErased(img, ps[0], ns[0].ty);
      DepictedAreErased(img, ps[1..], ns[1..]);
      assert ns == [ns[0]] + ns[1..];
    }
  }

  // ---- an annotated type ----

  /** The bytes a position is annotated from: its attribute's, else the scope's
      default unless that is oblivious. */
  ghost function BytesFor(attr: Attribute, context: Option<Nullability>): Option<Source> {
    match attr
    case Bytes(src) => Some(src)
    case _ => if context.None? || context.value == Oblivious then None else Some(Scalar(context.value))
  }

  /** A node whose own annotation is kept: a reference type, a type parameter or
      an array. */
  ghost predicate KeepsOwn(ty: TypeSig) {
    match ty
    case Prim(p) => p == Object || p == String
    case Named(kind, _) => kind != ValueType
    case Generic(kind, _, _) => kind != ValueType
    case TypeVar(_) => true
    case MethodVar(_) => true
    case SzArray(_) => true
    case Array(_, _, _, _) => true
    case _ => false
  }

  /** The `i`-th byte of a source; a single byte is every one. */
  ghost function ByteAt(src: Source, i: nat): Option<Nullability> {
    match src case Scalar(b) => Some(b) case Vector(v) => if i < |v| then Some(v[i]) else None
  }

  lemma OwnAnnotation(img: Image, ty: TypeSig, src: Source, idx: nat)
    requires WalkType(img, ty, src, idx).Some?
    ensures WalkType(img, ty, src, idx).value.value.nullability
         == if KeepsOwn(ty) then ByteAt(src, idx).value else Oblivious
    ensures KeepsOwn(ty) ==> ByteAt(src, idx).Some?
  {
  }

  /** An annotated type pictures its signature, and its own annotation is the
      first byte where the node keeps one. */
  lemma AnnotatedDepicts(img: Image, ty: TypeSig, attr: Attribute, context: Option<Nullability>)
    requires AnnotateType(img, ty, attr, context).Some?
    ensures var w := AnnotateType(img, ty, attr, context).value;
      && !attr.Unreadable?
      && Depicts(img, ty, false, Erase(w.ty))
      && w.nullability == match BytesFor(attr, context)
                          case None => Oblivious
                          case Some(src) =>
                            if KeepsOwn(ty) && ByteAt(src, 0).Some? then ByteAt(src, 0).value else Oblivious
  {
    var w := AnnotateType(img, ty, attr, context).value;
    match BytesFor(attr, context)
    case None =>
      ProjectTypeDepicts(img, ty, false, w.ty);
      DepictedIsErased(img, ty, false, w.ty);
    case Some(src) =>
      WalkRefines(img, ty, src, 0);
      ProjectTypeDepicts(img, ty, false, Erase(w.ty));
      OwnAnnotation(img, ty, src, 0);
  }

  /** Without bytes nothing is annotated, and every projectable type is accepted;
      with bytes every byref-free one whose number of bytes is right. */
  lemma AnnotatedExactly(img: Image, ty: TypeSig, attr: Attribute, context: Option<Nullability>)
    ensures AnnotateType(img, ty, attr, context).Some? <==>
      && !attr.Unreadable? && (exists t :: Depicts(img, ty, false, t))
      && match BytesFor(attr, context)
         case None => true
         case Some(src) => ByRefFree(ty) && (src.Vector? ==> |src.v| == Count(img, ty))
    ensures BytesFor(attr, context) == None && AnnotateType(img, ty, attr, context).Some? ==>
      var w := AnnotateType(img, ty, attr, context).value; Erase(w.ty) == w.ty
  {
    if t :| Depicts(img, ty, false, t) { ProjectTypeDepicts(img, ty, false, t); }
    var projected := ProjectType(img, ty, false);
    if projected.Some? {
      ProjectTypeDepicts(img, ty, false, projected.value);
      DepictedIsErased(img, ty, false, projected.value);
    }
    var bytes := BytesFor(attr, context);
    if bytes.Some? { WalkRefines(img, ty, bytes.value, 0); }
  }

  // ---- one byte for all is as many equal bytes ----

  ghost function Uniform(b: Nullability, n: nat): seq<Nullability> { seq(n, _ => b) }

  lemma {:induction false} ScalarIsUniform(img: Image, ty: TypeSig, b: Nullability, idx: nat, n: nat)
    requires idx + Count(img, ty) <= n
    ensures WalkType(img, ty, Scalar(b), idx) == WalkType(img, ty, Vector(Uniform(b, n)), idx)
    decreases ty
  {
    match ty
    case SzArray(e) =>
      assert SlotsAt(img, e, true) == Slots(img, e.ty, true);
      ScalarIsUniformAt(img, e, b, idx + 1, n);
    case Array(e, _, _, _) =>
      assert SlotsAt(img, e, true) == Slots(img, e.ty, true);
      ScalarIsUniformAt(img, e, b, idx + 1, n);
    case Ptr(p) =>
      KeepDoesNotCount(img, p.ty);
      assert SlotsAt(img, p, false) == Slots(img, p.ty, false);
      ScalarIsUniformAt(img, p, b, idx + 1, n);
    case Generic(kind, s, args) =>
      ScalarIsUniformAll(img, args, b, if TakesNoByte(img, kind, s, args != []) then idx else idx + 1, n);
    case _ =>
  }

  lemma {:induction false} ScalarIsUniformAt(img: Image, p: Position, b: Nullability, idx: nat, n: nat)
    requires idx + Count(img, p.ty) <= n
    ensures WalkPosition(img, p, Scalar(b), idx) == WalkPosition(img, p, Vector(Uniform(b, n)), idx)
    decreases p
  {
    ScalarIsUniform(img, p.ty, b, idx, n);
  }

  lemma {:induction false} ScalarIsUniformAll(img: Image, ps: seq<Position>, b: Nullability, idx: nat, n: nat)
    requires idx + |SlotsAll(img, ps)| <= n
    ensures WalkArgs(img, ps, Scalar(b), idx) == WalkArgs(img, ps, Vector(Uniform(b, n)), idx)
    decreases ps
  {
    if ps != [] {
      ScalarIsUniformAt(img, ps[0], b, idx, n);
      WalkRefinesAt(img, ps[0], Scalar(b), idx);
      ScalarIsUniformAll(img, ps[1..], b, idx + Count(img, ps[0].ty), n);
    }
  }

  /** So a broadcast byte reads back at every node that keeps one. */
  lemma ScalarReadsBack(img: Image, ty: TypeSig, b: Nullability)
    requires WalkWhole(img, ty, Scalar(b)).Some?
    ensures var t := WalkWhole(img, ty, Scalar(b)).value;
      Shows(ReadBack(img, ty, t.ty, Some(t.nullability)), Slots(img, ty, true), Uniform(b, Count(img, ty)), 0)
  {
    ScalarIsUniform(img, ty, b, 0, Count(img, ty));
    WalkRefines(img, ty, Scalar(b), 0);
    VectorWalkReadsBack(img, ty, Uniform(b, Count(img, ty)));
  }

  // ---- byref positions, parameters and returns ----

  /** A byref's own run and attribute: understood, and read-only by either. */
  ghost predicate ByRefReads(img: Image, p: Position, site: Site) {
    Understood(img, p.mods) && (HasIn(img, p.mods) || site.readonlyAttr.Some?)
  }

  ghost predicate IsReadonly(img: Image, p: Position, site: Site) {
    HasIn(img, p.mods) || site.readonlyAttr == Some(true)
  }

  /** A byref position gives a byref of the annotated referent, read-only exactly
      as its run or its attribute says; another gives its annotated type; what is
      left of the run is at most `volatile`. */
  lemma ByRefPositionExact(img: Image, p: Position, site: Site)
    ensures var r, byref := AnnotateByRefPosition(img, p, site), p.ty.ByRef?;
      var at := if byref then p.ty.inner else p;
      var w := AnnotateType(img, at.ty, site.attr, site.context);
      && (r.Some? <==>
            && w.Some? && Understood(img, p.mods)
            && if byref then !at.ty.ByRef? && Unmodified(at.mods) && ByRefReads(img, p, site) else !HasIn(img, p.mods))
      && (r.Some? ==>
            && r.value.nullability == w.value.nullability
            && r.value.ty == (if byref then ByRefRef(w.value.ty, IsReadonly(img, p, site)) else w.value.ty)
            && r.value.mods == Modifiers(false, HasVol(img, p.mods)))
  {
    ClassifyExact(img, p.mods);
    if p.ty.ByRef? { UnmodifiedExact(img, p.ty.inner.mods); }
  }

  /** A parameter is a byref exactly when its signature is one, holds the
      annotated type behind it, and is read-only as its run or attribute says. */
  lemma ParameterExact(img: Image, p: Position, site: Site)
    ensures var r, byref := ProjectParameter(img, p, site), p.ty.ByRef?;
      var at := if byref then p.ty.inner else p;
      var w := AnnotateType(img, at.ty, site.attr, site.context);
      && (r.Some? <==>
            && w.Some? && Unmodified(at.mods)
            && (byref ==> ByRefReads(img, p, site) && !HasVol(img, p.mods)))
      && (r.Some? ==>
            r.value == Parameter(w.value.ty, byref, byref && IsReadonly(img, p, site), w.value.nullability))
  {
    ClassifyExact(img, p.mods);
    UnmodifiedExact(img, p.mods);
    if p.ty.ByRef? { UnmodifiedExact(img, p.ty.inner.mods); }
  }

  /** A typed return has a type: the annotated one, behind a byref if it is one. */
  lemma ReturnExact(img: Image, p: Position, site: Site, isSetter: bool)
    ensures var r, byref := ProjectReturn(img, Returns(p), site, isSetter), p.ty.ByRef?;
      var at := if byref then p.ty.inner else p;
      var w := AnnotateType(img, at.ty, site.attr, site.context);
      && (r.Some? <==>
            && w.Some? && Unmodified(at.mods)
            && (byref ==> ByRefReads(img, p, site) && !HasVol(img, p.mods) && !at.ty.ByRef?))
      && (r.Some? ==>
            && r.value.nullability == w.value.nullability
            && r.value.ty == Some(if byref then ByRefRef(w.value.ty, IsReadonly(img, p, site)) else w.value.ty))
  {
    ByRefPositionExact(img, p, site);
    ClassifyExact(img, p.mods);
    UnmodifiedExact(img, p.mods);
  }

  /** And that type pictures the signature. */
  lemma ReturnDepicts(img: Image, p: Position, site: Site, isSetter: bool)
    requires ProjectReturn(img, Returns(p), site, isSetter).Some?
    ensures var t := ProjectReturn(img, Returns(p), site, isSetter).value.ty;
      && t.Some?
      && (t.value.ByRefRef? <==> p.ty.ByRef?)
      && (if p.ty.ByRef? then DepictsAt(img, p.ty.inner, Erase(t.value.inner)) else DepictsAt(img, p, Erase(t.value)))
  {
    ReturnExact(img, p, site, isSetter);
    var at := if p.ty.ByRef? then p.ty.inner else p;
    UnmodifiedReads(img, at.mods);
    AnnotatedDepicts(img, at.ty, site.attr, site.context);
  }

  lemma ParameterDepicts(img: Image, p: Position, site: Site)
    requires ProjectParameter(img, p, site).Some?
    ensures DepictsAt(img, if p.ty.ByRef? then p.ty.inner else p, Erase(ProjectParameter(img, p, site).value.ty))
  {
    ParameterExact(img, p, site);
    var at := if p.ty.ByRef? then p.ty.inner else p;
    UnmodifiedReads(img, at.mods);
    AnnotatedDepicts(img, at.ty, site.attr, site.context);
  }

  lemma UnmodifiedReads(img: Image, run: seq<CustomMod>)
    requires Unmodified(run)
    ensures Understood(img, run) && !HasIn(img, run) && !HasVol(img, run)
  {
  }

  // ---- void returns ----

  /** Exactly one required modifier, and it is an `init` setter's marker. */
  ghost predicate OnlyExternalInit(img: Image, run: seq<CustomMod>) {
    exists i :: 0 <= i < |run| && IsOnlyExternalInit(img, run, i)
  }

  ghost predicate IsOnlyExternalInit(img: Image, run: seq<CustomMod>, i: nat)
    requires i < |run|
  {
    && IsOnlyRequired(run, i)
    && Resolves(img, run[i].modifier, ["System", "Runtime", "CompilerServices"], "IsExternalInit")
  }

  ghost predicate IsOnlyRequired(run: seq<CustomMod>, i: nat)
    requires i < |run|
  {
    run[i].required && forall j :: 0 <= j < |run| && j != i ==> !run[j].required
  }

  lemma {:induction false} RequiredExact(run: seq<CustomMod>)
    ensures Required(run) == [] <==> Unmodified(run)
    ensures |Required(run)| == 1 ==>
      exists i :: 0 <= i < |run| && IsOnlyRequired(run, i) && Required(run) == [run[i].modifier]
    ensures forall i :: 0 <= i < |run| && IsOnlyRequired(run, i) ==> Required(run) == [run[i].modifier]
    decreases |run|
  {
    if run != [] {
      var rest := run[1..];
      assert forall i :: 0 < i < |run| ==> run[i] == rest[i - 1];
      assert forall i :: 0 <= i < |rest| ==> rest[i] == run[i + 1];
      RequiredExact(rest);
      if |Required(run)| == 1 {
        if run[0].required {
          assert Required(rest) == [] && IsOnlyRequired(run, 0) && Required(run) == [run[0].modifier];
        } else {
          var k :| 0 <= k < |rest| && IsOnlyRequired(rest, k) && Required(rest) == [rest[k].modifier];
          assert IsOnlyRequired(run, k + 1) && Required(run) == [run[k + 1].modifier];
        }
      }
      forall i | 0 <= i < |run| && IsOnlyRequired(run, i) ensures Required(run) == [run[i].modifier] {
        if i > 0 { assert IsOnlyRequired(rest, i - 1) && !run[0].required; }
      }
    }
  }

  /** A `void` return is void: accepted exactly without a required modifier, or
      on a setter with its own marker alone. */
  lemma VoidReturnExact(img: Image, run: seq<CustomMod>, site: Site, isSetter: bool)
    ensures var r := ProjectReturn(img, Void(run), site, isSetter);
      && (r.Some? <==> Unmodified(run) || (isSetter && OnlyExternalInit(img, run)))
      && (r.Some? ==> r.value == Return(None, Oblivious))
  {
    RequiredExact(run);
    if i :| 0 <= i < |run| && IsOnlyExternalInit(img, run, i) {
      assert Required(run) == [run[i].modifier];
    }
    if |Required(run)| == 1 && IsExternalInit(img, Required(run)[0]) {
      var i :| 0 <= i < |run| && IsOnlyRequired(run, i) && Required(run) == [run[i].modifier];
      assert IsOnlyExternalInit(img, run, i);
    }
  }

  // ---- generic-parameter constraints ----

  /** `modreq(System.Runtime.InteropServices.UnmanagedType)`. */
  ghost predicate IsMarker(img: Image, m: CustomMod) {
    m.required && Resolves(img, m.modifier, ["System", "Runtime", "InteropServices"], "UnmanagedType")
  }

  ghost predicate HasMarker(img: Image, run: seq<CustomMod>) { exists i :: 0 <= i < |run| && IsMarker(img, run[i]) }

  /** Every required modifier of the run is the marker. */
  ghost predicate OnlyMarkers(img: Image, run: seq<CustomMod>) {
    forall i :: 0 <= i < |run| && run[i].required ==> IsMarker(img, run[i])
  }

  /** The signature pictures the bare `System.ValueType`. */
  ghost predicate IsValueTypeSig(img: Image, ty: TypeSig) {
    exists t :: Depicts(img, ty, false, t) && IsBareValueType(t)
  }

  ghost predicate IsBareValueType(t: TypeRef) {
    t.NamedRef? && t.name.namespace == ["System"] && t.name.name == "ValueType" && t.args == []
  }

  ghost predicate AllResolve(img: Image, run: seq<CustomMod>) {
    forall i :: 0 <= i < |run| && run[i].required ==> img.resolve(run[i].modifier).Some?
  }

  /** A run without its markers, in order. */
  ghost function WithoutMarkers(img: Image, run: seq<CustomMod>): seq<CustomMod> {
    if run == [] then []
    else if IsMarker(img, run[0]) then WithoutMarkers(img, run[1..])
    else [run[0]] + WithoutMarkers(img, run[1..])
  }

  lemma {:induction false} MarkersTaken(img: Image, run: seq<CustomMod>, sofar: Unmarked)
    ensures var r := TakeMarkers(img, run, sofar);
      && (r.Some? <==> AllResolve(img, run))
      && (r.Some? ==> r.value == Unmarked(sofar.marks || HasMarker(img, run), sofar.rest + WithoutMarkers(img, run)))
    decreases |run|
  {
    if run == [] {
      assert sofar.rest + [] == sofar.rest;
    } else {
      var rest := run[1..];
      assert forall i :: 0 < i < |run| ==> run[i] == rest[i - 1];
      assert forall i :: 0 <= i < |rest| ==> rest[i] == run[i + 1];
      assert HasMarker(img, run) <==> IsMarker(img, run[0]) || HasMarker(img, rest);
      MarkersTaken(img, rest, sofar.(marks := true));
      MarkersTaken(img, rest, sofar.(rest := sofar.rest + [run[0]]));
      assert sofar.rest + [run[0]] + WithoutMarkers(img, rest) == sofar.rest + ([run[0]] + WithoutMarkers(img, rest));
    }
  }

  lemma UnmodifiedCons(m: CustomMod, rest: seq<CustomMod>)
    ensures Unmodified([m] + rest) <==> !m.required && Unmodified(rest)
  {
    var all := [m] + rest;
    if Unmodified(all) {
      assert !all[0].required;
      forall i | 0 <= i < |rest| ensures !rest[i].required { assert !all[i + 1].required; }
    }
  }

  lemma {:induction false} RestIsUnmodified(img: Image, run: seq<CustomMod>)
    ensures Unmodified(WithoutMarkers(img, run)) <==> OnlyMarkers(img, run)
    decreases |run|
  {
    if run != [] {
      var rest, kept := run[1..], WithoutMarkers(img, run[1..]);
      assert forall i :: 0 < i < |run| ==> run[i] == rest[i - 1];
      assert forall i :: 0 <= i < |rest| ==> rest[i] == run[i + 1];
      RestIsUnmodified(img, rest);
      assert OnlyMarkers(img, run) <==> (run[0].required ==> IsMarker(img, run[0])) && OnlyMarkers(img, rest);
      if !IsMarker(img, run[0]) {
        UnmodifiedCons(run[0], kept);
      }
    }
  }

  /** A constraint is consumed exactly when it is the bare `System.ValueType` with
      the marker and no other required modifier, and surfaced exactly when it has
      no required modifier at all. */
  lemma ConstraintExact(img: Image, c: Constraint, context: Option<Nullability>)
    ensures var r, p := ProjectConstraint(img, c, context), c.position;
      var w := AnnotateType(img, p.ty, c.attr, context);
      && (r == Some(Marker) <==>
            w.Some? && HasMarker(img, p.mods) && OnlyMarkers(img, p.mods) && IsValueTypeSig(img, p.ty))
      && (r.Some? && r.value.Surfaced? <==> w.Some? && Unmodified(p.mods))
      && (r.Some? && r.value.Surfaced? ==> r.value.ty == w.value.ty)
  {
    var p := c.position;
    MarkersTaken(img, p.mods, Unmarked(false, []));
    assert [] + WithoutMarkers(img, p.mods) == WithoutMarkers(img, p.mods);
    UnmodifiedExact(img, WithoutMarkers(img, p.mods));
    UnmodifiedExact(img, p.mods);
    RestIsUnmodified(img, p.mods);
    ValueTypeExact(img, p.ty);
    if AnnotateType(img, p.ty, c.attr, context).Some? { AnnotatedExactly(img, p.ty, c.attr, context); }
    AnnotatedProjects(img, p.ty, c.attr, context);
  }

  lemma ValueTypeExact(img: Image, ty: TypeSig)
    ensures IsSystemValueType(img, ty) <==> IsValueTypeSig(img, ty)
  {
    var r := ProjectType(img, ty, false);
    if r.Some? { ProjectTypeDepicts(img, ty, false, r.value); }
    if t :| Depicts(img, ty, false, t) && IsBareValueType(t) { ProjectTypeDepicts(img, ty, false, t); }
  }

  lemma AnnotatedProjects(img: Image, ty: TypeSig, attr: Attribute, context: Option<Nullability>)
    ensures AnnotateType(img, ty, attr, context).Some? ==> ProjectType(img, ty, false).Some?
  {
    if AnnotateType(img, ty, attr, context).Some? {
      AnnotatedDepicts(img, ty, attr, context);
      ProjectTypeDepicts(img, ty, false, Erase(AnnotateType(img, ty, attr, context).value.ty));
    }
  }

  ghost predicate AllProject(img: Image, cs: seq<Constraint>, context: Option<Nullability>) {
    forall i :: 0 <= i < |cs| ==> ProjectConstraint(img, cs[i], context).Some?
  }

  /** What the constraints of a parameter come to, one by one. */
  ghost function Surfacing(img: Image, cs: seq<Constraint>, context: Option<Nullability>): seq<TypeRef>
    requires AllProject(img, cs, context)
  {
    if cs == [] then []
    else
      (match ProjectConstraint(img, cs[0], context).value case Marker => [] case Surfaced(t) => [t])
      + Surfacing(img, cs[1..], context)
  }

  ghost predicate SomeMarker(img: Image, cs: seq<Constraint>, context: Option<Nullability>) {
    exists i :: 0 <= i < |cs| && ProjectConstraint(img, cs[i], context) == Some(Marker)
  }

  lemma FirstConstraint(img: Image, cs: seq<Constraint>, context: Option<Nullability>)
    requires cs != []
    ensures AllProject(img, cs, context) <==>
      ProjectConstraint(img, cs[0], context).Some? && AllProject(img, cs[1..], context)
    ensures SomeMarker(img, cs, context) <==>
      ProjectConstraint(img, cs[0], context) == Some(Marker) || SomeMarker(img, cs[1..], context)
  {
    var rest := cs[1..];
    assert forall i :: 0 < i < |cs| ==> cs[i] == rest[i - 1];
    assert forall i :: 0 <= i < |rest| ==> rest[i] == cs[i + 1];
  }

  lemma {:induction false} ConstraintsExact(
    img: Image, cs: seq<Constraint>, context: Option<Nullability>, sofar: Constraints)
    ensures var r := ProjectConstraints(img, cs, context, sofar);
      && (r.Some? <==> AllProject(img, cs, context))
      && (r.Some? ==>
            r.value == Constraints(sofar.unmanaged || SomeMarker(img, cs, context),
                                   sofar.types + Surfacing(img, cs, context)))
    decreases |cs|
  {
    if cs == [] {
      assert sofar.types + [] == sofar.types;
    } else {
      FirstConstraint(img, cs, context);
      var rest := cs[1..];
      match ProjectConstraint(img, cs[0], context)
      case None =>
      case Some(Marker) =>
        ConstraintsExact(img, rest, context, sofar.(unmanaged := true));
        if AllProject(img, rest, context) {
          assert [] + Surfacing(img, rest, context) == Surfacing(img, rest, context);
        }
      case Some(Surfaced(t)) =>
        ConstraintsExact(img, rest, context, sofar.(types := sofar.types + [t]));
        if AllProject(img, rest, context) { Lists.Associate(sofar.types, [t], Surfacing(img, rest, context)); }
    }
  }

  /** A generic parameter is projected exactly when each constraint is and
      `unmanaged` comes with the value-type bit; it is unmanaged by its attribute
      or a marker, and surfaces its other constraints in order. */
  lemma TyparExact(img: Image, cs: seq<Constraint>, context: Option<Nullability>, unmanagedAttr: bool, valueType: bool)
    ensures var r, unmanaged := ProjectTypar(img, cs, context, unmanagedAttr, valueType),
                                unmanagedAttr || SomeMarker(img, cs, context);
      && (r.Some? <==>
            AllProject(img, cs, context) && (unmanaged ==> valueType))
      && (r.Some? ==> r.value == Constraints(unmanaged, Surfacing(img, cs, context)))
  {
    ConstraintsExact(img, cs, context, Constraints(unmanagedAttr, []));
    if ProjectConstraints(img, cs, context, Constraints(unmanagedAttr, [])).Some? {
      assert [] + Surfacing(img, cs, context) == Surfacing(img, cs, context);
    }
  }
}
