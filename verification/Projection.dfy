/** Projecting a signature position into the entity model: the oblivious path
    and the pre-order nullability walk, under one custom-modifier policy. */
module Projection {
  import opened Options
  import opened Signatures
  import opened Decimals
  import Lists

  // ---- custom modifiers ----

  datatype Modifiers = Modifiers(readonlyRef: bool, volatile: bool)

  const NO_MODIFIERS := Modifiers(false, false)

  predicate Names(img: Image, s: Scope, namespace: seq<string>, name: string) {
    img.resolve(s).Some? && img.resolve(s).value.namespace == namespace && img.resolve(s).value.name == name
  }

  predicate IsReadonlyRef(img: Image, s: Scope) {
    Names(img, s, ["System", "Runtime", "InteropServices"], "InAttribute")
  }

  predicate IsVolatile(img: Image, s: Scope) {
    Names(img, s, ["System", "Runtime", "CompilerServices"], "IsVolatile")
  }

  predicate IsExternalInit(img: Image, s: Scope) {
    Names(img, s, ["System", "Runtime", "CompilerServices"], "IsExternalInit")
  }

  /** `classify_mods`: an optional modifier is dropped; a required one must be
      one of the two understood, or the position is refused. */
  function Classify(img: Image, run: seq<CustomMod>): Option<Modifiers> {
    ClassifyFrom(img, run, NO_MODIFIERS)
  }

  function ClassifyFrom(img: Image, run: seq<CustomMod>, acc: Modifiers): Option<Modifiers> {
    if run == [] then Some(acc)
    else if !run[0].required then ClassifyFrom(img, run[1..], acc)
    else if img.resolve(run[0].modifier).None? then None
    else if IsReadonlyRef(img, run[0].modifier) then ClassifyFrom(img, run[1..], acc.(readonlyRef := true))
    else if IsVolatile(img, run[0].modifier) then ClassifyFrom(img, run[1..], acc.(volatile := true))
    else None
  }

  // ---- shared leaves ----

  function TyparIndex(n: nat): Option<nat> { if n <= 0xFFFF then Some(n) else None }

  /** A rank-1 array without bounds is refused, as is a rank beyond 255. */
  function ArrayRank(rank: nat, sizes: seq<nat>, lowerBounds: seq<int>): Option<nat> {
    if rank == 1 && sizes == [] && lowerBounds == [] then None
    else if rank > 255 then None
    else Some(rank)
  }

  function NamedFromScope(img: Image, s: Scope, args: Vec<NullableType>): Option<TypeRef> {
    match img.resolve(s)
    case None => None
    case Some(n) => Some(NamedRef(n, args))
  }

  function TypedReference(img: Image): Option<TypeRef> {
    match img.typedReference
    case None => None
    case Some(n) => Some(NamedRef(n, []))
  }

  // ---- the oblivious path ----

  /** `project_type_ref`. */
  function ProjectPosition(img: Image, p: Position): Option<TypeRef>
    decreases p
  {
    match Classify(img, p.mods)
    case None => None
    case Some(m) =>
      if m.volatile || (m.readonlyRef && !p.ty.ByRef?) then None else ProjectType(img, p.ty, m.readonlyRef)
  }

  /** `project_type`. */
  function ProjectType(img: Image, ty: TypeSig, readonlyRef: bool): Option<TypeRef>
    decreases ty
  {
    match ty
    case Prim(p) => Some(PrimRef(p))
    case Named(_, s) => NamedFromScope(img, s, [])
    case Generic(_, s, args) =>
      (match ProjectArgs(img, args)
       case None => None
       case Some(ts) => NamedFromScope(img, s, ts))
    case TypeVar(n) => (match TyparIndex(n) case None => None case Some(i) => Some(Var(i, false)))
    case MethodVar(n) => (match TyparIndex(n) case None => None case Some(i) => Some(Var(i, true)))
    case SzArray(e) =>
      (match ProjectPosition(img, e)
       case None => None
       case Some(t) => Some(ArrayRef(Unannotated(t), 1, [], [])))
    case Array(e, rank, sizes, lows) =>
      (match (ProjectPosition(img, e), ArrayRank(rank, sizes, lows))
       case (Some(t), Some(r)) => Some(ArrayRef(Unannotated(t), r, sizes, lows))
       case _ => None)
    case Ptr(p) => (match ProjectPosition(img, p) case None => None case Some(t) => Some(PtrRef(t)))
    case VoidPtr => Some(VoidPtrRef)
    case ByRef(i) => (match ProjectPosition(img, i) case None => None case Some(t) => Some(ByRefRef(t, readonlyRef)))
    case TypedByRef => TypedReference(img)
  }

  function ProjectArgs(img: Image, args: seq<Position>): (r: Option<seq<NullableType>>)
    ensures r.Some? ==> |r.value| == |args|
    decreases args
  {
    if args == [] then Some([])
    else match (ProjectPosition(img, args[0]), ProjectArgs(img, args[1..]))
         case (Some(t), Some(ts)) => Some([Unannotated(t)] + ts)
         case _ => None
  }

  // ---- the nullability walk ----

  /** One broadcast byte, or one byte per annotable node. */
  datatype Source = Scalar(b: Nullability) | Vector(v: seq<Nullability>)

  /** `consume_nullable_byte`: the byte at the walk index; `None` when exhausted. */
  function Consume(src: Source, idx: nat): Option<Nullability> {
    match src
    case Scalar(b) => Some(b)
    case Vector(v) => if idx < |v| then Some(v[idx]) else None
  }

  /** A walked value and the index behind its last byte. */
  datatype Walked<+T> = Walked(value: T, idx: nat)

  /** `walk_nullable_sig`. */
  function WalkPosition(img: Image, p: Position, src: Source, idx: nat): Option<Walked<NullableType>>
    decreases p
  {
    if Classify(img, p.mods) != Some(NO_MODIFIERS) then None else WalkType(img, p.ty, src, idx)
  }

  function Annotate(src: Source, idx: nat, ty: Option<TypeRef>): Option<Walked<NullableType>> {
    match (Consume(src, idx), ty)
    case (Some(b), Some(t)) => Some(Walked(Nullable(t, b), idx + 1))
    case _ => None
  }

  function Plain(idx: nat, ty: Option<TypeRef>): Option<Walked<NullableType>> {
    match ty
    case None => None
    case Some(t) => Some(Walked(Unannotated(t), idx))
  }

  /** `walk_nullable_ty`. */
  function WalkType(img: Image, ty: TypeSig, src: Source, idx: nat): Option<Walked<NullableType>>
    decreases ty
  {
    match ty
    case Prim(p) => if p == Object || p == String
      then Annotate(src, idx, Some(PrimRef(p))) else Plain(idx, Some(PrimRef(p)))
    case TypeVar(n) => Annotate(src, idx, match TyparIndex(n) case None => None case Some(i) => Some(Var(i, false)))
    case MethodVar(n) => Annotate(src, idx, match TyparIndex(n) case None => None case Some(i) => Some(Var(i, true)))
    case SzArray(e) =>
      (match Consume(src, idx)
       case None => None
       case Some(outer) =>
         match WalkPosition(img, e, src, idx + 1)
         case None => None
         case Some(w) => Some(Walked(Nullable(ArrayRef(w.value, 1, [], []), outer), w.idx)))
    case Array(e, rank, sizes, lows) =>
      (match Consume(src, idx)
       case None => None
       case Some(outer) =>
         match (WalkPosition(img, e, src, idx + 1), ArrayRank(rank, sizes, lows))
         case (Some(w), Some(r)) => Some(Walked(Nullable(ArrayRef(w.value, r, sizes, lows), outer), w.idx))
         case _ => None)
    case Named(kind, s) =>
      (match NamedOuter(img, kind, s, false, src, idx)
       case None => None
       case Some(outer) => FinishNamed(img, s, outer.value, Some(Walked([], outer.idx))))
    case Generic(kind, s, args) =>
      (match NamedOuter(img, kind, s, args != [], src, idx)
       case None => None
       case Some(outer) => FinishNamed(img, s, outer.value, WalkArgs(img, args, src, outer.idx)))
    case Ptr(p) =>
      (match Consume(src, idx)
       case None => None
       case Some(_) =>
         match WalkPosition(img, p, src, idx + 1)
         case None => None
         case Some(w) => Some(Walked(Unannotated(PtrRef(w.value.ty)), w.idx)))
    case VoidPtr => if Consume(src, idx).None? then None else Some(Walked(Unannotated(VoidPtrRef), idx + 1))
    case TypedByRef => Plain(idx, TypedReference(img))
    case ByRef(_) => None
  }

  predicate IsSystemNullable(img: Image, s: Scope) { Names(img, s, ["System"], "Nullable") }

  /** Whether a named type's own node takes a byte. */
  predicate OuterConsumes(img: Image, kind: NamedKind, s: Scope, generic: bool) {
    kind != ValueType || (generic && !IsSystemNullable(img, s))
  }

  /** `walk_named` up to its arguments: the outer annotation, which a value
      type never keeps, and the index behind the outer byte. */
  function NamedOuter(
    img: Image, kind: NamedKind, s: Scope, generic: bool, src: Source, idx: nat): Option<Walked<Nullability>> {
    if kind == ValueType && generic && img.resolve(s).None? then None
    else if !OuterConsumes(img, kind, s, generic) then Some(Walked(Oblivious, idx))
    else match Consume(src, idx)
         case None => None
         case Some(b) => Some(Walked(if kind == ValueType then Oblivious else b, idx + 1))
  }

  /** `walk_named` behind its arguments. */
  function FinishNamed(img: Image, s: Scope, outer: Nullability, args: Option<Walked<seq<NullableType>>>)
    : Option<Walked<NullableType>>
    requires args.Some? ==> |args.value.value| < USIZE_MAX
  {
    match args
    case None => None
    case Some(w) =>
      match NamedFromScope(img, s, w.value)
      case None => None
      case Some(t) => Some(Walked(Nullable(t, outer), w.idx))
  }

  function WalkArgs(img: Image, args: seq<Position>, src: Source, idx: nat): (r: Option<Walked<seq<NullableType>>>)
    ensures r.Some? ==> |r.value.value| == |args|
    decreases args
  {
    if args == [] then Some(Walked([], idx))
    else match WalkPosition(img, args[0], src, idx)
         case None => None
         case Some(first) =>
           match WalkArgs(img, args[1..], src, first.idx)
           case None => None
           case Some(rest) => Some(Walked([first.value] + rest.value, rest.idx))
  }

  // ---- positions as members use them ----

  /** A position's decoded `[NullableAttribute]`: unreadable, absent, or a source. */
  datatype Attribute = Unreadable | NoAttribute | Bytes(src: Source)

  /** `walk_type`: the attribute, else the scope default, else no walk at all. */
  function AnnotateType(img: Image, ty: TypeSig, attr: Attribute, context: Option<Nullability>): Option<NullableType> {
    match attr
    case Unreadable => None
    case Bytes(src) => WalkWhole(img, ty, src)
    case NoAttribute =>
      if context == None || context == Some(Oblivious) then
        (match ProjectType(img, ty, false) case None => None case Some(t) => Some(Unannotated(t)))
      else WalkWhole(img, ty, Scalar(context.value))
  }

  /** The walk, refused unless it used every byte of a vector. */
  function WalkWhole(img: Image, ty: TypeSig, src: Source): Option<NullableType> {
    match WalkType(img, ty, src, 0)
    case None => None
    case Some(w) => if src.Vector? && w.idx != |src.v| then None else Some(w.value)
  }

  /** `walk_position`. */
  function AnnotatePosition(
    img: Image, p: Position, attr: Attribute, context: Option<Nullability>): Option<NullableType> {
    if Classify(img, p.mods) != Some(NO_MODIFIERS) then None else AnnotateType(img, p.ty, attr, context)
  }

  /** What surrounds a position: its nullability attribute, whether an attribute
      makes its byref read-only (`None` when that does not decode), and the
      enclosing scope's default. */
  datatype Site = Site(attr: Attribute, readonlyAttr: Option<bool>, context: Option<Nullability>)

  datatype ByRefPosition = ByRefPosition(ty: TypeRef, nullability: Nullability, mods: Modifiers)

  /** `walk_byref_position`. */
  function AnnotateByRefPosition(img: Image, p: Position, site: Site): Option<ByRefPosition> {
    match Classify(img, p.mods)
    case None => None
    case Some(m) =>
      if p.ty.ByRef? then
        if p.ty.inner.ty.ByRef? || (!m.readonlyRef && site.readonlyAttr.None?) then None
        else match AnnotatePosition(img, p.ty.inner, site.attr, site.context)
             case None => None
             case Some(w) =>
               var readonly := m.readonlyRef || site.readonlyAttr.value;
               Some(ByRefPosition(ByRefRef(w.ty, readonly), w.nullability, m.(readonlyRef := false)))
      else if m.readonlyRef then None
      else match AnnotateType(img, p.ty, site.attr, site.context)
           case None => None
           case Some(w) => Some(ByRefPosition(w.ty, w.nullability, m))
  }

  datatype Parameter = Parameter(ty: TypeRef, isByref: bool, isReadonlyRef: bool, nullability: Nullability)

  /** `project_parameter`, the part its signature decides. */
  function ProjectParameter(img: Image, p: Position, site: Site): Option<Parameter> {
    match Classify(img, p.mods)
    case None => None
    case Some(m) =>
      var byref := p.ty.ByRef?;
      if (!byref && m != NO_MODIFIERS) || m.volatile then None
      else match AnnotatePosition(img, if byref then p.ty.inner else p, site.attr, site.context)
           case None => None
           case Some(w) =>
             if byref && !m.readonlyRef && site.readonlyAttr.None? then None
             else
               var readonly := byref && (m.readonlyRef || site.readonlyAttr.value);
               Some(Parameter(w.ty, byref, readonly, w.nullability))
  }

  datatype RetType = Void(mods: seq<CustomMod>) | Returns(position: Position)

  function Required(mods: seq<CustomMod>): seq<Scope> {
    if mods == [] then []
    else (if mods[0].required then [mods[0].modifier] else []) + Required(mods[1..])
  }

  /** A return's type, `None` for `void`, and its nullability. */
  datatype Return = Return(ty: Option<TypeRef>, nullability: Nullability)

  /** `project_return`. */
  function ProjectReturn(img: Image, ret: RetType, site: Site, isSetter: bool): Option<Return> {
    match ret
    case Void(mods) =>
      var required := Required(mods);
      if required == [] || (isSetter && |required| == 1 && IsExternalInit(img, required[0]))
      then Some(Return(None, Oblivious)) else None
    case Returns(p) =>
      match AnnotateByRefPosition(img, p, site)
      case None => None
      case Some(r) => if r.mods != NO_MODIFIERS then None else Some(Return(Some(r.ty), r.nullability))
  }

  // ---- generic-parameter constraints ----

  datatype Constraint = Constraint(position: Position, attr: Attribute)

  predicate IsUnmanagedMarker(img: Image, s: Scope) {
    Names(img, s, ["System", "Runtime", "InteropServices"], "UnmanagedType")
  }

  /** The uninstantiated `System.ValueType`. */
  predicate IsSystemValueType(img: Image, ty: TypeSig) {
    match ProjectType(img, ty, false)
    case Some(NamedRef(n, args)) => n.namespace == ["System"] && n.name == "ValueType" && args == []
    case _ => false
  }

  /** A run without its `unmanaged` markers, and whether it had one; `None` when
      a required modifier does not resolve. */
  datatype Unmarked = Unmarked(marks: bool, rest: seq<CustomMod>)

  function TakeMarkers(img: Image, run: seq<CustomMod>, sofar: Unmarked): Option<Unmarked> {
    if run == [] then Some(sofar)
    else if run[0].required && img.resolve(run[0].modifier).None? then None
    else if run[0].required && IsUnmanagedMarker(img, run[0].modifier) then
      TakeMarkers(img, run[1..], sofar.(marks := true))
    else TakeMarkers(img, run[1..], sofar.(rest := sofar.rest + [run[0]]))
  }

  /** A constraint is consumed as the `unmanaged` marker, or surfaced. */
  datatype Constrained = Marker | Surfaced(ty: TypeRef)

  /** One turn of the constraint loop of `project_generic_param`: only the
      marker is consumed, never what stands beside it. */
  function ProjectConstraint(img: Image, c: Constraint, context: Option<Nullability>): Option<Constrained> {
    match (AnnotateType(img, c.position.ty, c.attr, context), TakeMarkers(img, c.position.mods, Unmarked(false, [])))
    case (Some(walked), Some(taken)) =>
      if taken.marks && ProjectType(img, c.position.ty, false).None? then None
      else if taken.marks && IsSystemValueType(img, c.position.ty) then
        if Classify(img, taken.rest) == Some(NO_MODIFIERS) then Some(Marker) else None
      else if Classify(img, c.position.mods) == Some(NO_MODIFIERS) then Some(Surfaced(walked.ty)) else None
    case _ => None
  }

  /** Whether the parameter is `unmanaged`, and its surfaced constraints. */
  datatype Constraints = Constraints(unmanaged: bool, types: seq<TypeRef>)

  function ProjectConstraints(img: Image, cs: seq<Constraint>, context: Option<Nullability>, sofar: Constraints)
    : Option<Constraints>
    decreases |cs|
  {
    if cs == [] then Some(sofar)
    else match ProjectConstraint(img, cs[0], context)
         case None => None
         case Some(Marker) => ProjectConstraints(img, cs[1..], context, sofar.(unmanaged := true))
         case Some(Surfaced(t)) => ProjectConstraints(img, cs[1..], context, sofar.(types := sofar.types + [t]))
  }

  /** `project_generic_param`, the part its constraints decide: `unmanaged` is
      refused without the value-type bit. */
  function ProjectTypar(
    img: Image, cs: seq<Constraint>, context: Option<Nullability>, unmanagedAttr: bool, valueType: bool)
    : Option<Constraints>
  {
    match ProjectConstraints(img, cs, context, Constraints(unmanagedAttr, []))
    case None => None
    case Some(r) => if r.unmanaged && !valueType then None else Some(r)
  }

  // ---- the loops ----

  method ClassifyMods(img: Image, run: seq<CustomMod>) returns (r: Option<Modifiers>)
    ensures r == Classify(img, run)
  {
    var mods := NO_MODIFIERS;
    var i := 0;
    while i < |run|
      invariant 0 <= i <= |run|
      invariant ClassifyFrom(img, run[i..], mods) == Classify(img, run)
    {
      Lists.From(run, i);
      var m := run[i];
      i := i + 1;
      if m.required {
        if img.resolve(m.modifier).None? {
          return None;
        } else if IsReadonlyRef(img, m.modifier) {
          mods := mods.(readonlyRef := true);
        } else if IsVolatile(img, m.modifier) {
          mods := mods.(volatile := true);
        } else {
          return None;
        }
      }
    }
    r := Some(mods);
  }

  method TakeMarkersLoop(img: Image, run: seq<CustomMod>) returns (r: Option<Unmarked>)
    ensures r == TakeMarkers(img, run, Unmarked(false, []))
  {
    var marks, rest := false, [];
    var i := 0;
    while i < |run|
      invariant 0 <= i <= |run|
      invariant TakeMarkers(img, run[i..], Unmarked(marks, rest)) == TakeMarkers(img, run, Unmarked(false, []))
    {
      Lists.From(run, i);
      var m := run[i];
      i := i + 1;
      if m.required && img.resolve(m.modifier).None? {
        return None;
      }
      if m.required && IsUnmanagedMarker(img, m.modifier) {
        marks := true;
      } else {
        rest := rest + [m];
      }
    }
    r := Some(Unmarked(marks, rest));
  }

  /** The constraint loop, refusing as soon as one constraint is refused. */
  method ProjectGenericParam(
    img: Image, cs: seq<Constraint>, context: Option<Nullability>, unmanagedAttr: bool, valueType: bool)
    returns (r: Option<Constraints>)
    ensures r == ProjectTypar(img, cs, context, unmanagedAttr, valueType)
  {
    var isUnmanaged, types := unmanagedAttr, [];
    ghost var whole := ProjectConstraints(img, cs, context, Constraints(unmanagedAttr, []));
    var i := 0;
    while i < |cs|
      invariant 0 <= i <= |cs|
      invariant ProjectConstraints(img, cs[i..], context, Constraints(isUnmanaged, types)) == whole
    {
      Lists.From(cs, i);
      var c := cs[i];
      i := i + 1;
      var walked := AnnotateType(img, c.position.ty, c.attr, context);
      var taken := TakeMarkersLoop(img, c.position.mods);
      if walked.None? || taken.None? || (taken.value.marks && ProjectType(img, c.position.ty, false).None?) {
        return None;
      }
      var consumed := taken.value.marks && IsSystemValueType(img, c.position.ty);
      var mods := ClassifyMods(img, if consumed then taken.value.rest else c.position.mods);
      if mods != Some(NO_MODIFIERS) {
        return None;
      }
      if consumed {
        isUnmanaged := true;
      } else {
        types := types + [walked.value.ty];
      }
    }
    r := if isUnmanaged && !valueType then None else Some(Constraints(isUnmanaged, types));
  }
}
