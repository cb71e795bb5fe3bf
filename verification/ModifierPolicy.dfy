/** The custom-modifier rule of section II.7.1.1 of ECMA-335, over every
    signature tree: an optional modifier is inert wherever it stands, and a
    required one that is not understood refuses the position it is in. */
module ModifierPolicy {
  import opened Options
  import opened Signatures
  import opened Projection

  // ---- P1: optional modifiers are inert ----

  function RequiredOnly(run: seq<CustomMod>): seq<CustomMod> {
    if run == [] then []
    else if run[0].required then [run[0]] + RequiredOnly(run[1..])
    else RequiredOnly(run[1..])
  }

  /** The position with every optional modifier removed, at every depth. */
  function Strip(p: Position): Position
    decreases p
  {
    Position(RequiredOnly(p.mods), StripType(p.ty))
  }

  function StripType(ty: TypeSig): TypeSig
    decreases ty
  {
    match ty
    case Generic(kind, s, args) => Generic(kind, s, StripAll(args))
    case SzArray(e) => SzArray(Strip(e))
    case Array(e, rank, sizes, lows) => Array(Strip(e), rank, sizes, lows)
    case Ptr(p) => Ptr(Strip(p))
    case ByRef(i) => ByRef(Strip(i))
    case _ => ty
  }

  function StripAll(ps: seq<Position>): (r: seq<Position>)
    ensures |r| == |ps|
    decreases ps
  {
    if ps == [] then [] else [Strip(ps[0])] + StripAll(ps[1..])
  }

  /** `decorate_position`: one modifier in front of every run, at every depth. */
  function Decorate(p: Position, m: CustomMod): Position
    decreases p
  {
    Position([m] + p.mods, DecorateType(p.ty, m))
  }

  function DecorateType(ty: TypeSig, m: CustomMod): TypeSig
    decreases ty
  {
    match ty
    case Generic(kind, s, args) => Generic(kind, s, DecorateAll(args, m))
    case SzArray(e) => SzArray(Decorate(e, m))
    case Array(e, rank, sizes, lows) => Array(Decorate(e, m), rank, sizes, lows)
    case Ptr(p) => Ptr(Decorate(p, m))
    case ByRef(i) => ByRef(Decorate(i, m))
    case _ => ty
  }

  function DecorateAll(ps: seq<Position>, m: CustomMod): (r: seq<Position>)
    ensures |r| == |ps|
    decreases ps
  {
    if ps == [] then [] else [Decorate(ps[0], m)] + DecorateAll(ps[1..], m)
  }

  lemma {:induction false} StripUndoesDecorate(p: Position, m: CustomMod)
    requires !m.required
    ensures Strip(Decorate(p, m)) == Strip(p)
    decreases p
  {
    assert ([m] + p.mods)[1..] == p.mods;
    StripUndoesDecorateType(p.ty, m);
  }

  lemma {:induction false} StripUndoesDecorateType(ty: TypeSig, m: CustomMod)
    requires !m.required
    ensures StripType(DecorateType(ty, m)) == StripType(ty)
    decreases ty
  {
    match ty
    case Generic(kind, s, args) => StripUndoesDecorateAll(args, m);
    case SzArray(e) => StripUndoesDecorate(e, m);
    case Array(e, rank, sizes, lows) => StripUndoesDecorate(e, m);
    case Ptr(p) => StripUndoesDecorate(p, m);
    case ByRef(i) => StripUndoesDecorate(i, m);
    case _ =>
  }

  lemma {:induction false} StripUndoesDecorateAll(ps: seq<Position>, m: CustomMod)
    requires !m.required
    ensures StripAll(DecorateAll(ps, m)) == StripAll(ps)
    decreases ps
  {
    if ps != [] {
      StripUndoesDecorate(ps[0], m);
      StripUndoesDecorateAll(ps[1..], m);
    }
  }

  lemma {:induction false} ClassifyIgnoresOptional(img: Image, run: seq<CustomMod>, acc: Modifiers)
    ensures ClassifyFrom(img, RequiredOnly(run), acc) == ClassifyFrom(img, run, acc)
    decreases |run|
  {
    if run != [] {
      if run[0].required {
        ClassifyIgnoresOptional(img, run[1..], acc.(readonlyRef := true));
        ClassifyIgnoresOptional(img, run[1..], acc.(volatile := true));
        assert RequiredOnly(run)[1..] == RequiredOnly(run[1..]);
      } else {
        ClassifyIgnoresOptional(img, run[1..], acc);
      }
    }
  }

  lemma {:induction false} ProjectIgnoresOptional(img: Image, p: Position)
    ensures ProjectPosition(img, Strip(p)) == ProjectPosition(img, p)
    decreases p
  {
    ClassifyIgnoresOptional(img, p.mods, NO_MODIFIERS);
    ProjectTypeIgnoresOptional(img, p.ty, false);
    ProjectTypeIgnoresOptional(img, p.ty, true);
  }

  lemma {:induction false} ProjectTypeIgnoresOptional(img: Image, ty: TypeSig, readonlyRef: bool)
    ensures ProjectType(img, StripType(ty), readonlyRef) == ProjectType(img, ty, readonlyRef)
    decreases ty
  {
    match ty
    case Generic(kind, s, args) => ProjectArgsIgnoreOptional(img, args);
    case SzArray(e) => ProjectIgnoresOptional(img, e);
    case Array(e, rank, sizes, lows) => ProjectIgnoresOptional(img, e);
    case Ptr(p) => ProjectIgnoresOptional(img, p);
    case ByRef(i) => ProjectIgnoresOptional(img, i);
    case _ =>
  }

  lemma {:induction false} ProjectArgsIgnoreOptional(img: Image, ps: seq<Position>)
    ensures ProjectArgs(img, StripAll(ps)) == ProjectArgs(img, ps)
    decreases ps
  {
    if ps != [] {
      ProjectIgnoresOptional(img, ps[0]);
      ProjectArgsIgnoreOptional(img, ps[1..]);
      assert StripAll(ps)[1..] == StripAll(ps[1..]);
    }
  }

  lemma {:induction false} WalkIgnoresOptional(img: Image, p: Position, src: Source, idx: nat)
    ensures WalkPosition(img, Strip(p), src, idx) == WalkPosition(img, p, src, idx)
    decreases p
  {
    ClassifyIgnoresOptional(img, p.mods, NO_MODIFIERS);
    WalkTypeIgnoresOptional(img, p.ty, src, idx);
  }

  lemma {:induction false} WalkTypeIgnoresOptional(img: Image, ty: TypeSig, src: Source, idx: nat)
    ensures WalkType(img, StripType(ty), src, idx) == WalkType(img, ty, src, idx)
    decreases ty
  {
    match ty
    case Generic(kind, s, args) =>
      WalkArgsIgnoreOptional(img, args, src, idx);
      WalkArgsIgnoreOptional(img, args, src, idx + 1);
    case SzArray(e) => WalkIgnoresOptional(img, e, src, idx + 1);
    case Array(e, rank, sizes, lows) => WalkIgnoresOptional(img, e, src, idx + 1);
    case Ptr(p) => WalkIgnoresOptional(img, p, src, idx + 1);
    case _ =>
  }

  lemma {:induction false} WalkArgsIgnoreOptional(img: Image, ps: seq<Position>, src: Source, idx: nat)
    ensures WalkArgs(img, StripAll(ps), src, idx) == WalkArgs(img, ps, src, idx)
    decreases ps
  {
    if ps != [] {
      WalkIgnoresOptional(img, ps[0], src, idx);
      var first := WalkPosition(img, ps[0], src, idx);
      if first.Some? { WalkArgsIgnoreOptional(img, ps[1..], src, first.value.idx); }
      assert StripAll(ps)[1..] == StripAll(ps[1..]);
    }
  }

  lemma AnnotateIgnoresOptional(img: Image, p: Position, attr: Attribute, context: Option<Nullability>)
    ensures AnnotateType(img, StripType(p.ty), attr, context) == AnnotateType(img, p.ty, attr, context)
    ensures AnnotatePosition(img, Strip(p), attr, context) == AnnotatePosition(img, p, attr, context)
  {
    ClassifyIgnoresOptional(img, p.mods, NO_MODIFIERS);
    ProjectTypeIgnoresOptional(img, p.ty, false);
    if attr.Bytes? { WalkTypeIgnoresOptional(img, p.ty, attr.src, 0); }
    if context.Some? { WalkTypeIgnoresOptional(img, p.ty, Scalar(context.value), 0); }
  }

  lemma ByRefPositionIgnoresOptional(img: Image, p: Position, site: Site)
    ensures AnnotateByRefPosition(img, Strip(p), site) == AnnotateByRefPosition(img, p, site)
    ensures ProjectParameter(img, Strip(p), site) == ProjectParameter(img, p, site)
  {
    ClassifyIgnoresOptional(img, p.mods, NO_MODIFIERS);
    AnnotateIgnoresOptional(img, p, site.attr, site.context);
    if p.ty.ByRef? { AnnotateIgnoresOptional(img, p.ty.inner, site.attr, site.context); }
  }

  lemma {:induction false} RequiredIgnoresOptional(mods: seq<CustomMod>)
    ensures Required(RequiredOnly(mods)) == Required(mods)
    decreases |mods|
  {
    if mods != [] {
      RequiredIgnoresOptional(mods[1..]);
      if mods[0].required { assert RequiredOnly(mods)[1..] == RequiredOnly(mods[1..]); }
    }
  }

  /** P1: two signatures that differ only in optional modifiers, wherever they
      stand, project alike as a type, a parameter, a return and a byref position. */
  lemma OptionalModifiersAreInert(img: Image, p: Position, q: Position, site: Site, isSetter: bool)
    requires Strip(p) == Strip(q)
    ensures ProjectPosition(img, p) == ProjectPosition(img, q)
    ensures AnnotatePosition(img, p, site.attr, site.context) == AnnotatePosition(img, q, site.attr, site.context)
    ensures AnnotateByRefPosition(img, p, site) == AnnotateByRefPosition(img, q, site)
    ensures ProjectParameter(img, p, site) == ProjectParameter(img, q, site)
    ensures ProjectReturn(img, Returns(p), site, isSetter) == ProjectReturn(img, Returns(q), site, isSetter)
  {
    ProjectIgnoresOptional(img, p);
    ProjectIgnoresOptional(img, q);
    AnnotateIgnoresOptional(img, p, site.attr, site.context);
    AnnotateIgnoresOptional(img, q, site.attr, site.context);
    ByRefPositionIgnoresOptional(img, p, site);
    ByRefPositionIgnoresOptional(img, q, site);
  }

  lemma OptionalModifiersOnVoidAreInert(
    img: Image, mods: seq<CustomMod>, mods': seq<CustomMod>, site: Site, isSetter: bool)
    requires RequiredOnly(mods) == RequiredOnly(mods')
    ensures ProjectReturn(img, Void(mods), site, isSetter) == ProjectReturn(img, Void(mods'), site, isSetter)
  {
    RequiredIgnoresOptional(mods);
    RequiredIgnoresOptional(mods');
  }

  /** P1 as the probe runs it: decorating every position changes nothing. */
  lemma DecoratingWithOptionalIsInert(img: Image, p: Position, m: CustomMod, site: Site, isSetter: bool)
    requires !m.required
    ensures ProjectPosition(img, Decorate(p, m)) == ProjectPosition(img, p)
    ensures AnnotatePosition(img, Decorate(p, m), site.attr, site.context)
         == AnnotatePosition(img, p, site.attr, site.context)
    ensures AnnotateByRefPosition(img, Decorate(p, m), site) == AnnotateByRefPosition(img, p, site)
    ensures ProjectParameter(img, Decorate(p, m), site) == ProjectParameter(img, p, site)
    ensures ProjectReturn(img, Returns(Decorate(p, m)), site, isSetter)
         == ProjectReturn(img, Returns(p), site, isSetter)
    ensures forall mods :: ProjectReturn(img, Void([m] + mods), site, isSetter)
                        == ProjectReturn(img, Void(mods), site, isSetter)
  {
    StripUndoesDecorate(p, m);
    OptionalModifiersAreInert(img, Decorate(p, m), p, site, isSetter);
    forall mods
      ensures ProjectReturn(img, Void([m] + mods), site, isSetter) == ProjectReturn(img, Void(mods), site, isSetter)
    {
      assert ([m] + mods)[1..] == mods;
      OptionalModifiersOnVoidAreInert(img, [m] + mods, mods, site, isSetter);
    }
  }

  // ---- P1 on generic-parameter constraints ----

  /** `decorate_generic_param`. */
  function DecorateConstraints(cs: seq<Constraint>, m: CustomMod): (r: seq<Constraint>)
    ensures |r| == |cs|
    ensures forall i :: 0 <= i < |cs| ==> r[i] == Constraint(Decorate(cs[i].position, m), cs[i].attr)
  {
    seq(|cs|, i requires 0 <= i < |cs| => Constraint(Decorate(cs[i].position, m), cs[i].attr))
  }

  ghost predicate AlikeButOptional(c: Constraint, d: Constraint) {
    Strip(c.position) == Strip(d.position) && c.attr == d.attr
  }

  /** Taking the markers out commutes with forgetting optional modifiers. */
  lemma {:induction false} MarkersIgnoreOptional(img: Image, run: seq<CustomMod>, sofar: Unmarked)
    ensures var bare := TakeMarkers(img, RequiredOnly(run), sofar.(rest := RequiredOnly(sofar.rest)));
      match TakeMarkers(img, run, sofar)
      case None => bare.None?
      case Some(t) => bare == Some(t.(rest := RequiredOnly(t.rest)))
    decreases |run|
  {
    if run != [] {
      var one := [run[0]];
      RequiredConcat(sofar.rest, one);
      assert one[1..] == [] && RequiredOnly(one) == if run[0].required then one else [];
      MarkersIgnoreOptional(img, run[1..], sofar.(marks := true));
      MarkersIgnoreOptional(img, run[1..], sofar.(rest := sofar.rest + one));
      if run[0].required {
        assert RequiredOnly(run)[0] == run[0] && RequiredOnly(run)[1..] == RequiredOnly(run[1..]);
      } else {
        assert RequiredOnly(sofar.rest + one) == RequiredOnly(sofar.rest);
      }
    }
  }

  lemma {:induction false} RequiredConcat(a: seq<CustomMod>, b: seq<CustomMod>)
    ensures RequiredOnly(a + b) == RequiredOnly(a) + RequiredOnly(b)
    decreases |a|
  {
    if a == [] {
      assert a + b == b;
    } else {
      RequiredConcat(a[1..], b);
      assert (a + b)[0] == a[0] && (a + b)[1..] == a[1..] + b;
    }
  }

  lemma ConstraintIgnoresOptional(img: Image, c: Constraint, context: Option<Nullability>)
    ensures ProjectConstraint(img, c, context)
         == ProjectConstraint(img, Constraint(Strip(c.position), c.attr), context)
  {
    var p := c.position;
    AnnotateIgnoresOptional(img, p, c.attr, context);
    ProjectTypeIgnoresOptional(img, p.ty, false);
    MarkersIgnoreOptional(img, p.mods, Unmarked(false, []));
    ClassifyIgnoresOptional(img, p.mods, NO_MODIFIERS);
    match TakeMarkers(img, p.mods, Unmarked(false, []))
    case None =>
    case Some(t) => ClassifyIgnoresOptional(img, t.rest, NO_MODIFIERS);
  }

  lemma {:induction false} ConstraintsIgnoreOptional(
    img: Image, cs: seq<Constraint>, ds: seq<Constraint>, context: Option<Nullability>, sofar: Constraints)
    requires |cs| == |ds| && forall i :: 0 <= i < |cs| ==> AlikeButOptional(cs[i], ds[i])
    ensures ProjectConstraints(img, cs, context, sofar) == ProjectConstraints(img, ds, context, sofar)
    decreases |cs|
  {
    if cs != [] {
      ConstraintIgnoresOptional(img, cs[0], context);
      ConstraintIgnoresOptional(img, ds[0], context);
      assert AlikeButOptional(cs[0], ds[0]);
      match ProjectConstraint(img, cs[0], context)
      case None =>
      case Some(Marker) => ConstraintsIgnoreOptional(img, cs[1..], ds[1..], context, sofar.(unmanaged := true));
      case Some(Surfaced(t)) =>
        ConstraintsIgnoreOptional(img, cs[1..], ds[1..], context, sofar.(types := sofar.types + [t]));
    }
  }

  /** P1 where a position reads its own run: constraints that differ only in
      optional modifiers, beside the `unmanaged` marker or not, project alike. */
  lemma OptionalModifiersOnConstraintsAreInert(
    img: Image, cs: seq<Constraint>, ds: seq<Constraint>, context: Option<Nullability>, unmanaged: bool,
      valueType: bool)
    requires |cs| == |ds| && forall i :: 0 <= i < |cs| ==> AlikeButOptional(cs[i], ds[i])
    ensures ProjectTypar(img, cs, context, unmanaged, valueType) == ProjectTypar(img, ds, context, unmanaged, valueType)
  {
    ConstraintsIgnoreOptional(img, cs, ds, context, Constraints(unmanaged, []));
  }

  lemma DecoratingConstraintsIsInert(
    img: Image, cs: seq<Constraint>, m: CustomMod, context: Option<Nullability>, unmanaged: bool, valueType: bool)
    requires !m.required
    ensures ProjectTypar(img, DecorateConstraints(cs, m), context, unmanaged, valueType)
         == ProjectTypar(img, cs, context, unmanaged, valueType)
  {
    var ds := DecorateConstraints(cs, m);
    forall i | 0 <= i < |cs| ensures AlikeButOptional(ds[i], cs[i]) {
      StripUndoesDecorate(cs[i].position, m);
    }
    OptionalModifiersOnConstraintsAreInert(img, ds, cs, context, unmanaged, valueType);
  }

  // ---- positions by path ----

  /** The position reached by child indices, if there is one. */
  function At(p: Position, path: seq<nat>): Option<Position>
    decreases |path|
  {
    if path == [] then Some(p)
    else if path[0] < |Children(p.ty)| then At(Children(p.ty)[path[0]], path[1..])
    else None
  }

  ghost predicate HoldsAt(p: Position, path: seq<nat>, m: CustomMod) {
    At(p, path).Some? && m in At(p, path).value.mods
  }

  lemma {:induction false} DecorateAllAt(ps: seq<Position>, m: CustomMod, i: nat)
    requires i < |ps|
    ensures DecorateAll(ps, m)[i] == Decorate(ps[i], m)
    decreases |ps|
  {
    if i > 0 { DecorateAllAt(ps[1..], m, i - 1); }
  }

  lemma DecoratedChildren(ty: TypeSig, m: CustomMod)
    ensures var cs, ds := Children(ty), Children(DecorateType(ty, m));
      |ds| == |cs| && forall i :: 0 <= i < |cs| ==> ds[i] == Decorate(cs[i], m)
  {
    if ty.Generic? {
      forall i | 0 <= i < |ty.args| ensures DecorateAll(ty.args, m)[i] == Decorate(ty.args[i], m) {
        DecorateAllAt(ty.args, m, i);
      }
    }
  }

  /** The modifier stands in front of the run of every position there is, at
      every depth, and nothing else is added. */
  lemma {:induction false} DecoratesEverywhere(p: Position, m: CustomMod, path: seq<nat>)
    ensures At(Decorate(p, m), path).Some? <==> At(p, path).Some?
    ensures At(p, path).Some? ==> At(Decorate(p, m), path).value.mods == [m] + At(p, path).value.mods
    decreases |path|
  {
    if path != [] {
      DecoratedChildren(p.ty, m);
      if path[0] < |Children(p.ty)| { DecoratesEverywhere(Children(p.ty)[path[0]], m, path[1..]); }
    }
  }

  // ---- P2: an unrecognised required modifier is fatal ----

  ghost predicate Unrecognised(img: Image, m: CustomMod) {
    m.required && !IsReadonlyRef(img, m.modifier) && !IsVolatile(img, m.modifier)
  }

  lemma {:induction false} ClassifyRefuses(img: Image, run: seq<CustomMod>, acc: Modifiers, m: CustomMod)
    requires m in run && Unrecognised(img, m)
    ensures ClassifyFrom(img, run, acc).None?
    decreases |run|
  {
    if run[0] != m {
      assert m in run[1..];
      ClassifyRefuses(img, run[1..], acc, m);
      ClassifyRefuses(img, run[1..], acc.(readonlyRef := true), m);
      ClassifyRefuses(img, run[1..], acc.(volatile := true), m);
    }
  }

  lemma {:induction false} ArgsRefuse(img: Image, ps: seq<Position>, i: nat)
    requires i < |ps| && ProjectPosition(img, ps[i]).None?
    ensures ProjectArgs(img, ps).None?
    decreases |ps|
  {
    if i > 0 { ArgsRefuse(img, ps[1..], i - 1); }
  }

  lemma {:induction false} WalkArgsRefuse(img: Image, ps: seq<Position>, i: nat, src: Source, idx: nat)
    requires i < |ps| && forall k: nat :: WalkPosition(img, ps[i], src, k).None?
    ensures WalkArgs(img, ps, src, idx).None?
    decreases |ps|
  {
    if i > 0 {
      var first := WalkPosition(img, ps[0], src, idx);
      if first.Some? { WalkArgsRefuse(img, ps[1..], i - 1, src, first.value.idx); }
    }
  }

  /** A child that cannot be projected or walked takes its parent with it. */
  lemma ChildRefuses(img: Image, ty: TypeSig, i: nat)
    requires i < |Children(ty)| && ProjectPosition(img, Children(ty)[i]).None?
    ensures forall r :: ProjectType(img, ty, r).None?
  {
    if ty.Generic? { ArgsRefuse(img, ty.args, i); }
  }

  lemma ChildWalkRefuses(img: Image, ty: TypeSig, i: nat, src: Source, idx: nat)
    requires i < |Children(ty)| && forall k: nat :: WalkPosition(img, Children(ty)[i], src, k).None?
    ensures WalkType(img, ty, src, idx).None?
  {
    if ty.Generic? {
      WalkArgsRefuse(img, ty.args, i, src, idx);
      WalkArgsRefuse(img, ty.args, i, src, idx + 1);
    } else {
      assert WalkPosition(img, Children(ty)[i], src, idx + 1).None?;
    }
  }

  lemma {:induction false} UnrecognisedRefuses(img: Image, p: Position, path: seq<nat>, m: CustomMod)
    requires HoldsAt(p, path, m) && Unrecognised(img, m)
    ensures ProjectPosition(img, p).None?
    ensures forall src, idx :: WalkPosition(img, p, src, idx).None?
    decreases |path|
  {
    if path == [] {
      ClassifyRefuses(img, p.mods, NO_MODIFIERS, m);
    } else {
      UnrecognisedRefuses(img, Children(p.ty)[path[0]], path[1..], m);
      ChildRefuses(img, p.ty, path[0]);
      forall src, idx ensures WalkPosition(img, p, src, idx).None? {
        ChildWalkRefuses(img, p.ty, path[0], src, idx);
      }
    }
  }

  /** The same below a position whose own run is already classified. */
  lemma UnrecognisedBelowRefuses(
    img: Image, p: Position, path: seq<nat>, m: CustomMod, attr: Attribute, context: Option<Nullability>)
    requires HoldsAt(p, path, m) && Unrecognised(img, m)
    ensures AnnotatePosition(img, p, attr, context).None?
    ensures path != [] ==> AnnotateType(img, p.ty, attr, context).None?
  {
    if path == [] {
      ClassifyRefuses(img, p.mods, NO_MODIFIERS, m);
    } else {
      UnrecognisedRefuses(img, Children(p.ty)[path[0]], path[1..], m);
      ChildRefuses(img, p.ty, path[0]);
      if attr.Bytes? { ChildWalkRefuses(img, p.ty, path[0], attr.src, 0); }
      if context.Some? { ChildWalkRefuses(img, p.ty, path[0], Scalar(context.value), 0); }
    }
  }

  /** P2: one required modifier that is not understood, at any depth of a
      signature, refuses the type, the byref position, the parameter and the
      return. */
  lemma UnrecognisedModifierIsFatal(img: Image, p: Position, path: seq<nat>, m: CustomMod, site: Site, isSetter: bool)
    requires HoldsAt(p, path, m) && Unrecognised(img, m)
    ensures ProjectPosition(img, p).None?
    ensures AnnotatePosition(img, p, site.attr, site.context).None?
    ensures AnnotateByRefPosition(img, p, site).None?
    ensures ProjectParameter(img, p, site).None?
    ensures ProjectReturn(img, Returns(p), site, isSetter).None?
  {
    UnrecognisedRefuses(img, p, path, m);
    UnrecognisedBelowRefuses(img, p, path, m, site.attr, site.context);
    if path == [] {
      ClassifyRefuses(img, p.mods, NO_MODIFIERS, m);
    } else if p.ty.ByRef? {
      assert HoldsAt(p.ty.inner, path[1..], m);
      UnrecognisedBelowRefuses(img, p.ty.inner, path[1..], m, site.attr, site.context);
    }
  }

  lemma {:induction false} RequiredHas(mods: seq<CustomMod>, m: CustomMod)
    requires m in mods && m.required
    ensures m.modifier in Required(mods)
    decreases |mods|
  {
    if mods[0] != m { assert m in mods[1..]; RequiredHas(mods[1..], m); }
  }

  /** P2 on a `void` return, where an `init` setter's marker is the only
      required modifier understood. */
  lemma UnrecognisedModifierOnVoidIsFatal(img: Image, mods: seq<CustomMod>, m: CustomMod, site: Site, isSetter: bool)
    requires m in mods && m.required && (!isSetter || !IsExternalInit(img, m.modifier))
    ensures ProjectReturn(img, Void(mods), site, isSetter).None?
  {
    RequiredHas(mods, m);
  }

  // ---- P2 on generic-parameter constraints ----

  /** A run keeps everything but its markers. */
  lemma {:induction false} MarkersKeepTheRest(img: Image, run: seq<CustomMod>, sofar: Unmarked, m: CustomMod)
    requires m in run && !IsUnmanagedMarker(img, m.modifier)
    requires TakeMarkers(img, run, sofar).Some?
    ensures m in TakeMarkers(img, run, sofar).value.rest
    decreases |run|
  {
    if run[0] == m {
      RestGrows(img, run[1..], sofar.(rest := sofar.rest + [m]), m);
    } else {
      assert m in run[1..];
      if run[0].required && IsUnmanagedMarker(img, run[0].modifier) {
        MarkersKeepTheRest(img, run[1..], sofar.(marks := true), m);
      } else {
        MarkersKeepTheRest(img, run[1..], sofar.(rest := sofar.rest + [run[0]]), m);
      }
    }
  }

  lemma {:induction false} RestGrows(img: Image, run: seq<CustomMod>, sofar: Unmarked, m: CustomMod)
    requires m in sofar.rest && TakeMarkers(img, run, sofar).Some?
    ensures m in TakeMarkers(img, run, sofar).value.rest
    decreases |run|
  {
    if run != [] {
      if run[0].required && IsUnmanagedMarker(img, run[0].modifier) {
        RestGrows(img, run[1..], sofar.(marks := true), m);
      } else {
        RestGrows(img, run[1..], sofar.(rest := sofar.rest + [run[0]]), m);
      }
    }
  }

  /** The one thing a constraint may carry: the `unmanaged` marker in its own
      run, over the bare `System.ValueType`. */
  ghost predicate ConsumedMarker(img: Image, p: Position, path: seq<nat>, m: CustomMod) {
    path == [] && IsUnmanagedMarker(img, m.modifier) && IsSystemValueType(img, p.ty)
  }

  lemma UnrecognisedRefusesConstraint(
    img: Image, c: Constraint, path: seq<nat>, m: CustomMod, context: Option<Nullability>)
    requires HoldsAt(c.position, path, m) && Unrecognised(img, m) && !ConsumedMarker(img, c.position, path, m)
    ensures ProjectConstraint(img, c, context).None?
  {
    var p := c.position;
    if path != [] {
      UnrecognisedBelowRefuses(img, p, path, m, c.attr, context);
    } else {
      ClassifyRefuses(img, p.mods, NO_MODIFIERS, m);
      var taken := TakeMarkers(img, p.mods, Unmarked(false, []));
      if taken.Some? && !IsUnmanagedMarker(img, m.modifier) {
        MarkersKeepTheRest(img, p.mods, Unmarked(false, []), m);
        ClassifyRefuses(img, taken.value.rest, NO_MODIFIERS, m);
      }
    }
  }

  lemma {:induction false} OneConstraintRefuses(
    img: Image, cs: seq<Constraint>, k: nat, context: Option<Nullability>, sofar: Constraints)
    requires k < |cs| && ProjectConstraint(img, cs[k], context).None?
    ensures ProjectConstraints(img, cs, context, sofar).None?
    decreases |cs|
  {
    if k > 0 {
      match ProjectConstraint(img, cs[0], context)
      case None =>
      case Some(Marker) => OneConstraintRefuses(img, cs[1..], k - 1, context, sofar.(unmanaged := true));
      case Some(Surfaced(t)) =>
        OneConstraintRefuses(img, cs[1..], k - 1, context, sofar.(types := sofar.types + [t]));
    }
  }

  /** P2 where a position reads its own run: one required modifier that is not
      understood, anywhere in one constraint, refuses the generic parameter.
      Standing beside the `unmanaged` marker does not save it, and the marker
      itself is understood only over the bare `System.ValueType`. */
  lemma UnrecognisedModifierOnConstraintIsFatal(
    img: Image, cs: seq<Constraint>, k: nat, path: seq<nat>, m: CustomMod,
    context: Option<Nullability>, unmanaged: bool, valueType: bool)
    requires k < |cs| && HoldsAt(cs[k].position, path, m) && Unrecognised(img, m)
    requires !ConsumedMarker(img, cs[k].position, path, m)
    ensures ProjectTypar(img, cs, context, unmanaged, valueType).None?
  {
    UnrecognisedRefusesConstraint(img, cs[k], path, m, context);
    OneConstraintRefuses(img, cs, k, context, Constraints(unmanaged, []));
  }

  // ---- the record that an optional modifier was dropped ----

  /** `carries_optional_modifier`. */
  predicate CarriesOptional(p: Position)
    decreases p
  {
    (exists i :: 0 <= i < |p.mods| && !p.mods[i].required) || CarriesOptionalType(p.ty)
  }

  predicate CarriesOptionalType(ty: TypeSig)
    decreases ty
  {
    match ty
    case Generic(_, _, args) => CarriesOptionalAny(args)
    case SzArray(e) => CarriesOptional(e)
    case ByRef(i) => CarriesOptional(i)
    case Ptr(p) => CarriesOptional(p)
    case Array(e, _, _, _) => CarriesOptional(e)
    case _ => false
  }

  predicate CarriesOptionalAny(ps: seq<Position>)
    decreases ps
  {
    ps != [] && (CarriesOptional(ps[0]) || CarriesOptionalAny(ps[1..]))
  }

  lemma {:induction false} AnyIsSome(ps: seq<Position>)
    ensures CarriesOptionalAny(ps) <==> exists i :: 0 <= i < |ps| && CarriesOptional(ps[i])
    decreases |ps|
  {
    if ps != [] {
      AnyIsSome(ps[1..]);
      if i :| 0 <= i < |ps| && CarriesOptional(ps[i]) { if i > 0 { assert CarriesOptional(ps[1..][i - 1]); } }
      if i :| 0 <= i < |ps[1..]| && CarriesOptional(ps[1..][i]) { assert CarriesOptional(ps[i + 1]); }
    }
  }

  lemma TypeCarriesThroughChild(ty: TypeSig)
    ensures CarriesOptionalType(ty) <==> exists i :: 0 <= i < |Children(ty)| && CarriesOptional(Children(ty)[i])
  {
    if ty.Generic? {
      AnyIsSome(ty.args);
      assert Children(ty) == ty.args;
      if i :| 0 <= i < |ty.args| && CarriesOptional(ty.args[i]) { assert CarriesOptional(Children(ty)[i]); }
      if i :| 0 <= i < |Children(ty)| && CarriesOptional(Children(ty)[i]) { assert CarriesOptional(ty.args[i]); }
    } else if |Children(ty)| == 1 {
      assert CarriesOptionalType(ty) == CarriesOptional(Children(ty)[0]);
    }
  }

  lemma {:induction false} CarriesGivesPath(p: Position) returns (path: seq<nat>, m: CustomMod)
    requires CarriesOptional(p)
    ensures HoldsAt(p, path, m) && !m.required
    decreases p
  {
    if i :| 0 <= i < |p.mods| && !p.mods[i].required {
      path, m := [], p.mods[i];
    } else {
      TypeCarriesThroughChild(p.ty);
      var i: nat :| i < |Children(p.ty)| && CarriesOptional(Children(p.ty)[i]);
      var child := Children(p.ty)[i];
      ChildIsSmaller(p, i);
      var rest;
      rest, m := CarriesGivesPath(child);
      path := [i] + rest;
      assert path[1..] == rest;
    }
  }

  lemma ChildIsSmaller(p: Position, i: nat)
    requires i < |Children(p.ty)|
    ensures p decreases to Children(p.ty)[i]
  {
  }

  lemma {:induction false} PathGivesCarries(p: Position, path: seq<nat>, m: CustomMod)
    requires HoldsAt(p, path, m) && !m.required
    ensures CarriesOptional(p)
    decreases |path|
  {
    if path != [] {
      PathGivesCarries(Children(p.ty)[path[0]], path[1..], m);
      TypeCarriesThroughChild(p.ty);
    }
  }

  /** The record is set exactly when some position, at some depth, holds an
      optional modifier. */
  lemma CarriesOptionalIsExact(p: Position)
    ensures CarriesOptional(p) <==> exists path, m :: HoldsAt(p, path, m) && !m.required
  {
    if CarriesOptional(p) {
      var path, m := CarriesGivesPath(p);
    }
    if path, m :| HoldsAt(p, path, m) && !m.required {
      PathGivesCarries(p, path, m);
    }
  }
}
