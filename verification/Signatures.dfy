/** Decoded ECMA-335 signatures (`TypeSig`, `ModifiedType`) and the entity
    model's types (`TypeRef`, `NullableType`) they are projected to. */
module Signatures {
  import opened Options
  import opened Decimals

  // ---- what the metadata reader decodes ----

  datatype Scope = Definition(row: nat) | Reference(row: nat)

  datatype CustomMod = CustomMod(required: bool, modifier: Scope)

  /** A type position: its custom-modifier run beside its type. */
  datatype Position = Position(mods: seq<CustomMod>, ty: TypeSig)

  /** A vector in memory is shorter than the largest machine word. */
  type Vec<T> = xs: seq<T> | |xs| < USIZE_MAX

  /** The class-or-value bit of a named type, absent on a bare token. */
  datatype NamedKind = Class | ValueType | Unstated

  datatype Primitive = Object | String | ValuePrimitive(code: nat)

  datatype TypeSig =
    | Prim(prim: Primitive)
    | Named(kind: NamedKind, scope: Scope)
    | Generic(kind: NamedKind, scope: Scope, args: Vec<Position>)
    | TypeVar(index: nat)
    | MethodVar(index: nat)
    | SzArray(element: Position)
    | Array(element: Position, rank: nat, sizes: seq<nat>, lowerBounds: seq<int>)
    | Ptr(pointee: Position)
    | VoidPtr
    | ByRef(inner: Position)
    | TypedByRef

  /** The positions directly below a type. */
  function Children(ty: TypeSig): seq<Position> {
    match ty
    case Generic(_, _, args) => args
    case SzArray(e) => [e]
    case Array(e, _, _, _) => [e]
    case Ptr(p) => [p]
    case ByRef(i) => [i]
    case _ => []
  }

  // ---- what the projector produces ----

  /** Everything a resolved scope contributes to a named type. */
  datatype TypeName = TypeName(assembly: Option<string>, namespace: seq<string>, name: string, arities: seq<nat>)

  datatype Nullability = Oblivious | NotAnnotated | Annotated

  datatype NullableType = Nullable(ty: TypeRef, nullability: Nullability)

  datatype TypeRef =
    | PrimRef(prim: Primitive)
    | NamedRef(name: TypeName, args: Vec<NullableType>)
    | Var(index: nat, isMethod: bool)
    | ArrayRef(element: NullableType, rank: nat, sizes: seq<nat>, lowerBounds: seq<int>)
    | PtrRef(pointee: TypeRef)
    | VoidPtrRef
    | ByRefRef(inner: TypeRef, readonly: bool)

  function Unannotated(t: TypeRef): NullableType { Nullable(t, Oblivious) }

  /** `nullability_erased`. */
  function Erase(t: TypeRef): TypeRef {
    match t
    case PrimRef(_) => t
    case Var(_, _) => t
    case VoidPtrRef => t
    case NamedRef(name, args) => NamedRef(name, EraseAll(args))
    case ArrayRef(e, rank, sizes, lows) => ArrayRef(EraseNullable(e), rank, sizes, lows)
    case PtrRef(p) => PtrRef(Erase(p))
    case ByRefRef(i, readonly) => ByRefRef(Erase(i), readonly)
  }

  function EraseAll(args: seq<NullableType>): (r: seq<NullableType>)
    ensures |r| == |args|
  {
    if args == [] then [] else [EraseNullable(args[0])] + EraseAll(args[1..])
  }

  function EraseNullable(n: NullableType): NullableType { Unannotated(Erase(n.ty)) }

  /** The image: how a scope resolves (or fails to), and what the token-free
      `System.TypedReference` is attributed to. */
  datatype Image = Image(resolve: Scope -> Option<TypeName>, typedReference: Option<TypeName>)
}
