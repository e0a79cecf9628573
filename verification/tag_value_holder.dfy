/**
 The type-erased holder: `TTagValueHolder<T>` behind
 the `ITagValueHolder` interface. The open set of template arguments `T`
 becomes the closed set of seven payload kinds of `ETagValueType`; the
 holder's type name is the kind of its payload.
 */
module TagValueHolder {
  import opened Basics

  /** The seven value types of `ETagValueType`. */
  datatype ValueKind = BoolKind | IntKind | FloatKind | StringKind | TransformKind | ClassKind | ObjectKind

  /** A three-component vector; its components are opaque numbers. */
  datatype Vector = Vector(x: real, y: real, z: real)

  /** A rotation quaternion; its components are opaque numbers. */
  datatype Quat = Quat(x: real, y: real, z: real, w: real)

  /** `FTransform`: rotation, translation and scale. */
  datatype Transform = Transform(rotation: Quat, translation: Vector, scale: Vector)

  /** `FTransform::Identity`: no rotation, no translation, unit scale. */
  const IdentityTransform: Transform :=
    Transform(Quat(0.0, 0.0, 0.0, 1.0), Vector(0.0, 0.0, 0.0), Vector(1.0, 1.0, 1.0))

  /** A soft class or object path; the empty path is the null reference. */
  datatype SoftPath = SoftPath(path: string)

  /** One payload of one of the seven kinds. */
  datatype Payload =
    | BoolPayload(b: bool)
    | IntPayload(i: int32)
    | FloatPayload(f: real)
    | StringPayload(s: string)
    | TransformPayload(t: Transform)
    | ClassPayload(c: SoftPath)
    | ObjectPayload(o: SoftPath)

  /** The kind of a payload: which case of the variant is active. */
  function KindOf(p: Payload): ValueKind {
    match p
    case BoolPayload(_) => BoolKind
    case IntPayload(_) => IntKind
    case FloatPayload(_) => FloatKind
    case StringPayload(_) => StringKind
    case TransformPayload(_) => TransformKind
    case ClassPayload(_) => ClassKind
    case ObjectPayload(_) => ObjectKind
  }

  /** `TTagValueHolder<T>`, holding the value it was constructed with. */
  datatype Holder = Holder(value: Payload)

  /** `TTagValueHolder<T>(InValue)`: the holder stores exactly its argument. */
  function MakeHolder(p: Payload): (h: Holder)
    ensures ValuePtr(h) == p
    ensures TypeName(h) == KindOf(p)
  {
    Holder(p)
  }

  /** `GetValuePtr`: the stored payload. */
  function ValuePtr(h: Holder): Payload {
    h.value
  }

  /** `GetValueTypeName`: determined by the template argument alone. */
  function TypeName(h: Holder): ValueKind {
    KindOf(h.value)
  }

  /** `Clone`: a new holder of the same type with an equal payload. */
  function Clone(h: Holder): (c: Holder)
    ensures TypeName(c) == TypeName(h)
    ensures ValuePtr(c) == ValuePtr(h)
  {
    MakeHolder(h.value)
  }

  /** `TTagValueHolder<T>::IsValid`: a holder always holds a valid value. */
  function IsValidHolder(h: Holder): (b: bool)
    ensures b
  {
    true
  }
}
