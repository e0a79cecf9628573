/**
 The inheritance-based value hierarchy: `FBaseTagValue` and its seven
 subtypes, each reporting a type name through `GetValueType`. Equality
 (`operator==`) compares type names only.
 */
module TagValueBase {
  import opened Basics
  import opened TagValueHolder

  /** `FBaseTagValue` (the base itself) and its seven subtypes. */
  datatype BaseTagValue =
    | BaseValue
    | BoolTagValue(b: bool)
    | IntTagValue(i: int32)
    | FloatTagValue(f: real)
    | TransformTagValue(t: Transform)
    | ClassTagValue(c: SoftPath)
    | ObjectTagValue(o: SoftPath)
    | StringTagValue(s: string)

  /** `GetValueType`: `NAME_None` for the base, a fixed name per subtype. */
  function GetValueType(v: BaseTagValue): (n: Name)
    ensures n == NameNone <==> v.BaseValue?
  {
    match v
    case BaseValue => NameNone
    case BoolTagValue(_) => "Bool"
    case IntTagValue(_) => "Int"
    case FloatTagValue(_) => "Float"
    case TransformTagValue(_) => "Transform"
    case ClassTagValue(_) => "Class"
    case ObjectTagValue(_) => "Object"
    case StringTagValue(_) => "String"
  }

  /** True iff `a` and `b` are built by the same case (subtype), payloads aside. */
  predicate SameSubtype(a: BaseTagValue, b: BaseTagValue) {
    match (a, b)
    case (BaseValue, BaseValue) => true
    case (BoolTagValue(_), BoolTagValue(_)) => true
    case (IntTagValue(_), IntTagValue(_)) => true
    case (FloatTagValue(_), FloatTagValue(_)) => true
    case (TransformTagValue(_), TransformTagValue(_)) => true
    case (ClassTagValue(_), ClassTagValue(_)) => true
    case (ObjectTagValue(_), ObjectTagValue(_)) => true
    case (StringTagValue(_), StringTagValue(_)) => true
    case _ => false
  }

  /** The type names the seven subtypes report. */
  const SubtypeNames: set<Name> := {"Bool", "Int", "Float", "Transform", "Class", "Object", "String"}

  /**
   The default constructors of the subtypes, selected by type name: the
   default value of a subtype reports that subtype's name; any other name
   selects the base.
   */
  function DefaultOf(n: Name): (v: BaseTagValue)
    ensures n in SubtypeNames ==> GetValueType(v) == n
    ensures n !in SubtypeNames ==> v == BaseValue
  {
    if n == "Bool" then BoolTagValue(false)
    else if n == "Int" then IntTagValue(0)
    else if n == "Float" then FloatTagValue(0.0)
    else if n == "Transform" then TransformTagValue(IdentityTransform)
    else if n == "Class" then ClassTagValue(SoftPath(""))
    else if n == "Object" then ObjectTagValue(SoftPath(""))
    else if n == "String" then StringTagValue("")
    else BaseValue
  }

  /** The default constructors: Bool is false, Int is 0, Transform is the identity. */
  lemma DefaultConstructors()
    ensures DefaultOf("Bool") == BoolTagValue(false)
    ensures DefaultOf("Int") == IntTagValue(0)
    ensures DefaultOf("Float") == FloatTagValue(0.0)
    ensures DefaultOf("Transform") == TransformTagValue(IdentityTransform)
    ensures DefaultOf("Class") == ClassTagValue(SoftPath(""))
    ensures DefaultOf("Object") == ObjectTagValue(SoftPath(""))
    ensures DefaultOf("String") == StringTagValue("")
  {
  }

  /** `FBaseTagValue::operator==`: equal type names, payloads ignored. */
  predicate Equals(a: BaseTagValue, b: BaseTagValue) {
    GetValueType(a) == GetValueType(b)
  }

  /**
   The type names are pairwise distinct, so `operator==` holds exactly for
   values of the same subtype, whatever their payloads.
   */
  lemma {:induction false} EqualsIffSameSubtype(a: BaseTagValue, b: BaseTagValue)
    ensures Equals(a, b) <==> SameSubtype(a, b)
  {
    match a
    case BaseValue =>
    case BoolTagValue(_) =>
      assert GetValueType(a) == "Bool";
      assert GetValueType(b) == "Bool" ==> b.BoolTagValue?;
    case IntTagValue(_) =>
      assert GetValueType(b) == "Int" ==> b.IntTagValue?;
    case FloatTagValue(_) =>
      assert GetValueType(b) == "Float" ==> b.FloatTagValue?;
    case TransformTagValue(_) =>
      assert GetValueType(b) == "Transform" ==> b.TransformTagValue?;
    case ClassTagValue(_) =>
      assert GetValueType(b) == "Class" ==> b.ClassTagValue?;
    case ObjectTagValue(_) =>
      assert GetValueType(b) == "Object" ==> b.ObjectTagValue?;
    case StringTagValue(_) =>
      assert GetValueType(b) == "String" ==> b.StringTagValue?;
  }

  /**
   `operator==` ignores payloads: values of one subtype compare equal
   whatever they hold, so `operator==` is strictly coarser than equality
   of values (Int 1 and Int 2 compare equal).
   */
  lemma EqualsIgnoresPayload(a: BaseTagValue, b: BaseTagValue)
    ensures SameSubtype(a, b) ==> Equals(a, b)
    ensures Equals(IntTagValue(1), IntTagValue(2)) && IntTagValue(1) != IntTagValue(2)
  {
    EqualsIffSameSubtype(a, b);
  }

  /** An archive, opaque to this model. */
  datatype Archive = Archive(bytes: seq<bv8>)

  /** `FBaseTagValue::Serialize`: reports success and touches nothing. */
  function Serialize(v: BaseTagValue, ar: Archive): (r: (bool, BaseTagValue, Archive))
    ensures r.0
    ensures r.1 == v && r.2 == ar
  {
    (true, v, ar)
  }
}
