/** The Rust types and values the generated converters work on. */
module RustTypes {
  import opened Wrappers
  import opened PyValues
  import opened Documents

  datatype Ty =
    | BoolT
    | IntT(bits: nat)
    | FloatT(single: bool)
    | StringT
    | EnumT(name: string)
    | DateTimeT
    | BlobT
    | DocumentT
    | StructT(name: string)
    | UnionT(name: string)
    | BoxT(inner: Ty)
    | OptionT(inner: Ty)
    | VecT(item: Ty)
    | MapT(key: Ty, value: Ty)
    | ArcT(inner: Ty)        // output storage only
    | SharedT(name: string)  // the storage form of a structure that owns structures

  // `fallback` is what the SDK builder supplies for an absent field that is not optional.
  datatype Field = Field(name: string, ty: Ty, optional: bool, fallback: Option<RustValue>)

  // `key` is the dictionary key of a union variant; a unit variant has no payload.
  datatype Variant = Variant(key: string, payload: Option<Ty>)

  datatype RustValue =
    | RBool(truth: bool)
    | RInt(number: int)
    | RFloat(float: Float)
    | RStr(text: string)
    | REnum(text: string)
    | RTime(text: string)
    | RBlob(octets: seq<int>)
    | RDoc(document: Document)
    | RStruct(fields: map<string, RustValue>)
    | RVariant(key: string, payload: RustValue)
    | RUnit
    | RUnknown
    | RBox(inner: RustValue)
    | RNone
    | RSome(inner: RustValue)
    | RVec(items: seq<RustValue>)
    | RMap(entries: map<string, RustValue>)
    | RArc(inner: RustValue)

  // The declarations, and the foreign conversions: f64 to f32, int to f64, and timestamps.
  datatype Env = Env(
    structs: map<string, seq<Field>>,
    unions: map<string, seq<Variant>>,
    narrow: Float -> Float,
    floatOf: int -> Option<Float>,
    parseTime: string -> Option<string>)

  predicate FitsBits(number: int, bits: nat) {
    match bits
    case 8 => -0x80 <= number <= 0x7f
    case 16 => -0x8000 <= number <= 0x7fff
    case 32 => -0x8000_0000 <= number <= 0x7fff_ffff
    case _ => I64_MIN <= number <= I64_MAX
  }

  predicate IsKeyType(ty: Ty) {
    ty.StringT? || ty.EnumT?
  }

  // Types of SDK fields: maps are keyed by strings, and storage forms do not occur.
  predicate Declarable(ty: Ty) {
    match ty
    case BoxT(inner) => Declarable(inner)
    case OptionT(inner) => Declarable(inner)
    case VecT(item) => Declarable(item)
    case MapT(key, value) => IsKeyType(key) && Declarable(value)
    case ArcT(_) => false
    case SharedT(_) => false
    case _ => true
  }

  function FieldNames(fields: seq<Field>): set<string> {
    set f | f in fields :: f.name
  }

  ghost predicate DistinctFields(fields: seq<Field>) {
    forall i, j | 0 <= i < j < |fields| :: fields[i].name != fields[j].name
  }

  function FindVariant(variants: seq<Variant>, key: string): (found: Option<Variant>)
    ensures found.Some? ==> found.value in variants && found.value.key == key
    ensures found.None? ==> forall v | v in variants :: v.key != key
  {
    if variants == [] then None
    else if variants[0].key == key then Some(variants[0])
    else FindVariant(variants[1..], key)
  }

  ghost predicate WellFormed(env: Env) {
    && (forall name | name in env.structs :: DistinctFields(env.structs[name]))
    && (forall name, f | name in env.structs && f in env.structs[name] :: Declarable(f.ty))
    && (forall name, i, j | name in env.unions && 0 <= i < j < |env.unions[name]| ::
          env.unions[name][i].key != env.unions[name][j].key)
    && (forall name, v | name in env.unions && v in env.unions[name] :: v.payload.Some? ==> Declarable(v.payload.value))
  }

  // ---------- Output storage types ----------

  predicate ContainsNativeStruct(ty: Ty) {
    match ty
    case StructT(_) => true
    case BoxT(inner) => ContainsNativeStruct(inner)
    case OptionT(inner) => ContainsNativeStruct(inner)
    case VecT(item) => ContainsNativeStruct(item)
    case MapT(_, value) => ContainsNativeStruct(value)
    case _ => false
  }

  predicate SharesFields(fields: seq<Field>) {
    exists f | f in fields :: ContainsNativeStruct(f.ty)
  }

  // A structure whose own fields hold structures has a storage form.
  predicate IsShared(env: Env, name: string) {
    name in env.structs && SharesFields(env.structs[name])
  }

  // Boxes around a structure are erased: the node's Arc is indirection enough.
  predicate IsArc(ty: Ty) {
    match ty
    case BoxT(inner) => IsArc(inner)
    case StructT(_) => true
    case _ => false
  }

  function SharedInner(env: Env, name: string): Ty {
    if IsShared(env, name) then SharedT(name) else StructT(name)
  }

  function SharedType(env: Env, ty: Ty): Ty {
    match ty
    case StructT(name) => ArcT(SharedInner(env, name))
    case BoxT(inner) => if IsArc(ty) then SharedType(env, inner) else BoxT(SharedType(env, inner))
    case OptionT(inner) => OptionT(SharedType(env, inner))
    case VecT(item) => VecT(SharedType(env, item))
    case MapT(key, value) => MapT(SharedType(env, key), SharedType(env, value))
    case _ => ty
  }

  // ---------- Typing ----------

  // A field value of the given type, present or not when the field is optional.
  ghost predicate HasFieldType(env: Env, v: RustValue, ty: Ty, optional: bool)
    decreases v, 1
  {
    if optional then v.RNone? || (v.RSome? && HasType(env, v.inner, ty)) else HasType(env, v, ty)
  }

  ghost predicate HasType(env: Env, v: RustValue, ty: Ty)
    decreases v, 0
  {
    match ty
    case BoolT => v.RBool?
    case IntT(bits) => v.RInt? && FitsBits(v.number, bits)
    case FloatT(single) => v.RFloat? && (single ==> env.narrow(v.float) == v.float)
    case StringT => v.RStr?
    case EnumT(_) => v.REnum?
    case DateTimeT => v.RTime? && env.parseTime(v.text) == Some(v.text)
    case BlobT => v.RBlob?
    case DocumentT => v.RDoc? && WellTyped(v.document)
    case StructT(name) =>
      && v.RStruct? && name in env.structs && v.fields.Keys == FieldNames(env.structs[name])
      && forall f | f in env.structs[name] :: HasFieldType(env, v.fields[f.name], f.ty, f.optional)
    case UnionT(name) =>
      name in env.unions &&
      (v.RUnknown? ||
       (v.RVariant? &&
        var variant := FindVariant(env.unions[name], v.key);
        variant.Some? &&
        match variant.value.payload
        case None => v.payload.RUnit?
        case Some(ty) => HasType(env, v.payload, ty)))
    case BoxT(inner) => v.RBox? && HasType(env, v.inner, inner)
    case OptionT(inner) => v.RNone? || (v.RSome? && HasType(env, v.inner, inner))
    case VecT(item) => v.RVec? && forall x | x in v.items :: HasType(env, x, item)
    case MapT(key, value) => IsKeyType(key) && v.RMap? && forall k | k in v.entries :: HasType(env, v.entries[k], value)
    case ArcT(inner) => v.RArc? && HasType(env, v.inner, inner)
    case SharedT(name) =>
      && v.RStruct? && name in env.structs && v.fields.Keys == FieldNames(env.structs[name])
      && forall f | f in env.structs[name] :: HasFieldType(env, v.fields[f.name], SharedType(env, f.ty), f.optional)
  }
}
