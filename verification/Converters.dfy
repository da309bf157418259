/** The generated converters: `*_from_py`, `*_to_py`, and the fragments they are made of. */
module Converters {
  import opened Wrappers
  import opened PyValues
  import opened InputErrors
  import Documents
  import opened RustTypes

  // ---------- To Python ----------

  // The component type of a box, option, vector or map value.
  function Component(ty: Ty): Ty {
    match ty
    case BoxT(inner) => inner
    case OptionT(inner) => inner
    case VecT(item) => item
    case MapT(_, value) => value
    case _ => ty
  }

  function Declared(env: Env, ty: Ty): seq<Field> {
    if ty.StructT? && ty.name in env.structs then env.structs[ty.name] else []
  }

  function PayloadType(env: Env, ty: Ty, key: string): Ty {
    if ty.UnionT? && ty.name in env.unions then
      match FindVariant(env.unions[ty.name], key)
      case Some(variant) => if variant.payload.Some? then variant.payload.value else ty
      case None => ty
    else ty
  }

  // `result.set_item` for each field in turn; an absent optional field is set to None.
  function FieldsToPy(env: Env, fields: seq<Field>, v: RustValue): map<string, Py>
    requires v.RStruct?
    decreases v, 0, |fields|
  {
    if fields == [] then map[]
    else
      var rest := FieldsToPy(env, fields[1..], v);
      var f := fields[0];
      if f.name !in v.fields then rest
      else if !f.optional then rest[f.name := ToPy(env, f.ty, v.fields[f.name])]
      else if v.fields[f.name].RSome? then rest[f.name := ToPy(env, f.ty, v.fields[f.name].inner)]
      else rest[f.name := PyNone]
  }

  function ToPy(env: Env, ty: Ty, v: RustValue): Py
    decreases v, 1, 0
  {
    match v
    case RBool(b) => PyBool(b)
    case RInt(i) => PyInt(i)
    case RFloat(f) => PyFloat(f)
    case RStr(s) => PyStr(s)
    case REnum(s) => PyStr(s)
    case RTime(s) => PyStr(s)
    case RBlob(octets) => PyBytes(octets)
    case RDoc(document) => Documents.ToPy(document)
    case RStruct(_) => PyDict(StringKeys(FieldsToPy(env, Declared(env, ty), v)))
    case RVariant(key, payload) => PyDict(map[PyStr(key) := ToPy(env, PayloadType(env, ty, key), payload)])
    case RUnit => PyNone
    case RUnknown => PyDict(map[PyStr("unknown") := PyBool(true)])
    case RBox(inner) => ToPy(env, Component(ty), inner)
    case RNone => PyNone
    case RSome(inner) => ToPy(env, Component(ty), inner)
    case RVec(items) => PyList(seq(|items|, i requires 0 <= i < |items| => ToPy(env, Component(ty), items[i])))
    case RMap(entries) => PyDict(StringKeys(map key | key in entries :: ToPy(env, Component(ty), entries[key])))
    case RArc(inner) => ToPy(env, ty, inner)
  }

  // ---------- From Python ----------

  // `extract::<u8>()`
  predicate IsOctet(p: Py) {
    p.PyBool? || (p.PyInt? && 0 <= p.number <= 255)
  }

  function OctetOf(p: Py): int
    requires IsOctet(p)
  {
    if p.PyBool? then (if p.truth then 1 else 0) else p.number
  }

  // Types converted by a single `extract`, a parse or a document conversion.
  function FromScalar(env: Env, order: Documents.Iteration, ty: Ty, p: Py): Converted<RustValue>
    requires Documents.Iterates(order)
  {
    match ty
    case StringT => if p.PyStr? then Success(RStr(p.text)) else Reject(WrongType)
    case EnumT(_) => if p.PyStr? then Success(REnum(p.text)) else Reject(WrongType)
    case BoolT => if p.PyBool? then Success(RBool(p.truth)) else Reject(WrongType)
    case IntT(bits) =>
      if p.PyBool? then Success(RInt(if p.truth then 1 else 0))
      else if !p.PyInt? then Reject(WrongType)
      else if FitsBits(p.number, bits) then Success(RInt(p.number))
      else Reject(OutOfRange)
    case FloatT(single) =>
      if p.PyFloat? then Success(RFloat(if single then env.narrow(p.float) else p.float))
      else if !p.PyInt? && !p.PyBool? then Reject(WrongType)
      else
        (match env.floatOf(if p.PyBool? then (if p.truth then 1 else 0) else p.number)
         case None => Reject(OutOfRange)
         case Some(f) => Success(RFloat(if single then env.narrow(f) else f)))
    case DateTimeT =>
      if !p.PyStr? then Reject(WrongType)
      else
        (match env.parseTime(p.text)
         case None => Reject(BadTimestamp)
         case Some(text) => Success(RTime(text)))
    case BlobT =>
      if p.PyBytes? then Success(RBlob(p.octets))
      else if p.PyList? && forall item | item in p.items :: IsOctet(item) then
        Success(RBlob(seq(|p.items|, i requires 0 <= i < |p.items| => OctetOf(p.items[i]))))
      else Reject(WrongType)
    case DocumentT =>
      (var document :- Documents.FromPy(order, p, 0);
       Success(RDoc(document)))
    case _ => Reject(WrongType)
  }

  // The items of an iterable: those of a list, characters, bytes, or dictionary keys.
  function Iterated(order: Documents.Iteration, p: Py): Option<seq<Py>> {
    match p
    case PyList(items) => Some(items)
    case PyStr(text) => Some(seq(|text|, i requires 0 <= i < |text| => PyStr([text[i]])))
    case PyBytes(octets) => Some(seq(|octets|, i requires 0 <= i < |octets| => PyInt(octets[i])))
    case PyDict(entries) => Some(order(entries))
    case _ => None
  }

  // An item that holds no dictionary: a character, a byte, a dictionary key.
  function FromLeaf(env: Env, order: Documents.Iteration, ty: Ty, p: Py): Converted<RustValue>
    requires Documents.Iterates(order)
    decreases ty, 0
  {
    match ty
    case BoxT(inner) =>
      (var x :- FromLeaf(env, order, inner, p);
       Success(RBox(x)))
    case OptionT(inner) =>
      if p.PyNone? then Success(RNone)
      else
        (var x :- FromLeaf(env, order, inner, p);
         Success(RSome(x)))
    case VecT(item) =>
      (match Iterated(order, p)
       case None => Reject(WrongType)
       case Some(items) =>
         var converted :- FromLeaves(env, order, item, items, 0);
         Success(RVec(converted)))
    case _ => FromScalar(env, order, ty, p)
  }

  function FromLeaves(env: Env, order: Documents.Iteration, ty: Ty, items: seq<Py>,
                      from: nat): Converted<seq<RustValue>>
    requires Documents.Iterates(order) && from <= |items|
    decreases ty, 1, |items| - from
  {
    if from == |items| then Success([])
    else
      var head :- Under(IndexSegment(from), FromLeaf(env, order, ty, items[from]));
      var tail :- FromLeaves(env, order, ty, items, from + 1);
      Success([head] + tail)
  }

  // `dict_value`: the value of a key, unless it is absent or None.
  function DictValue(p: Py, name: string): Option<Py>
    requires p.PyDict?
  {
    if PyStr(name) in p.entries && p.entries[PyStr(name)] != PyNone then Some(p.entries[PyStr(name)]) else None
  }

  // A builder part-way: the fields set, and the first required field that is missing.
  datatype Builder = Builder(fields: map<string, RustValue>, missing: Option<string>)

  function FromFields(env: Env, order: Documents.Iteration, fields: seq<Field>, p: Py): Converted<Builder>
    requires Documents.Iterates(order) && p.PyDict?
    decreases p, 0, |fields|
  {
    if fields == [] then Success(Builder(map[], None))
    else
      var f := fields[0];
      match DictValue(p, f.name)
      case Some(value) =>
        var x :- Under(FieldSegment(f.name), FromPy(env, order, f.ty, value));
        var rest :- FromFields(env, order, fields[1..], p);
        Success(Builder(rest.fields[f.name := if f.optional then RSome(x) else x], rest.missing))
      case None =>
        var rest :- FromFields(env, order, fields[1..], p);
        if f.optional then Success(Builder(rest.fields[f.name := RNone], rest.missing))
        else if f.fallback.Some? then Success(Builder(rest.fields[f.name := f.fallback.value], rest.missing))
        else Success(Builder(rest.fields, Some(f.name)))
  }

  // The variants in turn: the first whose key has a value decides.
  function FromVariants(env: Env, order: Documents.Iteration, variants: seq<Variant>, p: Py): Converted<RustValue>
    requires Documents.Iterates(order) && p.PyDict?
    decreases p, 0, |variants|
  {
    if variants == [] then Reject(UnknownVariantKey)
    else
      var variant := variants[0];
      match variant.payload
      case None =>
        if PyStr(variant.key) !in p.entries then FromVariants(env, order, variants[1..], p)
        else if p.entries[PyStr(variant.key)] != PyNone then Under(FieldSegment(variant.key), Reject(UnitNeedsNone))
        else Success(RVariant(variant.key, RUnit))
      case Some(ty) =>
        match DictValue(p, variant.key)
        case None => FromVariants(env, order, variants[1..], p)
        case Some(value) =>
          var x :- Under(FieldSegment(variant.key), FromPy(env, order, ty, value));
          Success(RVariant(variant.key, x))
  }

  function FromItems(env: Env, order: Documents.Iteration, ty: Ty, p: Py, from: nat): Converted<seq<RustValue>>
    requires Documents.Iterates(order) && p.PyList? && from <= |p.items|
    decreases p, 0, |p.items| - from
  {
    if from == |p.items| then Success([])
    else
      var head :- Under(IndexSegment(from), FromPy(env, order, ty, p.items[from]));
      var tail :- FromItems(env, order, ty, p, from + 1);
      Success([head] + tail)
  }

  function FromKey(ty: Ty, key: Py): Converted<string> {
    if !IsKeyType(ty) then Reject(UnsupportedKey)
    else if key.PyStr? then Success(key.text)
    else Reject(WrongType)
  }

  // Entries in iteration order, the key of each before its value; later entries win.
  function FromEntries(env: Env, order: Documents.Iteration, ty: Ty, p: Py, keys: seq<Py>,
                       from: nat): Converted<map<string, RustValue>>
    requires Documents.Iterates(order) && ty.MapT? && p.PyDict? && from <= |keys|
    requires forall key | key in keys :: key in p.entries
    decreases p, 0, |keys| - from
  {
    if from == |keys| then Success(map[])
    else
      var key :- Under(MapKey(from), FromKey(ty.key, keys[from]));
      var value :- Under(MapValue(from), FromPy(env, order, ty.value, p.entries[keys[from]]));
      var rest :- FromEntries(env, order, ty, p, keys, from + 1);
      Success(map[key := value] + rest)
  }

  function FromStruct(env: Env, order: Documents.Iteration, name: string, p: Py): Converted<RustValue>
    requires Documents.Iterates(order)
    decreases p, 1
  {
    if !p.PyDict? || name !in env.structs then Reject(WrongType)
    else
      var built :- FromFields(env, order, env.structs[name], p);
      match built.missing
      case Some(field) => Under(FieldSegment(field), Reject(MissingMember))
      case None => Success(RStruct(built.fields))
  }

  function FromUnion(env: Env, order: Documents.Iteration, name: string, p: Py): Converted<RustValue>
    requires Documents.Iterates(order)
    decreases p, 1
  {
    if !p.PyDict? || name !in env.unions then Reject(WrongType)
    else if |p.entries| != 1 then Reject(NotOneVariant)
    else FromVariants(env, order, env.unions[name], p)
  }

  function FromPy(env: Env, order: Documents.Iteration, ty: Ty, p: Py): Converted<RustValue>
    requires Documents.Iterates(order)
    decreases p, 2, ty
  {
    match ty
    case BoxT(inner) =>
      (var x :- FromPy(env, order, inner, p);
       Success(RBox(x)))
    case OptionT(inner) =>
      if p.PyNone? then Success(RNone)
      else
        (var x :- FromPy(env, order, inner, p);
         Success(RSome(x)))
    case VecT(item) =>
      if p.PyList? then
        (var items :- FromItems(env, order, item, p, 0);
         Success(RVec(items)))
      else
        (match Iterated(order, p)
         case None => Reject(WrongType)
         case Some(leaves) =>
           var items :- FromLeaves(env, order, item, leaves, 0);
           Success(RVec(items)))
    case MapT(_, _) =>
      if !p.PyDict? then Reject(WrongType)
      else
        (var entries :- FromEntries(env, order, ty, p, order(p.entries), 0);
         Success(RMap(entries)))
    case StructT(name) => FromStruct(env, order, name, p)
    case UnionT(name) => FromUnion(env, order, name, p)
    case _ => FromScalar(env, order, ty, p)
  }
}
