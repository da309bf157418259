/** Response values of a modelled type, and the Python objects that carry them. */
module Responses {
  import opened PyValues
  import opened Smithy
  import opened WaiterCompiler

  datatype Value =
    | Null
    | Bool(truth: bool)
    | Int(number: int)
    | Flt(float: Float)
    | Str(text: string)
    | Bytes(octets: seq<int>)
    | List(items: seq<Value>)
    | Mapping(entries: map<string, Value>)
    | Struct(fields: map<string, Value>)        // by modelled member name
    | Tagged(member: string, payload: Value)    // a union value
    | UnknownVariant                            // a union value of a newer service model

  // An absent member reads as null.
  function FieldOf(fields: map<string, Value>, name: string): Value {
    if name in fields then fields[name] else Null
  }

  predicate IsJson(v: Value) {
    match v
    case List(items) => forall item | item in items :: IsJson(item)
    case Mapping(entries) => forall key | key in entries :: IsJson(entries[key])
    case _ => v.Null? || v.Bool? || v.Int? || v.Flt? || v.Str?
  }

  predicate IsScalarOf(kind: Kind, v: Value) {
    match kind
    case StringKind | EnumKind | TimestampKind => v.Str?
    case BooleanKind => v.Bool?
    case ByteKind | ShortKind | IntegerKind | LongKind | FloatKind | DoubleKind => v.Int? || v.Flt?
    case BlobKind => v.Bytes?
    case DocumentKind => IsJson(v)
    case OtherKind(_) => v.Int? || v.Flt? || v.Str?
    case _ => false
  }

  // Every member may be absent, and so may the item of a sparse list: null has every type.
  ghost predicate Conforms(svc: Service, v: Value, t: Type)
    decreases v
  {
    v.Null? ||
    match t
    case ListOf(element) => v.List? && forall item | item in v.items :: Conforms(svc, item, element)
    case Plain(Prelude(kind, _), _) => IsScalarOf(kind, v)
    case Plain(Model(id), dictionary) =>
      id in svc.shapes &&
      var shape := svc.shapes[id];
      match shape.kind
      case ListKind | SetKind =>
        shape.memberTarget.Some? && v.List? &&
        forall item | item in v.items :: Conforms(svc, item, Plain(shape.memberTarget.value, dictionary))
      case MapKind =>
        shape.valueTarget.Some? && v.Mapping? &&
        forall key | key in v.entries :: Conforms(svc, v.entries[key], Plain(shape.valueTarget.value, dictionary))
      case Structure =>
        v.Struct? &&
        forall key | key in v.fields ::
          var member := FindMember(shape.members, key);
          member.Some? && Conforms(svc, v.fields[key], Plain(member.value.target, dictionary))
      case Union =>
        v.UnknownVariant? ||
        (v.Tagged? &&
         var member := FindMember(shape.members, v.member);
         member.Some? && !svc.IsError(member.value.target)
         && Conforms(svc, v.payload, Plain(member.value.target, true)))
      case kind => IsScalarOf(kind, v)
  }

  // No null item in an array, or in an array that is an item of it, and so on.
  predicate DenseArrays(v: Value) {
    v.List? ==> forall item | item in v.items :: !item.Null? && DenseArrays(item)
  }

  // No null item where an expression can read it: in lists and sets, reached through members.
  // Maps and documents are opaque, except that documents in a list (`listed`) can be flattened.
  ghost predicate DenseAt(svc: Service, v: Value, t: Type, listed: bool)
    decreases v
  {
    match v
    case List(items) =>
      if ItemOf(svc, t).Success?
      then forall item | item in items :: !item.Null? && DenseAt(svc, item, ItemOf(svc, t).value, true)
      else listed ==> DenseArrays(v)
    case Struct(fields) =>
      (match TargetShape(svc, t)
       case None => true
       case Some(shape) =>
         forall key | key in fields ::
           var member := FindMember(shape.members, key);
           member.Some? ==> DenseAt(svc, fields[key], Plain(member.value.target, t.dictionary), listed))
    case Tagged(name, payload) =>
      (match TargetShape(svc, t)
       case None => true
       case Some(shape) =>
         var member := FindMember(shape.members, name);
         member.Some? ==> DenseAt(svc, payload, Plain(member.value.target, true), listed))
    case _ => true
  }

  // Members of a shape have distinct names, and so do the attributes and keys they become. The
  // SDK has no fields for unions, so their members go by `rustName`; "unknown" is the key
  // reserved for an unknown variant.
  ghost predicate DistinctNames(svc: Service, shape: Shape) {
    && (forall a, b | a in shape.members && b in shape.members && a != b ::
          a.name != b.name
          && svc.Exposed(shape, a, true) != svc.Exposed(shape, b, true)
          && svc.Exposed(shape, a, false) != svc.Exposed(shape, b, false))
    && (shape.kind.Union? ==>
          forall m | m in shape.members :: svc.Exposed(shape, m, true) == m.rustName && m.rustName != "unknown")
  }

  ghost predicate WellNamed(svc: Service) {
    forall id | id in svc.shapes :: DistinctNames(svc, svc.shapes[id])
  }

  // The Python form of a value: native objects, or dictionaries once `dictionary` is set and
  // everywhere below a union.
  function Represent(svc: Service, v: Value, t: Type): Py
    decreases v, 1, 0
  {
    match v
    case Null => PyNone
    case Bool(b) => PyBool(b)
    case Int(i) => PyInt(i)
    case Flt(f) => PyFloat(f)
    case Str(s) => PyStr(s)
    case Bytes(b) => PyBytes(b)
    case List(items) =>
      var element := ElementType(svc, t);
      PyList(seq(|items|, i requires 0 <= i < |items| => Represent(svc, items[i], element)))
    case Mapping(entries) =>
      var element := ElementType(svc, t);
      PyDict(StringKeys(map key | key in entries :: Represent(svc, entries[key], element)))
    case Struct(fields) =>
      (match TargetShape(svc, t)
       case None => PyNone
       case Some(shape) =>
         var named := RepresentFields(svc, shape, shape.members, v, t.dictionary);
         if t.dictionary then PyDict(StringKeys(named)) else PyObject(shape.name, named))
    case Tagged(name, payload) =>
      (match TargetShape(svc, t)
       case None => PyNone
       case Some(shape) =>
         match FindMember(shape.members, name)
         case None => PyNone
         case Some(member) =>
           PyDict(map[PyStr(member.rustName) := Represent(svc, payload, Plain(member.target, true))]))
    case UnknownVariant => PyDict(map[PyStr("unknown") := PyBool(true)])
  }

  // The type of list items and map values; documents hold documents.
  function ElementType(svc: Service, t: Type): Type {
    if t.ListOf? then t.element
    else
      match TargetShape(svc, t)
      case None => t
      case Some(shape) =>
        if IsCollection(shape.kind) && shape.memberTarget.Some? then Plain(shape.memberTarget.value, t.dictionary)
        else if shape.kind.MapKind? && shape.valueTarget.Some? then Plain(shape.valueTarget.value, t.dictionary)
        else t
  }

  function RepresentFields(svc: Service, shape: Shape, members: seq<Member>, v: Value, dictionary: bool)
    : map<string, Py>
    requires v.Struct?
    decreases v, 0, |members|
  {
    if members == [] then map[]
    else
      var rest := RepresentFields(svc, shape, members[1..], v, dictionary);
      var name := svc.Exposed(shape, members[0], dictionary);
      if members[0].name in v.fields
      then rest[name := Represent(svc, v.fields[members[0].name], Plain(members[0].target, dictionary))]
      else rest[name := PyNone]
  }

  lemma {:induction false} FieldRepresented(
      svc: Service, shape: Shape, members: seq<Member>, v: Value, dictionary: bool, member: Member)
    requires v.Struct? && member in members
    requires forall a, b | a in members && b in members && a != b ::
               svc.Exposed(shape, a, dictionary) != svc.Exposed(shape, b, dictionary)
    ensures var name := svc.Exposed(shape, member, dictionary);
            var named := RepresentFields(svc, shape, members, v, dictionary);
            && name in named
            && named[name] == Represent(svc, FieldOf(v.fields, member.name), Plain(member.target, dictionary))
  {
    if members[0] != member {
      FieldRepresented(svc, shape, members[1..], v, dictionary, member);
    } else if member in members[1..] {
      FieldRepresented(svc, shape, members[1..], v, dictionary, member);
    }
  }
}
