/**
 The Python form of a response that waiters are proved against is what the generated converters
 make of the SDK's value: native objects over shared storage, or dictionaries. Waiter theorems thus
 speak of the objects that clients see.
 */
module ResponseForms {
  import opened Wrappers
  import opened PyValues
  import opened Smithy
  import Waiter = WaiterCompiler
  import WaiterCorrectness
  import WaiterMeaning
  import WaiterRuntime
  import opened Responses
  import Documents
  import opened RustTypes
  import opened Converters
  import RoundTrips
  import opened Sharing
  import opened Getters

  // ---------- One response, modelled and in the SDK ----------

  predicate SameDocument(v: Value, d: Documents.Document)
    decreases d
  {
    match d
    case DNull => v.Null?
    case DBool(b) => v == Bool(b)
    case DPos(n) => v == Int(n)
    case DNeg(n) => v == Int(n)
    case DFloat(f) => v == Flt(f)
    case DStr(s) => v == Str(s)
    case DArray(items) => v.List? && |v.items| == |items| && forall i | 0 <= i < |items| ::
          SameDocument(v.items[i], items[i])
    case DObject(entries) =>
      v.Mapping? && v.entries.Keys == entries.Keys && forall key | key in entries ::
          SameDocument(v.entries[key], entries[key])
  }

  // The SDK field behind a member, as the generator pairs them.
  function FieldOfMember(svc: Service, shape: Shape, member: Member, fields: seq<Field>): Option<Field> {
    FindField(fields, svc.fieldName(shape, member))
  }

  function FindField(fields: seq<Field>, name: string): (found: Option<Field>)
    ensures found.Some? ==> found.value in fields && found.value.name == name
    ensures found.None? ==> forall f | f in fields :: f.name != name
  {
    if fields == [] then None else if fields[0].name == name then Some(fields[0]) else FindField(fields[1..], name)
  }

  // A structure of the SDK has a field for each member of the shape, and no other.
  ghost predicate SameStructure(svc: Service, shape: Shape, name: string, fields: seq<Field>) {
    && shape.name == name
    && FieldNames(fields) == (set m | m in shape.members :: svc.fieldName(shape, m))
  }

  ghost predicate SameMember(svc: Service, env: Env, v: Value, t: Waiter.Type, r: RustValue, f: Field)
    requires r.RStruct?
    decreases r, 0
  {
    f.name in r.fields &&
    var x := r.fields[f.name];
    if !f.optional then Same(svc, env, v, t, x, f.ty)
    else (x.RNone? && v.Null?) || (x.RSome? && Same(svc, env, v, t, x.inner, f.ty))
  }

  // `v` of modelled type `t` and `r` of Rust type `ty` are the same response.
  ghost predicate Same(svc: Service, env: Env, v: Value, t: Waiter.Type, r: RustValue, ty: Ty)
    decreases r, 1
  {
    t.Plain? &&
    match r
    case RBool(b) => ty.BoolT? && v == Bool(b)
    case RInt(n) => ty.IntT? && v == Int(n)
    case RFloat(f) => ty.FloatT? && v == Flt(f)
    case RStr(s) => ty.StringT? && v == Str(s)
    case REnum(s) => ty.EnumT? && v == Str(s)
    case RTime(s) => ty.DateTimeT? && v == Str(s)
    case RBlob(octets) => ty.BlobT? && v == Bytes(octets)
    case RDoc(d) => ty.DocumentT? && Waiter.KindOf(svc, t) == Success(DocumentKind) && SameDocument(v, d)
    case RBox(inner) => ty.BoxT? && Same(svc, env, v, t, inner, ty.inner)
    case RNone => ty.OptionT? && v.Null?
    case RSome(inner) => ty.OptionT? && Same(svc, env, v, t, inner, ty.inner)
    case RVec(items) =>
      && ty.VecT? && v.List? && |v.items| == |items|
      && forall i | 0 <= i < |items| :: Same(svc, env, v.items[i], ElementType(svc, t), items[i], ty.item)
    case RMap(entries) =>
      && ty.MapT? && v.Mapping? && v.entries.Keys == entries.Keys
      && forall key | key in entries :: Same(svc, env, v.entries[key], ElementType(svc, t), entries[key], ty.value)
    case RStruct(_) =>
      && ty.StructT? && ty.name in env.structs && v.Struct? && Waiter.TargetShape(svc, t).Some?
      && var shape := Waiter.TargetShape(svc, t).value;
         && SameStructure(svc, shape, ty.name, env.structs[ty.name])
         && forall m | m in shape.members ::
              var f := FieldOfMember(svc, shape, m, env.structs[ty.name]);
              f.Some? ==> SameMember(svc, env, FieldOf(v.fields, m.name), Waiter.Plain(m.target, t.dictionary), r,
                                     f.value)
    case RVariant(key, payload) =>
      && ty.UnionT? && v.Tagged? && Waiter.TargetShape(svc, t).Some?
      && var member := FindMember(Waiter.TargetShape(svc, t).value.members, v.member);
         && member.Some? && !svc.IsError(member.value.target) && key == member.value.rustName
         && if payload.RUnit? then v.payload.Null?
            else Same(svc, env, v.payload, Waiter.Plain(member.value.target, true), payload, PayloadType(env, ty, key))
    case RUnknown => ty.UnionT? && v.UnknownVariant?
    case RUnit => false
    case RArc(_) => false
  }

  // ---------- Documents ----------

  lemma {:induction false} DocumentForm(svc: Service, v: Value, t: Waiter.Type, d: Documents.Document)
    requires t.Plain? && Waiter.KindOf(svc, t) == Success(DocumentKind) && SameDocument(v, d)
    ensures Represent(svc, v, t) == Documents.ToPy(d)
    decreases d
  {
    assert ElementType(svc, t) == t;
    match d
    case DArray(items) =>
      forall i | 0 <= i < |items|
        ensures Represent(svc, v.items[i], t) == Documents.ToPy(items[i])
      {
        DocumentForm(svc, v.items[i], t, items[i]);
      }
      assert Represent(svc, v, t).items == Documents.ToPy(d).items;
    case DObject(entries) =>
      forall key | key in entries
        ensures Represent(svc, v.entries[key], t) == Documents.ToPy(entries[key])
      {
        DocumentForm(svc, v.entries[key], t, entries[key]);
      }
      assert Represent(svc, v, t).entries == Documents.ToPy(d).entries;
    case _ =>
  }

  // ---------- Lists, maps and structures in common ----------

  lemma ElementsStayPlain(svc: Service, t: Waiter.Type)
    requires t.Plain?
    ensures ElementType(svc, t).Plain? && ElementType(svc, t).dictionary == t.dictionary
  {}

  lemma ListForm(svc: Service, items: seq<Value>, t: Waiter.Type, forms: seq<Py>)
    requires |forms| == |items| && forall i | 0 <= i < |items| ::
               Represent(svc, items[i], ElementType(svc, t)) == forms[i]
    ensures Represent(svc, List(items), t) == PyList(forms)
  {
    assert Represent(svc, List(items), t).items == forms;
  }

  lemma MapForm(svc: Service, entries: map<string, Value>, t: Waiter.Type, forms: map<string, Py>)
    requires forms.Keys == entries.Keys
    requires forall key | key in entries :: Represent(svc, entries[key], ElementType(svc, t)) == forms[key]
    ensures Represent(svc, Mapping(entries), t) == PyDict(StringKeys(forms))
  {
    hide Represent, ElementType, StringKeys;
    var form := map key | key in entries :: Represent(svc, entries[key], ElementType(svc, t));
    assert form == forms;
    WaiterCorrectness.MappingForm(svc, entries, t, form);
  }

  lemma {:induction false} RepresentedNames(svc: Service, shape: Shape, members: seq<Member>, v: Value,
                                            dictionary: bool)
    requires v.Struct?
    ensures RepresentFields(svc, shape, members, v, dictionary).Keys == set m | m in members ::
              svc.Exposed(shape, m, dictionary)
  {
    hide Represent;
    if members != [] {
      RepresentedNames(svc, shape, members[1..], v, dictionary);
      assert members == [members[0]] + members[1..];
    }
  }

  lemma DistinctlyExposed(svc: Service, shape: Shape, dictionary: bool)
    requires DistinctNames(svc, shape)
    ensures forall a, b | a in shape.members && b in shape.members && a != b ::
              svc.Exposed(shape, a, dictionary) != svc.Exposed(shape, b, dictionary)
  {}

  // The named forms of a structure, from the form each member has.
  lemma NamedForms(svc: Service, shape: Shape, v: Value, dictionary: bool, forms: map<string, Py>)
    requires v.Struct? && DistinctNames(svc, shape)
    requires forms.Keys == set m | m in shape.members :: svc.Exposed(shape, m, dictionary)
    requires forall m | m in shape.members ::
               forms[svc.Exposed(shape, m, dictionary)]
               == Represent(svc, FieldOf(v.fields, m.name), Waiter.Plain(m.target, dictionary))
    ensures RepresentFields(svc, shape, shape.members, v, dictionary) == forms
  {
    hide Represent, RepresentFields, DistinctNames;
    RepresentedNames(svc, shape, shape.members, v, dictionary);
    DistinctlyExposed(svc, shape, dictionary);
    var named := RepresentFields(svc, shape, shape.members, v, dictionary);
    forall name | name in forms
      ensures named[name] == forms[name]
    {
      var m :| m in shape.members && svc.Exposed(shape, m, dictionary) == name;
      FieldRepresented(svc, shape, shape.members, v, dictionary, m);
    }
  }

  lemma StructForm(svc: Service, v: Value, t: Waiter.Type, shape: Shape)
    requires v.Struct? && t.Plain? && Waiter.TargetShape(svc, t) == Some(shape)
    ensures var named := RepresentFields(svc, shape, shape.members, v, t.dictionary);
            Represent(svc, v, t) == if t.dictionary then PyDict(StringKeys(named)) else PyObject(shape.name, named)
  {
    hide RepresentFields, StringKeys;
  }

  lemma UnionForm(svc: Service, v: Value, t: Waiter.Type)
    requires v.Tagged? && t.Plain? && Waiter.TargetShape(svc, t).Some?
    requires FindMember(Waiter.TargetShape(svc, t).value.members, v.member).Some?
    ensures var member := FindMember(Waiter.TargetShape(svc, t).value.members, v.member).value;
            Represent(svc, v, t) == PyDict(map[PyStr(member.rustName) :=
                                               Represent(svc, v.payload, Waiter.Plain(member.target, true))])
  {}

  // Each member of a corresponding shape has its field.
  lemma MemberHasField(svc: Service, shape: Shape, m: Member, fields: seq<Field>)
    requires FieldNames(fields) == (set n | n in shape.members :: svc.fieldName(shape, n)) && m in shape.members
    ensures FieldOfMember(svc, shape, m, fields).Some?
  {
    assert svc.fieldName(shape, m) in FieldNames(fields);
  }

  lemma FieldHasMember(svc: Service, shape: Shape, f: Field, fields: seq<Field>) returns (m: Member)
    requires FieldNames(fields) == (set n | n in shape.members :: svc.fieldName(shape, n))
    requires DistinctFields(fields) && f in fields
    ensures m in shape.members && svc.fieldName(shape, m) == f.name && FieldOfMember(svc, shape, m, fields) == Some(f)
  {
    assert f.name in FieldNames(fields);
    m :| m in shape.members && svc.fieldName(shape, m) == f.name;
  }

  // ---------- Dictionaries ----------

  lemma {:induction false} FieldsToPyNames(env: Env, fields: seq<Field>, r: RustValue)
    requires r.RStruct? && FieldNames(fields) <= r.fields.Keys
    ensures FieldsToPy(env, fields, r).Keys == FieldNames(fields)
  {
    hide ToPy;
    if fields != [] {
      assert fields == [fields[0]] + fields[1..];
      FieldsToPyNames(env, fields[1..], r);
    }
  }

  lemma NullForm(svc: Service, t: Waiter.Type)
    ensures Represent(svc, Null, t) == PyNone
  {}

  lemma {:induction false} MemberDictionary(svc: Service, env: Env, v: Value, t: Waiter.Type, r: RustValue, f: Field)
    requires WellNamed(svc) && WellFormed(env) && r.RStruct? && t.Plain? && t.dictionary
    requires SameMember(svc, env, v, t, r, f)
    ensures var x := r.fields[f.name];
            Represent(svc, v, t) == if !f.optional then ToPy(env, f.ty, x)
                                    else if x.RSome? then ToPy(env, f.ty, x.inner) else PyNone
    decreases r, 0
  {
    hide Represent, ToPy, WellNamed, WellFormed;
    NullForm(svc, t);
    var x := r.fields[f.name];
    if !f.optional {
      DictionaryForm(svc, env, v, t, x, f.ty);
    } else if x.RSome? {
      DictionaryForm(svc, env, v, t, x.inner, f.ty);
    }
  }

  lemma {:induction false} StructDictionary(svc: Service, env: Env, v: Value, t: Waiter.Type, r: RustValue, ty: Ty)
    requires WellNamed(svc) && WellFormed(env) && Same(svc, env, v, t, r, ty) && r.RStruct? && t.dictionary
    ensures Represent(svc, v, t) == ToPy(env, ty, r)
    decreases r, 1
  {
    hide Represent, ToPy, FieldsToPy, RepresentFields, StringKeys, FieldNames, WellNamed, WellFormed;
    var shape, fields := Waiter.TargetShape(svc, t).value, env.structs[ty.name];
    ShapeIsNamed(svc, t);
    FieldsAreDistinct(env, ty.name);
    var forms := FieldsToPy(env, fields, r);
    AllFieldsPresent(svc, env, v, t, r, ty);
    FieldsToPyNames(env, fields, r);
    forall m | m in shape.members
      ensures forms[svc.Exposed(shape, m, true)]
              == Represent(svc, FieldOf(v.fields, m.name), Waiter.Plain(m.target, true))
    {
      MemberHasField(svc, shape, m, fields);
      var f := FieldOfMember(svc, shape, m, fields).value;
      MemberDictionary(svc, env, FieldOf(v.fields, m.name), Waiter.Plain(m.target, true), r, f);
      RoundTrips.FieldForm(env, fields, r, f);
    }
    NamedForms(svc, shape, v, true, forms);
    StructForm(svc, v, t, shape);
    StructToPy(env, ty, r);
  }

  lemma StructToPy(env: Env, ty: Ty, r: RustValue)
    requires r.RStruct? && ty.StructT? && ty.name in env.structs
    ensures ToPy(env, ty, r) == PyDict(StringKeys(FieldsToPy(env, env.structs[ty.name], r)))
  {
    hide FieldsToPy, StringKeys;
  }

  lemma ShapeIsNamed(svc: Service, t: Waiter.Type)
    requires WellNamed(svc) && Waiter.TargetShape(svc, t).Some?
    ensures DistinctNames(svc, Waiter.TargetShape(svc, t).value)
  {
    hide DistinctNames;
  }

  lemma FieldsAreDistinct(env: Env, name: string)
    requires WellFormed(env) && name in env.structs
    ensures DistinctFields(env.structs[name])
  {
    hide Declarable, DistinctFields;
  }

  // Every declared field is in the value.
  lemma AllFieldsPresent(svc: Service, env: Env, v: Value, t: Waiter.Type, r: RustValue, ty: Ty)
    requires WellFormed(env) && Same(svc, env, v, t, r, ty) && r.RStruct?
    ensures ty.StructT? && ty.name in env.structs && FieldNames(env.structs[ty.name]) <= r.fields.Keys
  {
    hide WellFormed;
    var shape, fields := Waiter.TargetShape(svc, t).value, env.structs[ty.name];
    FieldsAreDistinct(env, ty.name);
    forall name | name in FieldNames(fields)
      ensures name in r.fields
    {
      var f :| f in fields && f.name == name;
      var m := FieldHasMember(svc, shape, f, fields);
      assert SameMember(svc, env, FieldOf(v.fields, m.name), Waiter.Plain(m.target, t.dictionary), r, f);
    }
  }

  // Leaves have one form, in dictionaries and in native objects.
  lemma LeafForm(svc: Service, env: Env, v: Value, t: Waiter.Type, r: RustValue, ty: Ty)
    requires Same(svc, env, v, t, r, ty)
    requires r.RBool? || r.RInt? || r.RFloat? || r.RStr? || r.REnum? || r.RTime? || r.RBlob? || r.RDoc? || r.RNone?
             || r.RUnknown?
    ensures Represent(svc, v, t) == ToPy(env, ty, r)
  {
    if r.RDoc? {
      DocumentForm(svc, v, t, r.document);
    }
  }

  lemma {:induction false} ListDictionary(svc: Service, env: Env, v: Value, t: Waiter.Type, r: RustValue, ty: Ty)
    requires WellNamed(svc) && WellFormed(env) && Same(svc, env, v, t, r, ty) && r.RVec? && t.dictionary
    ensures Represent(svc, v, t) == ToPy(env, ty, r)
    decreases r, 1
  {
    hide WellNamed, WellFormed, Represent, FieldsToPy, StringKeys, ElementType, ToPy;
    ElementsStayPlain(svc, t);
    forall i | 0 <= i < |r.items|
      ensures Represent(svc, v.items[i], ElementType(svc, t)) == ToPy(env, ty.item, r.items[i])
    {
      DictionaryForm(svc, env, v.items[i], ElementType(svc, t), r.items[i], ty.item);
    }
    RoundTrips.ListForm(env, ty, r);
    ListForm(svc, v.items, t, ToPy(env, ty, r).items);
  }

  lemma {:induction false} MapDictionary(svc: Service, env: Env, v: Value, t: Waiter.Type, r: RustValue, ty: Ty)
    requires WellNamed(svc) && WellFormed(env) && Same(svc, env, v, t, r, ty) && r.RMap? && t.dictionary
    ensures Represent(svc, v, t) == ToPy(env, ty, r)
    decreases r, 1
  {
    hide WellNamed, WellFormed, Represent, FieldsToPy, StringKeys, ElementType, ToPy;
    ElementsStayPlain(svc, t);
    var forms := map key | key in r.entries :: ToPy(env, ty.value, r.entries[key]);
    forall key | key in r.entries
      ensures Represent(svc, v.entries[key], ElementType(svc, t)) == forms[key]
    {
      DictionaryForm(svc, env, v.entries[key], ElementType(svc, t), r.entries[key], ty.value);
    }
    MapForm(svc, v.entries, t, forms);
    PlainMapForm(env, ty, r.entries, forms);
  }

  /** The dictionary form of a response is the dictionary the converters make of the SDK's value. */
  lemma {:induction false} DictionaryForm(svc: Service, env: Env, v: Value, t: Waiter.Type, r: RustValue, ty: Ty)
    requires WellNamed(svc) && WellFormed(env) && Same(svc, env, v, t, r, ty) && t.dictionary
    ensures Represent(svc, v, t) == ToPy(env, ty, r)
    decreases r, 2
  {
    hide WellNamed, WellFormed, Represent, FieldsToPy, StringKeys, SameDocument, SameMember, SameStructure;
    match r
    case RBox(inner) => DictionaryForm(svc, env, v, t, inner, ty.inner);
    case RSome(inner) => DictionaryForm(svc, env, v, t, inner, ty.inner);
    case RVec(_) => ListDictionary(svc, env, v, t, r, ty);
    case RMap(_) => MapDictionary(svc, env, v, t, r, ty);
    case RStruct(_) => StructDictionary(svc, env, v, t, r, ty);
    case RVariant(_, _) => VariantForm(svc, env, v, t, r, ty);
    case _ => LeafForm(svc, env, v, t, r, ty);
  }

  // Unions are dictionaries everywhere.
  lemma {:induction false} VariantForm(svc: Service, env: Env, v: Value, t: Waiter.Type, r: RustValue, ty: Ty)
    requires WellNamed(svc) && WellFormed(env) && Same(svc, env, v, t, r, ty) && r.RVariant?
    ensures Represent(svc, v, t) == ToPy(env, ty, r)
    decreases r, 1
  {
    hide WellNamed, WellFormed, Represent, FieldsToPy, StringKeys;
    UnionForm(svc, v, t);
    var member := FindMember(Waiter.TargetShape(svc, t).value.members, v.member).value;
    NullForm(svc, Waiter.Plain(member.target, true));
    if !r.payload.RUnit? {
      DictionaryForm(svc, env, v.payload, Waiter.Plain(member.target, true), r.payload, PayloadType(env, ty, r.key));
    }
  }

  // ---------- Native objects ----------

  // What the storage of a structure holds for a field.
  function StoredField(env: Env, f: Field, x: RustValue): RustValue {
    if !f.optional then IntoShared(env, f.ty, x) else if x.RSome? then RSome(IntoShared(env, f.ty, x.inner)) else RNone
  }

  lemma StoredStruct(env: Env, ty: Ty, r: RustValue) returns (node: RustValue)
    requires WellFormed(env) && ty.StructT? && ty.name in env.structs && r.RStruct?
    requires FieldNames(env.structs[ty.name]) <= r.fields.Keys
    requires forall f | f in env.structs[ty.name] && f.optional && f.name in r.fields ::
               r.fields[f.name].RNone? || r.fields[f.name].RSome?
    ensures IntoShared(env, ty, r) == RArc(node) && node.RStruct?
    ensures FieldNames(env.structs[ty.name]) <= node.fields.Keys
    ensures forall f | f in env.structs[ty.name] :: f.name in node.fields && f.name in r.fields
              && node.fields[f.name] == StoredField(env, f, r.fields[f.name])
  {
    hide WellFormed;
    var fields := env.structs[ty.name];
    FieldsAreDistinct(env, ty.name);
    node := IntoShared(env, ty, r).inner;
    if IsShared(env, ty.name) {
      SharedFieldNames(env, fields, r);
      forall f | f in fields
        ensures f.name in r.fields && node.fields[f.name] == StoredField(env, f, r.fields[f.name])
      {
        assert f.name in FieldNames(fields);
        SharedField(env, fields, r, f);
      }
    } else {
      forall f | f in fields
        ensures f.name in r.fields && r.fields[f.name] == StoredField(env, f, r.fields[f.name])
      {
        assert f.name in FieldNames(fields);
        assert !ContainsNativeStruct(f.ty);
      }
    }
  }

  lemma {:induction false} PropertyNames(env: Env, keywords: set<string>, fields: seq<Field>, node: RustValue)
    requires node.RStruct? && FieldNames(fields) <= node.fields.Keys
    ensures Properties(env, keywords, fields, node).Keys == set f | f in fields :: SafeName(keywords, f.name)
  {
    hide TypedPy;
    if fields != [] {
      assert fields == [fields[0]] + fields[1..];
      PropertyNames(env, keywords, fields[1..], node);
    }
  }

  lemma {:induction false} MemberProperty(svc: Service, env: Env, v: Value, t: Waiter.Type, r: RustValue, f: Field)
    requires WellNamed(svc) && WellFormed(env) && DistinctProperties(env, svc.keywords)
    requires r.RStruct? && t.Plain? && !t.dictionary && SameMember(svc, env, v, t, r, f)
    ensures var stored := StoredField(env, f, r.fields[f.name]);
            Represent(svc, v, t) == if !f.optional then TypedPy(env, svc.keywords, f.ty, stored)
                                    else if stored.RSome? then TypedPy(env, svc.keywords, f.ty, stored.inner)
                                         else PyNone
    decreases r, 0
  {
    hide Represent, TypedPy, IntoShared, WellNamed, WellFormed, DistinctProperties;
    NullForm(svc, t);
    var x := r.fields[f.name];
    if !f.optional {
      NativeForm(svc, env, v, t, x, f.ty);
    } else if x.RSome? {
      NativeForm(svc, env, v, t, x.inner, f.ty);
    }
  }

  lemma OptionalFields(svc: Service, env: Env, v: Value, t: Waiter.Type, r: RustValue, ty: Ty)
    requires WellFormed(env) && Same(svc, env, v, t, r, ty) && r.RStruct?
    ensures ty.StructT? && ty.name in env.structs
    ensures forall f | f in env.structs[ty.name] && f.optional && f.name in r.fields ::
              r.fields[f.name].RNone? || r.fields[f.name].RSome?
  {
    hide WellFormed;
    var shape, fields := Waiter.TargetShape(svc, t).value, env.structs[ty.name];
    FieldsAreDistinct(env, ty.name);
    forall f | f in fields && f.optional && f.name in r.fields
      ensures r.fields[f.name].RNone? || r.fields[f.name].RSome?
    {
      var m := FieldHasMember(svc, shape, f, fields);
      assert SameMember(svc, env, FieldOf(v.fields, m.name), Waiter.Plain(m.target, t.dictionary), r, f);
    }
  }

  lemma {:induction false} StructObject(svc: Service, env: Env, v: Value, t: Waiter.Type, r: RustValue, ty: Ty)
    requires WellNamed(svc) && WellFormed(env) && DistinctProperties(env, svc.keywords)
    requires Same(svc, env, v, t, r, ty) && r.RStruct? && !t.dictionary
    ensures Represent(svc, v, t) == TypedPy(env, svc.keywords, ty, IntoShared(env, ty, r))
    decreases r, 1
  {
    hide Represent, TypedPy, Properties, RepresentFields, IntoShared, FieldNames, WellNamed, WellFormed, StoredField;
    var shape, fields := Waiter.TargetShape(svc, t).value, env.structs[ty.name];
    ShapeIsNamed(svc, t);
    FieldsAreDistinct(env, ty.name);
    AllFieldsPresent(svc, env, v, t, r, ty);
    OptionalFields(svc, env, v, t, r, ty);
    var node := StoredStruct(env, ty, r);
    var forms := Properties(env, svc.keywords, fields, node);
    PropertyNames(env, svc.keywords, fields, node);
    forall m | m in shape.members
      ensures svc.Exposed(shape, m, false) in forms
      ensures forms[svc.Exposed(shape, m, false)]
              == Represent(svc, FieldOf(v.fields, m.name), Waiter.Plain(m.target, false))
    {
      MemberHasField(svc, shape, m, fields);
      var f := FieldOfMember(svc, shape, m, fields).value;
      MemberProperty(svc, env, FieldOf(v.fields, m.name), Waiter.Plain(m.target, false), r, f);
      PropertyForm(env, svc.keywords, fields, node, f);
    }
    ExposedNames(svc, shape, fields);
    NamedForms(svc, shape, v, false, forms);
    StructForm(svc, v, t, shape);
    StructTyped(env, svc.keywords, ty, node);
  }

  lemma ExposedNames(svc: Service, shape: Shape, fields: seq<Field>)
    requires FieldNames(fields) == set m | m in shape.members :: svc.fieldName(shape, m)
    ensures (set f | f in fields :: SafeName(svc.keywords, f.name))
         == set m | m in shape.members :: svc.Exposed(shape, m, false)
  {
    forall f | f in fields
      ensures exists m :: m in shape.members && svc.Exposed(shape, m, false) == SafeName(svc.keywords, f.name)
    {
      assert f.name in FieldNames(fields);
      var m :| m in shape.members && svc.fieldName(shape, m) == f.name;
      assert svc.Exposed(shape, m, false) == SafeName(svc.keywords, f.name);
    }
    forall m | m in shape.members
      ensures exists f :: f in fields && SafeName(svc.keywords, f.name) == svc.Exposed(shape, m, false)
    {
      assert svc.fieldName(shape, m) in FieldNames(fields);
      var f :| f in fields && f.name == svc.fieldName(shape, m);
      assert SafeName(svc.keywords, f.name) == svc.Exposed(shape, m, false);
    }
  }

  lemma StructTyped(env: Env, keywords: set<string>, ty: Ty, node: RustValue)
    requires ty.StructT? && ty.name in env.structs && node.RStruct?
    ensures TypedPy(env, keywords, ty, RArc(node))
            == PyObject(ty.name, Properties(env, keywords, env.structs[ty.name], node))
  {
    hide Properties;
  }

  // ---------- Storage, one level at a time ----------

  lemma BoxStored(env: Env, keywords: set<string>, ty: Ty, inner: RustValue)
    requires ty.BoxT?
    ensures TypedPy(env, keywords, ty, IntoShared(env, ty, RBox(inner)))
            == TypedPy(env, keywords, ty.inner, IntoShared(env, ty.inner, inner))
  {
    hide Properties, SharedFields, ToPy, StringKeys;
    if IsArc(ty) {
      ArcHoldsStruct(ty);
    }
  }

  lemma OptionStored(env: Env, keywords: set<string>, ty: Ty, inner: RustValue)
    requires ty.OptionT?
    ensures TypedPy(env, keywords, ty, IntoShared(env, ty, RSome(inner)))
            == TypedPy(env, keywords, ty.inner, IntoShared(env, ty.inner, inner))
  {
    hide Properties, SharedFields, ToPy, StringKeys;
  }

  lemma VecStored(env: Env, keywords: set<string>, ty: Ty, items: seq<RustValue>)
    requires ty.VecT?
    ensures TypedPy(env, keywords, ty, IntoShared(env, ty, RVec(items)))
         == PyList(seq(|items|, i requires 0 <= i < |items| =>
                TypedPy(env, keywords, ty.item, IntoShared(env, ty.item, items[i]))))
  {
    hide Properties, SharedFields, ToPy, StringKeys;
    var stored := IntoShared(env, ty, RVec(items));
    assert stored.RVec? && |stored.items| == |items|;
    assert forall i | 0 <= i < |items| :: stored.items[i] == IntoShared(env, ty.item, items[i]);
    var typed := TypedPy(env, keywords, ty, stored);
    assert typed.PyList? && |typed.items| == |items|;
    assert typed.items == seq(|items|, i requires 0 <= i < |items| =>
      TypedPy(env, keywords, ty.item, IntoShared(env, ty.item, items[i])));
  }

  lemma MapStored(env: Env, keywords: set<string>, ty: Ty, entries: map<string, RustValue>, forms: map<string, Py>)
    requires ty.MapT?
    requires forms == map key | key in entries ::
               TypedPy(env, keywords, ty.value, IntoShared(env, ty.value, entries[key]))
    ensures TypedPy(env, keywords, ty, IntoShared(env, ty, RMap(entries))) == PyDict(StringKeys(forms))
  {
    hide Properties, SharedFields, ToPy, StringKeys;
    var stored := IntoShared(env, ty, RMap(entries));
    assert stored.RMap? && stored.entries.Keys == entries.Keys;
    assert forall key | key in entries :: stored.entries[key] == IntoShared(env, ty.value, entries[key]);
    assert forms == map key | key in stored.entries :: TypedPy(env, keywords, ty.value, stored.entries[key]);
    TypedMapForm(env, keywords, ty, stored.entries, forms);
  }

  // Values that are stored and shown as they are.
  lemma LeafStored(env: Env, keywords: set<string>, ty: Ty, r: RustValue)
    requires !ty.StructT? && !ty.BoxT? && !ty.VecT? && !ty.MapT? && (ty.OptionT? ==> r.RNone?)
    ensures TypedPy(env, keywords, ty, IntoShared(env, ty, r)) == ToPy(env, ty, r)
  {}

  lemma {:induction false} ListNative(svc: Service, env: Env, v: Value, t: Waiter.Type, r: RustValue, ty: Ty)
    requires WellNamed(svc) && WellFormed(env) && DistinctProperties(env, svc.keywords)
    requires Same(svc, env, v, t, r, ty) && r.RVec? && !t.dictionary
    ensures Represent(svc, v, t) == TypedPy(env, svc.keywords, ty, IntoShared(env, ty, r))
    decreases r, 1
  {
    hide WellNamed, WellFormed, DistinctProperties, Represent, TypedPy, IntoShared, StringKeys, ElementType;
    ElementsStayPlain(svc, t);
    VecStored(env, svc.keywords, ty, r.items);
    var forms := TypedPy(env, svc.keywords, ty, IntoShared(env, ty, r)).items;
    forall i | 0 <= i < |r.items|
      ensures Represent(svc, v.items[i], ElementType(svc, t)) == forms[i]
    {
      NativeForm(svc, env, v.items[i], ElementType(svc, t), r.items[i], ty.item);
    }
    ListForm(svc, v.items, t, forms);
  }

  lemma MapParts(svc: Service, env: Env, v: Value, t: Waiter.Type, r: RustValue, ty: Ty)
    requires Same(svc, env, v, t, r, ty) && r.RMap?
    ensures ty.MapT? && v.Mapping? && v.entries.Keys == r.entries.Keys && t.Plain?
    ensures ElementType(svc, t).Plain? && ElementType(svc, t).dictionary == t.dictionary
    ensures forall key | key in r.entries ::
              Same(svc, env, v.entries[key], ElementType(svc, t), r.entries[key], ty.value)
  {
    ElementsStayPlain(svc, t);
  }

  lemma {:induction false} EntriesNative(svc: Service, env: Env, v: Value, t: Waiter.Type, r: RustValue, ty: Ty)
    requires WellNamed(svc) && WellFormed(env) && DistinctProperties(env, svc.keywords)
    requires Same(svc, env, v, t, r, ty) && r.RMap? && !t.dictionary
    ensures ty.MapT? && v.Mapping? && v.entries.Keys == r.entries.Keys
    ensures forall key | key in r.entries ::
              Represent(svc, v.entries[key], ElementType(svc, t))
              == TypedPy(env, svc.keywords, ty.value, IntoShared(env, ty.value, r.entries[key]))
    decreases r, 1
  {
    MapParts(svc, env, v, t, r, ty);
    hide *;
    forall key | key in r.entries
      ensures Represent(svc, v.entries[key], ElementType(svc, t))
              == TypedPy(env, svc.keywords, ty.value, IntoShared(env, ty.value, r.entries[key]))
    {
      NativeForm(svc, env, v.entries[key], ElementType(svc, t), r.entries[key], ty.value);
    }
  }

  lemma {:induction false} MapNative(svc: Service, env: Env, v: Value, t: Waiter.Type, r: RustValue, ty: Ty)
    requires WellNamed(svc) && WellFormed(env) && DistinctProperties(env, svc.keywords)
    requires Same(svc, env, v, t, r, ty) && r.RMap? && !t.dictionary
    ensures Represent(svc, v, t) == TypedPy(env, svc.keywords, ty, IntoShared(env, ty, r))
    decreases r, 2
  {
    hide *;
    EntriesNative(svc, env, v, t, r, ty);
    var forms := map key | key in r.entries ::
          TypedPy(env, svc.keywords, ty.value, IntoShared(env, ty.value, r.entries[key]));
    MapForm(svc, v.entries, t, forms);
    MapStored(env, svc.keywords, ty, r.entries, forms);
    assert v == Mapping(v.entries) && r == RMap(r.entries);
  }

  /**
   The native form of a response is the object whose properties show the SDK's value moved into
   shared storage.
   */
  lemma {:induction false} NativeForm(svc: Service, env: Env, v: Value, t: Waiter.Type, r: RustValue, ty: Ty)
    requires WellNamed(svc) && WellFormed(env) && DistinctProperties(env, svc.keywords)
    requires Same(svc, env, v, t, r, ty) && !t.dictionary
    ensures Represent(svc, v, t) == TypedPy(env, svc.keywords, ty, IntoShared(env, ty, r))
    decreases r, 3
  {
    hide WellNamed, WellFormed, DistinctProperties, Represent, TypedPy, IntoShared, ToPy, StringKeys;
    hide SameDocument, SameMember, SameStructure;
    match r
    case RBox(inner) =>
      NativeForm(svc, env, v, t, inner, ty.inner);
      BoxStored(env, svc.keywords, ty, inner);
    case RSome(inner) =>
      NativeForm(svc, env, v, t, inner, ty.inner);
      OptionStored(env, svc.keywords, ty, inner);
    case RVec(_) => ListNative(svc, env, v, t, r, ty);
    case RMap(_) => MapNative(svc, env, v, t, r, ty);
    case RStruct(_) => StructObject(svc, env, v, t, r, ty);
    case RVariant(_, _) =>
      VariantForm(svc, env, v, t, r, ty);
      LeafStored(env, svc.keywords, ty, r);
    case _ =>
      LeafForm(svc, env, v, t, r, ty);
      LeafStored(env, svc.keywords, ty, r);
  }

  /**
   A compiled expression, evaluated on the native object of an SDK response, means what it says of
   the modelled response.
   */
  lemma EvaluatedOnNativeObject(svc: Service, env: Env, node: Waiter.Node, v: Value, t: Waiter.Type, r: RustValue,
                                ty: Ty)
    requires WellNamed(svc) && WellFormed(env) && DistinctProperties(env, svc.keywords)
    requires Same(svc, env, v, t, r, ty) && !t.dictionary && WaiterCorrectness.Fits(svc, v, t, false)
    requires Waiter.Compile(svc, node, t).Success? && WaiterCorrectness.FlattensNoSets(svc, node, t)
    ensures var typed := Waiter.Compile(svc, node, t).value;
            var response := TypedPy(env, svc.keywords, ty, IntoShared(env, ty, r));
            WaiterCorrectness.Agrees(svc, WaiterMeaning.Meaning(node, v), WaiterRuntime.Evaluate(typed.expr, response),
                                     typed.ty)
  {
    hide *;
    NativeForm(svc, env, v, t, r, ty);
    WaiterCorrectness.Simulation(svc, node, t, v);
  }

  /** The same on the dictionary that the converters make of it. */
  lemma EvaluatedOnDictionary(svc: Service, env: Env, node: Waiter.Node, v: Value, t: Waiter.Type, r: RustValue,
                              ty: Ty)
    requires WellNamed(svc) && WellFormed(env)
    requires Same(svc, env, v, t, r, ty) && t.dictionary && WaiterCorrectness.Fits(svc, v, t, false)
    requires Waiter.Compile(svc, node, t).Success? && WaiterCorrectness.FlattensNoSets(svc, node, t)
    ensures var typed := Waiter.Compile(svc, node, t).value;
            WaiterCorrectness.Agrees(svc, WaiterMeaning.Meaning(node, v),
                                     WaiterRuntime.Evaluate(typed.expr, ToPy(env, ty, r)), typed.ty)
  {
    hide *;
    DictionaryForm(svc, env, v, t, r, ty);
    WaiterCorrectness.Simulation(svc, node, t, v);
  }
}
