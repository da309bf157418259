/** The properties of native objects, and what reading them all back gives. */
module Getters {
  import opened PyValues
  import Documents
  import opened RustTypes
  import opened Converters
  import opened Sharing

  // The properties of the native object of a structure, each read through its getter.
  function Properties(env: Env, keywords: set<string>, fields: seq<Field>, v: RustValue): map<string, Py>
    requires v.RStruct?
    decreases v, 0, |fields|
  {
    if fields == [] then map[]
    else
      var rest := Properties(env, keywords, fields[1..], v);
      var f := fields[0];
      var property := SafeName(keywords, f.name);
      if f.name !in v.fields then rest
      else if !f.optional then rest[property := TypedPy(env, keywords, f.ty, v.fields[f.name])]
      else if v.fields[f.name].RSome? then rest[property := TypedPy(env, keywords, f.ty, v.fields[f.name].inner)]
      else rest[property := PyNone]
  }

  // `_to_typed_py`: nested structures become native objects sharing the stored node.
  function TypedPy(env: Env, keywords: set<string>, ty: Ty, v: RustValue): Py
    decreases v, 1, ty
  {
    match ty
    case StructT(name) =>
      if v.RArc? && v.inner.RStruct? && name in env.structs
      then PyObject(name, Properties(env, keywords, env.structs[name], v.inner)) else PyNone
    case BoxT(inner) =>
      if IsArc(ty) then TypedPy(env, keywords, inner, v)
      else if v.RBox? then TypedPy(env, keywords, inner, v.inner) else PyNone
    case OptionT(inner) => if v.RSome? then TypedPy(env, keywords, inner, v.inner) else PyNone
    case VecT(item) =>
      if v.RVec? then PyList(seq(|v.items|, i requires 0 <= i < |v.items| => TypedPy(env, keywords, item, v.items[i])))
      else PyNone
    case MapT(_, value) =>
      if v.RMap? then PyDict(StringKeys(map key | key in v.entries :: TypedPy(env, keywords, value, v.entries[key])))
      else PyNone
    case _ => ToPy(env, ty, v)
  }

  // Reads every property of every nested object into a dictionary under its field's own name.
  function ReadAllFields(env: Env, keywords: set<string>, fields: seq<Field>, object_: Py): map<string, Py>
    requires object_.PyObject?
    decreases object_, 0, |fields|
  {
    if fields == [] then map[]
    else
      var rest := ReadAllFields(env, keywords, fields[1..], object_);
      var property := SafeName(keywords, fields[0].name);
      if property in object_.attrs then rest[fields[0].name := ReadAll(env, keywords, object_.attrs[property])]
      else rest
  }

  function ReadAll(env: Env, keywords: set<string>, p: Py): Py
    decreases p, 1, 0
  {
    match p
    case PyList(items) => PyList(seq(|items|, i requires 0 <= i < |items| => ReadAll(env, keywords, items[i])))
    case PyDict(entries) => PyDict(map key | key in entries :: ReadAll(env, keywords, entries[key]))
    case PyObject(name, _) =>
      var fields := if name in env.structs then env.structs[name] else [];
      PyDict(StringKeys(ReadAllFields(env, keywords, fields, p)))
    case _ => p
  }

  // Distinct fields are distinct properties.
  ghost predicate DistinctProperties(env: Env, keywords: set<string>) {
    forall name, i, j | name in env.structs && 0 <= i < j < |env.structs[name]| ::
      SafeName(keywords, env.structs[name][i].name) != SafeName(keywords, env.structs[name][j].name)
  }

  // ---------- Values without native objects read as themselves ----------

  predicate NoObjects(p: Py) {
    match p
    case PyList(items) => forall item | item in items :: NoObjects(item)
    case PyDict(entries) => forall key | key in entries :: NoObjects(entries[key])
    case _ => !p.PyObject?
  }

  lemma {:induction false} ReadsItself(env: Env, keywords: set<string>, p: Py)
    requires NoObjects(p)
    ensures ReadAll(env, keywords, p) == p
  {
    match p
    case PyList(items) =>
      forall item | item in items
        ensures ReadAll(env, keywords, item) == item
      {
        ReadsItself(env, keywords, item);
      }
      assert ReadAll(env, keywords, p).items == items;
    case PyDict(entries) =>
      forall key | key in entries
        ensures ReadAll(env, keywords, entries[key]) == entries[key]
      {
        ReadsItself(env, keywords, entries[key]);
      }
      assert ReadAll(env, keywords, p).entries == entries;
    case _ =>
  }

  lemma {:induction false} DocumentHasNoObjects(d: Documents.Document)
    ensures NoObjects(Documents.ToPy(d))
  {
    match d
    case DArray(items) =>
      forall item | item in items
        ensures NoObjects(Documents.ToPy(item))
      {
        DocumentHasNoObjects(item);
      }
    case DObject(entries) =>
      forall key | key in entries
        ensures NoObjects(Documents.ToPy(entries[key]))
      {
        DocumentHasNoObjects(entries[key]);
      }
    case _ =>
  }

  lemma {:induction false} FieldsHaveNoObjects(env: Env, fields: seq<Field>, v: RustValue)
    requires v.RStruct?
    ensures forall name | name in FieldsToPy(env, fields, v) :: NoObjects(FieldsToPy(env, fields, v)[name])
    decreases v, 0, |fields|
  {
    hide ToPy, NoObjects;
    assert NoObjects(PyNone) by {
      NoneIsNoObject();
    }
    if fields != [] {
      FieldsHaveNoObjects(env, fields[1..], v);
      var f := fields[0];
      if f.name in v.fields {
        DictionaryHasNoObjects(env, f.ty, v.fields[f.name]);
        if v.fields[f.name].RSome? {
          DictionaryHasNoObjects(env, f.ty, v.fields[f.name].inner);
        }
      }
    }
  }

  lemma NoneIsNoObject()
    ensures NoObjects(PyNone)
  {}

  // The plain output converter never makes native objects.
  lemma {:induction false} DictionaryHasNoObjects(env: Env, ty: Ty, v: RustValue)
    ensures NoObjects(ToPy(env, ty, v))
    decreases v, 1
  {
    match v
    case RDoc(document) => DocumentHasNoObjects(document);
    case RStruct(_) => FieldsHaveNoObjects(env, Declared(env, ty), v);
    case RVariant(key, payload) => DictionaryHasNoObjects(env, PayloadType(env, ty, key), payload);
    case RBox(inner) => DictionaryHasNoObjects(env, Component(ty), inner);
    case RSome(inner) => DictionaryHasNoObjects(env, Component(ty), inner);
    case RArc(inner) => DictionaryHasNoObjects(env, ty, inner);
    case RVec(items) =>
      forall x | x in items
        ensures NoObjects(ToPy(env, Component(ty), x))
      {
        DictionaryHasNoObjects(env, Component(ty), x);
      }
    case RMap(entries) =>
      forall key | key in entries
        ensures NoObjects(ToPy(env, Component(ty), entries[key]))
      {
        DictionaryHasNoObjects(env, Component(ty), entries[key]);
      }
    case _ =>
  }

  // ---------- Reading everything back ----------

  lemma {:induction false} PropertyForm(env: Env, keywords: set<string>, fields: seq<Field>, v: RustValue, f: Field)
    requires v.RStruct? && f in fields && f.name in v.fields
    requires forall i, j | 0 <= i < j < |fields| ::
               SafeName(keywords, fields[i].name) != SafeName(keywords, fields[j].name)
    ensures var all := Properties(env, keywords, fields, v);
            var property := SafeName(keywords, f.name);
            var x := v.fields[f.name];
            && property in all
            && all[property] == if !f.optional then TypedPy(env, keywords, f.ty, x)
                                else if x.RSome? then TypedPy(env, keywords, f.ty, x.inner) else PyNone
  {
    hide TypedPy;
    assert fields == [fields[0]] + fields[1..];
    if f != fields[0] {
      PropertyForm(env, keywords, fields[1..], v, f);
    }
  }

  // A stored field, and the property that shows it.
  ghost predicate ReadsField(env: Env, keywords: set<string>, f: Field, v: RustValue, object_: Py)
    requires v.RStruct? && object_.PyObject?
  {
    var property := SafeName(keywords, f.name);
    && f.name in v.fields && property in object_.attrs
    && var x := v.fields[f.name];
       ReadAll(env, keywords, object_.attrs[property])
         == if !f.optional then SharedToPy(env, f.ty, x)
            else if x.RSome? then SharedToPy(env, f.ty, x.inner) else PyNone
  }

  lemma {:induction false} AllFieldsRead(env: Env, keywords: set<string>, fields: seq<Field>, v: RustValue, object_: Py)
    requires v.RStruct? && object_.PyObject?
    requires forall f | f in fields :: ReadsField(env, keywords, f, v, object_)
    ensures ReadAllFields(env, keywords, fields, object_) == SharedFieldsToPy(env, fields, v)
    decreases |fields|
  {
    hide SharedToPy, ReadAll;
    if fields != [] {
      assert fields == [fields[0]] + fields[1..];
      assert ReadsField(env, keywords, fields[0], v, object_);
      AllFieldsRead(env, keywords, fields[1..], v, object_);
    }
  }

  // Either storage of a structure holds every field in its shared type.
  lemma StoredFieldsAreTyped(env: Env, name: string, v: RustValue)
    requires WellFormed(env) && HasType(env, v, SharedInner(env, name))
    ensures v.RStruct? && name in env.structs && v.fields.Keys == FieldNames(env.structs[name])
    ensures forall f | f in env.structs[name] ::
              && f.name in v.fields && Declarable(f.ty)
              && HasFieldType(env, v.fields[f.name], SharedType(env, f.ty), f.optional)
  {
    var fields := env.structs[name];
    forall f | f in fields
      ensures f.name in v.fields && HasFieldType(env, v.fields[f.name], SharedType(env, f.ty), f.optional)
    {
      assert f.name in FieldNames(fields);
      if !IsShared(env, name) {
        PlainTypeIsKept(env, f.ty);
      }
    }
  }

  // A structure's dictionary reads its stored fields, whichever storage it has.
  lemma DictOfStored(env: Env, name: string, v: RustValue)
    requires WellFormed(env) && HasType(env, v, SharedInner(env, name))
    ensures v.RStruct? && name in env.structs
    ensures SharedToPy(env, StructT(name), RArc(v)) == PyDict(StringKeys(SharedFieldsToPy(env, env.structs[name], v)))
  {
    StoredFieldsAreTyped(env, name, v);
    var fields := env.structs[name];
    if !IsShared(env, name) {
      forall f | f in fields
        ensures var x := v.fields[f.name];
                if !f.optional then SharedToPy(env, f.ty, x) == ToPy(env, f.ty, x)
                else x.RSome? ==> SharedToPy(env, f.ty, x.inner) == ToPy(env, f.ty, x.inner)
      {
        assert !ContainsNativeStruct(f.ty);
        PlainTypeIsKept(env, f.ty);
        var x := v.fields[f.name];
        if !f.optional {
          PlainValueIsSame(env, f.ty, x);
        } else if x.RSome? {
          PlainValueIsSame(env, f.ty, x.inner);
        }
      }
      SameFields(env, fields, v, v);
    }
  }

  lemma {:induction false} FieldReads(env: Env, keywords: set<string>, name: string, v: RustValue, f: Field)
    requires WellFormed(env) && DistinctProperties(env, keywords)
    requires v.RStruct? && name in env.structs && f in env.structs[name]
    requires f.name in v.fields && Declarable(f.ty)
    requires HasFieldType(env, v.fields[f.name], SharedType(env, f.ty), f.optional)
    ensures ReadsField(env, keywords, f, v, PyObject(name, Properties(env, keywords, env.structs[name], v)))
    decreases v, 0
  {
    hide ToPy, SharedToPy, TypedPy, HasType, WellFormed, Declarable, Properties;
    PropertyForm(env, keywords, env.structs[name], v, f);
    var x := v.fields[f.name];
    if !f.optional {
      PropertiesGiveDict(env, keywords, f.ty, x);
    } else if x.RSome? {
      PropertiesGiveDict(env, keywords, f.ty, x.inner);
    }
  }

  lemma {:induction false} StructReads(env: Env, keywords: set<string>, ty: Ty, v: RustValue)
    requires WellFormed(env) && DistinctProperties(env, keywords)
    requires ty.StructT? && HasType(env, v, SharedType(env, ty))
    ensures ReadAll(env, keywords, TypedPy(env, keywords, ty, v)) == SharedToPy(env, ty, v)
    decreases v, 0
  {
    hide Properties, ReadAllFields, FieldsToPy, SharedFieldsToPy, ToPy, ReadsField;
    var node := v.inner;
    var fields := env.structs[ty.name];
    StoredFieldsAreTyped(env, ty.name, node);
    var object_ := PyObject(ty.name, Properties(env, keywords, fields, node));
    forall f | f in fields
      ensures ReadsField(env, keywords, f, node, object_)
    {
      FieldReads(env, keywords, ty.name, node, f);
    }
    AllFieldsRead(env, keywords, fields, node, object_);
    DictOfStored(env, ty.name, node);
  }

  lemma VecReads(env: Env, keywords: set<string>, item: Ty, items: seq<RustValue>)
    requires forall i | 0 <= i < |items| ::
               ReadAll(env, keywords, TypedPy(env, keywords, item, items[i])) == SharedToPy(env, item, items[i])
    ensures ReadAll(env, keywords, TypedPy(env, keywords, VecT(item), RVec(items)))
            == SharedToPy(env, VecT(item), RVec(items))
  {
    var typed := TypedPy(env, keywords, VecT(item), RVec(items));
    assert typed.PyList? && |typed.items| == |items|;
    var read, dict := ReadAll(env, keywords, typed), SharedToPy(env, VecT(item), RVec(items));
    assert read.PyList? && dict.PyList? && |read.items| == |dict.items|;
    forall i | 0 <= i < |items|
      ensures read.items[i] == dict.items[i]
    {}
  }

  lemma TypedMapForm(env: Env, keywords: set<string>, ty: Ty, entries: map<string, RustValue>, form: map<string, Py>)
    requires ty.MapT? && form == map key | key in entries :: TypedPy(env, keywords, ty.value, entries[key])
    ensures TypedPy(env, keywords, ty, RMap(entries)) == PyDict(StringKeys(form))
  {}

  lemma ReadDictForm(env: Env, keywords: set<string>, form: map<string, Py>, read: map<string, Py>)
    requires form.Keys == read.Keys && forall key | key in form :: ReadAll(env, keywords, form[key]) == read[key]
    ensures ReadAll(env, keywords, PyDict(StringKeys(form))) == PyDict(StringKeys(read))
  {
    assert ReadAll(env, keywords, PyDict(StringKeys(form))).entries == StringKeys(read);
  }

  lemma MapReads(env: Env, keywords: set<string>, ty: Ty, entries: map<string, RustValue>)
    requires ty.MapT?
    requires forall key | key in entries ::
               ReadAll(env, keywords, TypedPy(env, keywords, ty.value, entries[key]))
               == SharedToPy(env, ty.value, entries[key])
    ensures ReadAll(env, keywords, TypedPy(env, keywords, ty, RMap(entries))) == SharedToPy(env, ty, RMap(entries))
  {
    hide ReadAll, TypedPy, SharedToPy;
    var form := map key | key in entries :: TypedPy(env, keywords, ty.value, entries[key]);
    var read := map key | key in entries :: SharedToPy(env, ty.value, entries[key]);
    TypedMapForm(env, keywords, ty, entries, form);
    StoredMapForm(env, ty, entries, read);
    ReadDictForm(env, keywords, form, read);
  }

  /**
   Reading every property, and every property of each nested object, gives exactly the
   dictionary form: getters and `to_dict` agree on every stored value.
   */
  lemma {:induction false} PropertiesGiveDict(env: Env, keywords: set<string>, ty: Ty, v: RustValue)
    requires WellFormed(env) && DistinctProperties(env, keywords)
    requires Declarable(ty) && HasType(env, v, SharedType(env, ty))
    ensures ReadAll(env, keywords, TypedPy(env, keywords, ty, v)) == SharedToPy(env, ty, v)
    decreases v, 1, ty
  {
    match ty
    case StructT(_) => StructReads(env, keywords, ty, v);
    case BoxT(inner) =>
      if IsArc(ty) {
        PropertiesGiveDict(env, keywords, inner, v);
      } else {
        PropertiesGiveDict(env, keywords, inner, v.inner);
      }
    case OptionT(inner) =>
      if v.RSome? {
        PropertiesGiveDict(env, keywords, inner, v.inner);
      }
    case VecT(item) =>
      forall i | 0 <= i < |v.items|
        ensures ReadAll(env, keywords, TypedPy(env, keywords, item, v.items[i])) == SharedToPy(env, item, v.items[i])
      {
        assert v.items[i] in v.items;
        PropertiesGiveDict(env, keywords, item, v.items[i]);
      }
      VecReads(env, keywords, item, v.items);
    case MapT(_, value) =>
      forall key | key in v.entries
        ensures ReadAll(env, keywords, TypedPy(env, keywords, value, v.entries[key]))
                == SharedToPy(env, value, v.entries[key])
      {
        PropertiesGiveDict(env, keywords, value, v.entries[key]);
      }
      MapReads(env, keywords, ty, v.entries);
    case _ =>
      DictionaryHasNoObjects(env, ty, v);
      ReadsItself(env, keywords, ToPy(env, ty, v));
  }

  /**
   From an SDK response to Python: what the properties of its native object show, read all the
   way down, is the dictionary the plain converter makes of the response itself.
   */
  lemma ResponseReadsBack(env: Env, keywords: set<string>, ty: Ty, v: RustValue)
    requires WellFormed(env) && DistinctProperties(env, keywords) && Declarable(ty) && HasType(env, v, ty)
    ensures ReadAll(env, keywords, TypedPy(env, keywords, ty, IntoShared(env, ty, v))) == ToPy(env, ty, v)
  {
    StorageIsTyped(env, ty, v);
    PropertiesGiveDict(env, keywords, ty, IntoShared(env, ty, v));
    SharingRefines(env, ty, v);
  }
}
