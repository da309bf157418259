/**
 The Arc-shared output storage: the conversion into it, its typing, and the dictionaries made of
 it. Its properties are the subject of `Getters`.
 */
module Sharing {
  import opened PyValues
  import Documents
  import opened RustTypes
  import opened Converters

  // ---------- Moving an SDK value into storage ----------

  function SharedFields(env: Env, fields: seq<Field>, v: RustValue): map<string, RustValue>
    requires v.RStruct?
    decreases v, 0, |fields|
  {
    if fields == [] then map[]
    else
      var rest := SharedFields(env, fields[1..], v);
      var f := fields[0];
      if f.name !in v.fields then rest
      else if !f.optional then rest[f.name := IntoShared(env, f.ty, v.fields[f.name])]
      else if v.fields[f.name].RSome? then rest[f.name := RSome(IntoShared(env, f.ty, v.fields[f.name].inner))]
      else rest[f.name := RNone]
  }

  // `_into_shared`: values without nested structures are moved as they are.
  function IntoShared(env: Env, ty: Ty, v: RustValue): RustValue
    decreases v, 1, 0
  {
    if !ContainsNativeStruct(ty) then v
    else
      match ty
      case StructT(name) =>
        if IsShared(env, name) && v.RStruct? then RArc(RStruct(SharedFields(env, env.structs[name], v))) else RArc(v)
      case BoxT(inner) =>
        if !v.RBox? then v
        else if IsArc(ty) then IntoShared(env, inner, v.inner)
        else RBox(IntoShared(env, inner, v.inner))
      case OptionT(inner) => if v.RSome? then RSome(IntoShared(env, inner, v.inner)) else v
      case VecT(item) =>
        if v.RVec? then RVec(seq(|v.items|, i requires 0 <= i < |v.items| => IntoShared(env, item, v.items[i]))) else v
      case MapT(_, value) =>
        if v.RMap? then RMap(map key | key in v.entries :: IntoShared(env, value, v.entries[key])) else v
      case _ => v
  }

  // ---------- Dictionaries of stored values ----------

  function SharedFieldsToPy(env: Env, fields: seq<Field>, v: RustValue): map<string, Py>
    requires v.RStruct?
    decreases v, 0, |fields|
  {
    if fields == [] then map[]
    else
      var rest := SharedFieldsToPy(env, fields[1..], v);
      var f := fields[0];
      if f.name !in v.fields then rest
      else if !f.optional then rest[f.name := SharedToPy(env, f.ty, v.fields[f.name])]
      else if v.fields[f.name].RSome? then rest[f.name := SharedToPy(env, f.ty, v.fields[f.name].inner)]
      else rest[f.name := PyNone]
  }

  // `_to_py(.., shared=True)`: `ty` is still the SDK type, `v` the stored value.
  function SharedToPy(env: Env, ty: Ty, v: RustValue): Py
    decreases v, 1, ty
  {
    match ty
    case StructT(name) =>
      if !v.RArc? then PyNone
      else if IsShared(env, name) && v.inner.RStruct? then
        PyDict(StringKeys(SharedFieldsToPy(env, env.structs[name], v.inner)))
      else ToPy(env, ty, v.inner)
    case BoxT(inner) =>
      if IsArc(ty) then SharedToPy(env, inner, v)
      else if v.RBox? then SharedToPy(env, inner, v.inner) else PyNone
    case OptionT(inner) => if v.RSome? then SharedToPy(env, inner, v.inner) else PyNone
    case VecT(item) =>
      if v.RVec? then PyList(seq(|v.items|, i requires 0 <= i < |v.items| => SharedToPy(env, item, v.items[i])))
      else PyNone
    case MapT(_, value) =>
      if v.RMap? then PyDict(StringKeys(map key | key in v.entries :: SharedToPy(env, value, v.entries[key])))
      else PyNone
    case _ => ToPy(env, ty, v)
  }

  // ---------- What the storage types are ----------

  // A structure somewhere in the type, outside structures and unions.
  ghost predicate Nests(ty: Ty) {
    || ty.StructT?
    || ((ty.BoxT? || ty.OptionT?) && Nests(ty.inner))
    || (ty.VecT? && Nests(ty.item))
    || (ty.MapT? && Nests(ty.value))
  }

  // A declared structure whose own fields nest structures.
  ghost predicate OwnsStructures(env: Env, name: string) {
    name in env.structs && exists f :: f in env.structs[name] && Nests(f.ty)
  }

  function Boxed(ty: Ty, boxes: nat): Ty {
    if boxes == 0 then ty else BoxT(Boxed(ty, boxes - 1))
  }

  lemma NestsExactly()
    ensures forall ty :: ContainsNativeStruct(ty) <==> Nests(ty)
  {
    forall ty: Ty
      ensures ContainsNativeStruct(ty) <==> Nests(ty)
    {
      OneNestsExactly(ty);
    }
  }

  lemma {:induction false} OneNestsExactly(ty: Ty)
    ensures ContainsNativeStruct(ty) <==> Nests(ty)
  {
    match ty
    case BoxT(inner) => OneNestsExactly(inner);
    case OptionT(inner) => OneNestsExactly(inner);
    case VecT(item) => OneNestsExactly(item);
    case MapT(_, value) => OneNestsExactly(value);
    case _ =>
  }

  /** A structure in any number of boxes is stored as one Arc, of its storage form if it owns structures. */
  lemma {:induction false} BoxesAreErased(env: Env, name: string, boxes: nat)
    ensures IsArc(Boxed(StructT(name), boxes))
    ensures SharedType(env, Boxed(StructT(name), boxes))
         == ArcT(if OwnsStructures(env, name) then SharedT(name) else StructT(name))
    decreases boxes
  {
    if boxes > 0 {
      BoxesAreErased(env, name, boxes - 1);
    } else {
      NestsExactly();
    }
  }

  /** Only boxes around structures are erased; everything else is stored part by part. */
  lemma OthersAreKept(env: Env, key: Ty, ty: Ty)
    ensures SharedType(env, OptionT(ty)) == OptionT(SharedType(env, ty))
    ensures SharedType(env, VecT(ty)) == VecT(SharedType(env, ty))
    ensures SharedType(env, MapT(key, ty)) == MapT(SharedType(env, key), SharedType(env, ty))
    ensures (forall name, boxes: nat :: ty != Boxed(StructT(name), boxes)) ==>
              SharedType(env, BoxT(ty)) == BoxT(SharedType(env, ty))
  {
    if IsArc(ty) {
      var name, boxes := ArcIsBoxed(ty);
    }
  }

  lemma {:induction false} ArcIsBoxed(ty: Ty) returns (name: string, boxes: nat)
    requires IsArc(ty)
    ensures ty == Boxed(StructT(name), boxes)
  {
    if ty.StructT? {
      name, boxes := ty.name, 0;
    } else {
      name, boxes := ArcIsBoxed(ty.inner);
      boxes := boxes + 1;
    }
  }

  // ---------- Storage is well typed ----------

  lemma {:induction false} SharedField(env: Env, fields: seq<Field>, v: RustValue, f: Field)
    requires v.RStruct? && DistinctFields(fields) && f in fields && f.name in v.fields
    ensures var stored := SharedFields(env, fields, v);
            var x := v.fields[f.name];
            && f.name in stored
            && stored[f.name] == if !f.optional then IntoShared(env, f.ty, x)
                                 else if x.RSome? then RSome(IntoShared(env, f.ty, x.inner)) else RNone
  {
    hide IntoShared;
    assert fields == [fields[0]] + fields[1..];
    if f != fields[0] {
      SharedField(env, fields[1..], v, f);
    }
  }

  lemma {:induction false} SharedFieldNames(env: Env, fields: seq<Field>, v: RustValue)
    requires v.RStruct? && FieldNames(fields) <= v.fields.Keys
    ensures SharedFields(env, fields, v).Keys == FieldNames(fields)
  {
    hide IntoShared;
    if fields != [] {
      assert fields == [fields[0]] + fields[1..];
      assert FieldNames(fields) == {fields[0].name} + FieldNames(fields[1..]);
      SharedFieldNames(env, fields[1..], v);
    }
  }

  lemma {:induction false} ArcHoldsStruct(ty: Ty)
    requires IsArc(ty)
    ensures ContainsNativeStruct(ty)
  {
    if ty.BoxT? {
      ArcHoldsStruct(ty.inner);
    }
  }

  // Types the sharing does not change.
  lemma {:induction false} PlainTypeIsKept(env: Env, ty: Ty)
    requires Declarable(ty) && !ContainsNativeStruct(ty)
    ensures SharedType(env, ty) == ty
  {
    match ty
    case BoxT(inner) =>
      PlainTypeIsKept(env, inner);
      if IsArc(ty) {
        ArcHoldsStruct(ty);
      }
    case OptionT(inner) => PlainTypeIsKept(env, inner);
    case VecT(item) => PlainTypeIsKept(env, item);
    case MapT(_, value) => PlainTypeIsKept(env, value);
    case _ =>
  }

  lemma {:induction false} StructIsTyped(env: Env, ty: Ty, v: RustValue)
    requires WellFormed(env) && ty.StructT? && HasType(env, v, ty)
    ensures HasType(env, IntoShared(env, ty, v), SharedType(env, ty))
    decreases v, 0
  {
    if IsShared(env, ty.name) {
      var fields := env.structs[ty.name];
      var stored := RStruct(SharedFields(env, fields, v));
      SharedFieldNames(env, fields, v);
      assert DistinctFields(fields);
      forall f | f in fields
        ensures HasFieldType(env, stored.fields[f.name], SharedType(env, f.ty), f.optional)
      {
        assert f.name in FieldNames(fields);
        SharedField(env, fields, v, f);
        var x := v.fields[f.name];
        if !f.optional {
          StorageIsTyped(env, f.ty, x);
        } else if x.RSome? {
          StorageIsTyped(env, f.ty, x.inner);
        }
      }
      assert HasType(env, stored, SharedT(ty.name)) by {
        assert stored.fields.Keys == FieldNames(fields);
      }
    }
  }

  /** What a typed SDK value is moved into has exactly the storage type generated for it. */
  lemma {:induction false} StorageIsTyped(env: Env, ty: Ty, v: RustValue)
    requires WellFormed(env) && Declarable(ty) && HasType(env, v, ty)
    ensures HasType(env, IntoShared(env, ty, v), SharedType(env, ty))
    decreases v, 1
  {
    if !ContainsNativeStruct(ty) {
      PlainTypeIsKept(env, ty);
    } else {
      match ty
      case StructT(_) => StructIsTyped(env, ty, v);
      case BoxT(inner) => StorageIsTyped(env, inner, v.inner);
      case OptionT(inner) =>
        if v.RSome? {
          StorageIsTyped(env, inner, v.inner);
        }
      case VecT(item) =>
        forall x | x in v.items
          ensures HasType(env, IntoShared(env, item, x), SharedType(env, item))
        {
          StorageIsTyped(env, item, x);
        }
      case MapT(key, value) =>
        forall name | name in v.entries
          ensures HasType(env, IntoShared(env, value, v.entries[name]), SharedType(env, value))
        {
          StorageIsTyped(env, value, v.entries[name]);
        }
    }
  }

  // ---------- Stored values give the plain dictionaries ----------

  lemma {:induction false} PlainValueIsSame(env: Env, ty: Ty, v: RustValue)
    requires Declarable(ty) && !ContainsNativeStruct(ty) && HasType(env, v, ty)
    ensures SharedToPy(env, ty, v) == ToPy(env, ty, v)
    decreases v
  {
    match ty
    case BoxT(inner) =>
      if IsArc(ty) {
        ArcHoldsStruct(ty);
      }
      PlainValueIsSame(env, inner, v.inner);
    case OptionT(inner) =>
      if v.RSome? {
        PlainValueIsSame(env, inner, v.inner);
      }
    case VecT(item) =>
      forall x | x in v.items
        ensures SharedToPy(env, item, x) == ToPy(env, item, x)
      {
        PlainValueIsSame(env, item, x);
      }
      SameItems(env, item, v.items, v.items);
    case MapT(_, value) =>
      forall name | name in v.entries
        ensures SharedToPy(env, value, v.entries[name]) == ToPy(env, value, v.entries[name])
      {
        PlainValueIsSame(env, value, v.entries[name]);
      }
      SameEntries(env, ty, v.entries, v.entries);
    case _ =>
  }

  lemma SameItems(env: Env, item: Ty, stored: seq<RustValue>, items: seq<RustValue>)
    requires |stored| == |items|
    requires forall i | 0 <= i < |items| :: SharedToPy(env, item, stored[i]) == ToPy(env, item, items[i])
    ensures SharedToPy(env, VecT(item), RVec(stored)) == ToPy(env, VecT(item), RVec(items))
  {
    var a, b := SharedToPy(env, VecT(item), RVec(stored)), ToPy(env, VecT(item), RVec(items));
    assert a.PyList? && b.PyList? && |a.items| == |b.items|;
    forall i | 0 <= i < |items|
      ensures a.items[i] == b.items[i]
    {}
  }

  lemma SameEntries(env: Env, ty: Ty, stored: map<string, RustValue>, entries: map<string, RustValue>)
    requires ty.MapT? && stored.Keys == entries.Keys
    requires forall name | name in entries ::
               SharedToPy(env, ty.value, stored[name]) == ToPy(env, ty.value, entries[name])
    ensures SharedToPy(env, ty, RMap(stored)) == ToPy(env, ty, RMap(entries))
  {
    hide SharedToPy, ToPy;
    var a := map key | key in stored :: SharedToPy(env, ty.value, stored[key]);
    var b := map key | key in entries :: ToPy(env, ty.value, entries[key]);
    StoredMapForm(env, ty, stored, a);
    PlainMapForm(env, ty, entries, b);
    assert a == b;
  }

  lemma StoredMapForm(env: Env, ty: Ty, stored: map<string, RustValue>, form: map<string, Py>)
    requires ty.MapT? && form == map key | key in stored :: SharedToPy(env, ty.value, stored[key])
    ensures SharedToPy(env, ty, RMap(stored)) == PyDict(StringKeys(form))
  {}

  lemma PlainMapForm(env: Env, ty: Ty, entries: map<string, RustValue>, form: map<string, Py>)
    requires ty.MapT? && form == map key | key in entries :: ToPy(env, ty.value, entries[key])
    ensures ToPy(env, ty, RMap(entries)) == PyDict(StringKeys(form))
  {}

  // Field by field, the stored structure and the SDK structure read the same.
  lemma {:induction false} SameFields(env: Env, fields: seq<Field>, v: RustValue, stored: RustValue)
    requires v.RStruct? && stored.RStruct? && stored.fields.Keys == v.fields.Keys
    requires forall f | f in fields && f.name in v.fields ::
               var x, y := v.fields[f.name], stored.fields[f.name];
               if !f.optional then SharedToPy(env, f.ty, y) == ToPy(env, f.ty, x)
               else
                 && (x.RSome? <==> y.RSome?)
                 && (x.RSome? ==> SharedToPy(env, f.ty, y.inner) == ToPy(env, f.ty, x.inner))
    ensures SharedFieldsToPy(env, fields, stored) == FieldsToPy(env, fields, v)
  {
    hide SharedToPy, ToPy;
    if fields != [] {
      assert fields == [fields[0]] + fields[1..];
      SameFields(env, fields[1..], v, stored);
    }
  }

  lemma {:induction false} StructRefines(env: Env, ty: Ty, v: RustValue)
    requires WellFormed(env) && ty.StructT? && HasType(env, v, ty)
    ensures SharedToPy(env, ty, IntoShared(env, ty, v)) == ToPy(env, ty, v)
    decreases v, 0
  {
    if IsShared(env, ty.name) {
      var fields := env.structs[ty.name];
      var stored := RStruct(SharedFields(env, fields, v));
      SharedFieldNames(env, fields, v);
      assert DistinctFields(fields);
      forall f | f in fields && f.name in v.fields
        ensures var x, y := v.fields[f.name], stored.fields[f.name];
                if !f.optional then SharedToPy(env, f.ty, y) == ToPy(env, f.ty, x)
                else
                 && (x.RSome? <==> y.RSome?)
                 && (x.RSome? ==> SharedToPy(env, f.ty, y.inner) == ToPy(env, f.ty, x.inner))
      {
        SharedField(env, fields, v, f);
        var x := v.fields[f.name];
        if !f.optional {
          SharingRefines(env, f.ty, x);
        } else if x.RSome? {
          SharingRefines(env, f.ty, x.inner);
        }
      }
      SameFields(env, fields, v, stored);
    }
  }

  /** The dictionary of a value moved into storage is the dictionary of the value itself. */
  lemma {:induction false} SharingRefines(env: Env, ty: Ty, v: RustValue)
    requires WellFormed(env) && Declarable(ty) && HasType(env, v, ty)
    ensures SharedToPy(env, ty, IntoShared(env, ty, v)) == ToPy(env, ty, v)
    decreases v, 1
  {
    hide StringKeys, SharedFields, SharedFieldsToPy, FieldsToPy, WellFormed, FieldNames, FindVariant;
    hide PayloadType, SharedInner, SharesFields;
    if !ContainsNativeStruct(ty) {
      PlainValueIsSame(env, ty, v);
    } else {
      match ty
      case StructT(_) => StructRefines(env, ty, v);
      case BoxT(inner) => SharingRefines(env, inner, v.inner);
      case OptionT(inner) =>
        if v.RSome? {
          SharingRefines(env, inner, v.inner);
        }
      case VecT(item) =>
        var stored := IntoShared(env, ty, v).items;
        forall i | 0 <= i < |v.items|
          ensures SharedToPy(env, item, stored[i]) == ToPy(env, item, v.items[i])
        {
          assert v.items[i] in v.items;
          SharingRefines(env, item, v.items[i]);
        }
        SameItems(env, item, stored, v.items);
      case MapT(_, value) =>
        var stored := IntoShared(env, ty, v).entries;
        forall name | name in v.entries
          ensures SharedToPy(env, value, stored[name]) == ToPy(env, value, v.entries[name])
        {
          SharingRefines(env, value, v.entries[name]);
        }
        SameEntries(env, ty, stored, v.entries);
    }
  }
}
