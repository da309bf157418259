/** The input converter undoes the output converter, exactly on the values stated here. */
module RoundTrips {
  import opened Wrappers
  import opened PyValues
  import opened InputErrors
  import Documents
  import opened RustTypes
  import opened Converters

  // Values that come back. A present value whose Python form is None is read as absent by
  // `dict_value` and by options, so it survives only as the builder's own fallback; unknown
  // union variants and unconvertible or unnormalised documents do not come back.
  ghost predicate Returns(env: Env, ty: Ty, v: RustValue)
    decreases v, 0
  {
    match ty
    case BoxT(inner) => v.RBox? && Returns(env, inner, v.inner)
    case OptionT(inner) => v.RNone? || (v.RSome? && Visible(v.inner) && Returns(env, inner, v.inner))
    case VecT(item) => v.RVec? && forall x | x in v.items :: Returns(env, item, x)
    case MapT(_, value) => v.RMap? && forall k | k in v.entries :: Returns(env, value, v.entries[k])
    case DocumentT => v.RDoc? && Documents.Bounded(v.document, 0) && Documents.Normalised(v.document) == v.document
    case StructT(_) =>
      v.RStruct? && forall f | f in Declared(env, ty) :: f.name in v.fields && FieldReturns(env, f, v.fields[f.name])
    case UnionT(_) =>
      v.RVariant? &&
      (v.payload.RUnit? ||
       var payload := PayloadType(env, ty, v.key);
       Visible(v.payload) && Returns(env, payload, v.payload))
    case _ => true
  }

  ghost predicate FieldReturns(env: Env, f: Field, v: RustValue)
    decreases v, 1
  {
    if f.optional then v.RNone? || (v.RSome? && Visible(v.inner) && Returns(env, f.ty, v.inner))
    else if Visible(v) then Returns(env, f.ty, v)
    else f.fallback == Some(v)
  }

  // A null document or an absent value, however boxed or wrapped, has no visible Python form.
  predicate Visible(v: RustValue) {
    match v
    case RDoc(document) => !document.DNull?
    case RNone => false
    case RUnit => false
    case RBox(inner) => Visible(inner)
    case RSome(inner) => Visible(inner)
    case RArc(inner) => Visible(inner)
    case _ => true
  }

  lemma NullDocument(document: Documents.Document)
    ensures Documents.ToPy(document) == PyNone <==> document.DNull?
  {}

  // Values whose form is never None, by their constructor.
  lemma PlainIsVisible(env: Env, ty: Ty, v: RustValue)
    requires !v.RDoc? && !v.RNone? && !v.RUnit? && !v.RBox? && !v.RSome? && !v.RArc?
    ensures ToPy(env, ty, v) != PyNone && Visible(v)
  {
    hide Documents.ToPy, FieldsToPy, PayloadType, Declared, StringKeys, Component;
  }

  lemma {:induction false} InvisibleIsNone(env: Env, ty: Ty, v: RustValue)
    ensures ToPy(env, ty, v) == PyNone <==> !Visible(v)
    decreases v
  {
    hide Documents.ToPy, FieldsToPy, PayloadType, Declared, StringKeys, Component;
    match v
    case RBox(inner) => InvisibleIsNone(env, Component(ty), inner);
    case RSome(inner) => InvisibleIsNone(env, Component(ty), inner);
    case RArc(inner) => InvisibleIsNone(env, ty, inner);
    case RDoc(document) => NullDocument(document);
    case RNone =>
    case RUnit =>
    case _ => PlainIsVisible(env, ty, v);
  }

  ghost predicate ComesBack(env: Env, order: Documents.Iteration, ty: Ty, v: RustValue)
    requires Documents.Iterates(order)
  {
    FromPy(env, order, ty, ToPy(env, ty, v)) == Success(v)
  }

  // ---------- What each loop converts ----------

  lemma {:induction false} ItemsConverted(env: Env, order: Documents.Iteration, ty: Ty, p: Py, from: nat)
    requires Documents.Iterates(order) && p.PyList? && from <= |p.items|
    ensures var r := FromItems(env, order, ty, p, from);
            && (r.Success? <==> forall i | from <= i < |p.items| :: FromPy(env, order, ty, p.items[i]).Success?)
            && (r.Success? ==> |r.value| == |p.items| - from)
            && (r.Success? ==>
                  forall i | 0 <= i < |r.value| :: FromPy(env, order, ty, p.items[from + i]) == Success(r.value[i]))
    decreases |p.items| - from
  {
    hide FromPy;
    if from < |p.items| {
      ItemsConverted(env, order, ty, p, from + 1);
    }
  }

  // An entry is converted before the entries after it, which win.
  lemma EntriesStep(env: Env, order: Documents.Iteration, ty: Ty, p: Py, keys: seq<Py>, from: nat)
    requires Documents.Iterates(order) && ty.MapT? && IsKeyType(ty.key) && p.PyDict? && from < |keys|
    requires forall key | key in keys :: key in p.entries && key.PyStr?
    ensures var r := FromEntries(env, order, ty, p, keys, from);
            var head := FromPy(env, order, ty.value, p.entries[keys[from]]);
            var tail := FromEntries(env, order, ty, p, keys, from + 1);
            && (r.Success? <==> head.Success? && tail.Success?)
            && (r.Success? ==> r.value == map[keys[from].text := head.value] + tail.value)
  {
    hide FromPy;
  }

  lemma {:induction false} EntriesSucceed(env: Env, order: Documents.Iteration, ty: Ty, p: Py, keys: seq<Py>, from: nat)
    requires Documents.Iterates(order) && ty.MapT? && IsKeyType(ty.key) && p.PyDict? && from <= |keys|
    requires forall key | key in keys :: key in p.entries && key.PyStr?
    ensures var r := FromEntries(env, order, ty, p, keys, from);
            r.Success? <==>
              forall i | from <= i < |keys| :: FromPy(env, order, ty.value, p.entries[keys[i]]).Success?
    decreases |keys| - from
  {
    if from < |keys| {
      EntriesStep(env, order, ty, p, keys, from);
      EntriesSucceed(env, order, ty, p, keys, from + 1);
      hide FromPy, FromEntries, Documents.Iterates;
    }
  }

  lemma {:induction false} EntriesNamed(env: Env, order: Documents.Iteration, ty: Ty, p: Py, keys: seq<Py>, from: nat)
    requires Documents.Iterates(order) && ty.MapT? && IsKeyType(ty.key) && p.PyDict? && from <= |keys|
    requires forall key | key in keys :: key in p.entries && key.PyStr?
    ensures var r := FromEntries(env, order, ty, p, keys, from);
            r.Success? ==> forall name :: name in r.value <==> PyStr(name) in keys[from..]
    decreases |keys| - from
  {
    if from < |keys| {
      EntriesStep(env, order, ty, p, keys, from);
      EntriesNamed(env, order, ty, p, keys, from + 1);
      hide FromPy, FromEntries, Documents.Iterates;
      assert keys[from..] == [keys[from]] + keys[from + 1..];
      assert PyStr(keys[from].text) == keys[from];
    }
  }

  lemma {:induction false} EntriesValued(env: Env, order: Documents.Iteration, ty: Ty, p: Py, keys: seq<Py>, from: nat)
    requires Documents.Iterates(order) && ty.MapT? && IsKeyType(ty.key) && p.PyDict? && from <= |keys|
    requires forall key | key in keys :: key in p.entries && key.PyStr?
    ensures var r := FromEntries(env, order, ty, p, keys, from);
            r.Success? ==>
              forall name | name in r.value ::
                && PyStr(name) in p.entries
                && FromPy(env, order, ty.value, p.entries[PyStr(name)]) == Success(r.value[name])
    decreases |keys| - from
  {
    if from < |keys| {
      EntriesStep(env, order, ty, p, keys, from);
      EntriesValued(env, order, ty, p, keys, from + 1);
      hide FromPy, FromEntries, Documents.Iterates;
      assert PyStr(keys[from].text) == keys[from] && keys[from] in p.entries;
    }
  }

  lemma EntriesConverted(env: Env, order: Documents.Iteration, ty: Ty, p: Py, keys: seq<Py>, from: nat)
    requires Documents.Iterates(order) && ty.MapT? && IsKeyType(ty.key) && p.PyDict? && from <= |keys|
    requires forall key | key in keys :: key in p.entries && key.PyStr?
    requires forall i, j | 0 <= i < j < |keys| :: keys[i] != keys[j]
    ensures var r := FromEntries(env, order, ty, p, keys, from);
            && (r.Success? <==>
                  forall i | from <= i < |keys| :: FromPy(env, order, ty.value, p.entries[keys[i]]).Success?)
            && (r.Success? ==> forall name :: name in r.value <==> PyStr(name) in keys[from..])
            && (r.Success? ==> forall i | from <= i < |keys| ::
                  keys[i].text in r.value && FromPy(env, order, ty.value, p.entries[keys[i]])
                  == Success(r.value[keys[i].text]))
  {
    hide FromPy, FromEntries, Documents.Iterates;
    EntriesSucceed(env, order, ty, p, keys, from);
    EntriesNamed(env, order, ty, p, keys, from);
    EntriesValued(env, order, ty, p, keys, from);
    forall i | from <= i < |keys|
      ensures PyStr(keys[i].text) == keys[i] && keys[i] in keys[from..]
    {
      assert keys[from..][i - from] == keys[i];
    }
  }

  // A declared field, read back from the dictionary of a structure.
  function FieldFromPy(env: Env, order: Documents.Iteration, f: Field, p: Py): Option<RustValue>
    requires Documents.Iterates(order) && p.PyDict?
  {
    match DictValue(p, f.name)
    case Some(value) =>
      (match FromPy(env, order, f.ty, value)
       case Success(x) => Some(if f.optional then RSome(x) else x)
       case Failure(_) => None)
    case None => if f.optional then Some(RNone) else f.fallback
  }

  // The builder after the remaining fields, when nothing required is missing.
  function Complete(built: Converted<Builder>): Option<map<string, RustValue>> {
    if built.Success? && built.value.missing.None? then Some(built.value.fields) else None
  }

  lemma FieldStep(env: Env, order: Documents.Iteration, f: Field, rest: seq<Field>, p: Py)
    requires Documents.Iterates(order) && p.PyDict?
    ensures var head, tail := FieldFromPy(env, order, f, p), Complete(FromFields(env, order, rest, p));
            Complete(FromFields(env, order, [f] + rest, p))
              == if head.Some? && tail.Some? then Some(tail.value[f.name := head.value]) else None
  {
    hide FromPy;
    assert ([f] + rest)[1..] == rest;
  }

  lemma {:induction false} FieldsConverted(env: Env, order: Documents.Iteration, fields: seq<Field>, p: Py)
    requires Documents.Iterates(order) && p.PyDict? && DistinctFields(fields)
    ensures var r := Complete(FromFields(env, order, fields, p));
            && (r.Some? <==> forall f | f in fields :: FieldFromPy(env, order, f, p).Some?)
            && (r.Some? ==> r.value.Keys == FieldNames(fields))
            && (r.Some? ==> forall f | f in fields :: FieldFromPy(env, order, f, p) == Some(r.value[f.name]))
    decreases |fields|
  {
    if fields != [] {
      hide FromFields, FieldFromPy, Complete, Documents.Iterates;
      var f, rest := fields[0], fields[1..];
      assert fields == [f] + rest;
      FieldStep(env, order, f, rest, p);
      FieldsConverted(env, order, rest, p);
      assert FieldNames(fields) == {f.name} + FieldNames(rest);
    } else {
      assert FromFields(env, order, fields, p) == Success(Builder(map[], None));
    }
  }

  // ---------- The round trip ----------

  lemma ListForm(env: Env, ty: Ty, v: RustValue)
    requires ty.VecT? && v.RVec?
    ensures ToPy(env, ty, v).PyList? && |ToPy(env, ty, v).items| == |v.items|
    ensures forall i | 0 <= i < |v.items| :: ToPy(env, ty, v).items[i] == ToPy(env, ty.item, v.items[i])
  {}

  lemma FromPyOfList(env: Env, order: Documents.Iteration, ty: Ty, p: Py)
    requires Documents.Iterates(order) && ty.VecT? && p.PyList?
    ensures var r := FromItems(env, order, ty.item, p, 0);
            FromPy(env, order, ty, p) == if r.Success? then Success(RVec(r.value)) else Failure(r.error)
  {
    hide FromItems;
  }

  lemma VecComesBack(env: Env, order: Documents.Iteration, ty: Ty, v: RustValue)
    requires Documents.Iterates(order) && ty.VecT? && v.RVec?
    ensures ComesBack(env, order, ty, v) <==>
              forall i | 0 <= i < |v.items| :: ComesBack(env, order, ty.item, v.items[i])
  {
    hide ToPy, FromPy, FromItems;
    ListForm(env, ty, v);
    var p := ToPy(env, ty, v);
    ItemsConverted(env, order, ty.item, p, 0);
    FromPyOfList(env, order, ty, p);
    var r := FromItems(env, order, ty.item, p, 0);
    if forall i | 0 <= i < |v.items| :: ComesBack(env, order, ty.item, v.items[i]) {
      assert r.value == v.items;
    }
    if r == Success(v.items) {
      forall i | 0 <= i < |v.items|
        ensures ComesBack(env, order, ty.item, v.items[i])
      {
        assert r.value[i] == v.items[i];
      }
    }
  }

  lemma VecParts(env: Env, ty: Ty, v: RustValue)
    requires ty.VecT? && HasType(env, v, ty) && Declarable(ty)
    ensures v.RVec? && Declarable(ty.item)
    ensures forall i | 0 <= i < |v.items| :: HasType(env, v.items[i], ty.item)
    ensures Returns(env, ty, v) <==> forall i | 0 <= i < |v.items| :: Returns(env, ty.item, v.items[i])
  {
    if forall i | 0 <= i < |v.items| :: Returns(env, ty.item, v.items[i]) {
      assert forall x | x in v.items :: Returns(env, ty.item, x);
    }
  }

  lemma {:induction false} VecReturns(env: Env, order: Documents.Iteration, ty: Ty, v: RustValue)
    requires WellFormed(env) && Documents.Iterates(order) && Declarable(ty) && ty.VecT? && HasType(env, v, ty)
    ensures ComesBack(env, order, ty, v) <==> Returns(env, ty, v)
    decreases v, 1
  {
    hide *;
    VecParts(env, ty, v);
    VecComesBack(env, order, ty, v);
    forall i | 0 <= i < |v.items|
      ensures ComesBack(env, order, ty.item, v.items[i]) <==> Returns(env, ty.item, v.items[i])
    {
      RoundTrip(env, order, ty.item, v.items[i]);
    }
  }

  lemma MapForm(env: Env, ty: Ty, v: RustValue)
    requires ty.MapT? && v.RMap?
    ensures var p := ToPy(env, ty, v);
            && p.PyDict?
            && (forall key | key in p.entries :: key.PyStr? && key.text in v.entries)
            && (forall name | name in v.entries ::
                  PyStr(name) in p.entries && p.entries[PyStr(name)] == ToPy(env, ty.value, v.entries[name]))
  {}

  lemma FromPyOfDict(env: Env, order: Documents.Iteration, ty: Ty, p: Py)
    requires Documents.Iterates(order) && ty.MapT? && p.PyDict?
    ensures Documents.Enumerates(order(p.entries), p.entries)
    ensures var r := FromEntries(env, order, ty, p, order(p.entries), 0);
            FromPy(env, order, ty, p) == if r.Success? then Success(RMap(r.value)) else Failure(r.error)
  {
    hide FromEntries;
  }

  lemma MapComesBack(env: Env, order: Documents.Iteration, ty: Ty, v: RustValue)
    requires Documents.Iterates(order) && ty.MapT? && IsKeyType(ty.key) && v.RMap?
    ensures ComesBack(env, order, ty, v) <==>
              forall name | name in v.entries :: ComesBack(env, order, ty.value, v.entries[name])
  {
    hide ToPy, FromPy, FromEntries, Documents.Iterates, IsKeyType;
    MapForm(env, ty, v);
    var p := ToPy(env, ty, v);
    var keys := order(p.entries);
    FromPyOfDict(env, order, ty, p);
    EntriesConverted(env, order, ty, p, keys, 0);
    assert keys[0..] == keys;
    var r := FromEntries(env, order, ty, p, keys, 0);
    if r.Success? {
      assert r.value.Keys == v.entries.Keys;
      forall name | name in v.entries
        ensures ComesBack(env, order, ty.value, v.entries[name]) <==> r.value[name] == v.entries[name]
      {
        var i :| 0 <= i < |keys| && keys[i] == PyStr(name);
      }
      assert r.value == v.entries <==> forall name | name in v.entries :: r.value[name] == v.entries[name];
    } else {
      var i :| 0 <= i < |keys| && FromPy(env, order, ty.value, p.entries[keys[i]]).Failure?;
      assert keys[i] in keys;
      assert !ComesBack(env, order, ty.value, v.entries[keys[i].text]);
    }
  }

  lemma MapParts(env: Env, ty: Ty, v: RustValue)
    requires ty.MapT? && HasType(env, v, ty) && Declarable(ty)
    ensures v.RMap? && Declarable(ty.value) && IsKeyType(ty.key)
    ensures forall name | name in v.entries :: HasType(env, v.entries[name], ty.value)
    ensures Returns(env, ty, v) <==> forall name | name in v.entries :: Returns(env, ty.value, v.entries[name])
  {}

  lemma {:induction false} MapReturns(env: Env, order: Documents.Iteration, ty: Ty, v: RustValue)
    requires WellFormed(env) && Documents.Iterates(order) && Declarable(ty) && ty.MapT? && HasType(env, v, ty)
    ensures ComesBack(env, order, ty, v) <==> Returns(env, ty, v)
    decreases v, 1
  {
    hide *;
    MapParts(env, ty, v);
    MapComesBack(env, order, ty, v);
    forall name | name in v.entries
      ensures ComesBack(env, order, ty.value, v.entries[name]) <==> Returns(env, ty.value, v.entries[name])
    {
      RoundTrip(env, order, ty.value, v.entries[name]);
    }
  }

  // The dictionary of a structure, entry by entry.
  lemma {:induction false} FieldForm(env: Env, fields: seq<Field>, v: RustValue, f: Field)
    requires v.RStruct? && DistinctFields(fields) && f in fields && f.name in v.fields
    ensures var named := FieldsToPy(env, fields, v);
            var x := v.fields[f.name];
            && f.name in named
            && named[f.name] ==
               if !f.optional then ToPy(env, f.ty, x) else if x.RSome? then ToPy(env, f.ty, x.inner) else PyNone
  {
    hide ToPy;
    assert fields == [fields[0]] + fields[1..];
    if f != fields[0] {
      FieldForm(env, fields[1..], v, f);
    }
  }

  // A field comes back exactly when its own round trip does.
  lemma FieldComesBack(env: Env, order: Documents.Iteration, f: Field, x: RustValue, p: Py)
    requires Documents.Iterates(order) && p.PyDict? && PyStr(f.name) in p.entries
    requires p.entries[PyStr(f.name)] == if !f.optional then ToPy(env, f.ty, x)
                                         else if x.RSome? then ToPy(env, f.ty, x.inner) else PyNone
    requires f.optional ==> x.RNone? || x.RSome?
    ensures FieldFromPy(env, order, f, p) == Some(x) <==>
              if !f.optional then if Visible(x) then ComesBack(env, order, f.ty, x) else f.fallback == Some(x)
              else x.RNone? || (Visible(x.inner) && ComesBack(env, order, f.ty, x.inner))
  {
    hide ToPy, FromPy, Visible;
    InvisibleIsNone(env, f.ty, if f.optional && x.RSome? then x.inner else x);
  }

  lemma {:induction false} FieldRoundTrips(env: Env, order: Documents.Iteration, f: Field, x: RustValue, p: Py)
    requires WellFormed(env) && Documents.Iterates(order) && p.PyDict? && PyStr(f.name) in p.entries
    requires p.entries[PyStr(f.name)] == if !f.optional then ToPy(env, f.ty, x)
                                         else if x.RSome? then ToPy(env, f.ty, x.inner) else PyNone
    requires Declarable(f.ty) && HasFieldType(env, x, f.ty, f.optional)
    ensures FieldFromPy(env, order, f, p) == Some(x) <==> FieldReturns(env, f, x)
    decreases x, 3
  {
    hide ToPy, FromPy, HasType, Returns, WellFormed, Declarable, ComesBack, Documents.Iterates, FieldFromPy, Visible;
    FieldComesBack(env, order, f, x, p);
    if !f.optional {
      RoundTrip(env, order, f.ty, x);
    } else if x.RSome? {
      RoundTrip(env, order, f.ty, x.inner);
    }
  }

  lemma FromPyOfStruct(env: Env, order: Documents.Iteration, ty: Ty, p: Py)
    requires Documents.Iterates(order) && ty.StructT? && p.PyDict? && ty.name in env.structs
    ensures var r, built := FromPy(env, order, ty, p), Complete(FromFields(env, order, env.structs[ty.name], p));
            && (built.Some? ==> r == Success(RStruct(built.value)))
            && (built.None? ==> r.Failure?)
  {
    hide FromFields;
  }

  lemma StructComesBack(env: Env, order: Documents.Iteration, ty: Ty, v: RustValue)
    requires Documents.Iterates(order) && ty.StructT? && ty.name in env.structs && v.RStruct?
    requires DistinctFields(env.structs[ty.name]) && v.fields.Keys == FieldNames(env.structs[ty.name])
    ensures ComesBack(env, order, ty, v) <==>
              forall f | f in env.structs[ty.name] ::
                    FieldFromPy(env, order, f, ToPy(env, ty, v)) == Some(v.fields[f.name])
  {
    hide FromPy, FieldFromPy, FromFields, Complete, Documents.Iterates;
    var fields := env.structs[ty.name];
    var p := ToPy(env, ty, v);
    FieldsConverted(env, order, fields, p);
    FromPyOfStruct(env, order, ty, p);
    var built := Complete(FromFields(env, order, fields, p));
    if built.Some? {
      SameFields(fields, built.value, v.fields);
    }
  }

  lemma SameFields(fields: seq<Field>, a: map<string, RustValue>, b: map<string, RustValue>)
    requires a.Keys == FieldNames(fields) && b.Keys == FieldNames(fields)
    ensures a == b <==> forall f | f in fields :: a[f.name] == b[f.name]
  {
    if forall f | f in fields :: a[f.name] == b[f.name] {
      forall name | name in a
        ensures a[name] == b[name]
      {
        var f :| f in fields && f.name == name;
      }
    }
  }

  lemma StructParts(env: Env, ty: Ty, v: RustValue)
    requires WellFormed(env) && ty.StructT? && HasType(env, v, ty)
    ensures v.RStruct? && ty.name in env.structs && v.fields.Keys == FieldNames(env.structs[ty.name])
    ensures DistinctFields(env.structs[ty.name])
    ensures forall f | f in env.structs[ty.name] ::
              && f.name in v.fields && Declarable(f.ty) && v.fields[f.name] < v
                 && HasFieldType(env, v.fields[f.name], f.ty, f.optional)
              && ToPy(env, ty, v).PyDict? && PyStr(f.name) in ToPy(env, ty, v).entries
              && var x := v.fields[f.name];
                 ToPy(env, ty, v).entries[PyStr(f.name)]
                   == if !f.optional then ToPy(env, f.ty, x) else if x.RSome? then ToPy(env, f.ty, x.inner) else PyNone
    ensures Returns(env, ty, v) <==> forall f | f in env.structs[ty.name] :: FieldReturns(env, f, v.fields[f.name])
  {
    hide FieldReturns, HasFieldType, Declarable, FieldsToPy;
    var fields := env.structs[ty.name];
    assert DistinctFields(fields);
    forall f | f in fields
      ensures f.name in v.fields && v.fields[f.name] < v
      ensures PyStr(f.name) in ToPy(env, ty, v).entries
      ensures var x := v.fields[f.name];
              ToPy(env, ty, v).entries[PyStr(f.name)]
                == if !f.optional then ToPy(env, f.ty, x) else if x.RSome? then ToPy(env, f.ty, x.inner) else PyNone
    {
      assert f.name in FieldNames(fields);
      FieldForm(env, fields, v, f);
    }
  }

  lemma {:induction false} StructReturns(env: Env, order: Documents.Iteration, ty: Ty, v: RustValue)
    requires WellFormed(env) && Documents.Iterates(order) && ty.StructT? && HasType(env, v, ty)
    ensures ComesBack(env, order, ty, v) <==> Returns(env, ty, v)
    decreases v, 1
  {
    hide *;
    StructParts(env, ty, v);
    StructComesBack(env, order, ty, v);
    var p := ToPy(env, ty, v);
    forall f | f in env.structs[ty.name]
      ensures FieldFromPy(env, order, f, p) == Some(v.fields[f.name]) <==> FieldReturns(env, f, v.fields[f.name])
    {
      FieldRoundTrips(env, order, f, v.fields[f.name], p);
    }
  }

  // ---------- Unions ----------

  lemma {:induction false} NoSuchVariant(env: Env, order: Documents.Iteration, variants: seq<Variant>, key: string,
                                         value: Py)
    requires Documents.Iterates(order) && forall v | v in variants :: v.key != key
    ensures FromVariants(env, order, variants, PyDict(map[PyStr(key) := value])).Failure?
  {
    if variants != [] {
      NoSuchVariant(env, order, variants[1..], key, value);
    }
  }

  // What a dictionary with one known key converts to.
  function FromPayload(env: Env, order: Documents.Iteration, variant: Variant, value: Py): Option<RustValue>
    requires Documents.Iterates(order)
  {
    match variant.payload
    case None => if value == PyNone then Some(RUnit) else None
    case Some(ty) =>
      if value == PyNone then None
      else
        match FromPy(env, order, ty, value)
        case Success(x) => Some(x)
        case Failure(_) => None
  }

  lemma {:induction false} VariantConverted(env: Env, order: Documents.Iteration, variants: seq<Variant>,
                                            key: string, value: Py)
    requires Documents.Iterates(order) && FindVariant(variants, key).Some?
    requires forall i, j | 0 <= i < j < |variants| :: variants[i].key != variants[j].key
    ensures var r := FromVariants(env, order, variants, PyDict(map[PyStr(key) := value]));
            match FromPayload(env, order, FindVariant(variants, key).value, value)
            case Some(x) => r == Success(RVariant(key, x))
            case None => r.Failure?
  {
    hide FromPy;
    if variants[0].key == key {
      if value == PyNone {
        NoSuchVariant(env, order, variants[1..], key, value);
      }
    } else {
      VariantConverted(env, order, variants[1..], key, value);
    }
  }

  lemma {:induction false} NeverUnknown(env: Env, order: Documents.Iteration, variants: seq<Variant>, p: Py)
    requires Documents.Iterates(order) && p.PyDict?
    ensures FromVariants(env, order, variants, p).Success? ==> FromVariants(env, order, variants, p).value.RVariant?
  {
    hide FromPy;
    if variants != [] {
      NeverUnknown(env, order, variants[1..], p);
    }
  }

  lemma FromPyOfUnion(env: Env, order: Documents.Iteration, ty: Ty, key: string, value: Py)
    requires Documents.Iterates(order) && ty.UnionT? && ty.name in env.unions
    ensures FromPy(env, order, ty, PyDict(map[PyStr(key) := value]))
         == FromVariants(env, order, env.unions[ty.name], PyDict(map[PyStr(key) := value]))
  {
    hide FromVariants;
  }

  lemma UnitHasNoType(env: Env, ty: Ty)
    requires Declarable(ty)
    ensures !HasType(env, RUnit, ty)
  {}

  lemma UnionParts(env: Env, ty: Ty, v: RustValue)
    requires WellFormed(env) && ty.UnionT? && HasType(env, v, ty) && v.RVariant?
    ensures ty.name in env.unions && FindVariant(env.unions[ty.name], v.key).Some?
    ensures forall i, j | 0 <= i < j < |env.unions[ty.name]| :: env.unions[ty.name][i].key != env.unions[ty.name][j].key
    ensures var payload := FindVariant(env.unions[ty.name], v.key).value.payload;
            && (payload.None? ==> v.payload.RUnit? && Returns(env, ty, v))
            && (payload.Some? ==>
                  && !v.payload.RUnit? && Declarable(payload.value) && HasType(env, v.payload, payload.value)
                  && PayloadType(env, ty, v.key) == payload.value
                  && (Returns(env, ty, v) <==> Visible(v.payload) && Returns(env, payload.value, v.payload)))
  {
    hide ToPy, Visible;
    var payload := FindVariant(env.unions[ty.name], v.key).value.payload;
    if payload.Some? {
      UnitHasNoType(env, payload.value);
    }
  }

  lemma {:induction false} UnionReturns(env: Env, order: Documents.Iteration, ty: Ty, v: RustValue)
    requires WellFormed(env) && Documents.Iterates(order) && ty.UnionT? && HasType(env, v, ty)
    ensures ComesBack(env, order, ty, v) <==> Returns(env, ty, v)
    decreases v, 1
  {
    hide FromPy, FromVariants, HasType, WellFormed, Documents.Iterates, FindVariant;
    if v.RUnknown? {
      var p := PyDict(map[PyStr("unknown") := PyBool(true)]);
      UnionIsDeclared(env, ty, v);
      FromPyOfUnion(env, order, ty, "unknown", PyBool(true));
      NeverUnknown(env, order, env.unions[ty.name], p);
    } else {
      UnionIsDeclared(env, ty, v);
      hide ToPy, Returns;
      UnionParts(env, ty, v);
      var variant := FindVariant(env.unions[ty.name], v.key).value;
      UnionForm(env, ty, v);
      var value := ToPy(env, PayloadType(env, ty, v.key), v.payload);
      FromPyOfUnion(env, order, ty, v.key, value);
      VariantConverted(env, order, env.unions[ty.name], v.key, value);
      if variant.payload.Some? {
        InvisibleIsNone(env, variant.payload.value, v.payload);
        RoundTrip(env, order, variant.payload.value, v.payload);
      } else {
        UnitForm(env, PayloadType(env, ty, v.key));
      }
    }
  }

  lemma UnionIsDeclared(env: Env, ty: Ty, v: RustValue)
    requires ty.UnionT? && HasType(env, v, ty)
    ensures ty.name in env.unions && (v.RUnknown? || v.RVariant?)
  {}

  lemma UnionForm(env: Env, ty: Ty, v: RustValue)
    requires v.RVariant?
    ensures ToPy(env, ty, v) == PyDict(map[PyStr(v.key) := ToPy(env, PayloadType(env, ty, v.key), v.payload)])
  {}

  lemma UnitForm(env: Env, ty: Ty)
    ensures ToPy(env, ty, RUnit) == PyNone
  {}

  // ---------- Everything else ----------

  lemma ScalarReturns(env: Env, order: Documents.Iteration, ty: Ty, v: RustValue)
    requires Documents.Iterates(order) && HasType(env, v, ty)
    requires ty.BoolT? || ty.IntT? || ty.FloatT? || ty.StringT? || ty.EnumT? || ty.DateTimeT? || ty.BlobT?
    ensures ComesBack(env, order, ty, v) && Returns(env, ty, v)
  {
    hide Documents.Iterates, Documents.FromPy;
  }

  lemma DocumentReturns(env: Env, order: Documents.Iteration, ty: Ty, v: RustValue)
    requires Documents.Iterates(order) && HasType(env, v, ty) && ty.DocumentT?
    ensures ComesBack(env, order, ty, v) <==> Returns(env, ty, v)
  {
    hide Documents.Iterates, Documents.FromPy, Documents.Bounded, Documents.Normalised;
    Documents.DocumentRoundTrip(order, v.document, 0);
  }

  lemma WrapperComesBack(env: Env, order: Documents.Iteration, ty: Ty, v: RustValue)
    requires Documents.Iterates(order) && (ty.BoxT? || ty.OptionT?) && HasType(env, v, ty)
    ensures if ty.BoxT? then ComesBack(env, order, ty, v) <==> ComesBack(env, order, ty.inner, v.inner)
            else ComesBack(env, order, ty, v) <==>
                   v.RNone? || (Visible(v.inner) && ComesBack(env, order, ty.inner, v.inner))
  {
    hide Documents.Iterates, Visible;
    if v.RSome? {
      InvisibleIsNone(env, ty.inner, v.inner);
    }
  }

  /**
   The input converter undoes the output converter on exactly the returning values, in every
   mutually recursive environment of structures and unions.
   */
  lemma {:induction false} RoundTrip(env: Env, order: Documents.Iteration, ty: Ty, v: RustValue)
    requires WellFormed(env) && Documents.Iterates(order) && Declarable(ty) && HasType(env, v, ty)
    ensures ComesBack(env, order, ty, v) <==> Returns(env, ty, v)
    decreases v, 2
  {
    hide ComesBack, Documents.Iterates, WellFormed, ToPy;
    match ty
    case BoxT(inner) =>
      WrapperComesBack(env, order, ty, v);
      RoundTrip(env, order, inner, v.inner);
    case OptionT(inner) =>
      WrapperComesBack(env, order, ty, v);
      if v.RSome? {
        RoundTrip(env, order, inner, v.inner);
      }
    case VecT(_) => VecReturns(env, order, ty, v);
    case MapT(_, _) => MapReturns(env, order, ty, v);
    case StructT(_) => StructReturns(env, order, ty, v);
    case UnionT(_) => UnionReturns(env, order, ty, v);
    case DocumentT => DocumentReturns(env, order, ty, v);
    case _ => ScalarReturns(env, order, ty, v);
  }
}
