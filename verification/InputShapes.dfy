/** What dictionaries become: maps, structures and unions. */
module InputShapes {
  import opened Wrappers
  import opened PyValues
  import opened InputErrors
  import Documents
  import opened RustTypes
  import opened Converters
  import opened RoundTrips

  // ---------- Maps ----------

  // Every key is a string, and stands for the conversion of its value.
  ghost predicate MapBecomes(env: Env, order: Documents.Iteration, ty: Ty, p: Py, m: map<string, RustValue>)
    requires Documents.Iterates(order) && ty.MapT? && p.PyDict?
  {
    && (forall key | key in p.entries :: key.PyStr? && (ty.key.StringT? || ty.key.EnumT?))
    && (forall name :: name in m <==> PyStr(name) in p.entries)
    && (forall name | name in m && PyStr(name) in p.entries ::
          FromPy(env, order, ty.value, p.entries[PyStr(name)]) == Success(m[name]))
  }

  lemma {:induction false} OtherKeysFail(env: Env, order: Documents.Iteration, ty: Ty, p: Py, keys: seq<Py>, from: nat)
    requires Documents.Iterates(order) && ty.MapT? && p.PyDict? && from <= |keys|
    requires forall key | key in keys :: key in p.entries
    requires exists i :: from <= i < |keys| && !(keys[i].PyStr? && IsKeyType(ty.key))
    ensures FromEntries(env, order, ty, p, keys, from).Failure?
    decreases |keys| - from
  {
    hide FromPy;
    if keys[from].PyStr? && IsKeyType(ty.key) {
      OtherKeysFail(env, order, ty, p, keys, from + 1);
    }
  }

  /** A dictionary becomes a map of its converted entries, whatever the order it is iterated in. */
  lemma MapsBecome(env: Env, order: Documents.Iteration, ty: Ty, p: Py, m: map<string, RustValue>)
    requires Documents.Iterates(order) && ty.MapT? && p.PyDict?
    ensures FromPy(env, order, ty, p) == Success(RMap(m)) <==> MapBecomes(env, order, ty, p, m)
  {
    var keys := order(p.entries);
    assert Documents.Enumerates(keys, p.entries);
    if forall key | key in keys :: key.PyStr? && IsKeyType(ty.key) {
      if keys == [] {
        assert p.entries == map[] by {
          assert forall key | key in p.entries :: key in keys;
        }
        assert FromEntries(env, order, ty, p, keys, 0) == Success(map[]);
        assert MapBecomes(env, order, ty, p, m) <==> m == map[];
      } else {
        assert keys[0] in keys;
        StringKeysConvert(env, order, ty, p, keys, m);
      }
    } else {
      var key :| key in keys && !(key.PyStr? && IsKeyType(ty.key));
      var i :| 0 <= i < |keys| && keys[i] == key;
      OtherKeysFail(env, order, ty, p, keys, 0);
    }
  }

  lemma StringKeysConvert(env: Env, order: Documents.Iteration, ty: Ty, p: Py, keys: seq<Py>, m: map<string, RustValue>)
    requires Documents.Iterates(order) && ty.MapT? && p.PyDict? && Documents.Enumerates(keys, p.entries)
    requires IsKeyType(ty.key) && forall key | key in keys :: key.PyStr?
    ensures FromEntries(env, order, ty, p, keys, 0) == Success(m) <==> MapBecomes(env, order, ty, p, m)
  {
    hide FromPy, FromEntries, Documents.Iterates;
    EntriesConverted(env, order, ty, p, keys, 0);
    assert keys[0..] == keys;
    var r := FromEntries(env, order, ty, p, keys, 0);
    assert forall key | key in p.entries :: key in keys && key.PyStr?;
    if r.Success? {
      forall name | name in r.value
        ensures FromPy(env, order, ty.value, p.entries[PyStr(name)]) == Success(r.value[name])
      {
        var i :| 0 <= i < |keys| && keys[i] == PyStr(name);
      }
      if MapBecomes(env, order, ty, p, m) {
        assert m.Keys == r.value.Keys;
        assert m == r.value;
      }
    } else {
      var i :| 0 <= i < |keys| && FromPy(env, order, ty.value, p.entries[keys[i]]).Failure?;
      assert keys[i] in keys && keys[i] == PyStr(keys[i].text);
    }
  }

  // ---------- Structures ----------

  // A member that is given and not None is converted; any other takes its default.
  ghost predicate FieldBecomes(env: Env, order: Documents.Iteration, f: Field, p: Py, v: RustValue)
    requires Documents.Iterates(order) && p.PyDict?
  {
    var key := PyStr(f.name);
    if key in p.entries && p.entries[key] != PyNone then
      if f.optional then v.RSome? && FromPy(env, order, f.ty, p.entries[key]) == Success(v.inner)
      else FromPy(env, order, f.ty, p.entries[key]) == Success(v)
    else if f.optional then v == RNone
    else f.fallback == Some(v)
  }

  ghost predicate StructBecomes(env: Env, order: Documents.Iteration, fields: seq<Field>, p: Py,
                                values: map<string, RustValue>)
    requires Documents.Iterates(order) && p.PyDict?
  {
    && (forall name :: name in values <==> exists f | f in fields :: f.name == name)
    && (forall f | f in fields && f.name in values :: FieldBecomes(env, order, f, p, values[f.name]))
  }

  /** A dictionary becomes a structure of exactly the declared fields, each from its own member. */
  lemma StructsBecome(env: Env, order: Documents.Iteration, name: string, p: Py, values: map<string, RustValue>)
    requires Documents.Iterates(order) && p.PyDict? && name in env.structs && DistinctFields(env.structs[name])
    ensures FromPy(env, order, StructT(name), p) == Success(RStruct(values))
       <==> StructBecomes(env, order, env.structs[name], p, values)
  {
    var fields := env.structs[name];
    var r := Complete(FromFields(env, order, fields, p));
    assert FromPy(env, order, StructT(name), p) == Success(RStruct(values)) <==> r == Some(values);
    FieldsConverted(env, order, fields, p);
    hide FromPy, FromFields, Complete, Documents.Iterates;
    if r.Some? {
      forall f | f in fields
        ensures FieldBecomes(env, order, f, p, r.value[f.name])
      {
        FieldValue(env, order, f, p, r.value[f.name]);
      }
      if StructBecomes(env, order, fields, p, values) {
        assert values.Keys == r.value.Keys;
        forall key | key in values
          ensures values[key] == r.value[key]
        {
          var f :| f in fields && f.name == key;
          FieldValue(env, order, f, p, values[key]);
        }
        assert values == r.value;
      }
    } else if StructBecomes(env, order, fields, p, values) {
      var f :| f in fields && FieldFromPy(env, order, f, p).None?;
      FieldValue(env, order, f, p, values[f.name]);
    }
  }

  lemma FieldValue(env: Env, order: Documents.Iteration, f: Field, p: Py, v: RustValue)
    requires Documents.Iterates(order) && p.PyDict?
    ensures FieldFromPy(env, order, f, p) == Some(v) <==> FieldBecomes(env, order, f, p, v)
  {
    hide FromPy;
  }

  // ---------- Unions ----------

  // The one key names a variant: a unit variant stands beside None, any other beside its payload.
  ghost predicate VariantBecomes(env: Env, order: Documents.Iteration, variant: Variant, p: Py, v: RustValue)
    requires Documents.Iterates(order) && p.PyDict?
  {
    && v.RVariant? && v.key == variant.key && PyStr(variant.key) in p.entries
    && var value := p.entries[PyStr(variant.key)];
       match variant.payload
       case None => value == PyNone && v.payload == RUnit
       case Some(ty) => value != PyNone && FromPy(env, order, ty, value) == Success(v.payload)
  }

  lemma {:induction false} VariantsBecome(env: Env, order: Documents.Iteration, variants: seq<Variant>, p: Py,
                                          v: RustValue)
    requires Documents.Iterates(order) && p.PyDict? && |p.entries| == 1
    requires forall i, j | 0 <= i < j < |variants| :: variants[i].key != variants[j].key
    ensures FromVariants(env, order, variants, p) == Success(v)
       <==> exists variant | variant in variants :: VariantBecomes(env, order, variant, p, v)
    decreases |variants|
  {
    hide FromPy;
    if variants != [] {
      var first, rest := variants[0], variants[1..];
      assert variants == [first] + rest;
      VariantsBecome(env, order, rest, p, v);
      assert (exists variant | variant in variants :: VariantBecomes(env, order, variant, p, v))
        <==> VariantBecomes(env, order, first, p, v)
             || exists variant | variant in rest :: VariantBecomes(env, order, variant, p, v);
      if PyStr(first.key) in p.entries {
        forall variant | variant in rest
          ensures !VariantBecomes(env, order, variant, p, v)
        {
          if PyStr(variant.key) in p.entries {
            OneKey(p.entries, PyStr(first.key), PyStr(variant.key));
          }
        }
      }
    }
  }

  lemma OneKey(entries: map<Py, Py>, a: Py, b: Py)
    requires |entries| == 1 && a in entries && b in entries
    ensures a == b
  {
    var others := entries.Keys - {a};
    assert |others| == 0;
    assert b !in others;
  }

  /** A dictionary becomes a union when its one key names a variant and its value fits. */
  lemma UnionsBecome(env: Env, order: Documents.Iteration, name: string, p: Py, v: RustValue)
    requires Documents.Iterates(order) && p.PyDict? && name in env.unions
    requires forall i, j | 0 <= i < j < |env.unions[name]| :: env.unions[name][i].key != env.unions[name][j].key
    ensures FromPy(env, order, UnionT(name), p) == Success(v)
       <==> |p.entries| == 1
            && exists variant | variant in env.unions[name] :: VariantBecomes(env, order, variant, p, v)
  {
    hide FromVariants, VariantBecomes;
    if |p.entries| == 1 {
      VariantsBecome(env, order, env.unions[name], p, v);
    }
  }

  /** Nothing but a dictionary becomes any of them. */
  lemma OnlyDictionaries(env: Env, order: Documents.Iteration, ty: Ty, p: Py)
    requires Documents.Iterates(order) && !p.PyDict? && (ty.MapT? || ty.StructT? || ty.UnionT?)
    ensures FromPy(env, order, ty, p) == Reject(WrongType)
  {}

  /** Boxes hold what their type becomes, and options that or nothing for None. */
  lemma WrappersBecome(env: Env, order: Documents.Iteration, inner: Ty, p: Py, v: RustValue)
    requires Documents.Iterates(order)
    ensures FromPy(env, order, BoxT(inner), p) == Success(v) <==>
              v.RBox? && FromPy(env, order, inner, p) == Success(v.inner)
    ensures FromPy(env, order, OptionT(inner), p) == Success(v) <==>
              if p.PyNone? then v == RNone else v.RSome? && FromPy(env, order, inner, p) == Success(v.inner)
  {}
}
