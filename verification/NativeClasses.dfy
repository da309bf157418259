/**
 Which structures get a native Python class, and why neither storage nor properties refer to a
 class that is missing.
 */
module NativeClasses {
  import opened PyValues
  import opened RustTypes
  import opened Converters
  import opened Getters
  import opened Graphs

  // The structures a value of the type holds directly, outside any structure or union. Every
  // structure type names a declared structure: the kind of a type is looked up there.
  function Mentioned(env: Env, ty: Ty): set<string> {
    match ty
    case StructT(name) => if name in env.structs then {name} else {}
    case BoxT(inner) => Mentioned(env, inner)
    case OptionT(inner) => Mentioned(env, inner)
    case VecT(item) => Mentioned(env, item)
    case MapT(_, value) => Mentioned(env, value)
    case _ => {}
  }

  function MentionedBy(env: Env, fields: seq<Field>): set<string> {
    if fields == [] then {} else Mentioned(env, fields[0].ty) + MentionedBy(env, fields[1..])
  }

  function Nesting(env: Env): Graph {
    map name | name in env.structs :: MentionedBy(env, env.structs[name])
  }

  lemma {:induction false} FieldIsMentioned(env: Env, fields: seq<Field>, f: Field)
    requires f in fields
    ensures Mentioned(env, f.ty) <= MentionedBy(env, fields)
  {
    hide Mentioned;
    assert fields == [fields[0]] + fields[1..];
    if f != fields[0] {
      FieldIsMentioned(env, fields[1..], f);
    }
  }

  lemma {:induction false} PrefixMentions(env: Env, fields: seq<Field>, i: nat)
    requires i < |fields|
    ensures MentionedBy(env, fields[..i + 1]) == MentionedBy(env, fields[..i]) + Mentioned(env, fields[i].ty)
    decreases i
  {
    hide Mentioned;
    if i == 0 {
      assert fields[..1] == [fields[0]];
    } else {
      PrefixMentions(env, fields[1..], i - 1);
      assert fields[..i + 1][1..] == fields[1..][..i];
      assert fields[..i][1..] == fields[1..][..i - 1];
    }
  }

  lemma NothingMentioned(env: Env)
    ensures MentionedBy(env, []) == {}
  {
  }

  lemma {:induction false} MentionedAreDeclared(env: Env, ty: Ty)
    ensures Mentioned(env, ty) <= env.structs.Keys
  {
    match ty
    case BoxT(inner) => MentionedAreDeclared(env, inner);
    case OptionT(inner) => MentionedAreDeclared(env, inner);
    case VecT(item) => MentionedAreDeclared(env, item);
    case MapT(_, value) => MentionedAreDeclared(env, value);
    case _ =>
  }

  // ---------- The walk ----------

  // What a completed call has added: reached from `roots`, with everything it mentions named.
  ghost predicate Walked(env: Env, roots: set<string>, added: set<string>, names: set<string>) {
    && added <= env.structs.Keys
    && (forall x | x in added :: Reaches(Nesting(env), roots, x))
    && (forall x | x in added && x in env.structs :: MentionedBy(env, env.structs[x]) <= names)
  }

  lemma NothingWalked(env: Env, roots: set<string>, names: set<string>)
    ensures Walked(env, roots, {}, names)
  {
  }

  lemma NothingAdded(env: Env, ty: Ty, names: set<string>)
    ensures Walked(env, Mentioned(env, ty), names - names, names)
  {
    assert names - names == {};
  }

  lemma WalkedTogether(env: Env, roots: set<string>, before: set<string>, mid: set<string>, names: set<string>)
    requires before <= mid <= names && names <= env.structs.Keys
    requires Walked(env, roots, mid - before, mid) && Walked(env, roots, names - mid, names)
    ensures Walked(env, roots, names - before, names)
    ensures |env.structs.Keys - names| <= |env.structs.Keys - mid|
  {
    hide Reaches, Nesting, MentionedBy;
    if mid != names {
      SmallerSet(env.structs.Keys - names, env.structs.Keys - mid);
    }
  }

  lemma WalkedFromMore(env: Env, roots: set<string>, more: set<string>, added: set<string>, names: set<string>)
    requires Walked(env, roots, added, names) && roots <= more
    ensures Walked(env, more, added, names)
  {
    hide Reaches, Nesting, MentionedBy;
    forall x | x in added
      ensures Reaches(Nesting(env), more, x)
    {
      MoreRootsReachMore(Nesting(env), roots, more, x);
    }
  }

  lemma WalkedBelow(env: Env, name: string, before: set<string>, names: set<string>)
    requires name in env.structs && name !in before && before + {name} <= names
    requires Walked(env, MentionedBy(env, env.structs[name]), names - (before + {name}), names)
    requires MentionedBy(env, env.structs[name]) <= names
    ensures Walked(env, {name}, names - before, names)
  {
    hide Reaches, MentionedBy;
    var g := Nesting(env);
    RootIsReached(g, {name}, name);
    forall x | x in names - (before + {name})
      ensures Reaches(g, {name}, x)
    {
      ReachedThrough(g, name, g[name], x);
    }
  }

  // `_native_structs.visit`: `names` is the set of structures visited so far.
  method Visit(env: Env, ty: Ty, before: set<string>) returns (names: set<string>)
    requires before <= env.structs.Keys
    ensures before <= names <= env.structs.Keys
    ensures Mentioned(env, ty) <= names
    ensures Walked(env, Mentioned(env, ty), names - before, names)
    decreases |env.structs.Keys - before|, 1, ty
  {
    hide Walked;
    match ty
    case StructT(name) =>
      if name in env.structs && name !in before {
        names := VisitStruct(env, name, before);
      } else {
        names := before;
        NothingAdded(env, ty, before);
      }
    case BoxT(inner) => names := Visit(env, inner, before);
    case OptionT(inner) => names := Visit(env, inner, before);
    case VecT(item) => names := Visit(env, item, before);
    case MapT(_, value) => names := Visit(env, value, before);
    case _ =>
      names := before;
      NothingAdded(env, ty, before);
  }

  method VisitStruct(env: Env, name: string, before: set<string>) returns (names: set<string>)
    requires before <= env.structs.Keys && name in env.structs && name !in before
    ensures before + {name} <= names <= env.structs.Keys
    ensures Walked(env, {name}, names - before, names)
    decreases |env.structs.Keys - before|, 0
  {
    hide Walked, MentionedBy;
    SmallerSet(env.structs.Keys - (before + {name}), env.structs.Keys - before);
    names := VisitFields(env, env.structs[name], before + {name});
    WalkedBelow(env, name, before, names);
  }

  method VisitFields(env: Env, fields: seq<Field>, before: set<string>) returns (names: set<string>)
    requires before <= env.structs.Keys
    ensures before <= names <= env.structs.Keys
    ensures MentionedBy(env, fields) <= names
    ensures Walked(env, MentionedBy(env, fields), names - before, names)
    decreases |env.structs.Keys - before|, 2
  {
    hide Walked, Mentioned, MentionedBy;
    names := before;
    NothingMentioned(env);
    NothingWalked(env, MentionedBy(env, fields), names);
    assert names - before == {};
    for i := 0 to |fields|
      invariant before <= names <= env.structs.Keys
      invariant |env.structs.Keys - names| <= |env.structs.Keys - before|
      invariant MentionedBy(env, fields[..i]) <= names
      invariant Walked(env, MentionedBy(env, fields), names - before, names)
    {
      ghost var earlier := names;
      names := Visit(env, fields[i].ty, names);
      FieldIsMentioned(env, fields, fields[i]);
      PrefixMentions(env, fields, i);
      WalkedFromMore(env, Mentioned(env, fields[i].ty), MentionedBy(env, fields), names - earlier, names);
      WalkedTogether(env, MentionedBy(env, fields), before, earlier, names);
    }
    assert fields[..|fields|] == fields;
  }

  // The structures nested in the outputs, all the way down, and no others.
  ghost predicate ClassesFor(env: Env, outputs: seq<Field>, names: set<string>) {
    forall x :: x in names <==> Reaches(Nesting(env), MentionedBy(env, outputs), x)
  }

  // `_native_structs`; nothing when the service asks for no native outputs.
  method NativeStructs(env: Env, outputs: seq<Field>, enabled: bool) returns (names: set<string>)
    ensures !enabled ==> names == {}
    ensures enabled ==> ClassesFor(env, outputs, names)
    ensures names <= env.structs.Keys
  {
    if !enabled {
      return {};
    }
    names := VisitFields(env, outputs, {});
    assert names - {} == names;
    ClosedIsReachable(Nesting(env), MentionedBy(env, outputs), names);
  }

  // ---------- The closed world ----------

  lemma ClassesAreClosed(env: Env, outputs: seq<Field>, names: set<string>)
    requires ClassesFor(env, outputs, names)
    ensures MentionedBy(env, outputs) <= names
    ensures forall name | name in names && name in env.structs :: MentionedBy(env, env.structs[name]) <= names
  {
    hide Reaches, MentionedBy;
    var g, roots := Nesting(env), MentionedBy(env, outputs);
    forall x | x in roots
      ensures x in names
    {
      RootIsReached(g, roots, x);
    }
    forall name, x | name in names && name in env.structs && x in MentionedBy(env, env.structs[name])
      ensures x in names
    {
      SuccessorIsReached(g, roots, name, x);
    }
  }

  // The storage structures a storage type is written with.
  function StorageNames(ty: Ty): set<string> {
    match ty
    case SharedT(name) => {name}
    case BoxT(inner) => StorageNames(inner)
    case OptionT(inner) => StorageNames(inner)
    case VecT(item) => StorageNames(item)
    case MapT(key, value) => StorageNames(key) + StorageNames(value)
    case ArcT(inner) => StorageNames(inner)
    case _ => {}
  }

  lemma {:induction false} StorageIsMentioned(env: Env, ty: Ty)
    requires Declarable(ty)
    ensures StorageNames(SharedType(env, ty)) <= set name | name in Mentioned(env, ty) && IsShared(env, name)
    decreases ty
  {
    match ty
    case BoxT(inner) => StorageIsMentioned(env, inner);
    case OptionT(inner) => StorageIsMentioned(env, inner);
    case VecT(item) => StorageIsMentioned(env, item);
    case MapT(key, value) => StorageIsMentioned(env, value);
    case _ =>
  }

  // Every storage structure named by the storage of an output, or of a class's own fields, is
  // emitted: it belongs to an emitted class and that class has a storage structure.
  lemma StorageHasNoMissingNames(env: Env, outputs: seq<Field>, names: set<string>, fields: seq<Field>, f: Field)
    requires WellFormed(env) && ClassesFor(env, outputs, names) && f in fields && Declarable(f.ty)
    requires fields == outputs || exists owner :: owner in names && owner in env.structs && fields == env.structs[owner]
    ensures forall name | name in StorageNames(SharedType(env, f.ty)) :: name in names && IsShared(env, name)
  {
    hide Mentioned, SharedType, StorageNames, ClassesFor, WellFormed;
    ClassesAreClosed(env, outputs, names);
    FieldIsMentioned(env, fields, f);
    StorageIsMentioned(env, f.ty);
  }

  // Reading any chain of properties of the value meets only objects of these classes.
  ghost predicate OnlyClasses(p: Py, names: set<string>) {
    match p
    case PyList(items) => forall item | item in items :: OnlyClasses(item, names)
    case PyDict(entries) => forall key | key in entries :: OnlyClasses(entries[key], names)
    case PyObject(class_, attrs) => class_ in names && forall attr | attr in attrs :: OnlyClasses(attrs[attr], names)
    case _ => true
  }

  lemma {:induction false} NoObjectsNoClasses(p: Py, names: set<string>)
    requires NoObjects(p)
    ensures OnlyClasses(p, names)
  {
    match p
    case PyList(items) =>
      forall item | item in items
        ensures OnlyClasses(item, names)
      {
        NoObjectsNoClasses(item, names);
      }
    case PyDict(entries) =>
      forall key | key in entries
        ensures OnlyClasses(entries[key], names)
      {
        NoObjectsNoClasses(entries[key], names);
      }
    case _ =>
  }

  ghost predicate ClosedClasses(env: Env, names: set<string>) {
    forall name | name in names && name in env.structs :: MentionedBy(env, env.structs[name]) <= names
  }

  ghost predicate PropertiesOnly(properties: map<string, Py>, names: set<string>) {
    forall attr | attr in properties :: OnlyClasses(properties[attr], names)
  }

  lemma {:induction false} PropertiesAreEmitted(env: Env, keywords: set<string>, fields: seq<Field>, v: RustValue,
                                                names: set<string>)
    requires v.RStruct? && ClosedClasses(env, names) && MentionedBy(env, fields) <= names
    ensures PropertiesOnly(Properties(env, keywords, fields, v), names)
    decreases v, 0, |fields|
  {
    hide TypedPy, Mentioned, ClosedClasses;
    if fields != [] {
      var f := fields[0];
      PropertiesAreEmitted(env, keywords, fields[1..], v, names);
      if f.name in v.fields {
        ObjectsAreEmitted(env, keywords, f.ty, v.fields[f.name], names);
        if v.fields[f.name].RSome? {
          ObjectsAreEmitted(env, keywords, f.ty, v.fields[f.name].inner, names);
        }
      }
    }
  }

  // Whatever a getter returns, every native object in it is of an emitted class.
  lemma {:induction false} ObjectsAreEmitted(env: Env, keywords: set<string>, ty: Ty, v: RustValue, names: set<string>)
    requires ClosedClasses(env, names) && Mentioned(env, ty) <= names
    ensures OnlyClasses(TypedPy(env, keywords, ty, v), names)
    decreases v, 1, ty
  {
    hide Properties, ToPy, NoObjects, MentionedBy;
    match ty
    case StructT(name) =>
      if v.RArc? && v.inner.RStruct? && name in env.structs {
        PropertiesAreEmitted(env, keywords, env.structs[name], v.inner, names);
      }
    case BoxT(inner) =>
      if IsArc(ty) {
        ObjectsAreEmitted(env, keywords, inner, v, names);
      } else if v.RBox? {
        ObjectsAreEmitted(env, keywords, inner, v.inner, names);
      }
    case OptionT(inner) =>
      if v.RSome? {
        ObjectsAreEmitted(env, keywords, inner, v.inner, names);
      }
    case VecT(item) =>
      if v.RVec? {
        forall x | x in v.items
          ensures OnlyClasses(TypedPy(env, keywords, item, x), names)
        {
          ObjectsAreEmitted(env, keywords, item, x, names);
        }
      }
    case MapT(_, value) =>
      if v.RMap? {
        forall key | key in v.entries
          ensures OnlyClasses(TypedPy(env, keywords, value, v.entries[key]), names)
        {
          ObjectsAreEmitted(env, keywords, value, v.entries[key], names);
        }
      }
    case _ =>
      DictionaryHasNoObjects(env, ty, v);
      NoObjectsNoClasses(ToPy(env, ty, v), names);
  }

  // The closed world: no output property, at any depth, hands out an object of a class that
  // was not emitted.
  lemma NoMissingClasses(env: Env, keywords: set<string>, outputs: seq<Field>, names: set<string>, f: Field,
                         v: RustValue)
    requires ClassesFor(env, outputs, names) && f in outputs
    ensures OnlyClasses(TypedPy(env, keywords, f.ty, v), names)
  {
    hide Mentioned, TypedPy, OnlyClasses, ClassesFor;
    ClassesAreClosed(env, outputs, names);
    FieldIsMentioned(env, outputs, f);
    ObjectsAreEmitted(env, keywords, f.ty, v, names);
  }
}
