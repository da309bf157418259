/**
 An input path names one place: no two nodes of an input share a path, so that an error path leads
 to the node at fault and to no other.
 */
module InputPlaces {
  import opened Wrappers
  import opened PyValues
  import opened InputErrors
  import Documents
  import opened RustTypes
  import opened Converters
  import opened InputPaths

  ghost predicate Unambiguous(node: Node)
    decreases node
  {
    UnambiguousParts(node.parts)
  }

  ghost predicate UnambiguousParts(parts: seq<Part>)
    decreases parts
  {
    && (forall i, j | 0 <= i < j < |parts| :: parts[i].segment != parts[j].segment)
    && (forall i | 0 <= i < |parts| :: assert parts[i].node < parts[i]; Unambiguous(parts[i].node))
  }

  // Two positions with one path are the same position.
  lemma {:induction false} PathTellsPosition(node: Node, a: seq<nat>, b: seq<nat>)
    requires Unambiguous(node) && Valid(node, a) && Valid(node, b) && PathTo(node, a) == PathTo(node, b)
    ensures a == b
    decreases |a|
  {
    if a != [] && b != [] {
      var part := node.parts[a[0]];
      assert PathTo(node, a)[0] == PathTo(node, b)[0];
      assert a[0] == b[0];
      assert PathTo(node, a)[1..] == PathTo(node, b)[1..];
      PathTellsPosition(part.node, a[1..], b[1..]);
      assert a == [a[0]] + a[1..] && b == [b[0]] + b[1..];
    }
  }

  // ---------- Numbered parts ----------

  // Every segment is numbered, from `from` on.
  predicate NumberedFrom(parts: seq<Part>, from: nat) {
    forall part | part in parts ::
      match part.segment
      case IndexSegment(i) => i >= from
      case MapKey(i) => i >= from
      case MapValue(i) => i >= from
      case FieldSegment(_) => false
  }

  lemma IndexInFront(from: nat, node: Node, rest: seq<Part>)
    requires Unambiguous(node) && UnambiguousParts(rest) && NumberedFrom(rest, from + 1)
    ensures var parts := [Part(IndexSegment(from), node)] + rest; UnambiguousParts(parts) && NumberedFrom(parts, from)
  {
    hide Unambiguous;
    var parts := [Part(IndexSegment(from), node)] + rest;
    forall i, j | 0 <= i < j < |parts|
      ensures parts[i].segment != parts[j].segment
    {
      assert parts[j] == rest[j - 1];
    }
  }

  lemma EntryInFront(from: nat, key: Node, value: Node, rest: seq<Part>)
    requires Unambiguous(key) && Unambiguous(value) && UnambiguousParts(rest) && NumberedFrom(rest, from + 1)
    ensures var parts := [Part(MapKey(from), key)] + [Part(MapValue(from), value)] + rest;
            UnambiguousParts(parts) && NumberedFrom(parts, from)
  {
    hide Unambiguous;
    var parts := [Part(MapKey(from), key)] + [Part(MapValue(from), value)] + rest;
    forall i, j | 0 <= i < j < |parts|
      ensures parts[i].segment != parts[j].segment
    {
      if j >= 2 {
        assert parts[j] == rest[j - 2];
      }
      if i >= 2 {
        assert parts[i] == rest[i - 2];
      }
    }
  }

  lemma {:induction false} DocumentPlaces(order: Documents.Iteration, p: Py, depth: nat)
    requires Documents.Iterates(order)
    ensures Unambiguous(InspectDocument(order, p, depth))
    decreases p, 1
  {
    hide DocumentItems, DocumentEntries;
    if depth <= Documents.MAX_DEPTH {
      match p
      case PyList(items) => DocumentItemPlaces(order, p, 0, depth);
      case PyDict(entries) => DocumentEntryPlaces(order, p, order(entries), 0, depth);
      case _ =>
    }
  }

  lemma {:induction false} DocumentItemPlaces(order: Documents.Iteration, p: Py, from: nat, depth: nat)
    requires Documents.Iterates(order) && p.PyList? && from <= |p.items|
    ensures var parts := DocumentItems(order, p, from, depth); UnambiguousParts(parts) && NumberedFrom(parts, from)
    decreases p, 0, |p.items| - from
  {
    hide InspectDocument, Unambiguous;
    if from < |p.items| {
      DocumentPlaces(order, p.items[from], depth + 1);
      DocumentItemPlaces(order, p, from + 1, depth);
      IndexInFront(from, InspectDocument(order, p.items[from], depth + 1), DocumentItems(order, p, from + 1, depth));
    }
  }

  lemma {:induction false} DocumentEntryPlaces(order: Documents.Iteration, p: Py, keys: seq<Py>, from: nat, depth: nat)
    requires Documents.Iterates(order) && p.PyDict? && from <= |keys|
    requires forall key | key in keys :: key in p.entries
    ensures var parts := DocumentEntries(order, p, keys, from, depth);
            UnambiguousParts(parts) && NumberedFrom(parts, from)
    decreases p, 0, |keys| - from
  {
    hide InspectDocument, Documents.Iterates;
    if from < |keys| {
      var key, value := keys[from], p.entries[keys[from]];
      DocumentPlaces(order, value, depth + 1);
      DocumentEntryPlaces(order, p, keys, from + 1, depth);
      EntryInFront(from, if key.PyStr? then FINE else Bad(WrongType), InspectDocument(order, value, depth + 1),
                   DocumentEntries(order, p, keys, from + 1, depth));
    }
  }

  lemma ScalarPlaces(env: Env, order: Documents.Iteration, ty: Ty, p: Py)
    requires Documents.Iterates(order)
    ensures Unambiguous(InspectScalar(env, order, ty, p))
  {
    hide InspectDocument;
    if ty.DocumentT? {
      DocumentPlaces(order, p, 0);
    }
  }

  lemma {:induction false} LeafPlaces(env: Env, order: Documents.Iteration, ty: Ty, p: Py)
    requires Documents.Iterates(order)
    ensures Unambiguous(InspectLeaf(env, order, ty, p))
    decreases ty, 0
  {
    hide InspectScalar, Leaves;
    match ty
    case BoxT(inner) => LeafPlaces(env, order, inner, p);
    case OptionT(inner) => LeafPlaces(env, order, inner, p);
    case VecT(item) =>
      if Iterated(order, p).Some? {
        LeavesPlaces(env, order, item, Iterated(order, p).value, 0);
      }
    case _ => ScalarPlaces(env, order, ty, p);
  }

  lemma {:induction false} LeavesPlaces(env: Env, order: Documents.Iteration, ty: Ty, items: seq<Py>, from: nat)
    requires Documents.Iterates(order) && from <= |items|
    ensures var parts := Leaves(env, order, ty, items, from); UnambiguousParts(parts) && NumberedFrom(parts, from)
    decreases ty, 1, |items| - from
  {
    hide InspectLeaf, Unambiguous;
    if from < |items| {
      LeafPlaces(env, order, ty, items[from]);
      LeavesPlaces(env, order, ty, items, from + 1);
      IndexInFront(from, InspectLeaf(env, order, ty, items[from]), Leaves(env, order, ty, items, from + 1));
    }
  }

  lemma {:induction false} ItemPlaces(env: Env, order: Documents.Iteration, ty: Ty, p: Py, from: nat)
    requires Documents.Iterates(order) && WellFormed(env) && p.PyList? && from <= |p.items|
    ensures var parts := Items(env, order, ty, p, from); UnambiguousParts(parts) && NumberedFrom(parts, from)
    decreases p, 0, |p.items| - from
  {
    hide Inspect, Unambiguous, WellFormed;
    if from < |p.items| {
      InputPlaces(env, order, ty, p.items[from]);
      ItemPlaces(env, order, ty, p, from + 1);
      IndexInFront(from, Inspect(env, order, ty, p.items[from]), Items(env, order, ty, p, from + 1));
    }
  }

  lemma {:induction false} EntryPlaces(env: Env, order: Documents.Iteration, ty: Ty, p: Py, keys: seq<Py>, from: nat)
    requires Documents.Iterates(order) && WellFormed(env) && ty.MapT? && p.PyDict? && from <= |keys|
    requires forall key | key in keys :: key in p.entries
    ensures var parts := Entries(env, order, ty, p, keys, from); UnambiguousParts(parts) && NumberedFrom(parts, from)
    decreases p, 0, |keys| - from
  {
    hide Inspect, WellFormed, Documents.Iterates;
    if from < |keys| {
      var key, value := keys[from], p.entries[keys[from]];
      InputPlaces(env, order, ty.value, value);
      EntryPlaces(env, order, ty, p, keys, from + 1);
      EntryInFront(from, InspectKey(ty.key, key), Inspect(env, order, ty.value, value),
                   Entries(env, order, ty, p, keys, from + 1));
    }
  }

  // ---------- Members ----------

  // Each part is a distinct one of these fields.
  ghost predicate Members(parts: seq<Part>, fields: seq<Field>) {
    && UnambiguousParts(parts)
    && forall part | part in parts :: exists f :: f in fields && part.segment == FieldSegment(f.name)
  }

  lemma MemberInFront(f: Field, node: Node, rest: seq<Part>, fields: seq<Field>)
    requires Members(rest, fields) && Unambiguous(node) && forall g | g in fields :: g.name != f.name
    ensures Members([Part(FieldSegment(f.name), node)] + rest, [f] + fields)
  {
    hide Unambiguous;
    var parts := [Part(FieldSegment(f.name), node)] + rest;
    forall i, j | 0 <= i < j < |parts|
      ensures parts[i].segment != parts[j].segment
    {
      assert parts[j] == rest[j - 1] && rest[j - 1] in rest;
      if i > 0 {
        assert parts[i] == rest[i - 1];
      }
    }
    forall part | part in parts
      ensures exists g :: g in [f] + fields && part.segment == FieldSegment(g.name)
    {
      if part in rest {
        var g :| g in fields && part.segment == FieldSegment(g.name);
        assert g in [f] + fields;
      } else {
        assert f in [f] + fields;
      }
    }
  }

  lemma MembersOfMore(f: Field, parts: seq<Part>, fields: seq<Field>)
    requires Members(parts, fields)
    ensures Members(parts, [f] + fields)
  {
    hide UnambiguousParts;
    forall part | part in parts
      ensures exists g :: g in [f] + fields && part.segment == FieldSegment(g.name)
    {
      var g :| g in fields && part.segment == FieldSegment(g.name);
      assert g in [f] + fields;
    }
  }

  lemma MemberBetween(f: Field, node: Node, given: seq<Part>, absent: seq<Part>, fields: seq<Field>)
    requires Members(given + absent, fields) && Unambiguous(node) && forall g | g in fields :: g.name != f.name
    ensures Members(given + ([Part(FieldSegment(f.name), node)] + absent), [f] + fields)
  {
    hide Unambiguous;
    var all := given + absent;
    var parts := given + ([Part(FieldSegment(f.name), node)] + absent);
    MemberInFront(f, node, all, fields);
    var front := [Part(FieldSegment(f.name), node)] + all;
    assert forall part | part in all :: part.segment != FieldSegment(f.name);
    forall i, j | 0 <= i < j < |parts|
      ensures parts[i].segment != parts[j].segment
    {
      var a := if i < |given| then i else i - 1;
      var b := if j < |given| then j else j - 1;
      if i == |given| {
        assert parts[j] == all[b];
      } else if j == |given| {
        assert parts[i] == all[a];
      } else {
        assert parts[i] == all[a] && parts[j] == all[b];
      }
    }
    forall part | part in parts
      ensures part in front
    {
    }
    forall i | 0 <= i < |parts|
      ensures Unambiguous(parts[i].node)
    {
      assert parts[i] in front;
    }
  }

  lemma {:induction false} FieldPlaces(env: Env, order: Documents.Iteration, fields: seq<Field>, p: Py)
    requires Documents.Iterates(order) && WellFormed(env) && p.PyDict?
    requires DistinctFields(fields)
    ensures Members(Given(env, order, fields, p) + Absent(fields, p), fields)
    decreases p, 0, |fields|
  {
    hide Inspect, Members, DictValue, WellFormed, Documents.Iterates;
    if fields == [] {
      NoMembers();
    } else {
      var f, rest := fields[0], fields[1..];
      var given, absent := Given(env, order, rest, p), Absent(rest, p);
      assert fields == [f] + rest;
      assert [] + given == given && [] + absent == absent;
      FieldPlaces(env, order, rest, p);
      if DictValue(p, f.name).Some? {
        ValueIsInside(p, f.name);
        var node := Inspect(env, order, f.ty, DictValue(p, f.name).value);
        InputPlaces(env, order, f.ty, DictValue(p, f.name).value);
        MemberInFront(f, node, given + absent, rest);
        assert [Part(FieldSegment(f.name), node)] + given + absent
               == [Part(FieldSegment(f.name), node)] + (given + absent);
      } else if !f.optional && f.fallback.None? {
        BadIsUnambiguous(MissingMember);
        MemberBetween(f, Bad(MissingMember), given, absent, rest);
      } else {
        MembersOfMore(f, given + absent, rest);
      }
    }
  }

  lemma NoMembers()
    ensures Members([] + [], [])
  {
  }

  lemma BadIsUnambiguous(reason: Reason)
    ensures Unambiguous(Bad(reason))
  {
  }

  lemma FineIsUnambiguous()
    ensures Unambiguous(FINE)
  {
  }

  lemma OnePart(segment: Segment, node: Node)
    requires Unambiguous(node)
    ensures Unambiguous(Node(None, [Part(segment, node)]))
  {
    assert UnambiguousParts([Part(segment, node)]);
  }

  lemma {:induction false} VariantPlaces(env: Env, order: Documents.Iteration, variants: seq<Variant>, p: Py)
    requires Documents.Iterates(order) && WellFormed(env) && p.PyDict?
    ensures Unambiguous(InspectVariants(env, order, variants, p))
    decreases p, 0, |variants|
  {
    hide Inspect, WellFormed, Documents.Iterates, DictValue, Unambiguous;
    BadIsUnambiguous(UnknownVariantKey);
    if variants != [] {
      VariantPlaces(env, order, variants[1..], p);
      var key := variants[0].key;
      FineIsUnambiguous();
      BadIsUnambiguous(UnitNeedsNone);
      OnePart(FieldSegment(key), FINE);
      OnePart(FieldSegment(key), Bad(UnitNeedsNone));
      if variants[0].payload.Some? && DictValue(p, key).Some? {
        ValueIsInside(p, key);
        InputPlaces(env, order, variants[0].payload.value, DictValue(p, key).value);
        OnePart(FieldSegment(key), Inspect(env, order, variants[0].payload.value, DictValue(p, key).value));
      }
    }
  }

  lemma {:induction false} InputPlaces(env: Env, order: Documents.Iteration, ty: Ty, p: Py)
    requires Documents.Iterates(order) && WellFormed(env)
    ensures Unambiguous(Inspect(env, order, ty, p))
    decreases p, 2, ty
  {
    hide InspectScalar, Leaves, Items, Entries, Given, Absent, InspectVariants;
    match ty
    case BoxT(inner) => InputPlaces(env, order, inner, p);
    case OptionT(inner) => InputPlaces(env, order, inner, p);
    case VecT(item) =>
      if p.PyList? {
        ItemPlaces(env, order, item, p, 0);
      } else if Iterated(order, p).Some? {
        LeavesPlaces(env, order, item, Iterated(order, p).value, 0);
      }
    case MapT(_, _) =>
      if p.PyDict? {
        EntryPlaces(env, order, ty, p, order(p.entries), 0);
      }
    case StructT(name) =>
      if p.PyDict? && name in env.structs {
        FieldPlaces(env, order, env.structs[name], p);
      }
    case UnionT(name) =>
      if p.PyDict? && name in env.unions {
        VariantPlaces(env, order, env.unions[name], p);
      }
    case _ => ScalarPlaces(env, order, ty, p);
  }

  // The path of an error names exactly one node of the input.
  lemma PathNamesOneNode(env: Env, order: Documents.Iteration, ty: Ty, p: Py, a: seq<nat>, b: seq<nat>)
    requires Documents.Iterates(order) && WellFormed(env)
    requires var root := Inspect(env, order, ty, p);
             Valid(root, a) && Valid(root, b) && PathTo(root, a) == PathTo(root, b)
    ensures a == b
  {
    hide Inspect, Unambiguous, Valid, PathTo, WellFormed;
    InputPlaces(env, order, ty, p);
    PathTellsPosition(Inspect(env, order, ty, p), a, b);
  }
}
