/** Where conversion errors point: the first offending node of the input, in iteration order. */
module InputPaths {
  import opened Wrappers
  import opened PyValues
  import opened InputErrors
  import Documents
  import opened RustTypes
  import opened Converters
  import opened InputScalars

  // A node of the input as its type expects it: what is wrong with the node itself, and its
  // parts in iteration order.
  datatype Node = Node(fault: Option<Reason>, parts: seq<Part>)
  datatype Part = Part(segment: Segment, node: Node)

  const FINE := Node(None, [])

  function Bad(reason: Reason): Node {
    Node(Some(reason), [])
  }

  // ---------- The nodes of a document ----------

  function InspectDocument(order: Documents.Iteration, p: Py, depth: nat): Node
    requires Documents.Iterates(order)
    decreases p, 1
  {
    if depth > 128 then Bad(TooDeep)
    else
      match p
      case PyInt(i) =>
        if -9223372036854775808 <= i < 18446744073709551616 then FINE else Bad(OutOfRange)
      case PyFloat(f) => if f.Finite? then FINE else Bad(NotFinite)
      case PyList(items) => Node(None, DocumentItems(order, p, 0, depth))
      case PyDict(entries) => Node(None, DocumentEntries(order, p, order(entries), 0, depth))
      case _ => if p.PyNone? || p.PyBool? || p.PyStr? then FINE else Bad(WrongType)
  }

  function DocumentItems(order: Documents.Iteration, p: Py, from: nat, depth: nat): seq<Part>
    requires Documents.Iterates(order) && p.PyList? && from <= |p.items|
    decreases p, 0, |p.items| - from
  {
    if from == |p.items| then []
    else
      [Part(IndexSegment(from), InspectDocument(order, p.items[from], depth + 1))]
      + DocumentItems(order, p, from + 1, depth)
  }

  function DocumentEntries(order: Documents.Iteration, p: Py, keys: seq<Py>, from: nat, depth: nat): seq<Part>
    requires Documents.Iterates(order) && p.PyDict? && from <= |keys|
    requires forall key | key in keys :: key in p.entries
    decreases p, 0, |keys| - from
  {
    if from == |keys| then []
    else
      [Part(MapKey(from), if keys[from].PyStr? then FINE else Bad(WrongType))]
      + [Part(MapValue(from), InspectDocument(order, p.entries[keys[from]], depth + 1))]
      + DocumentEntries(order, p, keys, from + 1, depth)
  }

  // ---------- The nodes of a typed input ----------

  function InspectScalar(env: Env, order: Documents.Iteration, ty: Ty, p: Py): Node
    requires Documents.Iterates(order)
  {
    if ty.DocumentT? then InspectDocument(order, p, 0) else Node(Refusal(env, ty, p), [])
  }

  function InspectLeaf(env: Env, order: Documents.Iteration, ty: Ty, p: Py): Node
    requires Documents.Iterates(order)
    decreases ty, 0
  {
    match ty
    case BoxT(inner) => InspectLeaf(env, order, inner, p)
    case OptionT(inner) => if p.PyNone? then FINE else InspectLeaf(env, order, inner, p)
    case VecT(item) =>
      (match Iterated(order, p)
       case None => Bad(WrongType)
       case Some(items) => Node(None, Leaves(env, order, item, items, 0)))
    case _ => InspectScalar(env, order, ty, p)
  }

  function Leaves(env: Env, order: Documents.Iteration, ty: Ty, items: seq<Py>, from: nat): seq<Part>
    requires Documents.Iterates(order) && from <= |items|
    decreases ty, 1, |items| - from
  {
    if from == |items| then []
    else [Part(IndexSegment(from), InspectLeaf(env, order, ty, items[from]))] + Leaves(env, order, ty, items, from + 1)
  }

  function Items(env: Env, order: Documents.Iteration, ty: Ty, p: Py, from: nat): seq<Part>
    requires Documents.Iterates(order) && p.PyList? && from <= |p.items|
    decreases p, 0, |p.items| - from
  {
    if from == |p.items| then []
    else [Part(IndexSegment(from), Inspect(env, order, ty, p.items[from]))] + Items(env, order, ty, p, from + 1)
  }

  function InspectKey(ty: Ty, key: Py): Node {
    if !IsKeyType(ty) then Bad(UnsupportedKey) else if key.PyStr? then FINE else Bad(WrongType)
  }

  function Entries(env: Env, order: Documents.Iteration, ty: Ty, p: Py, keys: seq<Py>, from: nat): seq<Part>
    requires Documents.Iterates(order) && ty.MapT? && p.PyDict? && from <= |keys|
    requires forall key | key in keys :: key in p.entries
    decreases p, 0, |keys| - from
  {
    if from == |keys| then []
    else
      [Part(MapKey(from), InspectKey(ty.key, keys[from]))]
      + [Part(MapValue(from), Inspect(env, order, ty.value, p.entries[keys[from]]))]
      + Entries(env, order, ty, p, keys, from + 1)
  }

  // The members given, in declaration order.
  function Given(env: Env, order: Documents.Iteration, fields: seq<Field>, p: Py): seq<Part>
    requires Documents.Iterates(order) && p.PyDict?
    decreases p, 0, |fields|
  {
    if fields == [] then []
    else
      (match DictValue(p, fields[0].name)
       case Some(value) => [Part(FieldSegment(fields[0].name), Inspect(env, order, fields[0].ty, value))]
       case None => [])
      + Given(env, order, fields[1..], p)
  }

  // The required members that are absent; they are looked for after the given ones.
  function Absent(fields: seq<Field>, p: Py): seq<Part>
    requires p.PyDict?
  {
    if fields == [] then []
    else
      (if DictValue(p, fields[0].name).None? && !fields[0].optional && fields[0].fallback.None?
       then [Part(FieldSegment(fields[0].name), Bad(MissingMember))] else [])
      + Absent(fields[1..], p)
  }

  // The union's one part: the first variant present. A payload of None is no variant.
  function InspectVariants(env: Env, order: Documents.Iteration, variants: seq<Variant>, p: Py): Node
    requires Documents.Iterates(order) && p.PyDict?
    decreases p, 0, |variants|
  {
    if variants == [] then Bad(UnknownVariantKey)
    else
      var key := variants[0].key;
      match variants[0].payload
      case None =>
        if PyStr(key) !in p.entries then InspectVariants(env, order, variants[1..], p)
        else Node(None, [Part(FieldSegment(key), if p.entries[PyStr(key)] == PyNone then FINE else Bad(UnitNeedsNone))])
      case Some(ty) =>
        match DictValue(p, key)
        case None => InspectVariants(env, order, variants[1..], p)
        case Some(value) => Node(None, [Part(FieldSegment(key), Inspect(env, order, ty, value))])
  }

  function Inspect(env: Env, order: Documents.Iteration, ty: Ty, p: Py): Node
    requires Documents.Iterates(order)
    decreases p, 2, ty
  {
    match ty
    case BoxT(inner) => Inspect(env, order, inner, p)
    case OptionT(inner) => if p.PyNone? then FINE else Inspect(env, order, inner, p)
    case VecT(item) =>
      if p.PyList? then Node(None, Items(env, order, item, p, 0))
      else
        (match Iterated(order, p)
         case None => Bad(WrongType)
         case Some(leaves) => Node(None, Leaves(env, order, item, leaves, 0)))
    case MapT(_, _) =>
      if !p.PyDict? then Bad(WrongType) else Node(None, Entries(env, order, ty, p, order(p.entries), 0))
    case StructT(name) =>
      if !p.PyDict? || name !in env.structs then Bad(WrongType)
      else Node(None, Given(env, order, env.structs[name], p) + Absent(env.structs[name], p))
    case UnionT(name) =>
      if !p.PyDict? || name !in env.unions then Bad(WrongType)
      else if |p.entries| != 1 then Bad(NotOneVariant)
      else InspectVariants(env, order, env.unions[name], p)
    case _ => InspectScalar(env, order, ty, p)
  }

  // ---------- The first fault in preorder ----------

  function FirstFault(node: Node): Option<InputError>
    decreases node
  {
    match node.fault
    case Some(reason) => Some(InputError([], reason))
    case None => FirstIn(node.parts)
  }

  function FirstIn(parts: seq<Part>): Option<InputError>
    decreases parts
  {
    if parts == [] then None
    else
      var part := parts[0];
      assert part.node < part;
      match FirstFault(part.node)
      case Some(error) => Some(InputError([part.segment] + error.path, error.reason))
      case None => FirstIn(parts[1..])
  }

  // Positions lead from a node through the parts of parts.
  ghost predicate Valid(node: Node, at: seq<nat>)
    decreases |at|
  {
    at == [] || (at[0] < |node.parts| && Valid(node.parts[at[0]].node, at[1..]))
  }

  ghost function NodeAt(node: Node, at: seq<nat>): Node
    requires Valid(node, at)
    decreases |at|
  {
    if at == [] then node else NodeAt(node.parts[at[0]].node, at[1..])
  }

  ghost function PathTo(node: Node, at: seq<nat>): seq<Segment>
    requires Valid(node, at)
    decreases |at|
  {
    if at == [] then [] else [node.parts[at[0]].segment] + PathTo(node.parts[at[0]].node, at[1..])
  }

  // Iteration order: a node before its parts, and earlier parts before later ones.
  ghost predicate Earlier(a: seq<nat>, b: seq<nat>)
    decreases |a|
  {
    if a == [] then b != []
    else b != [] && (a[0] < b[0] || (a[0] == b[0] && Earlier(a[1..], b[1..])))
  }

  ghost predicate Faulty(node: Node, at: seq<nat>) {
    Valid(node, at) && NodeAt(node, at).fault.Some?
  }

  // The node the error names: at the end of its path, with its reason, and the first at fault.
  ghost predicate Culprit(node: Node, at: seq<nat>, error: InputError) {
    && Faulty(node, at)
    && PathTo(node, at) == error.path && NodeAt(node, at).fault == Some(error.reason)
    && forall other | Faulty(node, other) && other != at :: Earlier(at, other)
  }

  lemma {:induction false} NoFaultInside(node: Node, at: seq<nat>)
    requires FirstFault(node).None? && Valid(node, at)
    ensures NodeAt(node, at).fault.None?
    decreases |at|
  {
    if at != [] {
      NoFaultAmong(node.parts, at[0]);
      NoFaultInside(node.parts[at[0]].node, at[1..]);
    }
  }

  lemma {:induction false} NoFaultAmong(parts: seq<Part>, i: nat)
    requires FirstIn(parts).None? && i < |parts|
    ensures FirstFault(parts[i].node).None?
    decreases i
  {
    if i > 0 {
      NoFaultAmong(parts[1..], i - 1);
    }
  }

  // The part that holds the first fault.
  lemma {:induction false} FaultyPart(parts: seq<Part>) returns (i: nat)
    requires FirstIn(parts).Some?
    ensures i < |parts| && FirstFault(parts[i].node).Some?
    ensures var inner := FirstFault(parts[i].node).value;
            FirstIn(parts).value == InputError([parts[i].segment] + inner.path, inner.reason)
    ensures forall j | 0 <= j < i :: FirstFault(parts[j].node).None?
  {
    hide FirstFault;
    if FirstFault(parts[0].node).Some? {
      i := 0;
    } else {
      var k := FaultyPart(parts[1..]);
      i := k + 1;
      forall j | 0 <= j < i
        ensures FirstFault(parts[j].node).None?
      {
        if j > 0 {
          assert parts[j] == parts[1..][j - 1];
        }
      }
    }
  }

  lemma {:induction false} FirstFaultIsFirst(node: Node) returns (at: seq<nat>)
    requires FirstFault(node).Some?
    ensures Culprit(node, at, FirstFault(node).value)
    decreases node
  {
    if node.fault.Some? {
      at := [];
    } else {
      var i := FaultyPart(node.parts);
      var inner := FirstFaultIsFirst(node.parts[i].node);
      at := [i] + inner;
      assert at[1..] == inner;
      CulpritInPart(node, i, inner, FirstFault(node.parts[i].node).value);
    }
  }

  lemma CulpritInPart(node: Node, i: nat, inner: seq<nat>, error: InputError)
    requires node.fault.None? && i < |node.parts| && Culprit(node.parts[i].node, inner, error)
    requires forall j | 0 <= j < i :: FirstFault(node.parts[j].node).None?
    ensures Culprit(node, [i] + inner, InputError([node.parts[i].segment] + error.path, error.reason))
  {
    hide FirstFault;
    var at := [i] + inner;
    assert at[1..] == inner;
    forall other | Faulty(node, other) && other != at
      ensures Earlier(at, other)
    {
      assert other != [];
      if other[0] < i {
        NoFaultInside(node.parts[other[0]].node, other[1..]);
      } else if other[0] == i {
        assert other == [other[0]] + other[1..];
        assert Faulty(node.parts[i].node, other[1..]) && other[1..] != inner;
      }
    }
  }

  // ---------- The converters report it ----------

  ghost predicate Reports<T>(r: Converted<T>, node: Node) {
    match r
    case Success(_) => FirstFault(node).None?
    case Failure(error) => FirstFault(node) == Some(error)
  }

  ghost predicate ReportsIn<T>(r: Converted<T>, parts: seq<Part>) {
    match r
    case Success(_) => FirstIn(parts).None?
    case Failure(error) => FirstIn(parts) == Some(error)
  }

  lemma FineAndBad(reason: Reason)
    ensures FirstFault(FINE).None? && FirstFault(Bad(reason)) == Some(InputError([], reason))
  {
  }

  // One part in front of the others.
  lemma FirstPart(segment: Segment, node: Node, rest: seq<Part>)
    ensures FirstIn([Part(segment, node)] + rest) ==
            match FirstFault(node)
            case Some(error) => Some(InputError([segment] + error.path, error.reason))
            case None => FirstIn(rest)
  {
    hide FirstFault;
    var parts := [Part(segment, node)] + rest;
    assert parts[1..] == rest;
  }

  lemma {:induction false} DocumentReports(order: Documents.Iteration, p: Py, depth: nat)
    requires Documents.Iterates(order)
    ensures Reports(Documents.FromPy(order, p, depth), InspectDocument(order, p, depth))
    decreases p, 1
  {
    hide Documents.FromItems, Documents.FromEntries, DocumentItems, DocumentEntries, FirstIn;
    if depth <= Documents.MAX_DEPTH {
      match p
      case PyList(items) => DocumentItemsReport(order, p, 0, depth);
      case PyDict(entries) => DocumentEntriesReport(order, p, order(entries), 0, depth);
      case _ =>
        assert FirstIn([]).None? by {
          NoParts();
        }
    }
  }

  lemma NoParts()
    ensures FirstIn([]).None?
  {
  }

  lemma {:induction false} DocumentItemsReport(order: Documents.Iteration, p: Py, from: nat, depth: nat)
    requires Documents.Iterates(order) && p.PyList? && from <= |p.items|
    ensures ReportsIn(Documents.FromItems(order, p, from, depth), DocumentItems(order, p, from, depth))
    decreases p, 0, |p.items| - from
  {
    hide Documents.FromPy, InspectDocument, FirstFault, FirstIn;
    if from == |p.items| {
      NoParts();
    } else {
      DocumentReports(order, p.items[from], depth + 1);
      DocumentItemsReport(order, p, from + 1, depth);
      FirstPart(IndexSegment(from), InspectDocument(order, p.items[from], depth + 1),
                DocumentItems(order, p, from + 1, depth));
    }
  }

  lemma {:induction false} DocumentEntriesReport(order: Documents.Iteration, p: Py, keys: seq<Py>, from: nat,
                                                 depth: nat)
    requires Documents.Iterates(order) && p.PyDict? && from <= |keys|
    requires forall key | key in keys :: key in p.entries
    ensures ReportsIn(Documents.FromEntries(order, p, keys, from, depth), DocumentEntries(order, p, keys, from, depth))
    decreases p, 0, |keys| - from
  {
    hide Documents.FromPy, InspectDocument, FirstFault, FirstIn, Documents.Iterates;
    if from == |keys| {
      NoParts();
    } else {
      var key, value := keys[from], p.entries[keys[from]];
      DocumentReports(order, value, depth + 1);
      DocumentEntriesReport(order, p, keys, from + 1, depth);
      FineAndBad(WrongType);
      EntryParts(from, if key.PyStr? then FINE else Bad(WrongType), InspectDocument(order, value, depth + 1),
                 DocumentEntries(order, p, keys, from + 1, depth));
    }
  }

  // A key and its value in front of the other entries.
  lemma EntryParts(from: nat, key: Node, value: Node, rest: seq<Part>)
    ensures FirstIn([Part(MapKey(from), key)] + [Part(MapValue(from), value)] + rest) ==
            match FirstFault(key)
            case Some(error) => Some(InputError([MapKey(from)] + error.path, error.reason))
            case None =>
              match FirstFault(value)
              case Some(error) => Some(InputError([MapValue(from)] + error.path, error.reason))
              case None => FirstIn(rest)
  {
    hide FirstFault, FirstIn;
    FirstPart(MapValue(from), value, rest);
    FirstPart(MapKey(from), key, [Part(MapValue(from), value)] + rest);
    assert [Part(MapKey(from), key)] + [Part(MapValue(from), value)] + rest
        == [Part(MapKey(from), key)] + ([Part(MapValue(from), value)] + rest);
  }

  lemma ScalarReports(env: Env, order: Documents.Iteration, ty: Ty, p: Py)
    requires Documents.Iterates(order)
    ensures Reports(FromScalar(env, order, ty, p), InspectScalar(env, order, ty, p))
  {
    hide Documents.FromPy, InspectDocument, FromScalar, Refusal;
    if ty.DocumentT? {
      DocumentReports(order, p, 0);
      DocumentScalar(env, order, p);
    } else {
      NoParts();
      ScalarsRefused(env, order, ty, p);
    }
  }

  lemma {:induction false} LeafReports(env: Env, order: Documents.Iteration, ty: Ty, p: Py)
    requires Documents.Iterates(order)
    ensures Reports(FromLeaf(env, order, ty, p), InspectLeaf(env, order, ty, p))
    decreases ty, 0
  {
    hide FromScalar, InspectScalar, FromLeaves, Leaves, FirstIn;
    NoParts();
    match ty
    case BoxT(inner) => LeafReports(env, order, inner, p);
    case OptionT(inner) =>
      if !p.PyNone? {
        LeafReports(env, order, inner, p);
      }
    case VecT(item) =>
      if Iterated(order, p).Some? {
        LeavesReport(env, order, item, Iterated(order, p).value, 0);
      }
    case _ => ScalarReports(env, order, ty, p);
  }

  lemma {:induction false} LeavesReport(env: Env, order: Documents.Iteration, ty: Ty, items: seq<Py>, from: nat)
    requires Documents.Iterates(order) && from <= |items|
    ensures ReportsIn(FromLeaves(env, order, ty, items, from), Leaves(env, order, ty, items, from))
    decreases ty, 1, |items| - from
  {
    hide FromLeaf, InspectLeaf, FirstFault, FirstIn;
    if from == |items| {
      NoParts();
    } else {
      LeafReports(env, order, ty, items[from]);
      LeavesReport(env, order, ty, items, from + 1);
      FirstPart(IndexSegment(from), InspectLeaf(env, order, ty, items[from]), Leaves(env, order, ty, items, from + 1));
    }
  }

  lemma {:induction false} ItemsReport(env: Env, order: Documents.Iteration, ty: Ty, p: Py, from: nat)
    requires Documents.Iterates(order) && p.PyList? && from <= |p.items|
    ensures ReportsIn(FromItems(env, order, ty, p, from), Items(env, order, ty, p, from))
    decreases p, 0, |p.items| - from
  {
    hide FromPy, Inspect, FirstFault, FirstIn;
    if from == |p.items| {
      NoParts();
    } else {
      InputReports(env, order, ty, p.items[from]);
      ItemsReport(env, order, ty, p, from + 1);
      FirstPart(IndexSegment(from), Inspect(env, order, ty, p.items[from]), Items(env, order, ty, p, from + 1));
    }
  }

  lemma {:induction false} EntriesReport(env: Env, order: Documents.Iteration, ty: Ty, p: Py, keys: seq<Py>, from: nat)
    requires Documents.Iterates(order) && ty.MapT? && p.PyDict? && from <= |keys|
    requires forall key | key in keys :: key in p.entries
    ensures ReportsIn(FromEntries(env, order, ty, p, keys, from), Entries(env, order, ty, p, keys, from))
    decreases p, 0, |keys| - from
  {
    hide FromPy, Inspect, FirstFault, FirstIn, Documents.Iterates;
    if from == |keys| {
      NoParts();
    } else {
      var key, value := keys[from], p.entries[keys[from]];
      InputReports(env, order, ty.value, value);
      EntriesReport(env, order, ty, p, keys, from + 1);
      FineAndBad(WrongType);
      FineAndBad(UnsupportedKey);
      EntryParts(from, InspectKey(ty.key, key), Inspect(env, order, ty.value, value),
                 Entries(env, order, ty, p, keys, from + 1));
    }
  }

  function MissingError(missing: Option<string>): Option<InputError> {
    if missing.Some? then Some(InputError([FieldSegment(missing.value)], MissingMember)) else None
  }

  // The given members report first; the first absent one is the builder's.
  lemma {:induction false} FieldsReport(env: Env, order: Documents.Iteration, fields: seq<Field>, p: Py)
    requires Documents.Iterates(order) && p.PyDict?
    ensures var r := FromFields(env, order, fields, p);
            && ReportsIn(r, Given(env, order, fields, p))
            && (r.Success? ==> FirstIn(Absent(fields, p)) == MissingError(r.value.missing))
    decreases p, 0, |fields|
  {
    hide FromPy, Inspect, FirstFault, FirstIn, DictValue, Documents.Iterates;
    NoParts();
    if fields != [] {
      var f, rest := fields[0], fields[1..];
      FieldsReport(env, order, rest, p);
      var value := DictValue(p, f.name);
      assert [] + Absent(rest, p) == Absent(rest, p);
      if value.Some? {
        ValueIsInside(p, f.name);
        InputReports(env, order, f.ty, value.value);
        FirstPart(FieldSegment(f.name), Inspect(env, order, f.ty, value.value), Given(env, order, rest, p));
      } else {
        assert [] + Given(env, order, rest, p) == Given(env, order, rest, p);
        FineAndBad(MissingMember);
        FirstPart(FieldSegment(f.name), Bad(MissingMember), Absent(rest, p));
        assert [FieldSegment(f.name)] + [] == [FieldSegment(f.name)];
      }
    }
  }

  lemma ValueIsInside(p: Py, name: string)
    requires p.PyDict? && DictValue(p, name).Some?
    ensures DictValue(p, name).value < p
  {
  }

  lemma {:induction false} PartsInTurn(first: seq<Part>, second: seq<Part>)
    ensures FirstIn(first + second) == if FirstIn(first).Some? then FirstIn(first) else FirstIn(second)
  {
    hide FirstFault;
    if first == [] {
      assert first + second == second;
    } else {
      PartsInTurn(first[1..], second);
      assert (first + second)[1..] == first[1..] + second;
    }
  }

  lemma {:induction false} VariantsReport(env: Env, order: Documents.Iteration, variants: seq<Variant>, p: Py)
    requires Documents.Iterates(order) && p.PyDict?
    ensures Reports(FromVariants(env, order, variants, p), InspectVariants(env, order, variants, p))
    decreases p, 0, |variants|
  {
    hide FromPy, Inspect, FirstIn, Documents.Iterates, DictValue;
    NoParts();
    if variants != [] {
      VariantsReport(env, order, variants[1..], p);
      var key := variants[0].key;
      FirstPartOnly(FieldSegment(key), FINE);
      FirstPartOnly(FieldSegment(key), Bad(UnitNeedsNone));
      if variants[0].payload.Some? && DictValue(p, key).Some? {
        ValueIsInside(p, key);
        var value := DictValue(p, key).value;
        InputReports(env, order, variants[0].payload.value, value);
        FirstPartOnly(FieldSegment(key), Inspect(env, order, variants[0].payload.value, value));
      }
    }
  }

  lemma FirstPartOnly(segment: Segment, node: Node)
    ensures FirstIn([Part(segment, node)]) ==
            match FirstFault(node)
            case Some(error) => Some(InputError([segment] + error.path, error.reason))
            case None => None
  {
    hide FirstFault, FirstIn;
    NoParts();
    FirstPart(segment, node, []);
    assert [Part(segment, node)] + [] == [Part(segment, node)];
  }

  lemma {:induction false} InputReports(env: Env, order: Documents.Iteration, ty: Ty, p: Py)
    requires Documents.Iterates(order)
    ensures Reports(FromPy(env, order, ty, p), Inspect(env, order, ty, p))
    decreases p, 2, ty
  {
    hide FromScalar, InspectScalar, FromLeaves, Leaves, FromItems, Items, FromEntries, Entries, FromFields, Given,
        Absent,
      FromVariants, InspectVariants, FirstIn;
    NoParts();
    match ty
    case BoxT(inner) => InputReports(env, order, inner, p);
    case OptionT(inner) =>
      if !p.PyNone? {
        InputReports(env, order, inner, p);
      }
    case VecT(item) =>
      if p.PyList? {
        ItemsReport(env, order, item, p, 0);
      } else if Iterated(order, p).Some? {
        LeavesReport(env, order, item, Iterated(order, p).value, 0);
      }
    case MapT(_, _) =>
      if p.PyDict? {
        EntriesReport(env, order, ty, p, order(p.entries), 0);
      }
    case StructT(name) =>
      if p.PyDict? && name in env.structs {
        FieldsReport(env, order, env.structs[name], p);
        PartsInTurn(Given(env, order, env.structs[name], p), Absent(env.structs[name], p));
        assert forall field: string :: [FieldSegment(field)] + [] == [FieldSegment(field)];
      }
    case UnionT(name) =>
      if p.PyDict? && name in env.unions {
        VariantsReport(env, order, env.unions[name], p);
      }
    case _ => ScalarReports(env, order, ty, p);
  }

  /**
   * A conversion fails exactly when some node of the input is at fault, and the error's path
   * then leads to the first such node in iteration order, with that node's reason.
   */
  lemma ErrorsNameTheCulprit(env: Env, order: Documents.Iteration, ty: Ty, p: Py)
    requires Documents.Iterates(order)
    ensures var r, root := FromPy(env, order, ty, p), Inspect(env, order, ty, p);
            && (r.Success? <==> forall at :: !Faulty(root, at))
            && (r.Failure? ==> exists at :: Culprit(root, at, r.error))
  {
    hide FromPy, Inspect, FirstFault;
    var r, root := FromPy(env, order, ty, p), Inspect(env, order, ty, p);
    InputReports(env, order, ty, p);
    if r.Success? {
      forall at
        ensures !Faulty(root, at)
      {
        if Valid(root, at) {
          NoFaultInside(root, at);
        }
      }
    } else {
      var at := FirstFaultIsFirst(root);
      assert Culprit(root, at, r.error);
    }
  }
}
