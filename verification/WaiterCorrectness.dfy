/** Compiled waiter expressions evaluate to the meaning of their sources. */
module WaiterCorrectness {
  import opened Wrappers
  import opened PyValues
  import opened Smithy
  import opened WaiterCompiler
  import opened WaiterRuntime
  import opened Responses
  import opened WaiterMeaning
  import WaiterTyping

  // Every flatten in the expression has items that are not of kind "set": the compiler
  // types one level less for lists only, while the evaluator splices both.
  predicate FlattensNoSets(svc: Service, node: Node, context: Type)
    decreases node, 1
  {
    match node.kind
    case Subexpression => ChainFlattensNoSets(svc, node.children, context)
    case IndexExpression => ChainFlattensNoSets(svc, node.children, context)
    case Flatten =>
      |node.children| >= 1 ==>
        && FlattensNoSets(svc, node.children[0], context)
        && !FlattensSet(svc, node.children[0], context)
    case Projection => ProjectionFlattensNoSets(svc, node, context)
    case FilterProjection => ProjectionFlattensNoSets(svc, node, context)
    case _ => forall child | child in node.children :: FlattensNoSets(svc, child, context)
  }

  predicate FlattensSet(svc: Service, collection: Node, context: Type) {
    var compiled := Compile(svc, collection, context);
    compiled.Success? &&
    var item := ItemOf(svc, compiled.value.ty);
    item.Success? && KindOf(svc, item.value) == Success(SetKind)
  }

  predicate ChainFlattensNoSets(svc: Service, nodes: seq<Node>, context: Type)
    decreases nodes, 0
  {
    nodes == [] ||
    (FlattensNoSets(svc, nodes[0], context) &&
     var head := Compile(svc, nodes[0], context);
     head.Success? ==> ChainFlattensNoSets(svc, nodes[1..], head.value.ty))
  }

  predicate ProjectionFlattensNoSets(svc: Service, node: Node, context: Type)
    decreases node, 0
  {
    |node.children| >= 1 ==>
      FlattensNoSets(svc, node.children[0], context) &&
      var collection := Compile(svc, node.children[0], context);
      collection.Success? ==>
        var item := ItemOf(svc, collection.value.ty);
        item.Success? ==> forall i | 1 <= i < |node.children| :: FlattensNoSets(svc, node.children[i], item.value)
  }

  // The evaluator's form of a value: null is its private sentinel.
  function OutcomeOf(svc: Service, v: Value, t: Type): Outcome {
    if v.Null? then Missing else Val(Represent(svc, v, t))
  }

  // A value the theorems speak about: present, of the type, with no null item in reach.
  ghost predicate Fits(svc: Service, v: Value, t: Type, listed: bool) {
    !v.Null? && Conforms(svc, v, t) && DenseAt(svc, v, t, listed)
  }

  // The answer is of the type, and the evaluator's outcome is its Python form.
  ghost predicate Agrees(svc: Service, answer: Answer, outcome: Outcome, t: Type) {
    && answer.Answer?
    && Conforms(svc, answer.value, t)
    && outcome == OutcomeOf(svc, answer.value, t)
  }

  // Agreement as it is kept through an expression: the answer has no null item in reach either.
  ghost predicate AgreesAt(svc: Service, answer: Answer, outcome: Outcome, t: Type, listed: bool) {
    Agrees(svc, answer, outcome, t) && DenseAt(svc, answer.value, t, listed)
  }

  lemma OnlyNullIsNone(svc: Service, v: Value, t: Type)
    requires Conforms(svc, v, t)
    ensures Represent(svc, v, t) == PyNone <==> v.Null?
  {}

  function RepresentAll(svc: Service, items: seq<Value>, t: Type): seq<Py> {
    seq(|items|, i requires 0 <= i < |items| => Represent(svc, items[i], t))
  }

  lemma ListRepresented(svc: Service, items: seq<Value>, t: Type)
    ensures Represent(svc, List(items), t) == PyList(RepresentAll(svc, items, ElementType(svc, t)))
  {
    assert Represent(svc, List(items), t).items == RepresentAll(svc, items, ElementType(svc, t));
  }

  lemma StructFieldAgrees(svc: Service, shape: Shape, member: Member, t: Type, v: Value)
    requires DistinctNames(svc, shape) && member in shape.members
    requires v.Struct? && TargetShape(svc, t) == Some(shape)
    requires Conforms(svc, FieldOf(v.fields, member.name), Plain(member.target, t.dictionary))
    ensures ReadField(svc.Exposed(shape, member, t.dictionary), Represent(svc, v, t))
         == OutcomeOf(svc, FieldOf(v.fields, member.name), Plain(member.target, t.dictionary))
  {
    FieldRepresented(svc, shape, shape.members, v, t.dictionary, member);
    OnlyNullIsNone(svc, FieldOf(v.fields, member.name), Plain(member.target, t.dictionary));
  }

  lemma TaggedFieldAgrees(svc: Service, shape: Shape, member: Member, t: Type, v: Value)
    requires DistinctNames(svc, shape) && member in shape.members && shape.kind.Union?
    requires FindMember(shape.members, member.name) == Some(member)
    requires v.Tagged? && TargetShape(svc, t) == Some(shape) && Conforms(svc, v, t)
    ensures ReadField(svc.Exposed(shape, member, true), Represent(svc, v, t))
         == OutcomeOf(svc, if v.member == member.name then v.payload else Null, Plain(member.target, true))
  {
    var stored := FindMember(shape.members, v.member).value;
    OnlyNullIsNone(svc, v.payload, Plain(stored.target, true));
    assert svc.Exposed(shape, stored, true) == stored.rustName;
    assert member != stored ==> svc.Exposed(shape, member, true) != svc.Exposed(shape, stored, true);
  }

  lemma FoundAgain(members: seq<Member>, name: string)
    requires FindMember(members, name).Some?
    ensures FindMember(members, FindMember(members, name).value.name) == FindMember(members, name)
  {}

  lemma UnknownFieldAgrees(svc: Service, shape: Shape, member: Member, t: Type, v: Value)
    requires DistinctNames(svc, shape) && member in shape.members && shape.kind.Union?
    requires v.UnknownVariant?
    ensures ReadField(svc.Exposed(shape, member, true), Represent(svc, v, t)) == Missing
  {
    assert svc.Exposed(shape, member, true) != "unknown";
  }

  lemma FieldAgrees(svc: Service, value: Lit, t: Type, v: Value)
    requires WellNamed(svc) && !v.Null? && Conforms(svc, v, t)
    requires CompileField(svc, value, t).Success?
    ensures var typed := CompileField(svc, value, t).value;
            Agrees(svc, MeaningOfField(value.text, v), ReadField(typed.expr.value.text, Represent(svc, v, t)), typed.ty)
  {
    hide Represent, ReadField, DistinctNames;
    var shape := TargetShape(svc, t).value;
    var member := FindMember(shape.members, value.text).value;
    assert DistinctNames(svc, shape);
    FoundAgain(shape.members, value.text);
    if v.Struct? {
      StructFieldAgrees(svc, shape, member, t, v);
    } else if v.Tagged? {
      TaggedFieldAgrees(svc, shape, member, t, v);
    } else {
      UnknownFieldAgrees(svc, shape, member, t, v);
    }
  }

  lemma FieldStaysDense(svc: Service, value: Lit, t: Type, v: Value, listed: bool)
    requires Fits(svc, v, t, listed) && CompileField(svc, value, t).Success? && MeaningOfField(value.text, v).Answer?
    ensures DenseAt(svc, MeaningOfField(value.text, v).value, CompileField(svc, value, t).value.ty, listed)
  {
    FoundAgain(TargetShape(svc, t).value.members, value.text);
  }

  lemma {:induction false} ListedIsStronger(svc: Service, v: Value, t: Type)
    requires DenseAt(svc, v, t, true)
    ensures DenseAt(svc, v, t, false)
    decreases v
  {
    match v
    case Struct(fields) =>
      if TargetShape(svc, t).Some? {
        var shape := TargetShape(svc, t).value;
        forall key | key in fields && FindMember(shape.members, key).Some?
          ensures DenseAt(svc, fields[key], Plain(FindMember(shape.members, key).value.target, t.dictionary), false)
        {
          ListedIsStronger(svc, fields[key], Plain(FindMember(shape.members, key).value.target, t.dictionary));
        }
      }
    case Tagged(name, payload) =>
      if TargetShape(svc, t).Some? {
        var member := FindMember(TargetShape(svc, t).value.members, name);
        if member.Some? {
          ListedIsStronger(svc, payload, Plain(member.value.target, true));
        }
      }
    case _ =>
  }

  lemma IndexAgrees(svc: Service, index: int, t: Type, v: Value, listed: bool)
    requires Fits(svc, v, t, listed) && ItemOf(svc, t).Success?
    ensures AgreesAt(svc, MeaningOfIndex(index, v), ReadIndex(index, Represent(svc, v, t)), ItemOf(svc, t).value,
                     listed)
  {
    hide DenseAt;
    ItemsFit(svc, v, t, listed);
    NullAgrees(svc, ItemOf(svc, t).value, listed);
    var item := AtIndex(v.items, index);
    if item.Some? {
      assert item.value in v.items;
      ListedIsStronger(svc, item.value, ItemOf(svc, t).value);
    }
  }

  // What one item contributes to a flatten.
  function Spliced(v: Value): seq<Value> {
    if v.List? then v.items else [v]
  }

  // How a flatten is typed: items of kind "list" lose one level.
  predicate Unwrapped(svc: Service, item: Type, element: Type) {
    var kind := KindOf(svc, item);
    && kind.Success?
    && (if kind.value.ListKind? then ItemOf(svc, item) == Success(element) else item == element)
  }

  predicate Unwraps(svc: Service, item: Type, element: Type) {
    Unwrapped(svc, item, element) && KindOf(svc, item) != Success(SetKind)
  }

  lemma ItemIsElement(svc: Service, t: Type)
    requires ItemOf(svc, t).Success?
    ensures ElementType(svc, t) == ItemOf(svc, t).value
  {}

  lemma SplicedConforms(svc: Service, v: Value, item: Type, element: Type)
    requires Unwraps(svc, item, element) && Conforms(svc, v, item)
    ensures forall x | x in Spliced(v) :: Conforms(svc, x, element)
    ensures FlattenItems([Represent(svc, v, item)]) == RepresentAll(svc, Spliced(v), element)
  {
    var represented := Represent(svc, v, item);
    assert [represented][1..] == [];
    assert FlattenItems([represented]) == if represented.PyList? then represented.items else [represented];
    if v.List? {
      ListRepresented(svc, v.items, item);
      if KindOf(svc, item).value.ListKind? {
        ItemIsElement(svc, item);
      }
    }
  }

  lemma SplicedDense(svc: Service, v: Value, item: Type, element: Type)
    requires Unwraps(svc, item, element) && Fits(svc, v, item, true)
    ensures forall x | x in Spliced(v) :: !x.Null? && DenseAt(svc, x, element, true)
  {
    if v.List? && KindOf(svc, item).value.ListKind? {
      assert ItemOf(svc, item) == Success(element);
    } else if !v.List? {
      assert item == element;
    } else {
      forall x | x in v.items
        ensures !x.Null? && DenseAt(svc, x, element, true)
      {
        assert ItemOf(svc, item).Failure? && IsJson(v);
        assert DenseArrays(x) && IsJson(x);
      }
    }
  }

  lemma FlattenItemsOfConcat(a: Py, rest: seq<Py>)
    ensures FlattenItems([a] + rest) == FlattenItems([a]) + FlattenItems(rest)
  {
    assert ([a] + rest)[1..] == rest && [a][1..] == [];
  }

  lemma RepresentConcat(svc: Service, a: seq<Value>, b: seq<Value>, t: Type)
    ensures RepresentAll(svc, a + b, t) == RepresentAll(svc, a, t) + RepresentAll(svc, b, t)
  {}

  lemma RepresentOne(svc: Service, x: Value, t: Type)
    ensures RepresentAll(svc, [x], t) == [Represent(svc, x, t)]
  {}

  lemma {:induction false} FlattenRepresented(svc: Service, items: seq<Value>, item: Type, element: Type)
    requires Unwraps(svc, item, element)
    requires forall x | x in items :: Conforms(svc, x, item)
    ensures FlattenItems(RepresentAll(svc, items, item)) == RepresentAll(svc, Flattened(items), element)
    ensures forall x | x in Flattened(items) :: Conforms(svc, x, element)
  {
    hide Conforms, Represent, Unwraps, FlattenItems;
    if items == [] {
      NothingFlattened(svc, item, element);
    } else {
      var rest := items[1..];
      FlattenRepresented(svc, rest, item, element);
      SplicedConforms(svc, items[0], item, element);
      FlattenItemsOfConcat(Represent(svc, items[0], item), RepresentAll(svc, rest, item));
      assert RepresentAll(svc, items, item) == [Represent(svc, items[0], item)] + RepresentAll(svc, rest, item);
      RepresentConcat(svc, Spliced(items[0]), Flattened(rest), element);
      assert Flattened(items) == Spliced(items[0]) + Flattened(rest);
    }
  }

  lemma NothingFlattened(svc: Service, item: Type, element: Type)
    ensures FlattenItems(RepresentAll(svc, [], item)) == RepresentAll(svc, Flattened([]), element)
    ensures Flattened([]) == []
  {}

  lemma {:induction false} FlattenedDense(svc: Service, items: seq<Value>, item: Type, element: Type)
    requires Unwraps(svc, item, element)
    requires forall x | x in items :: Fits(svc, x, item, true)
    ensures forall x | x in Flattened(items) :: !x.Null? && DenseAt(svc, x, element, true)
  {
    hide Fits, DenseAt, Unwraps;
    if items != [] {
      FlattenedDense(svc, items[1..], item, element);
      SplicedDense(svc, items[0], item, element);
      assert Flattened(items) == Spliced(items[0]) + Flattened(items[1..]);
    }
  }

  lemma SameSize(entries: map<string, Py>)
    ensures |StringKeys(entries)| == |entries|
  {
    var keys := set name | name in entries :: PyStr(name);
    assert StringKeys(entries).Keys == keys;
    SameSizeSets(entries.Keys, keys);
  }

  lemma SameSizeSets(names: set<string>, keys: set<Py>)
    requires keys == set name | name in names :: PyStr(name)
    ensures |keys| == |names|
  {
    if names != {} {
      var name :| name in names;
      SameSizeSets(names - {name}, keys - {PyStr(name)});
    }
  }

  lemma MappingForm(svc: Service, entries: map<string, Value>, t: Type, form: map<string, Py>)
    requires form == map key | key in entries :: Represent(svc, entries[key], ElementType(svc, t))
    ensures Represent(svc, Mapping(entries), t) == PyDict(StringKeys(form))
  {
    assert Represent(svc, Mapping(entries), t).entries == StringKeys(form);
  }

  lemma MappingLength(svc: Service, entries: map<string, Value>, t: Type)
    ensures LengthOf(Represent(svc, Mapping(entries), t)) == Some(|entries|)
  {
    hide Represent, StringKeys, ElementType;
    var form := map key | key in entries :: Represent(svc, entries[key], ElementType(svc, t));
    SameSize(form);
    assert form.Keys == entries.Keys;
    assert |form.Keys| == |form| && |entries.Keys| == |entries|;
    MappingForm(svc, entries, t, form);
  }

  lemma LengthAgrees(svc: Service, t: Type, v: Value, kind: Kind)
    requires !v.Null? && Conforms(svc, v, t) && KindOf(svc, t) == Success(kind)
    requires IsCollection(kind) || kind.MapKind? || kind.StringKind?
    ensures MeaningOfLength(v).Answer? && MeaningOfLength(v).value.Int?
    ensures LengthOf(Represent(svc, v, t)) == Some(MeaningOfLength(v).value.number)
  {
    assert v.List? || v.Mapping? || v.Str?;
    if v.Mapping? {
      MappingLength(svc, v.entries, t);
    } else if v.List? {
      ListRepresented(svc, v.items, t);
    }
  }

  lemma LogicAgrees(svc: Service, kind: NodeKind, value: Lit, a: Answer, b: Answer, l: Outcome, r: Outcome, s: Type,
                    t: Type, listed: bool)
    requires kind.And? || kind.Or?
    requires AgreesAt(svc, a, l, s, listed) && AgreesAt(svc, b, r, t, listed)
    requires KindOf(svc, s) == Success(BooleanKind) && KindOf(svc, t) == Success(BooleanKind)
    ensures AgreesAt(svc, MeaningOfBinary(kind, value, a, b), Combine(kind, value, l, r),
                     Plain(Prelude(BooleanKind, false), false), listed)
  {}

  // A scalar and the outcome that carries it.
  predicate Carries(outcome: Outcome, v: Value) {
    match v
    case Null => outcome == Missing
    case Bool(b) => outcome == Val(PyBool(b))
    case Int(i) => outcome == Val(PyInt(i))
    case Flt(f) => outcome == Val(PyFloat(f))
    case Str(text) => outcome == Val(PyStr(text))
    case _ => false
  }

  lemma ScalarCarried(svc: Service, answer: Answer, outcome: Outcome, t: Type, kind: Kind)
    requires Agrees(svc, answer, outcome, t) && KindOf(svc, t) == Success(kind)
    requires IsNumeric(kind) || kind.StringKind? || kind.BooleanKind?
    ensures Carries(outcome, answer.value)
    ensures IsNumeric(kind) ==> answer.value.Null? || answer.value.Int? || answer.value.Flt?
    ensures kind.StringKind? ==> answer.value.Null? || answer.value.Str?
    ensures kind.BooleanKind? ==> answer.value.Null? || answer.value.Bool?
  {}

  // The operands a comparison was compiled for.
  predicate Comparable(op: Comparison, a: Kind, b: Kind) {
    (IsNumeric(a) && IsNumeric(b)) || (op in {Eq, Ne} && a == b && (a.StringKind? || a.BooleanKind?))
  }

  lemma ComparisonCarried(value: Lit, a: Value, b: Value, l: Outcome, r: Outcome)
    requires Carries(l, a) && Carries(r, b) && ComparisonOf(value).Some?
    requires MeaningOfComparison(ComparisonOf(value).value, a, b).Answer?
    ensures Carries(Combine(Comparator, value, l, r), MeaningOfComparison(ComparisonOf(value).value, a, b).value)
  {}

  lemma ComparisonIsBoolean(op: Comparison, a: Value, b: Value)
    requires || ((a.Null? || a.Int? || a.Flt?) && (b.Null? || b.Int? || b.Flt?))
             || (op in {Eq, Ne} && (a.Null? || a.Str?) && (b.Null? || b.Str?))
             || (op in {Eq, Ne} && (a.Null? || a.Bool?) && (b.Null? || b.Bool?))
    ensures var answer := MeaningOfComparison(op, a, b); answer.Answer? && (answer.value.Null? || answer.value.Bool?)
  {}

  lemma CarriedBoolean(svc: Service, v: Value, outcome: Outcome, listed: bool)
    requires Carries(outcome, v) && (v.Null? || v.Bool?)
    ensures AgreesAt(svc, Answer(v), outcome, Plain(Prelude(BooleanKind, false), false), listed)
  {}

  lemma ComparisonAgrees(svc: Service, value: Lit, a: Answer, b: Answer, l: Outcome, r: Outcome,
                         s: Type, t: Type, j: Kind, k: Kind, listed: bool)
    requires AgreesAt(svc, a, l, s, listed) && AgreesAt(svc, b, r, t, listed)
    requires KindOf(svc, s) == Success(j) && KindOf(svc, t) == Success(k)
    requires ComparisonOf(value).Some? && Comparable(ComparisonOf(value).value, j, k)
    ensures AgreesAt(svc, MeaningOfBinary(Comparator, value, a, b), Combine(Comparator, value, l, r),
                   Plain(Prelude(BooleanKind, false), false), listed)
  {
    hide Represent, Conforms, DenseAt, Carries, Combine, MeaningOfComparison;
    ScalarCarried(svc, a, l, s, j);
    ScalarCarried(svc, b, r, t, k);
    var op := ComparisonOf(value).value;
    ComparisonIsBoolean(op, a.value, b.value);
    ComparisonCarried(value, a.value, b.value, l, r);
    CarriedBoolean(svc, MeaningOfComparison(op, a.value, b.value).value, Combine(Comparator, value, l, r), listed);
  }

  lemma BooleanCompiled(svc: Service, node: Node, t: Type)
    requires node.kind in {Comparator, And, Or} && Compile(svc, node, t).Success?
    ensures var each := CompileEach(svc, node.children, t);
            && each.Success? && |each.value| >= 2
            && Compile(svc, node, t).value
                 == Typed(Expr(node.kind, node.value, Exprs(each.value)), Plain(Prelude(BooleanKind, false), false))
            && var j, k := KindOf(svc, each.value[0].ty), KindOf(svc, each.value[1].ty);
               && j.Success? && k.Success?
               && if node.kind.Comparator?
                  then ComparisonOf(node.value).Some? && Comparable(ComparisonOf(node.value).value, j.value, k.value)
                  else j.value == k.value == BooleanKind
  {
    hide Compile, CompileEach, KindOf, ExpectedAllowed;
    assert Compile(svc, node, t) == CompileBoolean(svc, node, t) by {
      BooleanDispatch(svc, node, t);
    }
    var parts := CompileEach(svc, node.children, t).value;
    WaiterTyping.KindsDecided(svc, parts);
    assert parts[0] in parts && parts[1] in parts;
  }

  lemma BooleanDispatch(svc: Service, node: Node, t: Type)
    requires node.kind in {Comparator, And, Or} && Compile(svc, node, t).Success?
    ensures Compile(svc, node, t) == CompileBoolean(svc, node, t)
  {
    hide CompileBoolean;
  }

  lemma BinaryStep(node: Node, expr: Expr, v: Value, context: Py)
    requires node.kind in {Comparator, And, Or} && |node.children| >= 2
    requires expr.kind == node.kind && expr.value == node.value && |expr.children| >= 2
    ensures Meaning(node, v) == MeaningOfBinary(node.kind, node.value, Meaning(node.children[0], v),
                                                Meaning(node.children[1], v))
    ensures Evaluate(expr, context)
         == Combine(node.kind, node.value, Evaluate(expr.children[0], context), Evaluate(expr.children[1], context))
  {
    hide MeaningOfBinary, Combine;
  }

  lemma {:induction false} BooleanAgrees(svc: Service, node: Node, t: Type, v: Value, listed: bool)
    requires WellNamed(svc) && Fits(svc, v, t, listed)
    requires node.kind in {Comparator, And, Or}
    requires Compile(svc, node, t).Success? && FlattensNoSets(svc, node, t)
    ensures var typed := Compile(svc, node, t).value;
            AgreesAt(svc, Meaning(node, v), Evaluate(typed.expr, Represent(svc, v, t)), typed.ty, listed)
    decreases node, 1
  {
    hide *;
    BooleanCompiled(svc, node, t);
    var parts := CompileEach(svc, node.children, t).value;
    var typed := Compile(svc, node, t).value;
    var context := Represent(svc, v, t);
    var a, b := Meaning(node.children[0], v), Meaning(node.children[1], v);
    var l, r := Evaluate(typed.expr.children[0], context), Evaluate(typed.expr.children[1], context);
    forall i | 0 <= i < 2
      ensures AgreesAt(svc, Meaning(node.children[i], v), Evaluate(parts[i].expr, context), parts[i].ty, listed)
    {
      WaiterTyping.EachCompiles(svc, node.children, t, i);
      BooleanChildFlattensNoSets(svc, node, t, i);
      SimulationAt(svc, node.children[i], t, v, listed);
    }
    assert typed.expr.children[0] == parts[0].expr && typed.expr.children[1] == parts[1].expr by {
      ExprsOfParts(parts);
    }
    BinaryStep(node, typed.expr, v, context);
    var j, k := KindOf(svc, parts[0].ty).value, KindOf(svc, parts[1].ty).value;
    if node.kind.Comparator? {
      ComparisonAgrees(svc, node.value, a, b, l, r, parts[0].ty, parts[1].ty, j, k, listed);
    } else {
      LogicAgrees(svc, node.kind, node.value, a, b, l, r, parts[0].ty, parts[1].ty, listed);
    }
  }

  lemma ExprsOfParts(parts: seq<Typed>)
    ensures forall i | 0 <= i < |parts| :: Exprs(parts)[i] == parts[i].expr
  {}

  lemma BooleanChildFlattensNoSets(svc: Service, node: Node, t: Type, i: nat)
    requires node.kind in {Comparator, And, Or} && FlattensNoSets(svc, node, t) && i < |node.children|
    ensures FlattensNoSets(svc, node.children[i], t)
  {}

  lemma {:induction false} ChainAgrees(svc: Service, nodes: seq<Node>, t: Type, answer: Answer, outcome: Outcome,
                                       listed: bool)
    requires WellNamed(svc) && AgreesAt(svc, answer, outcome, t, listed)
    requires CompileChain(svc, nodes, t).Success? && ChainFlattensNoSets(svc, nodes, t)
    ensures var chain := CompileChain(svc, nodes, t).value;
            AgreesAt(svc, MeaningOfChain(nodes, answer), EvaluateChain(chain.0, outcome), chain.1, listed)
    decreases nodes, 0
  {
    if nodes != [] {
      var head := Compile(svc, nodes[0], t).value;
      var tail := CompileChain(svc, nodes[1..], head.ty).value;
      assert ([head.expr] + tail.0)[1..] == tail.0;
      if !answer.value.Null? {
        SimulationAt(svc, nodes[0], t, answer.value, listed);
        ChainAgrees(svc, nodes[1..], head.ty, Meaning(nodes[0], answer.value), Evaluate(head.expr, outcome.value),
                    listed);
      }
    }
  }

  lemma ItemsStep(svc: Service, node: Node, expr: Expr, x: Value, rest: seq<Value>, item: Type, projected: Type,
                  chosen: Value, head: Value, tail: seq<Value>)
    requires (node.kind.Projection? || node.kind.FilterProjection?) && expr.kind == node.kind
    requires |node.children| >= (if node.kind.FilterProjection? then 3 else 2)
    requires |expr.children| >= (if node.kind.FilterProjection? then 3 else 2)
    requires node.kind.FilterProjection? ==> Meaning(node.children[2], x) == Answer(chosen)
    requires node.kind.FilterProjection? ==> Carries(Evaluate(expr.children[2], Represent(svc, x, item)), chosen)
    requires if node.kind.FilterProjection? then chosen.Null? || chosen.Bool? else chosen == Bool(true)
    requires Meaning(node.children[1], x) == Answer(head)
    requires Evaluate(expr.children[1], Represent(svc, x, item)) == OutcomeOf(svc, head, projected)
    requires MeaningOfItems(node, rest) == Answer(List(tail))
    requires EvaluateItems(expr, RepresentAll(svc, rest, item)) == Val(PyList(RepresentAll(svc, tail, projected)))
    ensures var kept := (if chosen == Bool(true) && !head.Null? then [head] else []) + tail;
            && MeaningOfItems(node, [x] + rest) == Answer(List(kept))
            && EvaluateItems(expr, RepresentAll(svc, [x] + rest, item))
               == Val(PyList(RepresentAll(svc, kept, projected)))
  {
    var represented := RepresentAll(svc, [x] + rest, item);
    assert ([x] + rest)[0] == x && ([x] + rest)[1..] == rest;
    RepresentConcat(svc, [x], rest, item);
    RepresentOne(svc, x, item);
    assert represented == [Represent(svc, x, item)] + RepresentAll(svc, rest, item);
    assert represented[0] == Represent(svc, x, item) && represented[1..] == RepresentAll(svc, rest, item);
    RepresentConcat(svc, [head], tail, projected);
    RepresentOne(svc, head, projected);
    assert [] + tail == tail;
  }

  // What compiling a projection establishes for each item.
  ghost predicate ItemReady(svc: Service, node: Node, expr: Expr, item: Type, projected: Type) {
    && (node.kind.Projection? || node.kind.FilterProjection?) && expr.kind == node.kind
    && |node.children| >= (if node.kind.FilterProjection? then 3 else 2)
    && |expr.children| >= (if node.kind.FilterProjection? then 3 else 2)
    && Compile(svc, node.children[1], item) == Success(Typed(expr.children[1], projected))
    && (node.kind.FilterProjection? ==>
          var tested := Compile(svc, node.children[2], item);
          tested.Success? && tested.value.expr == expr.children[2]
          && KindOf(svc, tested.value.ty) == Success(BooleanKind))
  }

  predicate ItemsFlattenNoSets(svc: Service, node: Node, item: Type) {
    forall i | 1 <= i < |node.children| :: FlattensNoSets(svc, node.children[i], item)
  }

  lemma {:induction false} ItemsAgree(svc: Service, node: Node, expr: Expr, items: seq<Value>, item: Type,
                                      projected: Type)
    requires WellNamed(svc) && ItemReady(svc, node, expr, item, projected) && ItemsFlattenNoSets(svc, node, item)
    requires forall x | x in items :: Fits(svc, x, item, true)
    ensures var all := MeaningOfItems(node, items);
            && all.Answer? && all.value.List?
            && (forall x | x in all.value.items :: Fits(svc, x, projected, true))
            && EvaluateItems(expr, RepresentAll(svc, items, item))
               == Val(PyList(RepresentAll(svc, all.value.items, projected)))
    decreases node, 0, |items|
  {
    if items == [] {
      assert RepresentAll(svc, items, item) == [] == RepresentAll(svc, [], projected);
    } else {
      var x, rest := items[0], items[1..];
      assert items == [x] + rest;
      ItemsAgree(svc, node, expr, rest, item, projected);
      SimulationAt(svc, node.children[1], item, x, true);
      var chosen := Bool(true);
      if node.kind.FilterProjection? {
        SimulationAt(svc, node.children[2], item, x, true);
        chosen := Meaning(node.children[2], x).value;
        ScalarCarried(svc, Answer(chosen), Evaluate(expr.children[2], Represent(svc, x, item)),
                      Compile(svc, node.children[2], item).value.ty, BooleanKind);
      }
      ItemsStep(svc, node, expr, x, rest, item, projected, chosen, Meaning(node.children[1], x).value,
                MeaningOfItems(node, rest).value.items);
    }
  }

  lemma NullAgrees(svc: Service, t: Type, listed: bool)
    ensures AgreesAt(svc, Answer(Null), Missing, t, listed)
  {}

  // A list of fitting items fits any type with that element type.
  lemma ListFits(svc: Service, items: seq<Value>, element: Type, listed: bool)
    requires forall x | x in items :: Fits(svc, x, element, true)
    ensures Fits(svc, List(items), ListOf(element), listed)
    ensures Represent(svc, List(items), ListOf(element)) == PyList(RepresentAll(svc, items, element))
  {
    ListRepresented(svc, items, ListOf(element));
  }

  lemma ItemsConform(svc: Service, v: Value, t: Type)
    requires !v.Null? && Conforms(svc, v, t) && ItemOf(svc, t).Success?
    ensures v.List? && forall x | x in v.items :: Conforms(svc, x, ItemOf(svc, t).value)
    ensures Represent(svc, v, t) == PyList(RepresentAll(svc, v.items, ItemOf(svc, t).value))
  {
    ListRepresented(svc, v.items, t);
    ItemIsElement(svc, t);
  }

  lemma ItemsFit(svc: Service, v: Value, t: Type, listed: bool)
    requires Fits(svc, v, t, listed) && ItemOf(svc, t).Success?
    ensures v.List? && forall x | x in v.items :: Fits(svc, x, ItemOf(svc, t).value, true)
    ensures Represent(svc, v, t) == PyList(RepresentAll(svc, v.items, ItemOf(svc, t).value))
  {
    hide Conforms, Represent;
    ItemsConform(svc, v, t);
  }

  // What compiling a projection or filter establishes about its parts.
  lemma ProjectionCompiled(svc: Service, node: Node, t: Type)
    requires node.kind.Projection? || node.kind.FilterProjection?
    requires Compile(svc, node, t).Success?
    ensures |node.children| >= (if node.kind.FilterProjection? then 3 else 2)
    ensures var collection := Compile(svc, node.children[0], t);
            && collection.Success?
            && var item := ItemOf(svc, collection.value.ty);
               && item.Success?
               && var typed := Compile(svc, node, t).value;
                  && |typed.expr.children| >= 1
                  && typed.expr.children[0] == collection.value.expr
                  && typed.ty.ListOf?
                  && ItemReady(svc, node, typed.expr, item.value, typed.ty.element)
  {
    hide Compile, ItemOf, KindOf;
    assert Compile(svc, node, t) == CompileProjection(svc, node, t) by {
      ProjectionDispatch(svc, node, t);
    }
  }

  lemma ProjectionPartsFlattenNoSets(svc: Service, node: Node, t: Type)
    requires node.kind.Projection? || node.kind.FilterProjection?
    requires FlattensNoSets(svc, node, t) && |node.children| >= 1
    ensures FlattensNoSets(svc, node.children[0], t)
    ensures var collection := Compile(svc, node.children[0], t);
            collection.Success? && ItemOf(svc, collection.value.ty).Success? ==>
              ItemsFlattenNoSets(svc, node, ItemOf(svc, collection.value.ty).value)
  {
    hide Compile, ItemOf;
    assert ProjectionFlattensNoSets(svc, node, t);
  }

  lemma ProjectionDispatch(svc: Service, node: Node, t: Type)
    requires node.kind.Projection? || node.kind.FilterProjection?
    requires Compile(svc, node, t).Success?
    ensures Compile(svc, node, t) == CompileProjection(svc, node, t)
  {
    hide CompileProjection;
  }

  lemma ProjectionStep(node: Node, expr: Expr, v: Value, context: Py, outcome: Outcome)
    requires node.kind.Projection? || node.kind.FilterProjection?
    requires expr.kind == node.kind
    requires |node.children| >= (if node.kind.FilterProjection? then 3 else 2)
    requires |expr.children| >= (if node.kind.FilterProjection? then 3 else 2)
    requires Meaning(node.children[0], v).Answer?
    requires Evaluate(expr.children[0], context) == outcome
    ensures var argument := Meaning(node.children[0], v).value;
            && (argument.Null? ==> Meaning(node, v) == Answer(Null))
            && (argument.List? ==> Meaning(node, v) == MeaningOfItems(node, argument.items))
    ensures outcome.Missing? ==> Evaluate(expr, context) == Missing
    ensures outcome.Val? && outcome.value.PyList? ==>
              Evaluate(expr, context) == EvaluateItems(expr, outcome.value.items)
  {
    hide MeaningOfItems, EvaluateItems;
  }

  lemma {:induction false} ProjectionAgrees(svc: Service, node: Node, t: Type, v: Value, listed: bool)
    requires WellNamed(svc) && Fits(svc, v, t, listed)
    requires node.kind.Projection? || node.kind.FilterProjection?
    requires Compile(svc, node, t).Success? && FlattensNoSets(svc, node, t)
    ensures var typed := Compile(svc, node, t).value;
            AgreesAt(svc, Meaning(node, v), Evaluate(typed.expr, Represent(svc, v, t)), typed.ty, listed)
    decreases node, 1
  {
    hide Compile, FlattensNoSets, Meaning, Evaluate, MeaningOfItems, EvaluateItems, Represent, Conforms;
    hide DenseAt, ItemOf;
    var typed := Compile(svc, node, t).value;
    var context := Represent(svc, v, t);
    ProjectionCompiled(svc, node, t);
    ProjectionPartsFlattenNoSets(svc, node, t);
    var collection := Compile(svc, node.children[0], t).value;
    var item := ItemOf(svc, collection.ty).value;
    SimulationAt(svc, node.children[0], t, v, listed);
    NullAgrees(svc, typed.ty, listed);
    ProjectionStep(node, typed.expr, v, context, Evaluate(collection.expr, context));
    var argument := Meaning(node.children[0], v).value;
    if !argument.Null? {
      ItemsFit(svc, argument, collection.ty, listed);
      ItemsAgree(svc, node, typed.expr, argument.items, item, typed.ty.element);
      ListFits(svc, MeaningOfItems(node, argument.items).value.items, typed.ty.element, listed);
    }
  }

  lemma FlattenCompiled(svc: Service, node: Node, t: Type)
    requires node.kind.Flatten? && Compile(svc, node, t).Success?
    ensures |node.children| >= 1 && (FlattensNoSets(svc, node, t) ==> FlattensNoSets(svc, node.children[0], t))
    ensures var collection := Compile(svc, node.children[0], t);
            && collection.Success?
            && var item := ItemOf(svc, collection.value.ty);
               && item.Success?
               && var typed := Compile(svc, node, t).value;
                  && typed.expr == Expr(Flatten, node.value, [collection.value.expr])
                  && typed.ty.ListOf?
                  && Unwrapped(svc, item.value, typed.ty.element)
                  && (FlattensNoSets(svc, node, t) ==> Unwraps(svc, item.value, typed.ty.element))
  {
    hide ItemOf, KindOf;
    assert Compile(svc, node, t) == CompileFlatten(svc, node, t);
  }

  lemma FlattenStep(node: Node, expr: Expr, v: Value, context: Py, outcome: Outcome)
    requires node.kind.Flatten? && expr.kind.Flatten? && |node.children| >= 1 && |expr.children| >= 1
    requires Meaning(node.children[0], v).Answer?
    requires Evaluate(expr.children[0], context) == outcome
    ensures var argument := Meaning(node.children[0], v).value;
            && (argument.Null? ==> Meaning(node, v) == Answer(Null))
            && (argument.List? ==> Meaning(node, v) == Answer(List(Flattened(argument.items))))
    ensures outcome.Missing? ==> Evaluate(expr, context) == Missing
    ensures outcome.Val? && outcome.value.PyList? ==>
              Evaluate(expr, context) == Val(PyList(FlattenItems(outcome.value.items)))
  {}

  lemma {:induction false} FlattenAgrees(svc: Service, node: Node, t: Type, v: Value, listed: bool)
    requires WellNamed(svc) && Fits(svc, v, t, listed) && node.kind.Flatten?
    requires Compile(svc, node, t).Success? && FlattensNoSets(svc, node, t)
    ensures var typed := Compile(svc, node, t).value;
            AgreesAt(svc, Meaning(node, v), Evaluate(typed.expr, Represent(svc, v, t)), typed.ty, listed)
    decreases node, 1
  {
    hide Compile, FlattensNoSets, Meaning, Evaluate, Represent, Conforms, DenseAt, ItemOf, Unwraps, Unwrapped;
    var typed := Compile(svc, node, t).value;
    var context := Represent(svc, v, t);
    FlattenCompiled(svc, node, t);
    var collection := Compile(svc, node.children[0], t).value;
    var item := ItemOf(svc, collection.ty).value;
    SimulationAt(svc, node.children[0], t, v, listed);
    NullAgrees(svc, typed.ty, listed);
    FlattenStep(node, typed.expr, v, context, Evaluate(collection.expr, context));
    var argument := Meaning(node.children[0], v).value;
    if !argument.Null? {
      ItemsFit(svc, argument, collection.ty, listed);
      FlattenRepresented(svc, argument.items, item, typed.ty.element);
      FlattenedDense(svc, argument.items, item, typed.ty.element);
      ListFits(svc, Flattened(argument.items), typed.ty.element, listed);
    }
  }

  lemma LiteralAgrees(svc: Service, value: Lit, listed: bool)
    requires LiteralType(value).Success?
    ensures AgreesAt(svc, MeaningOfLiteral(value), EvaluateLiteral(value), LiteralType(value).value, listed)
  {}

  lemma LengthCompiled(svc: Service, node: Node, t: Type)
    requires node.kind.Function? && Compile(svc, node, t).Success?
    ensures |node.children| == 1 && (FlattensNoSets(svc, node, t) ==> FlattensNoSets(svc, node.children[0], t))
    ensures var argument := Compile(svc, node.children[0], t);
            && argument.Success?
            && Compile(svc, node, t).value
                 == Typed(Expr(Function, node.value, [argument.value.expr]), Plain(Prelude(IntegerKind, false), false))
            && var kind := KindOf(svc, argument.value.ty);
               kind.Success? && (IsCollection(kind.value) || kind.value.MapKind? || kind.value.StringKind?)
  {
    hide KindOf;
    assert Compile(svc, node, t) == CompileLength(svc, node, t);
  }

  lemma LengthStep(svc: Service, node: Node, expr: Expr, v: Value, context: Py, outcome: Outcome, listed: bool)
    requires node.kind.Function? && expr.kind.Function? && |node.children| == 1 && |expr.children| >= 1
    requires Meaning(node.children[0], v).Answer?
    requires Evaluate(expr.children[0], context) == outcome
    ensures Meaning(node, v) == MeaningOfLength(Meaning(node.children[0], v).value)
    ensures outcome.Missing? ==> Evaluate(expr, context) == Missing
    ensures outcome.Val? && LengthOf(outcome.value).Some? ==>
              var n := LengthOf(outcome.value).value;
              AgreesAt(svc, Answer(Int(n)), Evaluate(expr, context), Plain(Prelude(IntegerKind, false), false), listed)
  {}

  lemma {:induction false} LengthNodeAgrees(svc: Service, node: Node, t: Type, v: Value, listed: bool)
    requires WellNamed(svc) && Fits(svc, v, t, listed) && node.kind.Function?
    requires Compile(svc, node, t).Success? && FlattensNoSets(svc, node, t)
    ensures var typed := Compile(svc, node, t).value;
            AgreesAt(svc, Meaning(node, v), Evaluate(typed.expr, Represent(svc, v, t)), typed.ty, listed)
    decreases node, 1
  {
    hide Compile, FlattensNoSets, Meaning, Evaluate, Represent, Conforms, DenseAt, KindOf, LengthOf;
    var typed := Compile(svc, node, t).value;
    var context := Represent(svc, v, t);
    LengthCompiled(svc, node, t);
    var argument := Compile(svc, node.children[0], t).value;
    SimulationAt(svc, node.children[0], t, v, listed);
    NullAgrees(svc, typed.ty, listed);
    LengthStep(svc, node, typed.expr, v, context, Evaluate(argument.expr, context), listed);
    var answer := Meaning(node.children[0], v).value;
    if !answer.Null? {
      LengthAgrees(svc, argument.ty, answer, KindOf(svc, argument.ty).value);
    }
  }

  // The leaves of the syntax tree.
  lemma LeafAgrees(svc: Service, node: Node, t: Type, v: Value, listed: bool)
    requires WellNamed(svc) && Fits(svc, v, t, listed)
    requires node.kind in {Field, Index, Identity, Literal}
    requires Compile(svc, node, t).Success?
    ensures var typed := Compile(svc, node, t).value;
            AgreesAt(svc, Meaning(node, v), Evaluate(typed.expr, Represent(svc, v, t)), typed.ty, listed)
  {
    hide Conforms, Represent, DenseAt;
    if node.kind.Field? {
      FieldAgrees(svc, node.value, t, v);
      FieldStaysDense(svc, node.value, t, v, listed);
    } else if node.kind.Index? {
      IndexAgrees(svc, node.value.number, t, v, listed);
    } else if node.kind.Literal? {
      LiteralAgrees(svc, node.value, listed);
    }
  }

  lemma {:induction false} ChainNodeAgrees(svc: Service, node: Node, t: Type, v: Value, listed: bool)
    requires WellNamed(svc) && Fits(svc, v, t, listed)
    requires node.kind.Subexpression? || node.kind.IndexExpression?
    requires Compile(svc, node, t).Success? && FlattensNoSets(svc, node, t)
    ensures var typed := Compile(svc, node, t).value;
            AgreesAt(svc, Meaning(node, v), Evaluate(typed.expr, Represent(svc, v, t)), typed.ty, listed)
    decreases node, 1
  {
    hide Conforms, Represent, DenseAt;
    ChainAgrees(svc, node.children, t, Answer(v), Val(Represent(svc, v, t)), listed);
  }

  lemma OnlyKnownKinds(svc: Service, node: Node, t: Type)
    requires Compile(svc, node, t).Success?
    ensures !node.kind.OtherNode?
  {}

  // Agreement at every step of an expression.
  lemma {:induction false} SimulationAt(svc: Service, node: Node, t: Type, v: Value, listed: bool)
    requires WellNamed(svc) && Fits(svc, v, t, listed)
    requires Compile(svc, node, t).Success? && FlattensNoSets(svc, node, t)
    ensures var typed := Compile(svc, node, t).value;
            AgreesAt(svc, Meaning(node, v), Evaluate(typed.expr, Represent(svc, v, t)), typed.ty, listed)
    decreases node, 2
  {
    hide *;
    OnlyKnownKinds(svc, node, t);
    if node.kind in {Field, Index, Identity, Literal} {
      LeafAgrees(svc, node, t, v, listed);
    } else if node.kind.Subexpression? || node.kind.IndexExpression? {
      ChainNodeAgrees(svc, node, t, v, listed);
    } else if node.kind.Flatten? {
      FlattenAgrees(svc, node, t, v, listed);
    } else if node.kind.Projection? || node.kind.FilterProjection? {
      ProjectionAgrees(svc, node, t, v, listed);
    } else if node.kind.Function? {
      LengthNodeAgrees(svc, node, t, v, listed);
    } else {
      BooleanAgrees(svc, node, t, v, listed);
    }
  }

  /**
   Preservation of meaning: an accepted expression on the Python form of a value with no null item
   in reach gives the Python form of its meaning, which is of the compiled type.
   */
  lemma Simulation(svc: Service, node: Node, t: Type, v: Value)
    requires WellNamed(svc) && Fits(svc, v, t, false)
    requires Compile(svc, node, t).Success? && FlattensNoSets(svc, node, t)
    ensures var typed := Compile(svc, node, t).value;
            Agrees(svc, Meaning(node, v), Evaluate(typed.expr, Represent(svc, v, t)), typed.ty)
  {
    hide Compile, FlattensNoSets, Meaning, Evaluate, Represent, WellNamed, Fits;
    SimulationAt(svc, node, t, v, false);
  }
}
