/** Compiled waiter expressions are type sound on every value, nulls anywhere. */
module WaiterSoundness {
  import opened Wrappers
  import opened PyValues
  import opened Smithy
  import opened WaiterCompiler
  import opened WaiterRuntime
  import opened Responses
  import WaiterMeaning
  import WaiterTyping
  import opened WaiterCorrectness
  import opened WaiterForms

  // ---------- Operands ----------

  predicate IsNull(operand: Outcome) {
    operand.Missing? || operand == Val(PyNone)
  }

  predicate IsListOrNull(operand: Outcome) {
    IsNull(operand) || (operand.Val? && operand.value.PyList?)
  }

  predicate IsSizedOrNull(operand: Outcome) {
    IsNull(operand) || (operand.Val? && (operand.value.PyList? || operand.value.PyDict? || operand.value.PyStr?))
  }

  predicate IsNumberOrNull(operand: Outcome) {
    IsNull(operand) || (operand.Val? && IsNumber(operand.value))
  }

  predicate IsStringOrNull(operand: Outcome) {
    IsNull(operand) || (operand.Val? && operand.value.PyStr?)
  }

  predicate IsBooleanOrNull(operand: Outcome) {
    IsNull(operand) || (operand.Val? && operand.value.PyBool?)
  }

  // Two numbers, or for `==` and `!=` two strings or two booleans.
  predicate AreComparable(op: Comparison, left: Outcome, right: Outcome) {
    || (IsNumberOrNull(left) && IsNumberOrNull(right))
    || (op in {Eq, Ne} && IsStringOrNull(left) && IsStringOrNull(right))
    || (op in {Eq, Ne} && IsBooleanOrNull(left) && IsBooleanOrNull(right))
  }

  predicate ChainOperandsFit(exprs: seq<Expr>, context: Outcome)
    decreases exprs, 0
  {
    exprs != [] && context.Val? ==>
      OperandsFit(exprs[0], context.value) && ChainOperandsFit(exprs[1..], Evaluate(exprs[0], context.value))
  }

  predicate ItemOperandsFit(expr: Expr, item: Py)
    requires |expr.children| >= if expr.kind.FilterProjection? then 3 else 2
    decreases expr, 0
  {
    && OperandsFit(expr.children[1], item)
    && (expr.kind.FilterProjection? ==>
          OperandsFit(expr.children[2], item) && IsBooleanOrNull(Evaluate(expr.children[2], item)))
  }

  // Every operand the evaluation meets is null or of the kind its operation applies to.
  predicate OperandsFit(expr: Expr, context: Py)
    decreases expr, 2
  {
    match expr.kind
    case Field => context.PyNone? || context.PyDict? || context.PyObject?
    case Subexpression => ChainOperandsFit(expr.children, Val(context))
    case IndexExpression => ChainOperandsFit(expr.children, Val(context))
    case Index => context.PyNone? || context.PyList?
    case Identity => true
    case Literal => true
    case Flatten =>
      |expr.children| >= 1 && OperandsFit(expr.children[0], context) &&
      IsListOrNull(Evaluate(expr.children[0], context))
    case Function =>
      |expr.children| >= 1 && OperandsFit(expr.children[0], context) &&
      IsSizedOrNull(Evaluate(expr.children[0], context))
    case Projection => ProjectionOperandsFit(expr, context)
    case FilterProjection => ProjectionOperandsFit(expr, context)
    case _ => BinaryOperandsFit(expr, context)
  }

  predicate ProjectionOperandsFit(expr: Expr, context: Py)
    decreases expr, 1
  {
    |expr.children| >= (if expr.kind.FilterProjection? then 3 else 2) &&
    OperandsFit(expr.children[0], context) &&
    var collection := Evaluate(expr.children[0], context);
    && IsListOrNull(collection)
    && (collection.Val? && collection.value.PyList? ==>
          forall item | item in collection.value.items :: ItemOperandsFit(expr, item))
  }

  predicate BinaryOperandsFit(expr: Expr, context: Py)
    decreases expr, 1
  {
    |expr.children| >= 2 &&
    OperandsFit(expr.children[0], context) && OperandsFit(expr.children[1], context) &&
    var left, right := Evaluate(expr.children[0], context), Evaluate(expr.children[1], context);
    if expr.kind.And? || expr.kind.Or? then IsBooleanOrNull(left) && IsBooleanOrNull(right)
    else ComparisonOf(expr.value).Some? && AreComparable(ComparisonOf(expr.value).value, left, right)
  }

  // ---------- Each kind of expression ----------

  // What the theorem says of a compiled expression; the operands are known only off flattened sets.
  ghost predicate Sound(svc: Service, typed: Typed, p: Py, sets: bool) {
    && Yields(svc, Evaluate(typed.expr, p), typed.ty, sets)
    && (!sets ==> OperandsFit(typed.expr, p))
  }

  ghost predicate Ready(svc: Service, node: Node, t: Type, p: Py, sets: bool) {
    && WellNamed(svc) && Suits(svc, p, t, sets)
    && Compile(svc, node, t).Success? && (sets || FlattensNoSets(svc, node, t))
  }

  lemma IndexSuits(svc: Service, index: int, p: Py, t: Type, sets: bool)
    requires Suits(svc, p, t, sets) && ItemOf(svc, t).Success?
    ensures Yields(svc, ReadIndex(index, p), ItemOf(svc, t).value, sets)
    ensures sets || p.PyNone? || p.PyList?
  {
    hide LooksLike, IsFormOf, ItemOf, Suits;
    if p.PyList? {
      ItemsSuit(svc, p, t, sets);
    }
    if !sets {
      CollectionIsList(svc, p, t);
    }
  }

  lemma CollectionIsList(svc: Service, p: Py, t: Type)
    requires Suits(svc, p, t, false) && ItemOf(svc, t).Success?
    ensures p.PyNone? || p.PyList?
  {
    hide Conforms, Represent, ItemOf;
    var v := ValueOf(svc, p, t);
    NullIsNone(svc, t);
    if !v.Null? {
      ItemsConform(svc, v, t);
    }
  }

  lemma LiteralYields(svc: Service, value: Lit, sets: bool)
    requires LiteralType(value).Success?
    ensures Yields(svc, EvaluateLiteral(value), LiteralType(value).value, sets)
  {
    hide Conforms, Represent, Yields, Safe;
    LiteralAgrees(svc, value, false);
    AgreementIsSafe(svc, WaiterMeaning.MeaningOfLiteral(value), EvaluateLiteral(value), LiteralType(value).value);
    SafeYields(svc, EvaluateLiteral(value), LiteralType(value).value, sets);
  }

  lemma LeafIsSound(svc: Service, node: Node, t: Type, p: Py, sets: bool)
    requires Ready(svc, node, t, p, sets) && node.kind in {Field, Index, Identity, Literal}
    ensures Sound(svc, Compile(svc, node, t).value, p, sets)
  {
    hide Suits, WellNamed, FlattensNoSets, ReadField, ReadIndex, EvaluateLiteral, LiteralType, CompileField, ItemOf;
    if node.kind.Field? {
      FieldCompiled(svc, node, t);
      FieldSuits(svc, node.value, p, t, sets);
    } else if node.kind.Index? {
      IndexSuits(svc, node.value.number, p, t, sets);
    } else if node.kind.Literal? {
      LiteralYields(svc, node.value, sets);
    }
  }

  lemma FieldCompiled(svc: Service, node: Node, t: Type)
    requires node.kind.Field? && Compile(svc, node, t).Success?
    ensures Compile(svc, node, t) == CompileField(svc, node.value, t)
    ensures var expr := Compile(svc, node, t).value.expr; expr.kind.Field? && expr.value.StrLit?
  {}

  lemma {:induction false} ChainIsSound(svc: Service, nodes: seq<Node>, t: Type, outcome: Outcome, sets: bool)
    requires WellNamed(svc) && Yields(svc, outcome, t, sets)
    requires CompileChain(svc, nodes, t).Success? && (sets || ChainFlattensNoSets(svc, nodes, t))
    ensures var chain := CompileChain(svc, nodes, t).value;
            && Yields(svc, EvaluateChain(chain.0, outcome), chain.1, sets)
            && (!sets ==> ChainOperandsFit(chain.0, outcome))
    decreases nodes, 0
  {
    hide Suits, WellNamed, Compile, Evaluate, FlattensNoSets, OperandsFit;
    if nodes != [] {
      var head := Compile(svc, nodes[0], t).value;
      var tail := CompileChain(svc, nodes[1..], head.ty).value;
      assert ([head.expr] + tail.0)[1..] == tail.0;
      if outcome.Val? {
        Soundness(svc, nodes[0], t, outcome.value, sets);
        ChainIsSound(svc, nodes[1..], head.ty, Evaluate(head.expr, outcome.value), sets);
      }
    }
  }

  lemma {:induction false} ChainNodeIsSound(svc: Service, node: Node, t: Type, p: Py, sets: bool)
    requires Ready(svc, node, t, p, sets) && (node.kind.Subexpression? || node.kind.IndexExpression?)
    ensures Sound(svc, Compile(svc, node, t).value, p, sets)
    decreases node, 1
  {
    hide Suits, WellNamed, CompileChain, EvaluateChain, ChainFlattensNoSets, ChainOperandsFit;
    ChainIsSound(svc, node.children, t, Val(p), sets);
  }

  lemma EvaluateItemsStep(expr: Expr, head: Py, rest: seq<Py>)
    requires (expr.kind.Projection? || expr.kind.FilterProjection?)
    requires |expr.children| >= if expr.kind.FilterProjection? then 3 else 2
    requires !Evaluate(expr.children[1], head).Fault?
    requires expr.kind.FilterProjection? ==> !Evaluate(expr.children[2], head).Fault?
    requires EvaluateItems(expr, rest).Val? && EvaluateItems(expr, rest).value.PyList?
    ensures var projected, tail := Evaluate(expr.children[1], head), EvaluateItems(expr, rest).value.items;
            EvaluateItems(expr, [head] + rest) == Val(PyList(tail))
            || (projected.Val? && EvaluateItems(expr, [head] + rest) == Val(PyList([projected.value] + tail)))
  {
    hide Evaluate;
    assert ([head] + rest)[1..] == rest;
  }

  lemma EvaluateProjectionStep(expr: Expr, context: Py)
    requires expr.kind.Projection? || expr.kind.FilterProjection?
    requires |expr.children| >= if expr.kind.FilterProjection? then 3 else 2
    ensures var outcome := Evaluate(expr.children[0], context);
            Evaluate(expr, context) ==
            if outcome.Fault? then Fault
            else if outcome.Val? && outcome.value.PyList? then EvaluateItems(expr, outcome.value.items)
            else Missing
  {
    hide EvaluateItems;
  }

  lemma EvaluateFlattenStep(expr: Expr, context: Py)
    requires expr.kind.Flatten? && |expr.children| >= 1
    ensures var outcome := Evaluate(expr.children[0], context);
            Evaluate(expr, context) ==
            if outcome.Fault? then Fault
            else if outcome.Val? && outcome.value.PyList? then Val(PyList(FlattenItems(outcome.value.items)))
            else Missing
  {}

  lemma {:induction false} ItemsAreSound(svc: Service, node: Node, expr: Expr, items: seq<Py>, item: Type,
                                         projected: Type, sets: bool)
    requires WellNamed(svc) && ItemReady(svc, node, expr, item, projected)
    requires (sets || ItemsFlattenNoSets(svc, node, item)) && forall p | p in items :: Suits(svc, p, item, sets)
    ensures var outcome := EvaluateItems(expr, items);
            && outcome.Val? && outcome.value.PyList?
            && forall p | p in outcome.value.items :: Suits(svc, p, projected, sets)
    ensures !sets ==> forall p | p in items :: ItemOperandsFit(expr, p)
    decreases node, 0, |items|
  {
    hide WellNamed, Suits, Compile, FlattensNoSets, Evaluate, KindOf, OperandsFit;
    if items != [] {
      var p, rest := items[0], items[1..];
      assert items == [p] + rest;
      ItemsAreSound(svc, node, expr, rest, item, projected, sets);
      Soundness(svc, node.children[1], item, p, sets);
      if node.kind.FilterProjection? {
        var tested := Compile(svc, node.children[2], item).value;
        Soundness(svc, node.children[2], item, p, sets);
        if !sets {
          YieldsScalar(svc, Evaluate(tested.expr, p), tested.ty, BooleanKind);
        }
      }
      EvaluateItemsStep(expr, p, rest);
    }
  }

  // Outcomes of the kinds operands are checked for.
  lemma YieldsScalar(svc: Service, outcome: Outcome, t: Type, kind: Kind)
    requires Yields(svc, outcome, t, false) && KindOf(svc, t) == Success(kind)
    ensures IsNumeric(kind) ==> IsNumberOrNull(outcome)
    ensures kind.StringKind? ==> IsStringOrNull(outcome)
    ensures kind.BooleanKind? ==> IsBooleanOrNull(outcome)
    ensures IsCollection(kind) || kind.MapKind? || kind.StringKind? ==> IsSizedOrNull(outcome)
  {
    if outcome.Val? {
      var v := ValueOf(svc, outcome.value, t);
    }
  }

  lemma {:induction false} ProjectionIsSound(svc: Service, node: Node, t: Type, p: Py, sets: bool)
    requires Ready(svc, node, t, p, sets) && (node.kind.Projection? || node.kind.FilterProjection?)
    ensures Sound(svc, Compile(svc, node, t).value, p, sets)
    decreases node, 1
  {
    hide WellNamed, Suits, Compile, FlattensNoSets, Evaluate, EvaluateItems, ItemOf, OperandsFit, ItemOperandsFit;
    hide ItemsFlattenNoSets;
    var typed := Compile(svc, node, t).value;
    ProjectionCompiled(svc, node, t);
    if !sets {
      ProjectionPartsFlattenNoSets(svc, node, t);
    }
    var collection := Compile(svc, node.children[0], t).value;
    Soundness(svc, node.children[0], t, p, sets);
    EvaluateProjectionStep(typed.expr, p);
    ProjectionOperands(typed.expr, p);
    var outcome := Evaluate(collection.expr, p);
    if outcome.Val? {
      if outcome.value.PyList? {
        ItemsSuit(svc, outcome.value, collection.ty, sets);
        ItemsAreSound(svc, node, typed.expr, outcome.value.items, ItemOf(svc, collection.ty).value, typed.ty.element,
                      sets);
        ListSuits(svc, EvaluateItems(typed.expr, outcome.value.items).value.items, typed.ty.element, sets);
      }
      if !sets {
        CollectionIsList(svc, outcome.value, collection.ty);
      }
    }
  }

  lemma ProjectionOperands(expr: Expr, p: Py)
    requires expr.kind.Projection? || expr.kind.FilterProjection?
    ensures OperandsFit(expr, p) == ProjectionOperandsFit(expr, p)
  {}

  lemma {:induction false} FlattenIsSound(svc: Service, node: Node, t: Type, p: Py, sets: bool)
    requires Ready(svc, node, t, p, sets) && node.kind.Flatten?
    ensures Sound(svc, Compile(svc, node, t).value, p, sets)
    decreases node, 1
  {
    hide WellNamed, Suits, Compile, FlattensNoSets, Evaluate, ItemOf, OperandsFit, Unwraps, Unwrapped, FlattenItems;
    var typed := Compile(svc, node, t).value;
    FlattenCompiled(svc, node, t);
    var collection := Compile(svc, node.children[0], t).value;
    Soundness(svc, node.children[0], t, p, sets);
    EvaluateFlattenStep(typed.expr, p);
    FlattenOperands(typed.expr, p);
    var outcome := Evaluate(collection.expr, p);
    if outcome.Val? {
      if outcome.value.PyList? {
        ItemsSuit(svc, outcome.value, collection.ty, sets);
        FlattenedSuit(svc, outcome.value.items, ItemOf(svc, collection.ty).value, typed.ty.element, sets);
        ListSuits(svc, FlattenItems(outcome.value.items), typed.ty.element, sets);
      }
      if !sets {
        CollectionIsList(svc, outcome.value, collection.ty);
      }
    }
  }

  lemma FlattenOperands(expr: Expr, p: Py)
    requires expr.kind.Flatten? && |expr.children| >= 1
    ensures OperandsFit(expr, p)
         == (OperandsFit(expr.children[0], p) && IsListOrNull(Evaluate(expr.children[0], p)))
  {}

  lemma EvaluateLengthStep(svc: Service, expr: Expr, p: Py, sets: bool)
    requires expr.kind.Function? && |expr.children| >= 1 && !Evaluate(expr.children[0], p).Fault?
    ensures Yields(svc, Evaluate(expr, p), Plain(Prelude(IntegerKind, false), false), sets)
    ensures OperandsFit(expr, p)
         == (OperandsFit(expr.children[0], p) && IsSizedOrNull(Evaluate(expr.children[0], p)))
  {
    hide Suits;
    var outcome := Evaluate(expr.children[0], p);
    if outcome.Val? && LengthOf(outcome.value).Some? {
      IntegerForm(svc, LengthOf(outcome.value).value);
      FormSuits(svc, PyInt(LengthOf(outcome.value).value), Plain(Prelude(IntegerKind, false), false), sets);
    }
  }

  lemma IntegerForm(svc: Service, n: int)
    ensures IsFormOf(svc, PyInt(n), Plain(Prelude(IntegerKind, false), false))
  {
    assert Conforms(svc, Int(n), Plain(Prelude(IntegerKind, false), false));
    assert Represent(svc, Int(n), Plain(Prelude(IntegerKind, false), false)) == PyInt(n);
  }

  lemma BooleanForm(svc: Service, b: bool)
    ensures IsFormOf(svc, PyBool(b), Plain(Prelude(BooleanKind, false), false))
  {
    assert Conforms(svc, Bool(b), Plain(Prelude(BooleanKind, false), false));
    assert Represent(svc, Bool(b), Plain(Prelude(BooleanKind, false), false)) == PyBool(b);
  }

  lemma {:induction false} LengthIsSound(svc: Service, node: Node, t: Type, p: Py, sets: bool)
    requires Ready(svc, node, t, p, sets) && node.kind.Function?
    ensures Sound(svc, Compile(svc, node, t).value, p, sets)
    decreases node, 1
  {
    hide WellNamed, Suits, Compile, FlattensNoSets, Evaluate, KindOf, OperandsFit;
    LengthCompiled(svc, node, t);
    var argument := Compile(svc, node.children[0], t).value;
    Soundness(svc, node.children[0], t, p, sets);
    EvaluateLengthStep(svc, Compile(svc, node, t).value.expr, p, sets);
    if !sets {
      YieldsScalar(svc, Evaluate(argument.expr, p), argument.ty, KindOf(svc, argument.ty).value);
    }
  }

  lemma CombineIsBoolean(kind: NodeKind, value: Lit, l: Outcome, r: Outcome)
    requires !l.Fault? && !r.Fault? && (kind.And? || kind.Or? || ComparisonOf(value).Some?)
    ensures var outcome := Combine(kind, value, l, r); outcome.Missing? || (outcome.Val? && outcome.value.PyBool?)
  {}

  lemma {:induction false} BooleanIsSound(svc: Service, node: Node, t: Type, p: Py, sets: bool)
    requires Ready(svc, node, t, p, sets) && node.kind in {Comparator, And, Or}
    ensures Sound(svc, Compile(svc, node, t).value, p, sets)
    decreases node, 1
  {
    hide WellNamed, Suits, Compile, CompileEach, FlattensNoSets, Evaluate, KindOf, Combine, Exprs, OperandsFit;
    hide AreComparable, IsBooleanOrNull;
    BooleanCompiled(svc, node, t);
    var parts := CompileEach(svc, node.children, t).value;
    var typed := Compile(svc, node, t).value;
    forall i | 0 <= i < 2
      ensures Sound(svc, parts[i], p, sets)
    {
      WaiterTyping.EachCompiles(svc, node.children, t, i);
      if !sets {
        BooleanChildFlattensNoSets(svc, node, t, i);
      }
      Soundness(svc, node.children[i], t, p, sets);
    }
    ExprsOfParts(parts);
    BinaryStep(node, typed.expr, Null, p);
    var l, r := Evaluate(typed.expr.children[0], p), Evaluate(typed.expr.children[1], p);
    CombineYields(svc, node.kind, node.value, l, r, sets);
    if !sets {
      BinaryOperands(typed.expr, p);
      var j, k := KindOf(svc, parts[0].ty).value, KindOf(svc, parts[1].ty).value;
      if node.kind.Comparator? {
        ComparedOperands(svc, ComparisonOf(node.value).value, l, r, parts[0].ty, parts[1].ty, j, k);
      } else {
        YieldsScalar(svc, l, parts[0].ty, j);
        YieldsScalar(svc, r, parts[1].ty, k);
      }
    }
  }

  lemma CombineYields(svc: Service, kind: NodeKind, value: Lit, l: Outcome, r: Outcome, sets: bool)
    requires !l.Fault? && !r.Fault? && (kind.And? || kind.Or? || ComparisonOf(value).Some?)
    ensures Yields(svc, Combine(kind, value, l, r), Plain(Prelude(BooleanKind, false), false), sets)
  {
    hide Suits, Combine;
    CombineIsBoolean(kind, value, l, r);
    var outcome := Combine(kind, value, l, r);
    if outcome.Val? {
      BooleanForm(svc, outcome.value.truth);
      FormSuits(svc, outcome.value, Plain(Prelude(BooleanKind, false), false), sets);
    }
  }

  lemma BinaryOperands(expr: Expr, p: Py)
    requires expr.kind in {Comparator, And, Or}
    ensures OperandsFit(expr, p) == BinaryOperandsFit(expr, p)
  {}

  lemma ComparedOperands(svc: Service, op: Comparison, l: Outcome, r: Outcome, s: Type, t: Type, j: Kind, k: Kind)
    requires Yields(svc, l, s, false) && Yields(svc, r, t, false)
    requires KindOf(svc, s) == Success(j) && KindOf(svc, t) == Success(k) && Comparable(op, j, k)
    ensures AreComparable(op, l, r)
  {
    hide Suits, KindOf;
    YieldsScalar(svc, l, s, j);
    YieldsScalar(svc, r, t, k);
  }

  // Both theorems below, by one induction.
  lemma {:induction false} Soundness(svc: Service, node: Node, t: Type, p: Py, sets: bool)
    requires Ready(svc, node, t, p, sets)
    ensures Sound(svc, Compile(svc, node, t).value, p, sets)
    decreases node, 2
  {
    hide *;
    assert Compile(svc, node, t).Success? by {
      CompilesWhenReady(svc, node, t, p, sets);
    }
    OnlyKnownKinds(svc, node, t);
    if node.kind in {Field, Index, Identity, Literal} {
      LeafIsSound(svc, node, t, p, sets);
    } else if node.kind.Subexpression? || node.kind.IndexExpression? {
      ChainNodeIsSound(svc, node, t, p, sets);
    } else if node.kind.Flatten? {
      FlattenIsSound(svc, node, t, p, sets);
    } else if node.kind.Projection? || node.kind.FilterProjection? {
      ProjectionIsSound(svc, node, t, p, sets);
    } else if node.kind.Function? {
      LengthIsSound(svc, node, t, p, sets);
    } else {
      BooleanIsSound(svc, node, t, p, sets);
    }
  }

  lemma CompilesWhenReady(svc: Service, node: Node, t: Type, p: Py, sets: bool)
    requires Ready(svc, node, t, p, sets)
    ensures Compile(svc, node, t).Success?
  {}

  /**
   Type soundness: an accepted expression that flattens no sets applies every operation to null or
   to an operand of the right type, on any value of its context's type with nulls anywhere, and
   gives null or a value of its own type.
   */
  lemma TypeSoundness(svc: Service, node: Node, t: Type, v: Value)
    requires WellNamed(svc) && Conforms(svc, v, t)
    requires Compile(svc, node, t).Success? && FlattensNoSets(svc, node, t)
    ensures var typed := Compile(svc, node, t).value;
            && Safe(svc, Evaluate(typed.expr, Represent(svc, v, t)), typed.ty)
            && OperandsFit(typed.expr, Represent(svc, v, t))
  {
    hide WellNamed, Conforms, Represent, Compile, FlattensNoSets, Evaluate, OperandsFit, LooksLike;
    FormIsSafe(svc, v, t);
    Soundness(svc, node, t, Represent(svc, v, t), false);
  }

  /** No accepted expression raises on a value of its context's type, whatever it flattens. */
  lemma NeverRaises(svc: Service, node: Node, t: Type, v: Value)
    requires WellNamed(svc) && Conforms(svc, v, t) && Compile(svc, node, t).Success?
    ensures !Evaluate(Compile(svc, node, t).value.expr, Represent(svc, v, t)).Fault?
  {
    hide WellNamed, Conforms, Represent, Compile, FlattensNoSets, Evaluate, OperandsFit, LooksLike;
    FormLooksLike(svc, v, t);
    Soundness(svc, node, t, Represent(svc, v, t), true);
  }
}
