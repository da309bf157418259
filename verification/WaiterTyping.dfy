/** Typing rules for waiter expressions: the compiler accepts exactly the typable ones. */
module WaiterTyping {
  import opened Wrappers
  import opened Smithy
  import opened WaiterCompiler

  const BOOLEAN: Type := Plain(Prelude(BooleanKind, false), false)
  const INTEGER: Type := Plain(Prelude(IntegerKind, false), false)

  // The type is of a kind the prelude or the model declares.
  ghost predicate Declares(svc: Service, t: Type, kinds: set<Kind>) {
    t.Plain? &&
    match t.target
    case Prelude(kind, _) => kind in kinds
    case Model(id) => id in svc.shapes && svc.shapes[id].kind in kinds
  }

  // Enum shapes are strings.
  ghost predicate IsString(svc: Service, t: Type) {
    Declares(svc, t, {StringKind}) || (Declares(svc, t, {EnumKind}) && t.target.Model?)
  }

  ghost predicate IsBoolean(svc: Service, t: Type) {
    Declares(svc, t, {BooleanKind})
  }

  ghost predicate IsNumber(svc: Service, t: Type) {
    Declares(svc, t, {ByteKind, ShortKind, IntegerKind, LongKind, FloatKind, DoubleKind})
  }

  ghost predicate IsList(svc: Service, t: Type) {
    t.ListOf? || Declares(svc, t, {ListKind})
  }

  ghost predicate HasLength(svc: Service, t: Type) {
    IsList(svc, t) || IsString(svc, t) || Declares(svc, t, {SetKind, MapKind})
  }

  ghost predicate IsKnown(svc: Service, t: Type) {
    t.Plain? && t.target.Model? ==> t.target.id in svc.shapes
  }

  // A list or set with a member target, or what a projection makes.
  ghost predicate HasItems(svc: Service, t: Type, item: Type) {
    match t
    case ListOf(element) => item == element
    case Plain(target, dictionary) =>
      && target.Model? && target.id in svc.shapes
      && var shape := svc.shapes[target.id];
         && (shape.kind == ListKind || shape.kind == SetKind)
         && shape.memberTarget.Some? && item == Plain(shape.memberTarget.value, dictionary)
  }

  // Lists of lists lose one level; other items stay.
  ghost predicate OneLevel(svc: Service, item: Type, element: Type) {
    IsKnown(svc, item) && if IsList(svc, item) then HasItems(svc, item, element) else element == item
  }

  ghost predicate MemberTy(svc: Service, value: Lit, context: Type, ty: Type) {
    && context.Plain? && context.target.Model? && context.target.id in svc.shapes && value.StrLit?
    && var shape := svc.shapes[context.target.id];
       var member := FindMember(shape.members, value.text);
       && (shape.kind == Structure || shape.kind == Union) && member.Some?
       && ty == Plain(member.value.target, context.dictionary || shape.kind == Union)
  }

  ghost predicate LiteralTy(value: Lit, ty: Type) {
    match value
    case BoolLit(_) => ty == BOOLEAN
    case IntLit(_) => ty == Plain(Prelude(DoubleKind, false), false)
    case FloatLit(_) => ty == Plain(Prelude(DoubleKind, false), false)
    case StrLit(_) => ty == Plain(Prelude(StringKind, false), false)
    case _ => false
  }

  // The shape lists no values, or lists this one.
  ghost predicate AllowsText(svc: Service, t: Type, text: string) {
    t.Plain? && t.target.Model? && t.target.id in svc.shapes ==>
      var shape := svc.shapes[t.target.id]; shape.enumValues == [] || text in shape.enumValues
  }

  // A string literal beside an enum is one of its values.
  ghost predicate LiteralFits(svc: Service, node: Node, other: Type) {
    node.kind.Literal? && node.value.StrLit? ==> AllowsText(svc, other, node.value.text)
  }

  // Any numbers by any of the six operators; two strings or two booleans only by equality.
  ghost predicate Comparable(svc: Service, value: Lit, children: seq<Node>, types: seq<Type>)
    requires |children| == |types|
  {
    && |types| >= 2 && value.StrLit? && value.text in {"eq", "ne", "gt", "gte", "lt", "lte"}
    && ((forall t | t in types :: IsNumber(svc, t))
        || (|types| == 2 && value.text in {"eq", "ne"}
            && ((forall t | t in types :: IsString(svc, t)) || (forall t | t in types :: IsBoolean(svc, t)))))
    && LiteralFits(svc, children[0], types[1]) && LiteralFits(svc, children[1], types[0])
  }

  ghost predicate ChainTy(svc: Service, nodes: seq<Node>, context: Type, ty: Type)
    decreases nodes, 0
  {
    if nodes == [] then ty == context
    else exists mid :: HasTy(svc, nodes[0], context, mid) && ChainTy(svc, nodes[1..], mid, ty)
  }

  ghost predicate EachTy(svc: Service, nodes: seq<Node>, context: Type, types: seq<Type>)
    decreases nodes, 0
  {
    if nodes == [] then types == []
    else types != [] && HasTy(svc, nodes[0], context, types[0]) && EachTy(svc, nodes[1..], context, types[1..])
  }

  ghost predicate FlattenTy(svc: Service, node: Node, context: Type, ty: Type)
    decreases node, 0
  {
    && |node.children| >= 1
    && exists collection, item ::
         && HasTy(svc, node.children[0], context, collection) && HasItems(svc, collection, item)
         && ty.ListOf? && OneLevel(svc, item, ty.element)
  }

  ghost predicate ProjectionTy(svc: Service, node: Node, context: Type, ty: Type)
    decreases node, 0
  {
    && |node.children| >= (if node.kind.FilterProjection? then 3 else 2)
    && ty.ListOf?
    && exists collection, item ::
         && HasTy(svc, node.children[0], context, collection) && HasItems(svc, collection, item)
         && HasTy(svc, node.children[1], item, ty.element)
         && (node.kind.FilterProjection? ==>
               exists test :: HasTy(svc, node.children[2], item, test) && IsBoolean(svc, test))
  }

  ghost predicate LengthTy(svc: Service, node: Node, context: Type, ty: Type)
    decreases node, 0
  {
    && |node.children| == 1 && ty == INTEGER
    && exists argument :: HasTy(svc, node.children[0], context, argument) && HasLength(svc, argument)
  }

  ghost predicate BooleanTy(svc: Service, node: Node, context: Type, ty: Type)
    decreases node, 0
  {
    && ty == BOOLEAN
    && exists types ::
         && EachTy(svc, node.children, context, types) && |types| == |node.children|
         && if node.kind.Comparator? then Comparable(svc, node.value, node.children, types)
            else |types| == 2 && forall t | t in types :: IsBoolean(svc, t)
  }

  /** `node`, in a context of type `context`, is of type `ty`. */
  ghost predicate HasTy(svc: Service, node: Node, context: Type, ty: Type)
    decreases node, 1
  {
    && !node.value.JsonValue?
    && match node.kind
       case Field => MemberTy(svc, node.value, context, ty)
       case Subexpression => ChainTy(svc, node.children, context, ty)
       case IndexExpression => ChainTy(svc, node.children, context, ty)
       case Index => node.value.IntLit? && HasItems(svc, context, ty)
       case Identity => ty == context
       case Literal => LiteralTy(node.value, ty)
       case Flatten => FlattenTy(svc, node, context, ty)
       case Projection => ProjectionTy(svc, node, context, ty)
       case FilterProjection => ProjectionTy(svc, node, context, ty)
       case Function => node.value == StrLit("length") && LengthTy(svc, node, context, ty)
       case OtherNode(_) => false
       case _ => BooleanTy(svc, node, context, ty)
  }

  // ---------- The compiler decides the rules ----------

  // What the compiler reads off a shape is what the model declares.
  lemma KindsAreDeclared(svc: Service)
    ensures forall t {:trigger KindOf(svc, t)} :: KindOf(svc, t).Success? <==> IsKnown(svc, t)
    ensures forall t {:trigger IsString(svc, t)} :: KindOf(svc, t) == Success(StringKind) <==> IsString(svc, t)
    ensures forall t {:trigger IsBoolean(svc, t)} :: KindOf(svc, t) == Success(BooleanKind) <==> IsBoolean(svc, t)
    ensures forall t {:trigger IsList(svc, t)} :: KindOf(svc, t) == Success(ListKind) <==> IsList(svc, t)
    ensures forall t {:trigger IsNumber(svc, t)} ::
              (KindOf(svc, t).Success? && IsNumeric(KindOf(svc, t).value)) <==> IsNumber(svc, t)
    ensures forall t {:trigger HasLength(svc, t)} ::
              (KindOf(svc, t).Success? && var kind := KindOf(svc, t).value;
               IsCollection(kind) || kind.MapKind? || kind.StringKind?) <==> HasLength(svc, t)
  {}

  lemma ItemsAreDeclared(svc: Service)
    ensures forall t, item :: ItemOf(svc, t) == Success(item) <==> HasItems(svc, t, item)
  {}

  ghost predicate Gives(svc: Service, node: Node, context: Type, ty: Type) {
    Compile(svc, node, context).Success? && Compile(svc, node, context).value.ty == ty
  }

  lemma ChainMiddle(svc: Service, nodes: seq<Node>, context: Type, ty: Type) returns (mid: Type)
    requires nodes != [] && ChainTy(svc, nodes, context, ty)
    ensures HasTy(svc, nodes[0], context, mid) && ChainTy(svc, nodes[1..], mid, ty)
  {
    mid :| HasTy(svc, nodes[0], context, mid) && ChainTy(svc, nodes[1..], mid, ty);
  }

  lemma {:induction false} ChainDecided(svc: Service, nodes: seq<Node>, context: Type, ty: Type)
    ensures (CompileChain(svc, nodes, context).Success? && CompileChain(svc, nodes, context).value.1 == ty)
       <==> (ChainTy(svc, nodes, context, ty))
    decreases nodes, 0
  {
    hide Compile, HasTy;
    if nodes != [] {
      var head := Compile(svc, nodes[0], context);
      if head.Success? {
        TypingDecided(svc, nodes[0], context, head.value.ty);
        ChainDecided(svc, nodes[1..], head.value.ty, ty);
      }
      if ChainTy(svc, nodes, context, ty) {
        var mid := ChainMiddle(svc, nodes, context, ty);
        TypingDecided(svc, nodes[0], context, mid);
      }
    }
  }

  lemma {:induction false} EachDecided(svc: Service, nodes: seq<Node>, context: Type, types: seq<Type>)
    ensures var parts := CompileEach(svc, nodes, context);
            (parts.Success? && types == Types(parts.value)) <==> (EachTy(svc, nodes, context, types))
    decreases nodes, 0
  {
    hide Compile, HasTy;
    if nodes != [] {
      if types != [] {
        TypingDecided(svc, nodes[0], context, types[0]);
        EachDecided(svc, nodes[1..], context, types[1..]);
        assert types == [types[0]] + types[1..];
      }
      var head, tail := Compile(svc, nodes[0], context), CompileEach(svc, nodes[1..], context);
      if head.Success? && tail.Success? {
        var parts := [head.value] + tail.value;
        assert Types(parts) == [head.value.ty] + Types(tail.value);
        assert Types(parts)[1..] == Types(tail.value);
      }
    }
  }

  function Types(parts: seq<Typed>): (types: seq<Type>)
    ensures |types| == |parts|
  {
    seq(|parts|, i requires 0 <= i < |parts| => parts[i].ty)
  }

  lemma FlattenDecided(svc: Service, node: Node, context: Type, ty: Type)
    requires node.kind.Flatten? && |node.children| >= 1
    requires forall t :: Gives(svc, node.children[0], context, t) <==> HasTy(svc, node.children[0], context, t)
    ensures (CompileFlatten(svc, node, context).Success? && CompileFlatten(svc, node, context).value.ty == ty)
       <==> (FlattenTy(svc, node, context, ty))
  {
    hide Compile, HasTy, ItemOf, KindOf, HasItems, IsList, IsKnown;
    KindsAreDeclared(svc);
    ItemsAreDeclared(svc);
    var child := node.children[0];
    if FlattenTy(svc, node, context, ty) {
      var collection, item :| HasTy(svc, child, context, collection) && HasItems(svc, collection, item)
          && OneLevel(svc, item, ty.element);
      assert Gives(svc, child, context, collection);
    }
    if CompileFlatten(svc, node, context).Success? && CompileFlatten(svc, node, context).value.ty == ty {
      var collection := Compile(svc, child, context).value.ty;
      assert Gives(svc, child, context, collection);
      assert HasItems(svc, collection, ItemOf(svc, collection).value);
    }
  }

  lemma ProjectionDecided(svc: Service, node: Node, context: Type, ty: Type)
    requires node.kind.Projection? || node.kind.FilterProjection?
    requires forall i, c, t | 0 <= i < |node.children| ::
               Gives(svc, node.children[i], c, t) <==> HasTy(svc, node.children[i], c, t)
    ensures (CompileProjection(svc, node, context).Success? && CompileProjection(svc, node, context).value.ty == ty)
       <==> (ProjectionTy(svc, node, context, ty))
  {
    hide Compile, HasTy, ItemOf, KindOf, HasItems, IsBoolean;
    KindsAreDeclared(svc);
    ItemsAreDeclared(svc);
    if ProjectionTy(svc, node, context, ty) {
      var collection, item :|
        && HasTy(svc, node.children[0], context, collection) && HasItems(svc, collection, item)
        && HasTy(svc, node.children[1], item, ty.element)
        && (node.kind.FilterProjection? ==>
              exists test :: HasTy(svc, node.children[2], item, test) && IsBoolean(svc, test));
      assert Gives(svc, node.children[0], context, collection) && Gives(svc, node.children[1], item, ty.element);
      if node.kind.FilterProjection? {
        var test :| HasTy(svc, node.children[2], item, test) && IsBoolean(svc, test);
        assert Gives(svc, node.children[2], item, test);
      }
    }
    if CompileProjection(svc, node, context).Success? && CompileProjection(svc, node, context).value.ty == ty {
      var collection := Compile(svc, node.children[0], context).value.ty;
      var item := ItemOf(svc, collection).value;
      assert Gives(svc, node.children[0], context, collection) && HasItems(svc, collection, item);
      assert Gives(svc, node.children[1], item, ty.element);
      if node.kind.FilterProjection? {
        var test := Compile(svc, node.children[2], item).value.ty;
        assert Gives(svc, node.children[2], item, test) && IsBoolean(svc, test);
      }
    }
  }

  lemma LengthDecided(svc: Service, node: Node, context: Type, ty: Type)
    requires forall i, t | 0 <= i < |node.children| ::
               Gives(svc, node.children[i], context, t) <==> HasTy(svc, node.children[i], context, t)
    ensures (CompileLength(svc, node, context).Success? && CompileLength(svc, node, context).value.ty == ty)
       <==> (LengthTy(svc, node, context, ty))
  {
    hide Compile, HasTy, KindOf, HasLength;
    KindsAreDeclared(svc);
    if LengthTy(svc, node, context, ty) {
      var argument :| HasTy(svc, node.children[0], context, argument) && HasLength(svc, argument);
      assert Gives(svc, node.children[0], context, argument);
    }
    if CompileLength(svc, node, context).Success? && CompileLength(svc, node, context).value.ty == ty {
      assert Gives(svc, node.children[0], context, Compile(svc, node.children[0], context).value.ty);
    }
  }

  // Only literals compile to literals.
  lemma CompiledLiteral(svc: Service, node: Node, context: Type)
    requires Compile(svc, node, context).Success?
    ensures var expr := Compile(svc, node, context).value.expr;
            (expr.kind.Literal? <==> node.kind.Literal?) && (node.kind.Literal? ==> expr.value == node.value)
  {
    hide CompileChain, CompileFlatten, CompileProjection, CompileLength, CompileBoolean;
    CompiledKinds(svc, node, context);
  }

  lemma CompiledKinds(svc: Service, node: Node, context: Type)
    ensures node.kind.Flatten? && CompileFlatten(svc, node, context).Success? ==>
              CompileFlatten(svc, node, context).value.expr.kind.Flatten?
    ensures (node.kind.Projection? || node.kind.FilterProjection?) && CompileProjection(svc, node, context).Success? ==>
              CompileProjection(svc, node, context).value.expr.kind == node.kind
    ensures CompileLength(svc, node, context).Success? ==> CompileLength(svc, node, context).value.expr.kind.Function?
    ensures node.kind in {Comparator, And, Or} && CompileBoolean(svc, node, context).Success? ==>
              CompileBoolean(svc, node, context).value.expr.kind == node.kind
  {
    hide Compile, ItemOf, KindOf, CheckComparison, CompileEach, Kinds;
  }

  lemma {:induction false} KindsDecided(svc: Service, parts: seq<Typed>)
    ensures Kinds(svc, parts).Success? <==> forall p | p in parts :: KindOf(svc, p.ty).Success?
    ensures Kinds(svc, parts).Success? ==>
              && |Kinds(svc, parts).value| == |parts|
              && forall i | 0 <= i < |parts| :: Kinds(svc, parts).value[i] == KindOf(svc, parts[i].ty).value
  {
    hide KindOf;
    if parts != [] {
      assert parts == [parts[0]] + parts[1..];
      KindsDecided(svc, parts[1..]);
    }
  }

  lemma {:induction false} EachCompiles(svc: Service, nodes: seq<Node>, context: Type, i: nat)
    requires CompileEach(svc, nodes, context).Success? && i < |nodes|
    ensures Compile(svc, nodes[i], context) == Success(CompileEach(svc, nodes, context).value[i])
  {
    hide Compile;
    if i > 0 {
      EachCompiles(svc, nodes[1..], context, i - 1);
    }
  }

  lemma LiteralAllowed(svc: Service, nodes: seq<Node>, context: Type, i: nat, j: nat)
    requires CompileEach(svc, nodes, context).Success? && i < |nodes| && j < |nodes|
    ensures var parts := CompileEach(svc, nodes, context).value;
            EnumLiteralAllowed(svc, parts[i], parts[j]) <==> LiteralFits(svc, nodes[i], Types(parts)[j])
  {
    hide Compile;
    EachCompiles(svc, nodes, context, i);
    CompiledLiteral(svc, nodes[i], context);
  }

  // The operand check on compiled parts is the rule on their types.
  lemma ComparisonDecided(svc: Service, nodes: seq<Node>, context: Type, value: Lit)
    requires CompileEach(svc, nodes, context).Success?
    ensures var parts := CompileEach(svc, nodes, context).value;
            (Kinds(svc, parts).Success? && CheckComparison(svc, value, parts, Kinds(svc, parts).value).Success?)
            <==> (Comparable(svc, value, nodes, Types(parts)))
  {
    hide CompileEach, EnumLiteralAllowed, LiteralFits, KindOf, IsNumber, IsString, IsBoolean;
    var parts := CompileEach(svc, nodes, context).value;
    var types := Types(parts);
    KindsDecided(svc, parts);
    assert forall i | 0 <= i < |parts| :: types[i] == parts[i].ty;
    if |nodes| >= 2 {
      LiteralAllowed(svc, nodes, context, 0, 1);
      LiteralAllowed(svc, nodes, context, 1, 0);
    }
    OperandsDecided(svc, parts);
  }

  lemma OperandsDecided(svc: Service, parts: seq<Typed>)
    ensures var kinds := Kinds(svc, parts);
            && ((kinds.Success? && forall k | k in kinds.value :: IsNumeric(k)) <==>
                  (forall t | t in Types(parts) :: IsNumber(svc, t)))
            && ((kinds.Success? && kinds.value == [StringKind, StringKind])
                 <==> (|parts| == 2 && forall t | t in Types(parts) :: IsString(svc, t)))
            && ((kinds.Success? && kinds.value == [BooleanKind, BooleanKind])
                 <==> (|parts| == 2 && forall t | t in Types(parts) :: IsBoolean(svc, t)))
  {
    hide KindOf, Kinds, IsNumber, IsString, IsBoolean;
    KindsAreDeclared(svc);
    KindsDecided(svc, parts);
    var types := Types(parts);
    assert forall i | 0 <= i < |parts| :: types[i] == parts[i].ty && types[i] in types && parts[i] in parts;
    if Kinds(svc, parts).Success? {
      var kinds := Kinds(svc, parts).value;
      assert forall i | 0 <= i < |parts| :: kinds[i] in kinds;
    }
  }

  lemma BooleanDecided(svc: Service, node: Node, context: Type, ty: Type)
    requires node.kind in {Comparator, And, Or}
    requires forall types ::
               (CompileEach(svc, node.children, context).Success?
                && types == Types(CompileEach(svc, node.children, context).value))
               <==> EachTy(svc, node.children, context, types)
    ensures (CompileBoolean(svc, node, context).Success? && CompileBoolean(svc, node, context).value.ty == ty)
       <==> (BooleanTy(svc, node, context, ty))
  {
    hide CompileEach, EachTy, Comparable, CheckComparison, Kinds, KindOf, Types, IsBoolean;
    var parts := CompileEach(svc, node.children, context);
    if parts.Success? {
      ComparisonDecided(svc, node.children, context, node.value);
      OperandsDecided(svc, parts.value);
      assert EachTy(svc, node.children, context, Types(parts.value));
    }
  }

  /** An expression compiles, to a type, exactly when the rules give it that type; so it has at most one. */
  lemma {:induction false} TypingDecided(svc: Service, node: Node, context: Type, ty: Type)
    ensures Gives(svc, node, context, ty) <==> HasTy(svc, node, context, ty)
    decreases node, 1
  {
    hide CompileChain, CompileFlatten, CompileProjection, CompileLength, CompileBoolean,
      ChainTy, FlattenTy, ProjectionTy, LengthTy, BooleanTy, ItemOf, HasItems;
    ItemsAreDeclared(svc);
    match node.kind
    case Subexpression => ChainDecided(svc, node.children, context, ty);
    case IndexExpression => ChainDecided(svc, node.children, context, ty);
    case Flatten =>
      ChildrenDecided(svc, node);
      EmptyIsUntyped(svc, node, context, ty);
      if |node.children| >= 1 {
        FlattenDecided(svc, node, context, ty);
      }
    case Projection =>
      ChildrenDecided(svc, node);
      ProjectionDecided(svc, node, context, ty);
    case FilterProjection =>
      ChildrenDecided(svc, node);
      ProjectionDecided(svc, node, context, ty);
    case Function =>
      ChildrenDecided(svc, node);
      LengthDecided(svc, node, context, ty);
    case Comparator =>
      OperandsTyped(svc, node, context);
      BooleanDecided(svc, node, context, ty);
    case And =>
      OperandsTyped(svc, node, context);
      BooleanDecided(svc, node, context, ty);
    case Or =>
      OperandsTyped(svc, node, context);
      BooleanDecided(svc, node, context, ty);
    case _ =>
  }

  lemma EmptyIsUntyped(svc: Service, node: Node, context: Type, ty: Type)
    requires node.kind.Flatten?
    ensures |node.children| < 1 ==> CompileFlatten(svc, node, context).Failure? && !FlattenTy(svc, node, context, ty)
  {
    hide Compile, HasTy;
  }

  lemma {:induction false} ChildrenDecided(svc: Service, node: Node)
    ensures forall i, c, t | 0 <= i < |node.children| ::
              Gives(svc, node.children[i], c, t) <==> HasTy(svc, node.children[i], c, t)
    decreases node, 0
  {
    hide Gives, HasTy;
    forall i, c, t | 0 <= i < |node.children|
      ensures Gives(svc, node.children[i], c, t) <==> HasTy(svc, node.children[i], c, t)
    {
      TypingDecided(svc, node.children[i], c, t);
    }
  }

  lemma {:induction false} OperandsTyped(svc: Service, node: Node, context: Type)
    ensures forall types ::
              (CompileEach(svc, node.children, context).Success?
               && types == Types(CompileEach(svc, node.children, context).value))
              <==> EachTy(svc, node.children, context, types)
    decreases node, 0
  {
    hide CompileEach, EachTy, Types;
    forall types
      ensures (CompileEach(svc, node.children, context).Success?
               && types == Types(CompileEach(svc, node.children, context).value))
              <==> EachTy(svc, node.children, context, types)
    {
      EachDecided(svc, node.children, context, types);
    }
  }

  // ---------- Enums ----------

  function Compared(operator: string, name: string, text: string): Node {
    Node(Comparator, StrLit(operator), [Node(Field, StrLit(name), []), Node(Literal, StrLit(text), [])])
  }

  /** `name == 'text'` and `name != 'text'` compile on an enum exactly when it lists the text, or nothing. */
  lemma EnumComparison(svc: Service, context: Type, operator: string, name: string, text: string, id: string, e: string)
    requires operator == "eq" || operator == "ne"
    requires context.Plain? && context.target == Model(id) && id in svc.shapes
    requires svc.shapes[id].kind == Structure || svc.shapes[id].kind == Union
    requires var member := FindMember(svc.shapes[id].members, name); member.Some? && member.value.target == Model(e)
    requires e in svc.shapes && svc.shapes[e].kind == EnumKind
    ensures var allowed := svc.shapes[e].enumValues == [] || text in svc.shapes[e].enumValues;
            && (Gives(svc, Compared(operator, name, text), context, BOOLEAN) <==> allowed)
            && (Compile(svc, Compared(operator, name, text), context).Success? <==> allowed)
  {
    var node := Compared(operator, name, text);
    var dictionary := context.dictionary || svc.shapes[id].kind == Union;
    var types := [Plain(Model(e), dictionary), Plain(Prelude(StringKind, false), false)];
    EnumMember(svc, context, name, text, id, e);
    hide Compile, Comparable, HasTy;
    EnumComparable(svc, operator, node, types, text, e);
    ComparisonTy(svc, node, context, types, BOOLEAN);
    TypingDecided(svc, node, context, BOOLEAN);
    var compiled := Compile(svc, node, context);
    if compiled.Success? {
      ComparisonTy(svc, node, context, types, compiled.value.ty);
      TypingDecided(svc, node, context, compiled.value.ty);
    }
  }

  lemma EnumMember(svc: Service, context: Type, name: string, text: string, id: string, e: string)
    requires context.Plain? && context.target == Model(id) && id in svc.shapes
    requires svc.shapes[id].kind == Structure || svc.shapes[id].kind == Union
    requires var member := FindMember(svc.shapes[id].members, name); member.Some? && member.value.target == Model(e)
    ensures HasTy(svc, Node(Field, StrLit(name), []), context,
                  Plain(Model(e), context.dictionary || svc.shapes[id].kind == Union))
    ensures HasTy(svc, Node(Literal, StrLit(text), []), context, Plain(Prelude(StringKind, false), false))
  {}

  // The type of a comparison of two operands of the given types.
  lemma ComparisonTy(svc: Service, node: Node, context: Type, types: seq<Type>, ty: Type)
    requires node.kind.Comparator? && node.value.StrLit? && |node.children| == |types| == 2
    requires HasTy(svc, node.children[0], context, types[0]) && HasTy(svc, node.children[1], context, types[1])
    ensures HasTy(svc, node, context, ty) <==> ty == BOOLEAN && Comparable(svc, node.value, node.children, types)
  {
    assert HasTy(svc, node, context, ty) <==> BooleanTy(svc, node, context, ty);
    hide HasTy, Comparable;
    assert node.children == [node.children[0], node.children[1]];
    PairTyped(svc, node.children[0], node.children[1], context, types);
  }

  lemma EnumComparable(svc: Service, operator: string, node: Node, types: seq<Type>, text: string, e: string)
    requires operator == "eq" || operator == "ne"
    requires |node.children| == 2 && node.children[0].kind.Field?
    requires node.children[1] == Node(Literal, StrLit(text), [])
    requires |types| == 2 && types[0].Plain? && types[0].target == Model(e)
    requires types[1] == Plain(Prelude(StringKind, false), false)
    requires e in svc.shapes && svc.shapes[e].kind == EnumKind
    ensures Comparable(svc, StrLit(operator), node.children, types) <==>
              svc.shapes[e].enumValues == [] || text in svc.shapes[e].enumValues
  {
    assert forall t | t in types :: t == types[0] || t == types[1];
    assert types[0] in types && !IsNumber(svc, types[0]) && !IsBoolean(svc, types[0]);
  }

  lemma PairTyped(svc: Service, a: Node, b: Node, context: Type, types: seq<Type>)
    requires |types| == 2 && HasTy(svc, a, context, types[0]) && HasTy(svc, b, context, types[1])
    ensures forall other :: EachTy(svc, [a, b], context, other) <==> other == types
  {
    hide HasTy, Compile;
    assert [a, b][1..] == [b] && [b][1..] == [];
    forall other
      ensures EachTy(svc, [a, b], context, other) <==> other == types
    {
      if other == types {
        assert types[1..] == [types[1]] && [types[1]][1..] == [];
        assert EachTy(svc, [b], context, types[1..]);
      }
      if EachTy(svc, [a, b], context, other) {
        assert EachTy(svc, [b], context, other[1..]) && other[1..] != [];
        assert EachTy(svc, [b][1..], context, other[1..][1..]);
        assert other[1..][1..] == [] && |other| == 2;
        TypingDecided(svc, a, context, types[0]);
        TypingDecided(svc, a, context, other[0]);
        TypingDecided(svc, b, context, types[1]);
        TypingDecided(svc, b, context, other[1]);
        assert other == types;
      }
    }
  }
}
