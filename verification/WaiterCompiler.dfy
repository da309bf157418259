/** The model-checked compiler from JMESPath syntax trees to waiter expressions. */
module WaiterCompiler {
  import opened Wrappers
  import opened PyValues
  import opened Smithy

  datatype NodeKind =
    | Field | Subexpression | IndexExpression | Index | Identity | Flatten
    | Projection | FilterProjection | Function | Literal
    | Comparator | And | Or | OtherNode(name: string)

  // The value slot of a node; `JsonValue` stands for anything that is not a scalar.
  datatype Lit =
    | NoValue | BoolLit(truth: bool) | IntLit(number: int) | FloatLit(float: Float)
    | StrLit(text: string) | JsonValue

  datatype Node = Node(kind: NodeKind, value: Lit, children: seq<Node>)

  datatype Expr = Expr(kind: NodeKind, value: Lit, children: seq<Expr>)

  // `ListOf` is the type of a projection: it names no shape, only its element type.
  datatype Type = Plain(target: Target, dictionary: bool) | ListOf(element: Type)

  datatype Typed = Typed(expr: Expr, ty: Type)

  datatype CompileError =
    | FieldCrossesNonStructure | UnknownField | InvalidIndex | RequiresList
    | PredicateNotBoolean | LengthArity | LengthNeedsSized | UnsupportedLiteral
    | UnsupportedComparison | IncompatibleComparison | OrderedNeedsNumbers
    | LogicalNeedsBooleans | UnknownEnumValue | UnsupportedExpression
    | UnknownShape   // a target missing from the shape table (a Python KeyError)
    | MalformedNode  // too few children, or a value that is not a scalar

  datatype Comparison = Eq | Ne | Gt | Gte | Lt | Lte

  function ComparisonOf(value: Lit): Option<Comparison> {
    match value
    case StrLit(text) =>
      if text == "eq" then Some(Eq)
      else if text == "ne" then Some(Ne)
      else if text == "gt" then Some(Gt)
      else if text == "gte" then Some(Gte)
      else if text == "lt" then Some(Lt)
      else if text == "lte" then Some(Lte)
      else None
    case _ => None
  }

  function TargetShape(svc: Service, t: Type): Option<Shape> {
    if t.Plain? then svc.Find(t.target) else None
  }

  function KindOf(svc: Service, t: Type): Result<Kind, CompileError> {
    match t
    case ListOf(_) => Success(ListKind)
    case Plain(Prelude(kind, _), _) => Success(kind)
    case Plain(Model(id), _) =>
      if id !in svc.shapes then Failure(UnknownShape)
      else Success(if svc.shapes[id].kind.EnumKind? then StringKind else svc.shapes[id].kind)
  }

  function ItemOf(svc: Service, t: Type): Result<Type, CompileError> {
    if t.ListOf? then Success(t.element)
    else
      match TargetShape(svc, t)
      case None => Failure(RequiresList)
      case Some(shape) =>
        if IsCollection(shape.kind) && shape.memberTarget.Some?
        then Success(Plain(shape.memberTarget.value, t.dictionary))
        else Failure(RequiresList)
  }

  predicate ExpectedAllowed(svc: Service, t: Type, text: string) {
    match TargetShape(svc, t)
    case None => true
    case Some(shape) => shape.enumValues == [] || text in shape.enumValues
  }

  function LiteralType(value: Lit): Result<Type, CompileError> {
    match value
    case BoolLit(_) => Success(Plain(Prelude(BooleanKind, false), false))
    case IntLit(_) => Success(Plain(Prelude(DoubleKind, false), false))
    case FloatLit(_) => Success(Plain(Prelude(DoubleKind, false), false))
    case StrLit(_) => Success(Plain(Prelude(StringKind, false), false))
    case _ => Failure(UnsupportedLiteral)
  }

  function Exprs(parts: seq<Typed>): (exprs: seq<Expr>)
    ensures |exprs| == |parts|
  {
    seq(|parts|, i requires 0 <= i < |parts| => parts[i].expr)
  }

  function Kinds(svc: Service, parts: seq<Typed>): Result<seq<Kind>, CompileError> {
    if parts == [] then Success([])
    else
      var head :- KindOf(svc, parts[0].ty);
      var tail :- Kinds(svc, parts[1..]);
      Success([head] + tail)
  }

  // A string literal compared with an enum must be one of its values.
  predicate EnumLiteralAllowed(svc: Service, literal: Typed, other: Typed) {
    literal.expr.kind.Literal? && literal.expr.value.StrLit? ==>
      ExpectedAllowed(svc, other.ty, literal.expr.value.text)
  }

  function CheckComparison(svc: Service, value: Lit, parts: seq<Typed>, kinds: seq<Kind>): Result<(), CompileError> {
    var numbers := forall k | k in kinds :: IsNumeric(k);
    var op := ComparisonOf(value);
    if op.None? then Failure(UnsupportedComparison)
    else if !numbers && kinds != [StringKind, StringKind] && kinds != [BooleanKind, BooleanKind]
    then Failure(IncompatibleComparison)
    else if op.value !in {Eq, Ne} && !numbers then Failure(OrderedNeedsNumbers)
    else if |parts| < 2 then Failure(MalformedNode)
    else if !EnumLiteralAllowed(svc, parts[0], parts[1]) then Failure(UnknownEnumValue)
    else if !EnumLiteralAllowed(svc, parts[1], parts[0]) then Failure(UnknownEnumValue)
    else Success(())
  }

  function CompileField(svc: Service, value: Lit, context: Type): Result<Typed, CompileError> {
    match TargetShape(svc, context)
    case None => Failure(FieldCrossesNonStructure)
    case Some(shape) =>
      if !HasMembers(shape.kind) then Failure(FieldCrossesNonStructure)
      else if !value.StrLit? then Failure(UnknownField)
      else
        match FindMember(shape.members, value.text)
        case None => Failure(UnknownField)
        case Some(member) =>
          var dictionary := context.dictionary || shape.kind.Union?;
          Success(Typed(Expr(Field, StrLit(svc.Exposed(shape, member, dictionary)), []),
                        Plain(member.target, dictionary)))
  }

  function CompileChain(svc: Service, nodes: seq<Node>, context: Type): Result<(seq<Expr>, Type), CompileError>
    decreases nodes, 0
  {
    if nodes == [] then Success(([], context))
    else
      var head :- Compile(svc, nodes[0], context);
      var tail :- CompileChain(svc, nodes[1..], head.ty);
      Success(([head.expr] + tail.0, tail.1))
  }

  function CompileEach(svc: Service, nodes: seq<Node>, context: Type): (r: Result<seq<Typed>, CompileError>)
    ensures r.Success? ==> |r.value| == |nodes|
    decreases nodes, 0
  {
    if nodes == [] then Success([])
    else
      var head :- Compile(svc, nodes[0], context);
      var tail :- CompileEach(svc, nodes[1..], context);
      Success([head] + tail)
  }

  function CompileFlatten(svc: Service, node: Node, context: Type): Result<Typed, CompileError>
    requires node.kind.Flatten?
    decreases node, 0
  {
    if |node.children| < 1 then Failure(MalformedNode) else
    var collection :- Compile(svc, node.children[0], context);
    var item :- ItemOf(svc, collection.ty);
    var kind :- KindOf(svc, item);
    // One level is flattened, and only when the items are of kind "list".
    var element :- if kind.ListKind? then ItemOf(svc, item) else Success(item);
    Success(Typed(Expr(Flatten, node.value, [collection.expr]), ListOf(element)))
  }

  function CompileProjection(svc: Service, node: Node, context: Type): Result<Typed, CompileError>
    requires node.kind.Projection? || node.kind.FilterProjection?
    decreases node, 0
  {
    if |node.children| < 2 then Failure(MalformedNode) else
    var collection :- Compile(svc, node.children[0], context);
    var item :- ItemOf(svc, collection.ty);
    var projected :- Compile(svc, node.children[1], item);
    if node.kind.Projection? then
      Success(Typed(Expr(Projection, node.value, [collection.expr, projected.expr]), ListOf(projected.ty)))
    else if |node.children| < 3 then Failure(MalformedNode) else
    var predicate_ :- Compile(svc, node.children[2], item);
    var kind :- KindOf(svc, predicate_.ty);
    if !kind.BooleanKind? then Failure(PredicateNotBoolean)
    else Success(Typed(Expr(FilterProjection, node.value, [collection.expr, projected.expr, predicate_.expr]),
                       ListOf(projected.ty)))
  }

  function CompileLength(svc: Service, node: Node, context: Type): Result<Typed, CompileError>
    decreases node, 0
  {
    if |node.children| != 1 then Failure(LengthArity) else
    var argument :- Compile(svc, node.children[0], context);
    var kind :- KindOf(svc, argument.ty);
    if !(IsCollection(kind) || kind.MapKind? || kind.StringKind?) then Failure(LengthNeedsSized)
    else Success(Typed(Expr(Function, node.value, [argument.expr]), Plain(Prelude(IntegerKind, false), false)))
  }

  function CompileBoolean(svc: Service, node: Node, context: Type): Result<Typed, CompileError>
    requires node.kind in {Comparator, And, Or}
    decreases node, 0
  {
    var parts :- CompileEach(svc, node.children, context);
    var kinds :- Kinds(svc, parts);
    var _ :- if node.kind.Comparator? then CheckComparison(svc, node.value, parts, kinds)
             else if kinds != [BooleanKind, BooleanKind] then Failure(LogicalNeedsBooleans)
             else Success(());
    Success(Typed(Expr(node.kind, node.value, Exprs(parts)), Plain(Prelude(BooleanKind, false), false)))
  }

  function Compile(svc: Service, node: Node, context: Type): Result<Typed, CompileError>
    decreases node, 1
  {
    var result :-
      match node.kind
      case Field => CompileField(svc, node.value, context)
      case Subexpression =>
        (var chain :- CompileChain(svc, node.children, context);
         Success(Typed(Expr(node.kind, node.value, chain.0), chain.1)))
      case IndexExpression =>
        (var chain :- CompileChain(svc, node.children, context);
         Success(Typed(Expr(node.kind, node.value, chain.0), chain.1)))
      case Index =>
        if !node.value.IntLit? then Failure(InvalidIndex)
        else
          (var item :- ItemOf(svc, context);
           Success(Typed(Expr(Index, node.value, []), item)))
      case Identity => Success(Typed(Expr(Identity, node.value, []), context))
      case Flatten => CompileFlatten(svc, node, context)
      case Projection => CompileProjection(svc, node, context)
      case FilterProjection => CompileProjection(svc, node, context)
      case Function =>
        if node.value == StrLit("length") then CompileLength(svc, node, context)
        else Failure(UnsupportedExpression)
      case Literal =>
        (var ty :- LiteralType(node.value);
         Success(Typed(Expr(Literal, node.value, []), ty)))
      case OtherNode(_) => Failure(UnsupportedExpression)
      case _ => CompileBoolean(svc, node, context);
    if node.value.JsonValue? then Failure(MalformedNode) else Success(result)
  }
}
