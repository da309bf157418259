/**
 Reference meaning of a waiter expression, straight on modelled values and model names:
 a missing field is null, null propagates, and logical operators are three-valued.
 */
module WaiterMeaning {
  import opened Wrappers
  import opened PyValues
  import opened WaiterCompiler
  import opened Responses

  // `Wrong`: an operation met a non-null operand of a type it does not apply to.
  datatype Answer = Wrong | Answer(value: Value)

  function MeaningOfField(name: string, v: Value): Answer {
    match v
    case Null => Answer(Null)
    case Struct(fields) => Answer(FieldOf(fields, name))
    case Tagged(member, payload) => Answer(if member == name then payload else Null)
    case UnknownVariant => Answer(Null)
    case _ => Wrong
  }

  function MeaningOfIndex(index: int, v: Value): Answer {
    match v
    case Null => Answer(Null)
    case List(items) =>
      (match AtIndex(items, index)
       case Some(item) => Answer(item)
       case None => Answer(Null))
    case _ => Wrong
  }

  function MeaningOfLiteral(value: Lit): Answer {
    match value
    case BoolLit(b) => Answer(Bool(b))
    case IntLit(i) => Answer(Int(i))
    case FloatLit(f) => Answer(Flt(f))
    case StrLit(s) => Answer(Str(s))
    case _ => Wrong
  }

  function MeaningOfLength(v: Value): Answer {
    match v
    case Null => Answer(Null)
    case List(items) => Answer(Int(|items|))
    case Mapping(entries) => Answer(Int(|entries|))
    case Str(text) => Answer(Int(|text|))
    case _ => Wrong
  }

  // The items of one level of nested lists, in order.
  function Flattened(items: seq<Value>): seq<Value> {
    if items == [] then []
    else (if items[0].List? then items[0].items else [items[0]]) + Flattened(items[1..])
  }

  function MagnitudeOf(v: Value): Option<Float> {
    match v
    case Int(i) => Some(Finite(i as real))
    case Flt(f) => Some(f)
    case _ => None
  }

  function MeaningOfComparison(op: Comparison, a: Value, b: Value): Answer {
    if a.Null? || b.Null? then Answer(Null)
    else
      match (MagnitudeOf(a), MagnitudeOf(b))
      case (Some(x), Some(y)) =>
        Answer(Bool(match op
                    case Eq => FloatEquals(x, y)
                    case Ne => !FloatEquals(x, y)
                    case Gt => FloatLess(y, x)
                    case Gte => FloatLess(y, x) || FloatEquals(y, x)
                    case Lt => FloatLess(x, y)
                    case Lte => FloatLess(x, y) || FloatEquals(x, y)))
      case (_, _) =>
        if (a.Str? && b.Str?) || (a.Bool? && b.Bool?) then
          match op
          case Eq => Answer(Bool(a == b))
          case Ne => Answer(Bool(a != b))
          case _ => Wrong
        else Wrong
  }

  // Kleene's strong connectives over true, false and null.
  function MeaningOfLogic(kind: NodeKind, a: Value, b: Value): Answer {
    if !(a.Null? || a.Bool?) || !(b.Null? || b.Bool?) then Wrong
    else
      var decisive := Bool(kind.Or?);
      if a == decisive || b == decisive then Answer(decisive)
      else if a.Null? || b.Null? then Answer(Null)
      else Answer(Bool(!decisive.truth))
  }

  function MeaningOfBinary(kind: NodeKind, value: Lit, a: Answer, b: Answer): Answer {
    if a.Wrong? || b.Wrong? then Wrong
    else if kind.And? || kind.Or? then MeaningOfLogic(kind, a.value, b.value)
    else
      match ComparisonOf(value)
      case Some(op) => MeaningOfComparison(op, a.value, b.value)
      case None => Wrong
  }

  function MeaningOfChain(nodes: seq<Node>, v: Answer): Answer
    decreases nodes, 0
  {
    if nodes == [] || v.Wrong? || v.value.Null? then v
    else MeaningOfChain(nodes[1..], Meaning(nodes[0], v.value))
  }

  // Items whose predicate is true, projected; null projections are dropped.
  function MeaningOfItems(node: Node, items: seq<Value>): Answer
    requires node.kind.Projection? || node.kind.FilterProjection?
    requires |node.children| >= if node.kind.FilterProjection? then 3 else 2
    decreases node, 0, |items|
  {
    if items == [] then Answer(List([]))
    else
      var chosen := if node.kind.FilterProjection? then Meaning(node.children[2], items[0]) else Answer(Bool(true));
      if chosen.Wrong? || !(chosen.value.Null? || chosen.value.Bool?) then Wrong
      else if chosen.value != Bool(true) then MeaningOfItems(node, items[1..])
      else
        var head := Meaning(node.children[1], items[0]);
        if head.Wrong? then Wrong
        else
          var tail := MeaningOfItems(node, items[1..]);
          if tail.Answer? && tail.value.List? && !head.value.Null?
          then Answer(List([head.value] + tail.value.items)) else tail
  }

  function MeaningOfProjection(node: Node, v: Value): Answer
    requires node.kind.Projection? || node.kind.FilterProjection?
    decreases node, 1
  {
    if |node.children| < (if node.kind.FilterProjection? then 3 else 2) then Wrong
    else
      var argument := Meaning(node.children[0], v);
      if argument.Wrong? || argument.value.Null? then argument
      else if argument.value.List? then MeaningOfItems(node, argument.value.items)
      else Wrong
  }

  function MeaningOfFlatten(node: Node, v: Value): Answer
    decreases node, 1
  {
    if |node.children| < 1 then Wrong
    else
      var argument := Meaning(node.children[0], v);
      if argument.Wrong? || argument.value.Null? then argument
      else if argument.value.List? then Answer(List(Flattened(argument.value.items)))
      else Wrong
  }

  function Meaning(node: Node, v: Value): Answer
    decreases node, 2
  {
    match node.kind
    case Field => if node.value.StrLit? then MeaningOfField(node.value.text, v) else Wrong
    case Subexpression => MeaningOfChain(node.children, Answer(v))
    case IndexExpression => MeaningOfChain(node.children, Answer(v))
    case Index => if node.value.IntLit? then MeaningOfIndex(node.value.number, v) else Wrong
    case Identity => Answer(v)
    case Literal => MeaningOfLiteral(node.value)
    case Flatten => MeaningOfFlatten(node, v)
    case Function =>
      if |node.children| != 1 then Wrong
      else
        (var argument := Meaning(node.children[0], v);
         if argument.Wrong? then Wrong else MeaningOfLength(argument.value))
    case Projection => MeaningOfProjection(node, v)
    case FilterProjection => MeaningOfProjection(node, v)
    case _ =>
      if |node.children| < 2 then Wrong
      else MeaningOfBinary(node.kind, node.value, Meaning(node.children[0], v), Meaning(node.children[1], v))
  }
}
