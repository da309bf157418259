/** The shared runtime evaluator of compiled waiter expressions. */
module WaiterRuntime {
  import opened Wrappers
  import opened PyValues
  import opened WaiterCompiler

  // `Missing` is the evaluator's private sentinel. `Fault` stands for a Python exception, or
  // for a property lookup on a value whose own Python attributes could answer it.
  datatype Outcome = Fault | Missing | Val(value: Py)

  // `_items`: lists only.
  function ItemsOf(outcome: Outcome): Option<seq<Py>> {
    if outcome.Val? && outcome.value.PyList? then Some(outcome.value.items) else None
  }

  function LengthOf(p: Py): Option<nat> {
    match p
    case PyList(items) => Some(|items|)
    case PyDict(entries) => Some(|entries|)
    case PyStr(text) => Some(|text|)
    case PyBytes(octets) => Some(|octets|)
    case _ => None
  }

  function ReadField(name: string, context: Py): Outcome {
    match context
    case PyDict(entries) =>
      if PyStr(name) in entries && entries[PyStr(name)] != PyNone then Val(entries[PyStr(name)]) else Missing
    case PyObject(_, attrs) =>
      if name in attrs && attrs[name] != PyNone then Val(attrs[name]) else Missing
    case PyNone => Missing
    case _ => Fault
  }

  function ReadIndex(index: int, context: Py): Outcome {
    if !context.PyList? then Missing
    else
      match AtIndex(context.items, index)
      case Some(item) => Val(item)
      case None => Missing
  }

  function FlattenItems(items: seq<Py>): seq<Py> {
    if items == [] then []
    else (if items[0].PyList? then items[0].items else [items[0]]) + FlattenItems(items[1..])
  }

  function Compare(value: Lit, left: Py, right: Py): Outcome {
    match ComparisonOf(value)
    case Some(Eq) => Val(PyBool(PyEquals(left, right)))
    case Some(Ne) => Val(PyBool(!PyEquals(left, right)))
    case op =>
      if !IsNumber(left) || !IsNumber(right) then Missing
      else
        var l, r := NumberOf(left).value, NumberOf(right).value;
        match op
        case Some(Gt) => Val(PyBool(FloatLess(r, l)))
        case Some(Gte) => Val(PyBool(FloatLess(r, l) || FloatEquals(r, l)))
        case Some(Lt) => Val(PyBool(FloatLess(l, r)))
        case Some(Lte) => Val(PyBool(FloatLess(l, r) || FloatEquals(l, r)))
        case _ => Fault
  }

  function Combine(kind: NodeKind, value: Lit, left: Outcome, right: Outcome): Outcome {
    var yes, no := Val(PyBool(true)), Val(PyBool(false));
    if left.Fault? then Fault
    else if kind.And? && left == no then no
    else if kind.Or? && left == yes then yes
    else if right.Fault? then Fault
    else if kind.And? && right == no then no
    else if kind.Or? && right == yes then yes
    else if left.Missing? || right.Missing? then Missing
    else if kind.And? then Val(PyBool(left == yes && right == yes))
    else if kind.Or? then Val(PyBool(left == yes || right == yes))
    else Compare(value, left.value, right.value)
  }

  function EvaluateLiteral(value: Lit): Outcome {
    match value
    case BoolLit(b) => Val(PyBool(b))
    case IntLit(i) => Val(PyInt(i))
    case FloatLit(f) => Val(PyFloat(f))
    case StrLit(s) => Val(PyStr(s))
    case _ => Fault
  }

  function EvaluateChain(exprs: seq<Expr>, context: Outcome): Outcome
    decreases exprs, 0
  {
    if exprs == [] || !context.Val? then context
    else EvaluateChain(exprs[1..], Evaluate(exprs[0], context.value))
  }

  // The list comprehension of a projection or filter over the remaining items.
  function EvaluateItems(expr: Expr, items: seq<Py>): Outcome
    requires expr.kind.Projection? || expr.kind.FilterProjection?
    requires |expr.children| >= if expr.kind.FilterProjection? then 3 else 2
    decreases expr, 0, |items|
  {
    if items == [] then Val(PyList([]))
    else
      var chosen := if expr.kind.FilterProjection? then Evaluate(expr.children[2], items[0]) else Val(PyBool(true));
      if chosen.Fault? then Fault
      else if chosen != Val(PyBool(true)) then EvaluateItems(expr, items[1..])
      else
        var head := Evaluate(expr.children[1], items[0]);
        if head.Fault? then Fault
        else
          var tail := EvaluateItems(expr, items[1..]);
          if tail.Val? && tail.value.PyList? && head.Val? then Val(PyList([head.value] + tail.value.items)) else tail
  }

  function EvaluateProjection(expr: Expr, context: Py): Outcome
    requires expr.kind.Projection? || expr.kind.FilterProjection?
    decreases expr, 1
  {
    if |expr.children| < (if expr.kind.FilterProjection? then 3 else 2) then Fault
    else
      var argument := Evaluate(expr.children[0], context);
      if argument.Fault? then Fault
      else
        match ItemsOf(argument)
        case None => Missing
        case Some(items) => EvaluateItems(expr, items)
  }

  // Comparators, logical operators and, as in the source, any other kind of expression.
  function EvaluateBinary(expr: Expr, context: Py): Outcome
    decreases expr, 1
  {
    if |expr.children| < 2 then Fault
    else Combine(expr.kind, expr.value, Evaluate(expr.children[0], context), Evaluate(expr.children[1], context))
  }

  function EvaluateFlatten(expr: Expr, context: Py): Outcome
    decreases expr, 1
  {
    if |expr.children| < 1 then Fault
    else
      var argument := Evaluate(expr.children[0], context);
      if argument.Fault? then Fault
      else
        match ItemsOf(argument)
        case None => Missing
        case Some(items) => Val(PyList(FlattenItems(items)))
  }

  function EvaluateLength(expr: Expr, context: Py): Outcome
    decreases expr, 1
  {
    if |expr.children| < 1 then Fault
    else
      var argument := Evaluate(expr.children[0], context);
      if !argument.Val? then argument
      else
        match LengthOf(argument.value)
        case None => Missing
        case Some(length) => Val(PyInt(length))
  }

  function Evaluate(expr: Expr, context: Py): Outcome
    decreases expr, 2
  {
    match expr.kind
    case Field => if expr.value.StrLit? then ReadField(expr.value.text, context) else Fault
    case Subexpression => EvaluateChain(expr.children, Val(context))
    case IndexExpression => EvaluateChain(expr.children, Val(context))
    case Index => if expr.value.IntLit? then ReadIndex(expr.value.number, context) else Fault
    case Identity => Val(context)
    case Literal => EvaluateLiteral(expr.value)
    case Flatten => EvaluateFlatten(expr, context)
    case Function => EvaluateLength(expr, context)
    case Projection => EvaluateProjection(expr, context)
    case FilterProjection => EvaluateProjection(expr, context)
    case _ => EvaluateBinary(expr, context)
  }
}
