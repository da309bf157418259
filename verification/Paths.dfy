/** Pagination's own path resolver and reader, against the waiter compiler and evaluator. */
module Paths {
  import opened Wrappers
  import opened PyValues
  import opened Smithy
  import opened WaiterCompiler
  import opened WaiterRuntime

  datatype Step = Name(name: string) | At(index: int)

  datatype PathError = CrossesScalar | IndexNeedsList | FieldNeedsStructure | UnknownOutput | OwnsStream

  datatype Place = Place(steps: seq<Step>, target: Target, dictionary: bool)

  // One step from a place.
  function Advance(svc: Service, place: Place, step: Step): Result<Place, PathError> {
    match svc.Find(place.target)
    case None => Failure(CrossesScalar)
    case Some(shape) =>
      match step
      case At(_) =>
        if !IsCollection(shape.kind) || shape.memberTarget.None? then Failure(IndexNeedsList)
        else Success(Place(place.steps + [step], shape.memberTarget.value, place.dictionary))
      case Name(name) =>
        if !HasMembers(shape.kind) then Failure(FieldNeedsStructure)
        else
          match FindMember(shape.members, name)
          case None => Failure(UnknownOutput)
          case Some(member) =>
            if member.streaming then Failure(OwnsStream)
            else
              var dictionary := place.dictionary || shape.kind.Union?;
              Success(Place(place.steps + [Name(svc.Exposed(shape, member, dictionary))], member.target, dictionary))
  }

  function Walk(svc: Service, place: Place, path: seq<Step>): Result<Place, PathError>
    decreases path
  {
    if path == [] then Success(place)
    else
      var next :- Advance(svc, place, path[0]);
      Walk(svc, next, path[1..])
  }

  /** The resolution of one pagination path from the output of an operation. */
  method OutputPath(svc: Service, output: Target, native: bool, path: seq<Step>)
    returns (r: Result<(seq<Step>, Target), PathError>)
    ensures var end := Walk(svc, Place([], output, !native), path);
            if end.Success? then r == Success((end.value.steps, end.value.target)) else r == Failure(end.error)
  {
    var target, dictionary, resolved := output, !native, [];
    ghost var start := Place([], output, !native);
    for i := 0 to |path|
      invariant Walk(svc, start, path) == Walk(svc, Place(resolved, target, dictionary), path[i..])
    {
      var step := path[i];
      assert path[i..][0] == step && path[i..][1..] == path[i + 1..];
      var found := svc.Find(target);
      if found.None? {
        return Failure(CrossesScalar);
      }
      var shape := found.value;
      if step.At? {
        if !IsCollection(shape.kind) || shape.memberTarget.None? {
          return Failure(IndexNeedsList);
        }
        resolved := resolved + [step];
        target := shape.memberTarget.value;
      } else {
        if !HasMembers(shape.kind) {
          return Failure(FieldNeedsStructure);
        }
        var member := FindMember(shape.members, step.name);
        if member.None? {
          return Failure(UnknownOutput);
        }
        if member.value.streaming {
          return Failure(OwnsStream);
        }
        dictionary := dictionary || shape.kind.Union?;
        resolved := resolved + [Name(svc.Exposed(shape, member.value, dictionary))];
        target := member.value.target;
      }
    }
    return Success((resolved, target));
  }

  // ---------- Path-shaped expressions ----------

  predicate IsChain(kind: NodeKind) {
    kind.Subexpression? || kind.IndexExpression?
  }

  // Fields and indices nested in any way, as a JMESPath parser may nest `a.b[0].c`.
  predicate IsPathNode(node: Node) {
    if IsChain(node.kind) then node.value.NoValue? && forall child | child in node.children :: IsPathNode(child)
    else if node.kind.Field? then node.value.StrLit?
    else node.kind.Index? && node.value.IntLit?
  }

  function StepsOf(node: Node): seq<Step>
    requires IsPathNode(node)
    decreases node, 0
  {
    if IsChain(node.kind) then StepsOfAll(node.children)
    else if node.kind.Field? then [Name(node.value.text)]
    else [At(node.value.number)]
  }

  function StepsOfAll(nodes: seq<Node>): seq<Step>
    requires forall node | node in nodes :: IsPathNode(node)
    decreases nodes, 1
  {
    if nodes == [] then [] else StepsOf(nodes[0]) + StepsOfAll(nodes[1..])
  }

  predicate IsPathExpr(expr: Expr) {
    if IsChain(expr.kind) then forall child | child in expr.children :: IsPathExpr(child)
    else if expr.kind.Field? then expr.value.StrLit?
    else expr.kind.Index? && expr.value.IntLit?
  }

  function EmittedSteps(expr: Expr): seq<Step>
    requires IsPathExpr(expr)
    decreases expr, 0
  {
    if IsChain(expr.kind) then EmittedStepsOfAll(expr.children)
    else if expr.kind.Field? then [Name(expr.value.text)]
    else [At(expr.value.number)]
  }

  function EmittedStepsOfAll(exprs: seq<Expr>): seq<Step>
    requires forall expr | expr in exprs :: IsPathExpr(expr)
    decreases exprs, 1
  {
    if exprs == [] then [] else EmittedSteps(exprs[0]) + EmittedStepsOfAll(exprs[1..])
  }

  // The path names a streaming member before it stops resolving.
  predicate MeetsStream(svc: Service, target: Target, path: seq<Step>)
    decreases path
  {
    path != [] &&
    match svc.Find(target)
    case None => false
    case Some(shape) =>
      match path[0]
      case At(_) => IsCollection(shape.kind) && shape.memberTarget.Some?
          && MeetsStream(svc, shape.memberTarget.value, path[1..])
      case Name(name) =>
        HasMembers(shape.kind) &&
        var member := FindMember(shape.members, name);
        member.Some? && (member.value.streaming || MeetsStream(svc, member.value.target, path[1..]))
  }

  // Where a path leads, whatever it streams.
  function TargetAfter(svc: Service, target: Target, path: seq<Step>): Option<Target>
    decreases path
  {
    if path == [] then Some(target)
    else
      match svc.Find(target)
      case None => None
      case Some(shape) =>
        match path[0]
        case At(_) =>
          if IsCollection(shape.kind) && shape.memberTarget.Some?
          then TargetAfter(svc, shape.memberTarget.value, path[1..]) else None
        case Name(name) =>
          var member := FindMember(shape.members, name);
          if HasMembers(shape.kind) && member.Some? then TargetAfter(svc, member.value.target, path[1..]) else None
  }

  lemma {:induction false} WalkSplits(svc: Service, place: Place, a: seq<Step>, b: seq<Step>)
    ensures Walk(svc, place, a + b)
            == (var middle := Walk(svc, place, a); if middle.Success? then Walk(svc, middle.value, b) else middle)
    decreases a
  {
    if a == [] {
      assert a + b == b;
    } else {
      assert (a + b)[1..] == a[1..] + b;
      var next := Advance(svc, place, a[0]);
      if next.Success? {
        WalkSplits(svc, next.value, a[1..], b);
      }
    }
  }

  lemma {:induction false} StreamSplits(svc: Service, target: Target, a: seq<Step>, b: seq<Step>)
    ensures var middle := TargetAfter(svc, target, a);
            MeetsStream(svc, target, a + b) <==>
              MeetsStream(svc, target, a) || (middle.Some? && MeetsStream(svc, middle.value, b))
    decreases a
  {
    if a == [] {
      assert a + b == b;
    } else {
      assert (a + b)[1..] == a[1..] + b;
      match svc.Find(target)
      case None =>
      case Some(shape) =>
        match a[0]
        case At(_) =>
          if shape.memberTarget.Some? {
            StreamSplits(svc, shape.memberTarget.value, a[1..], b);
          }
        case Name(name) =>
          var member := FindMember(shape.members, name);
          if member.Some? {
            StreamSplits(svc, member.value.target, a[1..], b);
          }
    }
  }

  // The compiler and the resolver reach the same place, unless a stream is in the way.
  ghost predicate SamePlace(svc: Service, before: Place, path: seq<Step>,
                            compiled: Result<(seq<Step>, Type), CompileError>) {
    var end := Walk(svc, before, path);
    && (end.Success? <==> compiled.Success? && !MeetsStream(svc, before.target, path))
    && (end.Success? ==>
          && end.value.steps == before.steps + compiled.value.0
          && compiled.value.1 == Plain(end.value.target, end.value.dictionary))
    && (compiled.Success? ==>
          compiled.value.1.Plain? && TargetAfter(svc, before.target, path) == Some(compiled.value.1.target))
    && (compiled.Failure? ==> TargetAfter(svc, before.target, path) == None)
  }

  lemma LeafSamePlace(svc: Service, node: Node, place: Place)
    requires IsPathNode(node) && !IsChain(node.kind)
    ensures var compiled := Compile(svc, node, Plain(place.target, place.dictionary));
            && (compiled.Success? ==> IsPathExpr(compiled.value.expr))
            && SamePlace(svc, place, StepsOf(node),
                 if compiled.Success? then Success((EmittedSteps(compiled.value.expr), compiled.value.ty))
                 else Failure(compiled.error))
  {
    var step := StepsOf(node)[0];
    assert StepsOf(node) == [step] && [step][1..] == [];
    assert MeetsStream(svc, place.target, [step]) <==>
             step.Name? && var found := svc.Find(place.target);
             found.Some? && HasMembers(found.value.kind) &&
             var member := FindMember(found.value.members, step.name); member.Some? && member.value.streaming;
  }

  function Emitted(compiled: Result<Typed, CompileError>): Result<(seq<Step>, Type), CompileError>
    requires compiled.Success? ==> IsPathExpr(compiled.value.expr)
  {
    if compiled.Success? then Success((EmittedSteps(compiled.value.expr), compiled.value.ty))
    else Failure(compiled.error)
  }

  function EmittedAll(compiled: Result<(seq<Expr>, Type), CompileError>): Result<(seq<Step>, Type), CompileError>
    requires compiled.Success? ==> forall e | e in compiled.value.0 :: IsPathExpr(e)
  {
    if compiled.Success? then Success((EmittedStepsOfAll(compiled.value.0), compiled.value.1))
    else Failure(compiled.error)
  }

  lemma SamePlaceChains(svc: Service, place: Place, a: seq<Step>, b: seq<Step>,
                        head: Result<(seq<Step>, Type), CompileError>, tail: Result<(seq<Step>, Type), CompileError>)
    requires SamePlace(svc, place, a, head)
    requires head.Success? ==>
               var next := Place(place.steps + head.value.0, head.value.1.target, head.value.1.dictionary);
               SamePlace(svc, next, b, tail)
    ensures SamePlace(svc, place, a + b,
              if head.Failure? then head else if tail.Failure? then tail
              else Success((head.value.0 + tail.value.0, tail.value.1)))
  {
    hide Advance;
    WalkSplits(svc, place, a, b);
    StreamSplits(svc, place.target, a, b);
    TargetSplits(svc, place.target, a, b);
    if head.Success? && tail.Success? {
      assert place.steps + (head.value.0 + tail.value.0) == (place.steps + head.value.0) + tail.value.0;
    }
  }

  lemma {:induction false} TargetSplits(svc: Service, target: Target, a: seq<Step>, b: seq<Step>)
    ensures var middle := TargetAfter(svc, target, a);
            TargetAfter(svc, target, a + b) == if middle.Some? then TargetAfter(svc, middle.value, b) else None
    decreases a
  {
    if a == [] {
      assert a + b == b;
    } else {
      assert (a + b)[1..] == a[1..] + b;
      match svc.Find(target)
      case None =>
      case Some(shape) =>
        match a[0]
        case At(_) =>
          if shape.memberTarget.Some? {
            TargetSplits(svc, shape.memberTarget.value, a[1..], b);
          }
        case Name(name) =>
          var member := FindMember(shape.members, name);
          if member.Some? {
            TargetSplits(svc, member.value.target, a[1..], b);
          }
    }
  }

  lemma {:induction false} ChainSamePlace(svc: Service, nodes: seq<Node>, place: Place)
    requires forall node | node in nodes :: IsPathNode(node)
    ensures var compiled := CompileChain(svc, nodes, Plain(place.target, place.dictionary));
            && (compiled.Success? ==> forall e | e in compiled.value.0 :: IsPathExpr(e))
            && SamePlace(svc, place, StepsOfAll(nodes), EmittedAll(compiled))
    decreases nodes, 0
  {
    hide Compile, Walk, MeetsStream, TargetAfter;
    var t := Plain(place.target, place.dictionary);
    if nodes == [] {
      EmptyPath(svc, place);
    } else {
      NodeSamePlace(svc, nodes[0], place);
      var head := Compile(svc, nodes[0], t);
      var rest := nodes[1..];
      var tail := EmittedAll(Success(([], t)));
      if head.Success? {
        var emitted := EmittedSteps(head.value.expr);
        var next := Place(place.steps + emitted, head.value.ty.target, head.value.ty.dictionary);
        ChainSamePlace(svc, rest, next);
        tail := EmittedAll(CompileChain(svc, rest, head.value.ty));
      }
      SamePlaceChains(svc, place, StepsOf(nodes[0]), StepsOfAll(rest), Emitted(head), tail);
      if head.Success? && tail.Success? {
        var exprs := CompileChain(svc, rest, head.value.ty).value.0;
        assert ([head.value.expr] + exprs)[1..] == exprs;
      }
    }
  }

  lemma EmptyPath(svc: Service, place: Place)
    ensures SamePlace(svc, place, [], Success(([], Plain(place.target, place.dictionary))))
  {}

  lemma {:induction false} NodeSamePlace(svc: Service, node: Node, place: Place)
    requires IsPathNode(node)
    ensures var compiled := Compile(svc, node, Plain(place.target, place.dictionary));
            && (compiled.Success? ==> IsPathExpr(compiled.value.expr))
            && SamePlace(svc, place, StepsOf(node), Emitted(compiled))
    decreases node, 1
  {
    if IsChain(node.kind) {
      hide SamePlace;
      ChainSamePlace(svc, node.children, place);
    } else {
      LeafSamePlace(svc, node, place);
    }
  }

  /**
   The two resolvers agree: pagination accepts exactly the paths the waiter compiler accepts that
   meet no streaming member, with the same renamed steps and the same target.
   */
  lemma ResolversAgree(svc: Service, node: Node, output: Target, native: bool)
    requires IsPathNode(node)
    ensures var end := Walk(svc, Place([], output, !native), StepsOf(node));
            var compiled := Compile(svc, node, Plain(output, !native));
            && (end.Success? <==> compiled.Success? && !MeetsStream(svc, output, StepsOf(node)))
            && (end.Success? ==>
                  && IsPathExpr(compiled.value.expr)
                  && end.value.steps == EmittedSteps(compiled.value.expr)
                  && compiled.value.ty == Plain(end.value.target, end.value.dictionary))
  {
    hide Compile, Walk, MeetsStream, TargetAfter;
    NodeSamePlace(svc, node, Place([], output, !native));
  }

  // ---------- Reading a path at run time ----------

  // The paginator's reader of one page.
  function Read(value: Py, path: seq<Step>): Outcome {
    if path == [] then Val(value)
    else if value.PyNone? then Val(PyNone)
    else
      match path[0]
      case At(index) =>
        if !value.PyList? then Val(PyNone)
        else
          (match AtIndex(value.items, index)
           case None => Val(PyNone)
           case Some(item) => Read(item, path[1..]))
      case Name(name) =>
        match ReadField(name, value)
        case Fault => Fault
        case Missing => Val(PyNone)
        case Val(field) => Read(field, path[1..])
  }

  // The evaluator's sentinel, as the reader reports it.
  function AsNone(outcome: Outcome): Outcome {
    if outcome.Missing? then Val(PyNone) else outcome
  }

  lemma {:induction false} ReadSplits(value: Py, a: seq<Step>, b: seq<Step>)
    ensures Read(value, a + b) == (var middle := Read(value, a); if middle.Val? then Read(middle.value, b) else middle)
  {
    if a == [] {
      assert a + b == b;
    } else {
      assert (a + b)[0] == a[0] && (a + b)[1..] == a[1..] + b;
      if value.PyList? && a[0].At? && AtIndex(value.items, a[0].index).Some? {
        ReadSplits(AtIndex(value.items, a[0].index).value, a[1..], b);
      } else if a[0].Name? && ReadField(a[0].name, value).Val? {
        ReadSplits(ReadField(a[0].name, value).value, a[1..], b);
      }
    }
  }

  lemma {:induction false} ChainReads(exprs: seq<Expr>, value: Py)
    requires forall e | e in exprs :: IsPathExpr(e)
    ensures Read(value, EmittedStepsOfAll(exprs)) == AsNone(EvaluateChain(exprs, Val(value)))
    ensures EvaluateChain(exprs, Val(value)) != Fault ==> Read(value, EmittedStepsOfAll(exprs)).Val?
    decreases exprs, 0
  {
    if exprs != [] {
      hide Evaluate;
      ExprReads(exprs[0], value);
      ReadSplits(value, EmittedSteps(exprs[0]), EmittedStepsOfAll(exprs[1..]));
      var head := Evaluate(exprs[0], value);
      if head.Val? {
        ChainReads(exprs[1..], head.value);
      }
    }
  }

  /** Reading a resolved path and evaluating the compiled expression give the same, on every Python value. */
  lemma {:induction false} ExprReads(expr: Expr, value: Py)
    requires IsPathExpr(expr)
    ensures Read(value, EmittedSteps(expr)) == AsNone(Evaluate(expr, value))
    decreases expr, 1
  {
    if IsChain(expr.kind) {
      ChainReads(expr.children, value);
    } else {
      assert EmittedSteps(expr)[1..] == [];
    }
  }
}
