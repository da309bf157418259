/**
 Expressions that read one place of a response: members, items, flattened documents, and chains
 of them. On a null item found there the projection `[*]` no longer means what it says, and
 neither does the chain that leads to it.
 */
module WaiterReads {
  import opened Wrappers
  import opened PyValues
  import opened Smithy
  import opened WaiterCompiler
  import opened WaiterRuntime
  import opened Responses
  import opened WaiterMeaning
  import opened WaiterCorrectness
  import opened WaiterSoundness

  const THIS: Node := Node(Identity, NoValue, [])
  const THIS_EXPR: Expr := Expr(Identity, NoValue, [])

  lemma ThisCompiles(svc: Service, t: Type)
    ensures Compile(svc, THIS, t) == Success(Typed(THIS_EXPR, t)) && FlattensNoSets(svc, THIS, t)
  {}

  // The flatten of the value at hand.
  const FLATTEN_THIS: Node := Node(Flatten, NoValue, [THIS])
  const FLATTEN_THIS_EXPR: Expr := Expr(Flatten, NoValue, [THIS_EXPR])

  lemma FlattenThisEvaluates(context: Py)
    ensures Evaluate(FLATTEN_THIS_EXPR, context) ==
            if context.PyList? then Val(PyList(FlattenItems(context.items))) else Missing
  {
    assert Evaluate(THIS_EXPR, context) == Val(context);
    EvaluateFlattenStep(FLATTEN_THIS_EXPR, context);
  }

  lemma FlattenThisHasNoSets(svc: Service, t: Type)
    requires ItemOf(svc, t).Success? && KindOf(svc, ItemOf(svc, t).value) != Success(SetKind)
    ensures FlattensNoSets(svc, FLATTEN_THIS, t)
  {
    ThisCompiles(svc, t);
    assert Compile(svc, FLATTEN_THIS.children[0], t) == Success(Typed(THIS_EXPR, t));
    assert FlattensNoSets(svc, FLATTEN_THIS.children[0], t);
  }

  // ---------- Expressions one after another ----------

  // The expression, when it is accepted, agrees with its meaning on the value.
  ghost predicate AgreesOn(svc: Service, node: Node, t: Type, v: Value) {
    var typed := Compile(svc, node, t);
    typed.Success? ==>
      Agrees(svc, Meaning(node, v), Evaluate(typed.value.expr, Represent(svc, v, t)), typed.value.ty)
  }

  // An accepted expression, flattening no sets, that does not.
  ghost predicate Breaks(svc: Service, node: Node, t: Type, v: Value) {
    Compile(svc, node, t).Success? && FlattensNoSets(svc, node, t) && !AgreesOn(svc, node, t, v)
  }

  // One expression leads to a present value, and agrees there.
  ghost predicate Reads(svc: Service, node: Node, t: Type, v: Value, read: Value) {
    var typed := Compile(svc, node, t);
    && typed.Success? && FlattensNoSets(svc, node, t) && !read.Null?
    && Meaning(node, v) == Answer(read)
    && Evaluate(typed.value.expr, Represent(svc, v, t)) == Val(Represent(svc, read, typed.value.ty))
  }

  function Then(first: Node, second: Node): Node {
    Node(Subexpression, NoValue, [first, second])
  }

  // An expression that breaks on what another reads breaks after it.
  lemma BreaksAfter(svc: Service, first: Node, second: Node, t: Type, v: Value, read: Value)
    requires Reads(svc, first, t, v, read) && !v.Null?
    requires Breaks(svc, second, Compile(svc, first, t).value.ty, read)
    ensures Breaks(svc, Then(first, second), t, v)
  {
    hide Represent, Agrees;
    var a := Compile(svc, first, t).value;
    var b := Compile(svc, second, a.ty).value;
    ThenCompiles(svc, first, second, t);
    ThenEvaluates(a.expr, b.expr, Represent(svc, v, t));
    ThenMeans(first, second, v);
  }

  lemma ThenCompiles(svc: Service, first: Node, second: Node, t: Type)
    requires Compile(svc, first, t).Success? && FlattensNoSets(svc, first, t)
    requires var a := Compile(svc, first, t).value;
             Compile(svc, second, a.ty).Success? && FlattensNoSets(svc, second, a.ty)
    ensures var a := Compile(svc, first, t).value;
            var b := Compile(svc, second, a.ty).value;
            && Compile(svc, Then(first, second), t)
               == Success(Typed(Expr(Subexpression, NoValue, [a.expr, b.expr]), b.ty))
            && FlattensNoSets(svc, Then(first, second), t)
  {
    var nodes := [first, second];
    var a := Compile(svc, first, t).value;
    var b := Compile(svc, second, a.ty).value;
    assert nodes[1..] == [second] && [second][1..] == [];
    assert CompileChain(svc, [], b.ty) == Success(([], b.ty));
    assert [b.expr] + [] == [b.expr] && [a.expr] + [b.expr] == [a.expr, b.expr];
    assert CompileChain(svc, [second], a.ty) == Success(([b.expr], b.ty));
    assert CompileChain(svc, nodes, t) == Success(([a.expr, b.expr], b.ty));
    assert ChainFlattensNoSets(svc, [], b.ty);
    assert ChainFlattensNoSets(svc, [second], a.ty);
    assert ChainFlattensNoSets(svc, nodes, t);
  }

  lemma ThenEvaluates(a: Expr, b: Expr, context: Py)
    requires Evaluate(a, context).Val?
    ensures Evaluate(Expr(Subexpression, NoValue, [a, b]), context) == Evaluate(b, Evaluate(a, context).value)
  {
    assert [a, b][1..] == [b] && [b][1..] == [];
    assert EvaluateChain([b], Evaluate(a, context)) == EvaluateChain([], Evaluate(b, Evaluate(a, context).value));
    assert EvaluateChain([a, b], Val(context)) == EvaluateChain([b], Evaluate(a, context));
  }

  lemma ThenMeans(a: Node, b: Node, v: Value)
    requires !v.Null? && Meaning(a, v).Answer? && !Meaning(a, v).value.Null?
    ensures Meaning(Then(a, b), v) == Meaning(b, Meaning(a, v).value)
  {
    assert [a, b][1..] == [b] && [b][1..] == [];
    assert MeaningOfChain([b], Meaning(a, v)) == MeaningOfChain([], Meaning(b, Meaning(a, v).value));
    assert MeaningOfChain([a, b], Answer(v)) == MeaningOfChain([b], Meaning(a, v));
  }

  // ---------- The projection of every item ----------

  // `[*]`
  const STAR: Node := Node(Projection, NoValue, [THIS, THIS])
  const STAR_EXPR: Expr := Expr(Projection, NoValue, [THIS_EXPR, THIS_EXPR])

  function Present(items: seq<Value>): seq<Value> {
    if items == [] then [] else (if items[0].Null? then [] else [items[0]]) + Present(items[1..])
  }

  lemma {:induction false} FewerArePresent(items: seq<Value>)
    ensures |Present(items)| <= |items| && (Null in items ==> |Present(items)| < |items|)
  {
    if items != [] {
      assert items == [items[0]] + items[1..];
      FewerArePresent(items[1..]);
    }
  }

  lemma {:induction false} StarMeans(node: Node, items: seq<Value>)
    requires node.kind.Projection? && |node.children| == 2 && node.children[1] == THIS
    ensures MeaningOfItems(node, items) == Answer(List(Present(items)))
  {
    if items != [] {
      StarMeans(node, items[1..]);
      ThisMeans(items[0]);
      assert Meaning(node.children[1], items[0]) == Answer(items[0]);
    }
  }

  lemma {:induction false} StarKeepsItems(expr: Expr, items: seq<Py>)
    requires expr.kind.Projection? && |expr.children| == 2 && expr.children[1] == THIS_EXPR
    ensures EvaluateItems(expr, items) == Val(PyList(items))
  {
    if items != [] {
      StarKeepsItems(expr, items[1..]);
      assert Evaluate(expr.children[1], items[0]) == Val(items[0]);
      assert items == [items[0]] + items[1..];
    }
  }

  lemma StarCompiles(svc: Service, t: Type)
    requires ItemOf(svc, t).Success?
    ensures Compile(svc, STAR, t) == Success(Typed(STAR_EXPR, ListOf(ItemOf(svc, t).value)))
    ensures FlattensNoSets(svc, STAR, t)
  {
    hide ItemOf;
    var item := ItemOf(svc, t).value;
    ThisCompiles(svc, t);
    ThisCompiles(svc, item);
    assert Compile(svc, STAR.children[0], t) == Success(Typed(THIS_EXPR, t));
    assert Compile(svc, STAR.children[1], item) == Success(Typed(THIS_EXPR, item));
    assert FlattensNoSets(svc, STAR.children[0], t) && FlattensNoSets(svc, STAR.children[1], item);
  }

  // The evaluator keeps a null item that the projection drops.
  lemma StarBreaks(svc: Service, t: Type, items: seq<Value>)
    requires ItemOf(svc, t).Success? && Conforms(svc, List(items), t) && Null in items
    ensures Breaks(svc, STAR, t, List(items))
  {
    hide Conforms, Represent, ItemOf, Compile, FlattensNoSets;
    var item := ItemOf(svc, t).value;
    var context := Represent(svc, List(items), t);
    StarCompiles(svc, t);
    ItemsConform(svc, List(items), t);
    StarEvaluates(context);
    StarMeansPresent(items);
    FewerArePresent(items);
    ListRepresented(svc, Present(items), ListOf(item));
  }

  lemma StarEvaluates(context: Py)
    requires context.PyList?
    ensures Evaluate(STAR_EXPR, context) == Val(context)
  {
    assert Evaluate(STAR_EXPR.children[0], context) == Val(context);
    EvaluateProjectionStep(STAR_EXPR, context);
    StarKeepsItems(STAR_EXPR, context.items);
  }

  lemma StarMeansPresent(items: seq<Value>)
    ensures Meaning(STAR, List(items)) == Answer(List(Present(items)))
  {
    assert Meaning(STAR.children[0], List(items)) == Answer(List(items));
    StarMeans(STAR, items);
  }

  // ---------- Reading members and items ----------

  lemma FieldReads(svc: Service, t: Type, v: Value, name: string)
    requires WellNamed(svc) && !v.Null? && Conforms(svc, v, t) && CompileField(svc, StrLit(name), t).Success?
    requires MeaningOfField(name, v).Answer? && !MeaningOfField(name, v).value.Null?
    ensures Reads(svc, Node(Field, StrLit(name), []), t, v, MeaningOfField(name, v).value)
    ensures Compile(svc, Node(Field, StrLit(name), []), t) == CompileField(svc, StrLit(name), t)
  {
    hide Conforms, Represent, WellNamed;
    FieldAgrees(svc, StrLit(name), t, v);
  }

  lemma IndexReads(svc: Service, t: Type, items: seq<Value>, i: nat)
    requires Conforms(svc, List(items), t) && ItemOf(svc, t).Success? && i < |items| && !items[i].Null?
    ensures Reads(svc, Node(Index, IntLit(i), []), t, List(items), items[i])
    ensures Compile(svc, Node(Index, IntLit(i), []), t).value.ty == ItemOf(svc, t).value
  {
    hide Conforms, Represent, ItemOf;
    ItemsConform(svc, List(items), t);
  }

  // The member a dense-less structure or union leads on to.
  lemma MemberCompiles(svc: Service, t: Type, v: Value, name: string)
    requires Conforms(svc, v, t) && ((v.Struct? && name in v.fields) || (v.Tagged? && name == v.member))
    ensures var shape := TargetShape(svc, t);
            && shape.Some? && FindMember(shape.value.members, name).Some?
            && var member := FindMember(shape.value.members, name).value;
               var compiled := CompileField(svc, StrLit(name), t);
               && compiled.Success?
               && compiled.value.ty == Plain(member.target, if v.Tagged? then true else t.dictionary)
               && MeaningOfField(name, v) == Answer(if v.Tagged? then v.payload else v.fields[name])
               && Conforms(svc, MeaningOfField(name, v).value, compiled.value.ty)
  {}

  // ---------- Documents in lists ----------

  // A null `depth` arrays down.
  ghost predicate NullBelow(items: seq<Value>, depth: nat) {
    if depth == 0 then Null in items
    else exists x | x in items :: x.List? && NullBelow(x.items, depth - 1)
  }

  lemma {:induction false} DepthOfNull(x: Value) returns (depth: nat)
    requires !DenseArrays(x)
    ensures x.List? && NullBelow(x.items, depth)
    decreases x
  {
    if Null in x.items {
      depth := 0;
    } else {
      var y :| y in x.items && !DenseArrays(y);
      var below := DepthOfNull(y);
      depth := below + 1;
      assert y in x.items && y.List? && NullBelow(y.items, depth - 1);
    }
  }

  lemma {:induction false} FlattenedHolds(items: seq<Value>, x: Value, y: Value)
    requires x in items && x.List? && y in x.items
    ensures y in Flattened(items)
  {
    assert items == [items[0]] + items[1..];
    if items[0] != x {
      FlattenedHolds(items[1..], x, y);
    }
  }

  lemma NullRises(items: seq<Value>, depth: nat)
    requires depth > 0 && NullBelow(items, depth)
    ensures NullBelow(Flattened(items), depth - 1)
  {
    var x :| x in items && x.List? && NullBelow(x.items, depth - 1);
    if depth == 1 {
      FlattenedHolds(items, x, Null);
    } else {
      var y :| y in x.items && y.List? && NullBelow(y.items, depth - 2);
      FlattenedHolds(items, x, y);
    }
  }

  lemma FlattenOfDocuments(svc: Service, d: Type)
    requires KindOf(svc, d) == Success(DocumentKind)
    ensures Compile(svc, FLATTEN_THIS, ListOf(d)) == Success(Typed(FLATTEN_THIS_EXPR, ListOf(d)))
    ensures FlattensNoSets(svc, FLATTEN_THIS, ListOf(d))
  {
    ThisCompiles(svc, ListOf(d));
    assert Compile(svc, FLATTEN_THIS.children[0], ListOf(d)) == Success(Typed(THIS_EXPR, ListOf(d)));
    FlattenThisHasNoSets(svc, ListOf(d));
  }

  lemma FlattenThisMeans(items: seq<Value>)
    ensures Meaning(FLATTEN_THIS, List(items)) == Answer(List(Flattened(items)))
  {
    assert Meaning(FLATTEN_THIS.children[0], List(items)) == Answer(List(items));
  }

  lemma FlattenReads(svc: Service, items: seq<Value>, d: Type)
    requires KindOf(svc, d) == Success(DocumentKind) && forall x | x in items :: Conforms(svc, x, d)
    ensures Reads(svc, FLATTEN_THIS, ListOf(d), List(items), List(Flattened(items)))
    ensures Compile(svc, FLATTEN_THIS, ListOf(d)).value.ty == ListOf(d)
    ensures forall x | x in Flattened(items) :: Conforms(svc, x, d)
  {
    hide Conforms, Represent, Compile, Meaning, Evaluate, FlattensNoSets, KindOf, ElementType;
    FlattenOfDocuments(svc, d);
    FlattenThisMeans(items);
    ListIsRepresented(svc, items, d);
    ListIsRepresented(svc, Flattened(items), d);
    FlattenThisEvaluates(Represent(svc, List(items), ListOf(d)));
    DocumentsUnwrap(svc, d);
    FlattenRepresented(svc, items, d, d);
  }

  lemma ListIsRepresented(svc: Service, items: seq<Value>, element: Type)
    ensures Represent(svc, List(items), ListOf(element)) == PyList(RepresentAll(svc, items, element))
  {
    hide Represent;
    ListRepresented(svc, items, ListOf(element));
  }

  lemma DocumentsUnwrap(svc: Service, d: Type)
    requires KindOf(svc, d) == Success(DocumentKind)
    ensures Unwraps(svc, d, d)
  {}

  // Flattening brings a null in a document of a list to the surface, where `[*]` breaks.
  lemma {:induction false} DocumentsBreak(svc: Service, items: seq<Value>, d: Type, depth: nat) returns (node: Node)
    requires KindOf(svc, d) == Success(DocumentKind) && NullBelow(items, depth)
    requires forall x | x in items :: Conforms(svc, x, d)
    ensures Breaks(svc, node, ListOf(d), List(items))
    decreases depth
  {
    hide Conforms, Breaks, Reads, KindOf, NullBelow, Flattened;
    if depth == 0 {
      node := STAR;
      NullIsThere(items);
      DocumentListConforms(svc, items, d);
      StarBreaks(svc, ListOf(d), items);
    } else {
      NullRises(items, depth);
      FlattenReads(svc, items, d);
      var rest := DocumentsBreak(svc, Flattened(items), d, depth - 1);
      node := Then(FLATTEN_THIS, rest);
      BreaksAfter(svc, FLATTEN_THIS, rest, ListOf(d), List(items), List(Flattened(items)));
    }
  }

  lemma NullIsThere(items: seq<Value>)
    requires NullBelow(items, 0)
    ensures Null in items
  {}

  lemma DocumentListConforms(svc: Service, items: seq<Value>, d: Type)
    requires forall x | x in items :: Conforms(svc, x, d)
    ensures Conforms(svc, List(items), ListOf(d))
  {}

  // ---------- Members of members ----------

  // Members of members, ending anywhere.
  predicate IsMemberPath(node: Node) {
    node == THIS ||
    (node.kind.Subexpression? && node.value.NoValue? && |node.children| == 2
     && node.children[0].kind.Field? && node.children[0].value.StrLit? && node.children[0].children == []
     && IsMemberPath(node.children[1]))
  }

  // Such paths agree with their meaning on every present value, nulls or not.
  lemma {:induction false} MemberPathAgrees(svc: Service, node: Node, t: Type, v: Value)
    requires WellNamed(svc) && IsMemberPath(node) && !v.Null? && Conforms(svc, v, t) && Compile(svc, node, t).Success?
    ensures AgreesOn(svc, node, t, v)
  {
    hide Conforms, Represent, WellNamed, Compile, Evaluate, Meaning, CompileField;
    if node == THIS {
      ThisAgrees(svc, t, v);
    } else {
      var first, rest := node.children[0], node.children[1];
      assert node == Then(first, rest);
      ThenCompiled(svc, first, rest, t);
      var a := Compile(svc, first, t).value;
      FieldStepAgrees(svc, first, t, v);
      var read := Meaning(first, v).value;
      if !read.Null? {
        MemberPathAgrees(svc, rest, a.ty, read);
        ThenEvaluates(a.expr, Compile(svc, rest, a.ty).value.expr, Represent(svc, v, t));
        ThenMeans(first, rest, v);
      } else {
        ThenStops(first, rest, a.expr, Compile(svc, rest, a.ty).value.expr, v, Represent(svc, v, t));
        NullAgreesPlainly(svc, Compile(svc, node, t).value.ty);
      }
    }
  }

  lemma ThisAgrees(svc: Service, t: Type, v: Value)
    requires !v.Null? && Conforms(svc, v, t)
    ensures AgreesOn(svc, THIS, t, v)
  {
    hide Conforms, Represent;
  }

  lemma NullAgreesPlainly(svc: Service, t: Type)
    ensures Agrees(svc, Answer(Null), Missing, t)
  {}

  lemma FieldStepAgrees(svc: Service, node: Node, t: Type, v: Value)
    requires WellNamed(svc) && !v.Null? && Conforms(svc, v, t)
    requires node.kind.Field? && node.value.StrLit? && Compile(svc, node, t).Success?
    ensures AgreesOn(svc, node, t, v)
  {
    hide Conforms, Represent, WellNamed;
    FieldAgrees(svc, node.value, t, v);
  }

  lemma ChainHeadCompiles(svc: Service, nodes: seq<Node>, t: Type)
    requires nodes != [] && CompileChain(svc, nodes, t).Success?
    ensures var head := Compile(svc, nodes[0], t);
            head.Success? && CompileChain(svc, nodes[1..], head.value.ty).Success?
  {
    hide Compile;
  }

  lemma ThenCompiled(svc: Service, first: Node, second: Node, t: Type)
    requires Compile(svc, Then(first, second), t).Success?
    ensures var a := Compile(svc, first, t);
            && a.Success?
            && var b := Compile(svc, second, a.value.ty);
               && b.Success?
               && Compile(svc, Then(first, second), t)
                    == Success(Typed(Expr(Subexpression, NoValue, [a.value.expr, b.value.expr]), b.value.ty))
  {
    var nodes := [first, second];
    assert nodes[1..] == [second] && [second][1..] == [];
    ChainHeadCompiles(svc, nodes, t);
    var a := Compile(svc, first, t).value;
    ChainHeadCompiles(svc, [second], a.ty);
    var b := Compile(svc, second, a.ty).value;
    assert CompileChain(svc, [], b.ty) == Success(([], b.ty));
    assert [b.expr] + [] == [b.expr] && [a.expr] + [b.expr] == [a.expr, b.expr];
    assert CompileChain(svc, [second], a.ty) == Success(([b.expr], b.ty));
  }

  lemma ThenStops(first: Node, second: Node, a: Expr, b: Expr, v: Value, context: Py)
    requires !v.Null? && Meaning(first, v) == Answer(Null) && Evaluate(a, context) == Missing
    ensures Meaning(Then(first, second), v) == Answer(Null)
    ensures Evaluate(Expr(Subexpression, NoValue, [a, b]), context) == Missing
  {
    assert [first, second][1..] == [second] && [a, b][1..] == [b];
    assert MeaningOfChain([first, second], Answer(v)) == MeaningOfChain([second], Answer(Null));
    assert EvaluateChain([a, b], Val(context)) == EvaluateChain([b], Missing);
  }

  lemma {:induction false} MemberPathFlattensNothing(svc: Service, node: Node, t: Type)
    requires IsMemberPath(node)
    ensures FlattensNoSets(svc, node, t)
  {
    if node != THIS {
      var first, rest := node.children[0], node.children[1];
      assert node.children[1..] == [rest] && [rest][1..] == [];
      assert FlattensNoSets(svc, first, t);
      var a := Compile(svc, first, t);
      if a.Success? {
        MemberPathFlattensNothing(svc, rest, a.value.ty);
        assert ChainFlattensNoSets(svc, [rest], a.value.ty);
      }
      assert ChainFlattensNoSets(svc, node.children, t);
    }
  }

  lemma ThisMeans(v: Value)
    ensures Meaning(THIS, v) == Answer(v)
  {}

  lemma FieldNode(svc: Service, t: Type, v: Value, name: string)
    ensures var node := Node(Field, StrLit(name), []);
            && Compile(svc, node, t) == CompileField(svc, StrLit(name), t) && FlattensNoSets(svc, node, t)
            && Meaning(node, v) == MeaningOfField(name, v)
  {
    hide CompileField, MeaningOfField;
  }

  // The member through which a structure or union is not dense.
  lemma NameOfSparseMember(svc: Service, v: Value, t: Type, listed: bool) returns (name: string)
    requires Conforms(svc, v, t) && !v.List? && !DenseAt(svc, v, t, listed)
    ensures (v.Struct? && name in v.fields) || (v.Tagged? && name == v.member)
    ensures var shape := TargetShape(svc, t);
            && shape.Some? && FindMember(shape.value.members, name).Some?
            && var member := FindMember(shape.value.members, name).value;
               !DenseAt(svc, if v.Tagged? then v.payload else v.fields[name],
                        Plain(member.target, if v.Tagged? then true else t.dictionary), listed)
  {
    if v.Struct? {
      var shape := TargetShape(svc, t).value;
      name :| name in v.fields && FindMember(shape.members, name).Some?
              && !DenseAt(svc, v.fields[name], Plain(FindMember(shape.members, name).value.target, t.dictionary),
                          listed);
    } else {
      name := v.member;
    }
  }

  lemma SparseIsPresent(svc: Service, v: Value, t: Type, listed: bool)
    requires !DenseAt(svc, v, t, listed)
    ensures !v.Null?
  {}

  lemma MemberIsSmaller(v: Value, name: string)
    requires (v.Struct? && name in v.fields) || (v.Tagged? && name == v.member)
    ensures MeaningOfField(name, v).Answer? && MeaningOfField(name, v).value < v
  {}

  // What is dense by itself is so through each of its members.
  lemma DenseMember(svc: Service, v: Value, t: Type, name: string)
    requires DenseAt(svc, v, t, false) && ((v.Struct? && name in v.fields) || (v.Tagged? && name == v.member))
    requires TargetShape(svc, t).Some? && FindMember(TargetShape(svc, t).value.members, name).Some?
    ensures DenseAt(svc, if v.Tagged? then v.payload else v.fields[name],
                    Plain(FindMember(TargetShape(svc, t).value.members, name).value.target,
                          if v.Tagged? then true else t.dictionary), false)
  {}

  lemma SparseDocument(svc: Service, v: Value, t: Type)
    requires v.List? && Conforms(svc, v, t) && DenseAt(svc, v, t, false) && !DenseAt(svc, v, t, true)
    ensures KindOf(svc, t) == Success(DocumentKind) && !DenseArrays(v)
  {}

  // A value dense by itself but not in a list holds a document with a null in an array.
  lemma {:induction false} PathToDocument(svc: Service, v: Value, t: Type) returns (node: Node, document: Value)
    requires Conforms(svc, v, t) && !v.Null? && DenseAt(svc, v, t, false) && !DenseAt(svc, v, t, true)
    ensures IsMemberPath(node) && Compile(svc, node, t).Success?
    ensures KindOf(svc, Compile(svc, node, t).value.ty) == Success(DocumentKind)
    ensures Meaning(node, v) == Answer(document) && !document.Null? && !DenseArrays(document)
    decreases v
  {
    hide Compile, Meaning, FlattensNoSets, DenseAt, DenseArrays, Conforms, CompileField, MeaningOfField, KindOf;
    if v.List? {
      node, document := THIS, v;
      SparseDocument(svc, v, t);
      ThisCompiles(svc, t);
      assert Meaning(THIS, v) == Answer(v) by {
        ThisMeans(v);
      }
    } else {
      var name := NameOfSparseMember(svc, v, t, true);
      DenseMember(svc, v, t, name);
      MemberCompiles(svc, t, v, name);
      var read := MeaningOfField(name, v).value;
      var first := Node(Field, StrLit(name), []);
      FieldNode(svc, t, v, name);
      MemberIsSmaller(v, name);
      SparseIsPresent(svc, read, Compile(svc, first, t).value.ty, true);
      var rest, found := PathToDocument(svc, read, Compile(svc, first, t).value.ty);
      node, document := Then(first, rest), found;
      MemberPathFlattensNothing(svc, rest, Compile(svc, first, t).value.ty);
      ThenCompiles(svc, first, rest, t);
      ThenMeans(first, rest, v);
    }
  }

  // ---------- Projecting a path over a list ----------

  function StarOf(path: Node): Node {
    Node(Projection, NoValue, [THIS, path])
  }

  lemma StarOfCompiles(svc: Service, path: Node, t: Type)
    requires ItemOf(svc, t).Success?
    requires Compile(svc, path, ItemOf(svc, t).value).Success? && FlattensNoSets(svc, path, ItemOf(svc, t).value)
    ensures var projected := Compile(svc, path, ItemOf(svc, t).value).value;
            Compile(svc, StarOf(path), t)
            == Success(Typed(Expr(Projection, NoValue, [THIS_EXPR, projected.expr]), ListOf(projected.ty)))
    ensures FlattensNoSets(svc, StarOf(path), t)
  {
    hide ItemOf;
    var star := StarOf(path);
    ThisCompiles(svc, t);
    assert Compile(svc, star.children[0], t) == Success(Typed(THIS_EXPR, t));
    assert star.children[1] == path;
    assert FlattensNoSets(svc, star.children[0], t);
  }

  // The documents at the end of a path, over the items of a list.
  lemma {:induction false} PathProjects(svc: Service, path: Node, items: seq<Value>, item: Type)
    returns (read: seq<Value>)
    requires WellNamed(svc) && IsMemberPath(path) && Compile(svc, path, item).Success?
    requires forall x | x in items :: !x.Null? && Conforms(svc, x, item)
    ensures var projected := Compile(svc, path, item).value;
            && MeaningOfItems(StarOf(path), items) == Answer(List(read))
            && EvaluateItems(Expr(Projection, NoValue, [THIS_EXPR, projected.expr]), RepresentAll(svc, items, item))
                 == Val(PyList(RepresentAll(svc, read, projected.ty)))
            && (forall x | x in read :: Conforms(svc, x, projected.ty))
            && (forall x | x in items && Meaning(path, x).Answer? && !Meaning(path, x).value.Null? ::
                  Meaning(path, x).value in read)
  {
    hide Conforms, Represent, Compile, Evaluate, Meaning, WellNamed;
    var projected := Compile(svc, path, item).value;
    var expr := Expr(Projection, NoValue, [THIS_EXPR, projected.expr]);
    if items == [] {
      read := [];
      assert RepresentAll(svc, items, item) == [] && RepresentAll(svc, read, projected.ty) == [];
    } else {
      var x, rest := items[0], items[1..];
      assert items == [x] + rest;
      var tail := PathProjects(svc, path, rest, item);
      MemberPathAgrees(svc, path, item, x);
      var head := Meaning(path, x).value;
      read := (if head.Null? then [] else [head]) + tail;
      ItemsStep(svc, StarOf(path), expr, x, rest, item, projected.ty, Bool(true), head, tail);
    }
  }

  lemma PathListReads(svc: Service, path: Node, t: Type, items: seq<Value>) returns (read: seq<Value>)
    requires WellNamed(svc) && IsMemberPath(path) && ItemOf(svc, t).Success?
    requires Compile(svc, path, ItemOf(svc, t).value).Success?
    requires Conforms(svc, List(items), t) && Null !in items
    ensures Reads(svc, StarOf(path), t, List(items), List(read))
    ensures Compile(svc, StarOf(path), t).value.ty == ListOf(Compile(svc, path, ItemOf(svc, t).value).value.ty)
    ensures forall x | x in read :: Conforms(svc, x, Compile(svc, path, ItemOf(svc, t).value).value.ty)
    ensures forall x | x in items && Meaning(path, x).Answer? && !Meaning(path, x).value.Null? ::
              Meaning(path, x).value in read
  {
    hide Conforms, Represent, Compile, Evaluate, Meaning, WellNamed, ItemOf, FlattensNoSets;
    var item := ItemOf(svc, t).value;
    var projected := Compile(svc, path, item).value;
    MemberPathFlattensNothing(svc, path, item);
    StarOfCompiles(svc, path, t);
    ItemsConform(svc, List(items), t);
    read := PathProjects(svc, path, items, item);
    var expr := Expr(Projection, NoValue, [THIS_EXPR, projected.expr]);
    var context := Represent(svc, List(items), t);
    EvaluateProjectionStep(expr, context);
    ThisEvaluates(context);
    StarOfMeans(path, items);
    ListRepresented(svc, read, ListOf(projected.ty));
  }

  lemma ThisEvaluates(context: Py)
    ensures Evaluate(THIS_EXPR, context) == Val(context)
  {}

  lemma StarOfMeans(path: Node, items: seq<Value>)
    ensures Meaning(StarOf(path), List(items)) == MeaningOfItems(StarOf(path), items)
  {
    hide MeaningOfItems;
    assert Meaning(StarOf(path).children[0], List(items)) == Answer(List(items));
  }
}
