/** What each generated type is called, in the words of the naming passes. */
module TypeNameRules {
  import opened Wrappers
  import opened Smithy
  import opened Names
  import opened PythonTypes

  // ---------- Words ----------

  // The operation has an output, so a type of this name.
  ghost predicate CallsOutput(operation: Operation, name: string) {
    operation.output.Some? && operation.output.value != "smithy.api#Unit" && name == operation.name + "Output"
  }

  ghost predicate IsCalled(operations: seq<Operation>, name: string) {
    exists op :: op in operations && CallsOutput(op, name)
  }

  // The name without an `Output` at its end.
  ghost predicate IsStem(name: string, stem: string) {
    name == stem + "Output" || (name == stem && forall other: string :: name != other + "Output")
  }

  // The words, some times `Value`, and the suffix, taken by nothing before it.
  ghost predicate IsFresh(name: string, words: string, suffix: string, taken: set<string>) {
    name !in taken && exists count: nat :: name == words + Filler(count) + suffix
  }

  lemma StemIsWithout(name: string)
    ensures IsStem(name, Without(name, "Output"))
  {
    var stem := Without(name, "Output");
    if |name| >= 6 && name[|name| - 6..] == "Output" {
      assert name == stem + "Output";
    } else {
      forall other: string
        ensures name != other + "Output"
      {
        assert (other + "Output")[|other|..] == "Output";
      }
    }
  }

  lemma CalledExactly(operations: seq<Operation>)
    ensures forall name :: name in OperationOutputNames(operations) <==> IsCalled(operations, name)
  {
    forall name
      ensures name in OperationOutputNames(operations) <==> IsCalled(operations, name)
    {
      if IsCalled(operations, name) {
        var op :| op in operations && CallsOutput(op, name);
        assert HasOutput(op) && OutputName(op) == name;
      }
      if name in OperationOutputNames(operations) {
        var op :| op in operations && HasOutput(op) && OutputName(op) == name;
        assert CallsOutput(op, name);
      }
    }
  }

  lemma FirstFreeIsFresh(stem: string, suffix: string, taken: set<string>, name: string)
    requires FirstFree(stem, suffix, taken, name)
    ensures IsFresh(name, stem, suffix, taken)
  {}

  // ---------- Native classes ----------

  /** A native class has its structure's name, unless an operation's output is called that. */
  lemma NativeRule(nested: seq<string>, operations: seq<Operation>, natives: map<string, string>, i: nat)
    requires i < |nested| && NativesNamed(nested, OperationOutputNames(operations), natives)
    ensures nested[i] in natives
    ensures !IsCalled(operations, nested[i]) ==> natives[nested[i]] == nested[i]
    ensures IsCalled(operations, nested[i]) ==>
              exists stem ::
                && IsStem(nested[i], stem)
                && IsFresh(natives[nested[i]], stem, "Output", (set n | n in nested) + OperationOutputNames(operations))
  {
    hide IsStem, FirstFree, IsFresh, Taken;
    var outputNames := OperationOutputNames(operations);
    var base, choices := (set n | n in nested) + outputNames, ClashChoices(nested, outputNames);
    CalledExactly(operations);
    assert Obeys(choices[i], Taken(base, nested, natives, i), natives, nested[i]);
    if nested[i] in outputNames {
      StemIsWithout(nested[i]);
      FreshBeyondBase(base, nested, natives, i, Without(nested[i], "Output"), "Output");
    }
  }

  lemma FreshBeyondBase(base: set<string>, order: seq<string>, names: map<string, string>, i: nat, stem: string,
                        suffix: string)
    requires i < |order| && order[i] in names
    requires FirstFree(stem, suffix, Taken(base, order, names, i), names[order[i]])
    ensures IsFresh(names[order[i]], stem, suffix, base)
  {
    FirstFreeIsFresh(stem, suffix, Taken(base, order, names, i), names[order[i]]);
  }

  // ---------- Inputs ----------

  // Every name the passes may not give: shapes, operations' outputs, and members of unions.
  ghost predicate IsReserved(service: Service, operations: seq<Operation>, name: string) {
    || (exists id :: id in service.shapes && service.shapes[id].name == name)
    || IsCalled(operations, name)
    || (exists id, m ::
          id in service.shapes && service.shapes[id].kind == Union && m in service.shapes[id].members
          && service.shapes[id].name + m.name == name)
  }

  lemma ReservedExactly(service: Service, operations: seq<Operation>)
    ensures forall name :: name in Reserved(service, operations) <==> IsReserved(service, operations, name)
  {
    CalledExactly(operations);
    hide IsCalled, OperationOutputNames;
    forall name
      ensures name in Reserved(service, operations) <==> IsReserved(service, operations, name)
    {
      assert name in ShapeNames(service) <==> exists id :: id in service.shapes && service.shapes[id].name == name;
      assert name in UnionMemberNames(service) <==>
          exists id, m ::
            id in service.shapes && service.shapes[id].kind == Union && m in service.shapes[id].members
            && service.shapes[id].name + m.name == name;
    }
  }

  /** An input has its shape's name, unless an operation reaches it and an output is called that. */
  lemma InputRule(service: Service, order: seq<string>, operations: seq<Operation>, reachable: set<string>,
                  inputs: map<string, string>, i: nat)
    requires Lists(order, service) && InputsNamed(service, order, operations, reachable, inputs) && i < |order|
    ensures order[i] in inputs && order[i] in service.shapes
    ensures var name := service.shapes[order[i]].name;
            if order[i] in reachable && IsCalled(operations, name) then
              !IsReserved(service, operations, inputs[order[i]]) &&
              exists stem :: IsStem(name, stem) && IsFresh(inputs[order[i]], stem, "Input", {})
            else inputs[order[i]] == name
  {
    hide IsStem, FirstFree, IsFresh, Taken, Reserved, IsReserved, OperationOutputNames, IsCalled;
    var base, choices := Reserved(service, operations),
        InputChoices(service, order, reachable, OperationOutputNames(operations));
    CalledExactly(operations);
    ReservedExactly(service, operations);
    assert Obeys(choices[i], Taken(base, order, inputs, i), inputs, order[i]);
    var name := service.shapes[order[i]].name;
    if order[i] in reachable && name in OperationOutputNames(operations) {
      StemIsWithout(name);
      FreshBeyondBase(base, order, inputs, i, Without(name, "Output"), "Input");
      FreshIsOut(inputs[order[i]], Without(name, "Output"), "Input", base);
    }
  }

  lemma FreshIsOut(name: string, stem: string, suffix: string, taken: set<string>)
    requires IsFresh(name, stem, suffix, taken)
    ensures name !in taken && IsFresh(name, stem, suffix, {})
  {}

  // ---------- Dictionary outputs ----------

  // The name comes from the first operation that returns the shape as a dictionary.
  ghost predicate Returns(operations: seq<Operation>, id: string, k: nat) {
    && k < |operations| && !operations[k].native && operations[k].output == Some(id) && id != "smithy.api#Unit"
  }

  lemma {:induction false} FirstReturned(operations: seq<Operation>, id: string)
    ensures var given := DictionaryOutputs(operations, id);
            && (given == [] <==> forall k: nat :: !Returns(operations, id, k))
            && (given != [] ==>
                  exists k: nat ::
                    && Returns(operations, id, k) && given[0] == operations[k].name + "Output"
                    && forall earlier: nat | earlier < k :: !Returns(operations, id, earlier))
  {
    if operations != [] {
      var last := |operations| - 1;
      var init := operations[..last];
      FirstReturned(init, id);
      assert forall k: nat | k < last :: Returns(init, id, k) <==> Returns(operations, id, k);
      var before := DictionaryOutputs(init, id);
      if before != [] {
        var k: nat :| Returns(init, id, k) && before[0] == init[k].name + "Output"
            && forall earlier: nat | earlier < k :: !Returns(init, id, earlier);
        assert Returns(operations, id, k);
      } else {
        assert forall k: nat | k < last :: !Returns(operations, id, k);
        assert Returns(operations, id, last) ==>
            DictionaryOutputs(operations, id) == [operations[last].name + "Output"];
      }
    }
  }

  // Which shapes have an output type, and what it is called.
  ghost predicate OutputIsRuled(service: Service, operations: seq<Operation>, id: string, reachable: bool,
                                dictionary: bool, names: map<string, string>)
    requires id in service.shapes
  {
    var shape := service.shapes[id];
    if shape.enumValues == [] && !((shape.kind == Structure || shape.kind == Union) && dictionary) then id !in names
    else
      id in names &&
      if exists k: nat :: Returns(operations, id, k) then
        exists k: nat ::
          && Returns(operations, id, k) && names[id] == operations[k].name + "Output"
          && forall earlier: nat | earlier < k :: !Returns(operations, id, earlier)
      else if shape.enumValues != [] || reachable then
        !IsReserved(service, operations, names[id]) &&
        exists stem :: IsStem(shape.name, stem) && IsFresh(names[id], stem, "Output", {})
      else if IsCalled(operations, shape.name) then
        !IsReserved(service, operations, names[id]) &&
        exists stem :: IsStem(shape.name, stem)
                       && IsFresh(names[id], stem + if shape.streaming && shape.kind == Union then "Event" else "Value",
                                  "Output", {})
      else names[id] == shape.name
  }

  lemma WithoutOutput(stem: string)
    ensures Without(stem + "Output", "Output") == stem
  {
    assert (stem + "Output")[|stem|..] == "Output";
  }

  /** Dictionary outputs are named after the operation that returns them, or by their shape's stem. */
  lemma OutputRule(service: Service, order: seq<string>, operations: seq<Operation>, reachable: set<string>,
                   dictionaries: set<string>, inputs: map<string, string>, outputs: map<string, string>, i: nat)
    requires Lists(order, service) && i < |order|
    requires OutputsNamed(service, order, operations, reachable, dictionaries, inputs, outputs)
    ensures order[i] in service.shapes
    ensures OutputIsRuled(service, operations, order[i], order[i] in reachable, order[i] in dictionaries, outputs)
  {
    hide IsStem, FirstFree, IsFresh, Reserved, IsReserved, OperationOutputNames, IsCalled, Without, Returns;
    hide DictionaryOutputs;
    var id := order[i];
    var shape := service.shapes[id];
    var base, choices := Taken(Reserved(service, operations), order, inputs, |order|),
        OutputChoices(service, order, reachable, dictionaries, operations);
    CalledExactly(operations);
    ReservedExactly(service, operations);
    FirstReturned(operations, id);
    assert Obeys(choices[i], Taken(base, order, outputs, i), outputs, id);
    StemIsWithout(shape.name);
    if choices[i].Fresh? {
      var stem := Without(shape.name, "Output");
      WithoutOutput(stem + "Event");
      WithoutOutput(stem + "Value");
      FreshBeyondBase(base, order, outputs, i, choices[i].stem, choices[i].suffix);
      FreshIsOut(outputs[id], choices[i].stem, choices[i].suffix, base);
    }
  }

  // ---------- Where the walks start ----------

  /** Inputs are rooted in the inputs of the operations, and outputs in their outputs. */
  lemma OperationRootsExactly(operations: seq<Operation>, id: string)
    ensures Some(Model(id)) in Inputs(operations) <==> exists op :: op in operations && op.input == Some(id)
    ensures Some(Model(id)) in Outputs(operations) <==> exists op :: op in operations && op.output == Some(id)
  {
    forall op | op in operations
      ensures ShapeTarget(op.input) in Inputs(operations) && ShapeTarget(op.output) in Outputs(operations)
    {
      var i :| 0 <= i < |operations| && operations[i] == op;
      assert Inputs(operations)[i] == ShapeTarget(op.input) && Outputs(operations)[i] == ShapeTarget(op.output);
    }
  }

  /**
   Dictionaries start from the unions that outputs reach, the outputs of operations that are not
   native, and the members of error shapes.
   */
  lemma DictionaryRootsExactly(service: Service, order: seq<string>, operations: seq<Operation>, outputs: set<string>,
                               id: string)
    requires Lists(order, service)
    ensures Some(Model(id)) in DictionaryRoots(service, order, operations, outputs)
       <==> || (id in service.shapes && service.shapes[id].kind == Union && id in outputs)
            || (exists op :: op in operations && !op.native && op.output == Some(id))
            || (exists e, m ::
                  e in service.shapes && service.shapes[e].error && m in service.shapes[e].members
                  && m.target == Model(id))
  {
    hide UnionRoots, PlainOutputs, ErrorMembers;
    UnionRootsExactly(service, order, outputs, id);
    PlainOutputsExactly(operations, id);
    ErrorMembersExactly(service, order, id);
  }

  lemma {:induction false} UnionRootsExactly(service: Service, order: seq<string>, outputs: set<string>, id: string)
    requires forall n | n in order :: n in service.shapes
    ensures Some(Model(id)) in UnionRoots(service, order, outputs) <==>
              id in order && service.shapes[id].kind == Union && id in outputs
  {
    if order != [] {
      UnionRootsExactly(service, order[1..], outputs, id);
      assert order == [order[0]] + order[1..];
    }
  }

  lemma {:induction false} PlainOutputsExactly(operations: seq<Operation>, id: string)
    ensures Some(Model(id)) in PlainOutputs(operations) <==>
              exists op :: op in operations && !op.native && op.output == Some(id)
  {
    if operations != [] {
      PlainOutputsExactly(operations[1..], id);
      assert operations == [operations[0]] + operations[1..];
    }
  }

  lemma {:induction false} ErrorMembersExactly(service: Service, order: seq<string>, id: string)
    requires forall n | n in order :: n in service.shapes
    ensures Some(Model(id)) in ErrorMembers(service, order) <==>
              exists e, m :: e in order && service.shapes[e].error && m in service.shapes[e].members
                             && m.target == Model(id)
  {
    if order != [] {
      ErrorMembersExactly(service, order[1..], id);
      assert order == [order[0]] + order[1..];
      var shape := service.shapes[order[0]];
      if shape.error {
        var targets := seq(|shape.members|, i requires 0 <= i < |shape.members| => Some(shape.members[i].target));
        forall m | m in shape.members
          ensures Some(m.target) in targets
        {
          var i :| 0 <= i < |shape.members| && shape.members[i] == m;
          assert targets[i] == Some(m.target);
        }
      }
    }
  }
}
