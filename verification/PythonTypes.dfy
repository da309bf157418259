/**
 The three maps of generated type names, for native classes, inputs and dictionary outputs, and the
 exports of the public module.
 */
module PythonTypes {
  import opened Wrappers
  import opened Smithy
  import opened Graphs
  import opened ShapeWalks
  import opened Names

  // ---------- What each pass decides ----------

  // A name gives way where it clashes: a structure's with an operation's output, or an exported
  // class's with a dictionary type.
  function ClashChoices(order: seq<string>, clashing: set<string>): (choices: seq<Choice>)
    ensures |choices| == |order|
  {
    seq(|order|, i requires 0 <= i < |order| =>
      if order[i] in clashing then Fresh(Without(order[i], "Output"), "Output") else Keep(order[i]))
  }

  function InputChoice(shape: Shape, reachable: bool, outputNames: set<string>): Choice {
    if reachable && shape.name in outputNames then Fresh(Without(shape.name, "Output"), "Input") else Keep(shape.name)
  }

  // `given` lists the operation outputs that are dictionaries of this shape.
  function OutputChoice(shape: Shape, reachable: bool, dictionary: bool, given: seq<string>,
                        outputNames: set<string>): Choice {
    if shape.enumValues == [] && (!HasMembers(shape.kind) || !dictionary) then Skip
    else if given != [] then Keep(given[0])
    else if shape.enumValues != [] || reachable then Fresh(Without(shape.name, "Output"), "Output")
    else if shape.name in outputNames then
      var suffix := if shape.streaming && shape.kind.Union? then "Event" else "Value";
      Fresh(Without(Without(shape.name, "Output") + suffix + "Output", "Output"), "Output")
    else Keep(shape.name)
  }

  // `order` lists the shapes of the service, by name in the source.
  ghost predicate Lists(order: seq<string>, service: Service) {
    Once(order) && forall id :: id in order <==> id in service.shapes
  }

  function InputChoices(service: Service, order: seq<string>, reachable: set<string>,
                        outputNames: set<string>): (choices: seq<Choice>)
    requires forall id | id in order :: id in service.shapes
    ensures |choices| == |order|
  {
    seq(|order|, i requires 0 <= i < |order| =>
      InputChoice(service.shapes[order[i]], order[i] in reachable, outputNames))
  }

  function OutputChoices(service: Service, order: seq<string>, reachable: set<string>, dictionaries: set<string>,
                         operations: seq<Operation>): (choices: seq<Choice>)
    requires forall id | id in order :: id in service.shapes
    ensures |choices| == |order|
  {
    seq(|order|, i requires 0 <= i < |order| =>
      OutputChoice(service.shapes[order[i]], order[i] in reachable, order[i] in dictionaries,
                   DictionaryOutputs(operations, order[i]), OperationOutputNames(operations)))
  }

  function UnionMemberNames(service: Service): set<string> {
    set id, m | id in service.shapes && service.shapes[id].kind.Union? && m in service.shapes[id].members ::
      service.shapes[id].name + m.name
  }

  function ShapeNames(service: Service): set<string> {
    set id | id in service.shapes :: service.shapes[id].name
  }

  function Reserved(service: Service, operations: seq<Operation>): set<string> {
    ShapeNames(service) + OperationOutputNames(operations) + UnionMemberNames(service)
  }

  // ---------- Targets ----------

  function ShapeTarget(id: Option<string>): Option<Target> {
    if id.Some? then Some(Model(id.value)) else None
  }

  function Inputs(operations: seq<Operation>): seq<Option<Target>> {
    seq(|operations|, i requires 0 <= i < |operations| => ShapeTarget(operations[i].input))
  }

  function Outputs(operations: seq<Operation>): seq<Option<Target>> {
    seq(|operations|, i requires 0 <= i < |operations| => ShapeTarget(operations[i].output))
  }

  // Unions among the outputs, outputs of operations that are not native, and members of errors.
  function DictionaryRoots(service: Service, order: seq<string>, operations: seq<Operation>,
                           outputs: set<string>): seq<Option<Target>>
    requires forall id | id in order :: id in service.shapes
  {
    UnionRoots(service, order, outputs) + PlainOutputs(operations) + ErrorMembers(service, order)
  }

  function UnionRoots(service: Service, order: seq<string>, outputs: set<string>): seq<Option<Target>>
    requires forall id | id in order :: id in service.shapes
  {
    if order == [] then []
    else (if order[0] in outputs && service.shapes[order[0]].kind.Union? then [Some(Model(order[0]))] else [])
         + UnionRoots(service, order[1..], outputs)
  }

  function PlainOutputs(operations: seq<Operation>): seq<Option<Target>> {
    if operations == [] then []
    else (if operations[0].native then [] else [ShapeTarget(operations[0].output)]) + PlainOutputs(operations[1..])
  }

  function ErrorMembers(service: Service, order: seq<string>): seq<Option<Target>>
    requires forall id | id in order :: id in service.shapes
  {
    if order == [] then []
    else
      var shape := service.shapes[order[0]];
      (if shape.error then seq(|shape.members|, i requires 0 <= i < |shape.members| => Some(shape.members[i].target))
       else [])
      + ErrorMembers(service, order[1..])
  }

  // ---------- The generator's state ----------

  class TypeNames {
    var inputTargets: set<string>
    var outputTargets: set<string>
    var dictionaryTargets: set<string>
    var dictionaryOutputs: map<string, seq<string>>
    var natives: map<string, string>
    var inputs: map<string, string>
    var outputs: map<string, string>

    constructor ()
    {
      inputTargets, outputTargets, dictionaryTargets := {}, {}, {};
      dictionaryOutputs, natives, inputs, outputs := map[], map[], map[], map[];
    }

    // The result of configuring: every set and map, for a service, its operations and the
    // structures that get native classes.
    ghost predicate Configured(service: Service, order: seq<string>, operations: seq<Operation>, nested: seq<string>)
      requires Lists(order, service)
      reads this
    {
      && ReachedFrom(service, Inputs(operations), inputTargets)
      && ReachedFrom(service, Outputs(operations), outputTargets)
      && ReachedFrom(service, DictionaryRoots(service, order, operations, outputTargets), dictionaryTargets)
      && Grouped(operations, dictionaryOutputs)
      && NativesNamed(nested, OperationOutputNames(operations), natives)
      && InputsNamed(service, order, operations, inputTargets, inputs)
      && OutputsNamed(service, order, operations, inputTargets, dictionaryTargets, inputs, outputs)
    }

    // `_configure_python_types`, given the sorted names of the native structures.
    method Configure(service: Service, order: seq<string>, operations: seq<Operation>, nested: seq<string>)
      requires Lists(order, service) && Once(nested)
      modifies this
      ensures Configured(service, order, operations, nested)
    {
      hide Reaches, DataWalk, Pending, Assigned, InputChoices, OutputChoices, ClashChoices, Taken;
      hide DictionaryOutputs, Reserved, DictionaryRoots;
      var outputNames := OperationOutputNames(operations);
      var reachable := ReachableShapes(service, Inputs(operations));
      var returned := ReachableShapes(service, Outputs(operations));
      var classes, _ := AssignNames((set n | n in nested) + outputNames, nested, ClashChoices(nested, outputNames));
      var dictionaries := ReachableShapes(service, DictionaryRoots(service, order, operations, returned));
      dictionaryOutputs := GroupDictionaryOutputs(operations);
      var given, reserved := AssignNames(Reserved(service, operations), order,
                                         InputChoices(service, order, reachable, outputNames));
      var dictionaryNames, _ :=
          AssignNames(reserved, order, OutputChoices(service, order, reachable, dictionaries, operations));
      inputTargets, outputTargets, dictionaryTargets := reachable, returned, dictionaries;
      natives, inputs, outputs := classes, given, dictionaryNames;
    }
  }

  ghost predicate ReachedFrom(service: Service, roots: seq<Option<Target>>, targets: set<string>) {
    forall id :: id in targets <==> Reaches(DataWalk(service), Pending(service, roots), id)
  }

  ghost predicate Grouped(operations: seq<Operation>, groups: map<string, seq<string>>) {
    && (forall id :: id in groups <==> DictionaryOutputs(operations, id) != [])
    && (forall id | id in groups :: groups[id] == DictionaryOutputs(operations, id))
  }

  ghost predicate NativesNamed(nested: seq<string>, outputNames: set<string>, natives: map<string, string>) {
    Assigned((set n | n in nested) + outputNames, nested, ClashChoices(nested, outputNames), natives)
  }

  ghost predicate InputsNamed(service: Service, order: seq<string>, operations: seq<Operation>,
                              reachable: set<string>, inputs: map<string, string>)
    requires Lists(order, service)
  {
    Assigned(Reserved(service, operations), order,
             InputChoices(service, order, reachable, OperationOutputNames(operations)), inputs)
  }

  ghost predicate OutputsNamed(service: Service, order: seq<string>, operations: seq<Operation>, reachable: set<string>,
                               dictionaries: set<string>, inputs: map<string, string>, outputs: map<string, string>)
    requires Lists(order, service)
  {
    Assigned(Taken(Reserved(service, operations), order, inputs, |order|), order,
             OutputChoices(service, order, reachable, dictionaries, operations), outputs)
  }

  // ---------- The maps are injective and apart ----------

  ghost predicate DistinctShapes(service: Service) {
    forall a, b | a in service.shapes && b in service.shapes && service.shapes[a].name == service.shapes[b].name ::
          a == b
  }

  // Native class names are distinct and are no operation's output.
  lemma NativeNamesAreApart(nested: seq<string>, outputNames: set<string>, natives: map<string, string>)
    requires Once(nested) && NativesNamed(nested, outputNames, natives)
    ensures Injective(natives)
    ensures forall n :: n in natives <==> n in nested
    ensures forall n | n in natives :: natives[n] !in outputNames
    ensures forall n | n in natives && n !in outputNames :: natives[n] == n
  {
    hide Taken, FirstFree;
    var base, choices := (set n | n in nested) + outputNames, ClashChoices(nested, outputNames);
    KeptDistinctly(base, nested, choices, natives);
    forall i | 0 <= i < |nested|
      ensures nested[i] in natives && natives[nested[i]] !in outputNames
      ensures nested[i] !in outputNames ==> natives[nested[i]] == nested[i]
    {
      assert Obeys(choices[i], Taken(base, nested, natives, i), natives, nested[i]);
      if choices[i].Fresh? {
        FreshIsFree(base, nested, choices, natives, i);
      }
    }
  }

  // Every shape has an input name; two shapes share one exactly when they share a name and
  // neither was renamed.
  lemma InputNamesCollideExactly(service: Service, order: seq<string>, operations: seq<Operation>,
                                 reachable: set<string>,
                                 inputs: map<string, string>, i: nat, j: nat)
    requires Lists(order, service) && InputsNamed(service, order, operations, reachable, inputs) && i < j < |order|
    ensures order[i] in inputs && order[j] in inputs
    ensures var outputNames := OperationOutputNames(operations);
            var left, right := service.shapes[order[i]], service.shapes[order[j]];
            (inputs[order[i]] == inputs[order[j]]) <==>
            (left.name == right.name
             && (left.name in outputNames ==> order[i] !in reachable && order[j] !in reachable))
  {
    hide Taken, FirstFree, Obeys, OperationOutputNames, UnionMemberNames;
    var choices := InputChoices(service, order, reachable, OperationOutputNames(operations));
    forall k | 0 <= k < |order|
      ensures choices[k].Keep? ==> choices[k].name in Reserved(service, operations)
    {
      KeptInputIsReserved(service, order, operations, reachable, k);
    }
    CollisionsAreKept(Reserved(service, operations), order, choices, inputs, i, j);
  }

  lemma KeptInputIsReserved(service: Service, order: seq<string>, operations: seq<Operation>, reachable: set<string>,
                            k: nat)
    requires Lists(order, service) && k < |order|
    ensures var choice := InputChoices(service, order, reachable, OperationOutputNames(operations))[k];
            choice.Keep? ==>
              choice.name == service.shapes[order[k]].name && choice.name in Reserved(service, operations)
  {
    hide OperationOutputNames, UnionMemberNames;
    assert order[k] in service.shapes;
    assert service.shapes[order[k]].name in ShapeNames(service);
  }

  // An input-reachable shape never takes the name of an operation's output, and a name it
  // shares with a shape is its own.
  lemma ReachableInputName(service: Service, order: seq<string>, operations: seq<Operation>, reachable: set<string>,
                           inputs: map<string, string>, i: nat)
    requires Lists(order, service) && InputsNamed(service, order, operations, reachable, inputs)
    requires i < |order| && order[i] in reachable
    ensures order[i] in inputs && inputs[order[i]] !in OperationOutputNames(operations)
    ensures inputs[order[i]] in ShapeNames(service) ==> inputs[order[i]] == service.shapes[order[i]].name
    ensures inputs[order[i]] in Taken(Reserved(service, operations), order, inputs, |order|)
  {
    hide FirstFree, OperationOutputNames, UnionMemberNames, ShapeNames, Taken;
    var base, choices := Reserved(service, operations),
        InputChoices(service, order, reachable, OperationOutputNames(operations));
    assert Obeys(choices[i], Taken(base, order, inputs, i), inputs, order[i]);
    if choices[i].Fresh? {
      FreshIsFree(base, order, choices, inputs, i);
    }
    GivenIsTaken(base, order, inputs, i, |order|);
  }

  // What a kept output name is: the output of an operation whose output is the shape, or the
  // name of a shape that no input reaches and no operation's output is called.
  lemma KeptOutput(service: Service, order: seq<string>, operations: seq<Operation>, reachable: set<string>,
                   dictionaries: set<string>, i: nat)
    requires Lists(order, service) && i < |order|
    ensures var choice := OutputChoices(service, order, reachable, dictionaries, operations)[i];
            choice.Keep? ==>
            || (choice.name in OperationOutputNames(operations)
                && exists op ::
                     op in operations && HasOutput(op) && op.output.value == order[i] && OutputName(op) == choice.name)
            || (choice.name == service.shapes[order[i]].name && order[i] !in reachable
                && choice.name in ShapeNames(service) && choice.name !in OperationOutputNames(operations))
  {
    hide OperationOutputNames, DictionaryOutputs, Without, HasOutput;
    var given := DictionaryOutputs(operations, order[i]);
    if given != [] {
      DictionaryOutputIsOperation(operations, order[i], given[0]);
    }
  }

  lemma KeptOutputsDiffer(service: Service, order: seq<string>, operations: seq<Operation>, reachable: set<string>,
                          dictionaries: set<string>, i: nat, j: nat)
    requires Lists(order, service) && DistinctShapes(service) && DistinctOperations(operations) && i < j < |order|
    ensures var choices := OutputChoices(service, order, reachable, dictionaries, operations);
            choices[i].Keep? && choices[j].Keep? ==> choices[i].name != choices[j].name
  {
    hide OperationOutputNames, ShapeNames, OutputChoices, OutputName;
    var choices := OutputChoices(service, order, reachable, dictionaries, operations);
    KeptOutput(service, order, operations, reachable, dictionaries, i);
    KeptOutput(service, order, operations, reachable, dictionaries, j);
    if choices[i].Keep? && choices[j].Keep? && choices[i].name == choices[j].name {
      assert order[i] != order[j];
      if choices[i].name in OperationOutputNames(operations) {
        var left :| left in operations && HasOutput(left) && left.output.value == order[i]
            && OutputName(left) == choices[i].name;
        var right :| right in operations && HasOutput(right) && right.output.value == order[j]
            && OutputName(right) == choices[j].name;
        OutputNameTellsOperation(operations, left, right);
      }
    }
  }

  lemma KeptOutputsAreReserved(service: Service, order: seq<string>, operations: seq<Operation>, reachable: set<string>,
                               dictionaries: set<string>, inputs: map<string, string>)
    requires Lists(order, service)
    ensures var choices := OutputChoices(service, order, reachable, dictionaries, operations);
            forall k | 0 <= k < |order| ::
                  choices[k].Keep? ==> choices[k].name in Taken(Reserved(service, operations), order, inputs, |order|)
  {
    hide OperationOutputNames, ShapeNames, UnionMemberNames, OutputChoices, HasOutput, OutputName;
    forall k | 0 <= k < |order|
      ensures var choice := OutputChoices(service, order, reachable, dictionaries, operations)[k];
              choice.Keep? ==> choice.name in Reserved(service, operations)
    {
      KeptOutput(service, order, operations, reachable, dictionaries, k);
    }
  }

  // Dictionary output names are distinct.
  lemma OutputNamesAreDistinct(service: Service, order: seq<string>, operations: seq<Operation>, reachable: set<string>,
                               dictionaries: set<string>, inputs: map<string, string>, outputs: map<string, string>)
    requires Lists(order, service) && DistinctShapes(service) && DistinctOperations(operations)
    requires OutputsNamed(service, order, operations, reachable, dictionaries, inputs, outputs)
    ensures Injective(outputs)
  {
    hide Taken, OutputChoices, Obeys, Injective;
    var choices := OutputChoices(service, order, reachable, dictionaries, operations);
    KeptOutputsAreReserved(service, order, operations, reachable, dictionaries, inputs);
    forall i, j | 0 <= i < j < |choices| && choices[i].Keep? && choices[j].Keep?
      ensures choices[i].name != choices[j].name
    {
      KeptOutputsDiffer(service, order, operations, reachable, dictionaries, i, j);
    }
    KeptDistinctly(Taken(Reserved(service, operations), order, inputs, |order|), order, choices, outputs);
  }

  // No dictionary output shares its name with an input an operation can reach.
  lemma OutputsAvoidInputs(service: Service, order: seq<string>, operations: seq<Operation>, reachable: set<string>,
                           dictionaries: set<string>, inputs: map<string, string>, outputs: map<string, string>,
                             i: nat, j: nat)
    requires Lists(order, service) && DistinctShapes(service)
    requires InputsNamed(service, order, operations, reachable, inputs)
    requires OutputsNamed(service, order, operations, reachable, dictionaries, inputs, outputs)
    requires i < |order| && order[i] in reachable && j < |order| && order[j] in outputs
    ensures order[i] in inputs && outputs[order[j]] != inputs[order[i]]
  {
    hide Taken, OutputChoices, InputChoices, ShapeNames, OperationOutputNames, UnionMemberNames, FirstFree;
    ReachableInputName(service, order, operations, reachable, inputs, i);
    var base, choices := Taken(Reserved(service, operations), order, inputs, |order|),
        OutputChoices(service, order, reachable, dictionaries, operations);
    assert Obeys(choices[j], Taken(base, order, outputs, j), outputs, order[j]);
    if choices[j].Fresh? {
      FreshIsFree(base, order, choices, outputs, j);
    } else {
      KeptOutput(service, order, operations, reachable, dictionaries, j);
    }
  }

  // ---------- The public module ----------

  // Part-way through the exports: names given so far, and what that leaves reserved.
  ghost predicate Exporting(defined: set<string>, order: seq<string>, public: map<string, string>,
                            reserved: set<string>, i: nat)
    requires i <= |order|
  {
    var natives := set n | n in order;
    && (forall key :: key in public <==> key in order[..i])
    && reserved + natives == Taken(defined + natives, order, public, i)
    && (forall k | i <= k < |order| :: order[k] in reserved <==> order[k] in defined)
    && (forall k | 0 <= k < i ::
          Obeys(ClashChoices(order, defined)[k], Taken(defined + natives, order, public, k), public, order[k]))
  }

  lemma ExportsStart(defined: set<string>, order: seq<string>)
    ensures Exporting(defined, order, map[], defined, 0)
  {
    NothingTaken(defined + (set n | n in order), order, map[]);
  }

  lemma ExportsStep(defined: set<string>, order: seq<string>, public: map<string, string>, reserved: set<string>,
                    i: nat, name: string)
    requires Once(order) && i < |order| && Exporting(defined, order, public, reserved, i)
    requires if order[i] in defined
             then FirstFree(Without(order[i], "Output"), "Output", reserved + (set n | n in order), name)
             else name == order[i]
    ensures Exporting(defined, order, public[order[i] := name], reserved + {name}, i + 1)
  {
    hide FirstFree, Taken, Without;
    var natives := set n | n in order;
    var base, next := defined + natives, public[order[i] := name];
    assert order[..i + 1] == order[..i] + [order[i]];
    forall k: nat | k <= i
      ensures Taken(base, order, next, k) == Taken(base, order, public, k)
    {
      assert order[..k] <= order[..i];
      TakenUnaffected(base, order, public, order[i], name, k);
    }
    TakenGrows(base, order, next, i);
    assert (reserved + {name}) + natives == (reserved + natives) + {name};
    StillUnreserved(defined, order, reserved, i, name);
  }

  // A name given leaves the later natives reserved only where a dictionary type has the name.
  lemma StillUnreserved(defined: set<string>, order: seq<string>, reserved: set<string>, i: nat, name: string)
    requires Once(order) && i < |order|
    requires forall k | i <= k < |order| :: order[k] in reserved <==> order[k] in defined
    requires if order[i] in defined
             then FirstFree(Without(order[i], "Output"), "Output", reserved + (set n | n in order), name)
             else name == order[i]
    ensures forall k | i + 1 <= k < |order| :: order[k] in reserved + {name} <==> order[k] in defined
  {
    hide Candidate, Without;
    var natives := set n | n in order;
    forall k | i + 1 <= k < |order|
      ensures order[k] in reserved + {name} <==> order[k] in defined
    {
      assert order[k] in natives;
    }
  }

  lemma ExportsEnd(defined: set<string>, order: seq<string>, public: map<string, string>, reserved: set<string>)
    requires Exporting(defined, order, public, reserved, |order|)
    ensures Assigned(defined + (set n | n in order), order, ClashChoices(order, defined), public)
  {
    hide FirstFree, Taken;
  }

  // The aliases of native classes beside the dictionary types already `defined`: an alias gives
  // way to a dictionary type, except that an operation's output must keep its name.
  method ExportNatives(defined: set<string>, operationClasses: set<string>, order: seq<string>)
    returns (exports: Option<map<string, string>>)
    requires Once(order)
    ensures exports.None? <==> exists n :: n in order && n in operationClasses && n in defined
    ensures exports.Some? ==>
              Assigned(defined + (set n | n in order), order, ClashChoices(order, defined), exports.value)
  {
    hide FirstFree, Exporting, Assigned, Without;
    var natives := set n | n in order;
    var reserved := defined;
    var public: map<string, string> := map[];
    ExportsStart(defined, order);
    for i := 0 to |order|
      invariant Exporting(defined, order, public, reserved, i)
      invariant forall n | n in order[..i] :: n in operationClasses ==> n !in defined
    {
      var name := order[i];
      StillReserved(defined, order, public, reserved, i);
      if name in reserved {
        if name in operationClasses {
          return None;
        }
        name := AvailableOutputName(name, reserved + natives);
      }
      assert order[..i + 1] == order[..i] + [order[i]];
      ExportsStep(defined, order, public, reserved, i, name);
      reserved := reserved + {name};
      public := public[order[i] := name];
    }
    assert order[..|order|] == order;
    ExportsEnd(defined, order, public, reserved);
    exports := Some(public);
  }

  lemma StillReserved(defined: set<string>, order: seq<string>, public: map<string, string>, reserved: set<string>,
                      i: nat)
    requires i < |order| && Exporting(defined, order, public, reserved, i)
    ensures order[i] in reserved <==> order[i] in defined
  {
    hide Taken;
  }

  // The exported names are distinct, name no dictionary type, and rename only where they must.
  lemma ExportsAreApart(defined: set<string>, order: seq<string>, exports: map<string, string>)
    requires Once(order) && Assigned(defined + (set n | n in order), order, ClashChoices(order, defined), exports)
    ensures Injective(exports)
    ensures forall n :: n in exports <==> n in order
    ensures forall n | n in exports :: exports[n] !in defined && (exports[n] == n <==> n !in defined)
  {
    hide Taken, FirstFree;
    var base, choices := defined + (set n | n in order), ClashChoices(order, defined);
    KeptDistinctly(base, order, choices, exports);
    forall i | 0 <= i < |order|
      ensures order[i] in exports && exports[order[i]] !in defined
      ensures (exports[order[i]] == order[i] <==> order[i] !in defined)
    {
      assert Obeys(choices[i], Taken(base, order, exports, i), exports, order[i]);
      if choices[i].Fresh? {
        FreshIsFree(base, order, choices, exports, i);
      }
    }
  }
}
