/** Names of generated Python types: native classes, inputs, dictionary outputs, public exports. */
module Names {
  import opened Wrappers
  import opened Graphs

  // ---------- Allocating one name ----------

  function Filler(count: nat): string {
    if count == 0 then "" else Filler(count - 1) + "Value"
  }

  function Candidate(stem: string, count: nat, suffix: string): string {
    stem + Filler(count) + suffix
  }

  // The first candidate not taken.
  ghost predicate FirstFree(stem: string, suffix: string, taken: set<string>, name: string) {
    exists count: nat ::
      && name == Candidate(stem, count, suffix) && name !in taken
      && forall earlier: nat | earlier < count :: Candidate(stem, earlier, suffix) in taken
  }

  lemma FirstFreeIsUnique(stem: string, suffix: string, taken: set<string>, left: string, right: string)
    requires FirstFree(stem, suffix, taken, left) && FirstFree(stem, suffix, taken, right)
    ensures left == right
  {
    hide Candidate;
    var i: nat :| left == Candidate(stem, i, suffix) && forall earlier: nat | earlier < i ::
        Candidate(stem, earlier, suffix) in taken;
    var j: nat :| right == Candidate(stem, j, suffix) && forall earlier: nat | earlier < j ::
        Candidate(stem, earlier, suffix) in taken;
    assert i <= j && j <= i;
  }

  ghost function AtLeast(names: set<string>, length: nat): set<string> {
    set n | n in names && |n| >= length
  }

  // The loop of the allocations: "Value" is appended to the stem until the candidate is free.
  // It ends since the taken names at least as long as the candidate become fewer.
  method Allocate(stem: string, suffix: string, taken: set<string>) returns (name: string)
    ensures FirstFree(stem, suffix, taken, name)
  {
    var base := stem;
    name := base + suffix;
    ghost var count: nat := 0;
    assert name == Candidate(stem, 0, suffix);
    while name in taken
      invariant base == stem + Filler(count) && name == base + suffix
      invariant name == Candidate(stem, count, suffix)
      invariant forall earlier: nat | earlier < count :: Candidate(stem, earlier, suffix) in taken
      decreases |AtLeast(taken, |name|)|
    {
      ghost var long, longer := AtLeast(taken, |name|), AtLeast(taken, |name| + 5);
      assert name in long && name !in longer && longer <= long;
      SmallerSet(longer, long);
      base := base + "Value";
      count := count + 1;
      assert base == stem + Filler(count);
      name := base + suffix;
      assert |name| == |stem| + |Filler(count - 1)| + 5 + |suffix|;
    }
  }

  // `removesuffix`
  function Without(name: string, suffix: string): string {
    if |suffix| <= |name| && name[|name| - |suffix|..] == suffix then name[..|name| - |suffix|] else name
  }

  method AvailableOutputName(name: string, reserved: set<string>) returns (available: string)
    ensures FirstFree(Without(name, "Output"), "Output", reserved, available)
  {
    available := Allocate(Without(name, "Output"), "Output", reserved);
  }

  // ---------- Operations ----------

  // `native` when the operation returns a native object.
  datatype Operation = Operation(name: string, input: Option<string>, output: Option<string>, native: bool)

  predicate HasOutput(operation: Operation) {
    operation.output.Some? && operation.output.value != "smithy.api#Unit"
  }

  function OutputName(operation: Operation): string {
    operation.name + "Output"
  }

  function OperationOutputNames(operations: seq<Operation>): set<string> {
    set op | op in operations && HasOutput(op) :: OutputName(op)
  }

  // The names of the dictionary outputs of a shape, in the order of the operations.
  function DictionaryOutputs(operations: seq<Operation>, id: string): seq<string> {
    if operations == [] then []
    else
      var last := operations[|operations| - 1];
      DictionaryOutputs(operations[..|operations| - 1], id)
      + (if !last.native && HasOutput(last) && last.output.value == id then [OutputName(last)] else [])
  }

  // `setdefault(target, []).append(..)` over the operations.
  method GroupDictionaryOutputs(operations: seq<Operation>) returns (groups: map<string, seq<string>>)
    ensures forall id :: id in groups <==> DictionaryOutputs(operations, id) != []
    ensures forall id | id in groups :: groups[id] == DictionaryOutputs(operations, id)
  {
    groups := map[];
    for i := 0 to |operations|
      invariant forall id :: id in groups <==> DictionaryOutputs(operations[..i], id) != []
      invariant forall id | id in groups :: groups[id] == DictionaryOutputs(operations[..i], id)
    {
      var op := operations[i];
      assert operations[..i + 1][..i] == operations[..i];
      if !op.native && HasOutput(op) {
        var target := op.output.value;
        groups := groups[target := (if target in groups then groups[target] else []) + [OutputName(op)]];
      }
    }
    assert operations[..|operations|] == operations;
  }

  lemma {:induction false} DictionaryOutputIsOperation(operations: seq<Operation>, id: string, name: string)
    requires name in DictionaryOutputs(operations, id)
    ensures exists op :: op in operations && HasOutput(op) && op.output.value == id && OutputName(op) == name
    ensures name in OperationOutputNames(operations)
  {
    var init, last := operations[..|operations| - 1], operations[|operations| - 1];
    if name in DictionaryOutputs(init, id) {
      DictionaryOutputIsOperation(init, id, name);
      var op :| op in init && HasOutput(op) && op.output.value == id && OutputName(op) == name;
      assert op in operations;
    } else {
      assert last in operations && OutputName(last) == name;
    }
  }

  ghost predicate DistinctOperations(operations: seq<Operation>) {
    forall i, j | 0 <= i < j < |operations| :: operations[i].name != operations[j].name
  }

  // Operations are told apart by the names of their outputs.
  lemma OutputNameTellsOperation(operations: seq<Operation>, left: Operation, right: Operation)
    requires DistinctOperations(operations) && left in operations && right in operations
    requires OutputName(left) == OutputName(right)
    ensures left == right
  {
    assert OutputName(left)[..|left.name|] == left.name;
    assert OutputName(right)[..|right.name|] == right.name;
    assert |OutputName(left)| == |left.name| + 6;
  }

  // ---------- Names assigned in turn ----------

  // What is decided for a key before any name is given: no name, a name of its own, or the
  // first free candidate when its turn comes.
  datatype Choice = Skip | Keep(name: string) | Fresh(stem: string, suffix: string)

  ghost predicate Once(order: seq<string>) {
    forall i, j | 0 <= i < j < |order| :: order[i] != order[j]
  }

  // Names reserved before turn `i`: the ones reserved from the start and those given since.
  ghost function Taken(base: set<string>, order: seq<string>, names: map<string, string>, i: nat): set<string>
    requires i <= |order|
  {
    base + set j | 0 <= j < i && order[j] in names :: names[order[j]]
  }

  ghost predicate Obeys(choice: Choice, taken: set<string>, names: map<string, string>, key: string) {
    match choice
    case Skip => key !in names
    case Keep(name) => key in names && names[key] == name
    case Fresh(stem, suffix) => key in names && FirstFree(stem, suffix, taken, names[key])
  }

  ghost predicate Assigned(base: set<string>, order: seq<string>, choices: seq<Choice>, names: map<string, string>)
    requires |choices| == |order|
  {
    && (forall key | key in names :: key in order)
    && (forall i {:trigger choices[i]} | 0 <= i < |order| ::
          Obeys(choices[i], Taken(base, order, names, i), names, order[i]))
  }

  lemma TakenGrows(base: set<string>, order: seq<string>, names: map<string, string>, i: nat)
    requires i < |order|
    ensures Taken(base, order, names, i + 1)
         == Taken(base, order, names, i) + if order[i] in names then {names[order[i]]} else {}
  {
  }

  lemma TakenUnaffected(base: set<string>, order: seq<string>, names: map<string, string>, key: string, name: string,
                        i: nat)
    requires i <= |order| && key !in order[..i]
    ensures Taken(base, order, names[key := name], i) == Taken(base, order, names, i)
  {
    assert forall j | 0 <= j < i :: order[j] in order[..i];
  }

  // The loop of each naming pass: a name given is reserved for the later turns.
  method AssignNames(base: set<string>, order: seq<string>, choices: seq<Choice>)
    returns (names: map<string, string>, reserved: set<string>)
    requires Once(order) && |choices| == |order|
    ensures Assigned(base, order, choices, names)
    ensures reserved == Taken(base, order, names, |order|)
  {
    hide FirstFree, Taken;
    names := map[];
    reserved := base;
    assert Taken(base, order, names, 0) == base by {
      NothingTaken(base, order, names);
    }
    for i := 0 to |order|
      invariant forall key | key in names :: key in order[..i]
      invariant reserved == Taken(base, order, names, i)
      invariant forall k | 0 <= k < i :: Obeys(choices[k], Taken(base, order, names, k), names, order[k])
    {
      ghost var before := names;
      assert order[i] !in order[..i];
      assert order[..i + 1] == order[..i] + [order[i]];
      match choices[i] {
        case Skip =>
        case Keep(name) =>
          names := names[order[i] := name];
          reserved := reserved + {name};
        case Fresh(stem, suffix) =>
          var name := Allocate(stem, suffix, reserved);
          names := names[order[i] := name];
          reserved := reserved + {name};
      }
      if names != before {
        forall k | 0 <= k <= i
          ensures Taken(base, order, names, k) == Taken(base, order, before, k)
        {
          assert order[..k] <= order[..i];
          TakenUnaffected(base, order, before, order[i], names[order[i]], k);
        }
      }
      TakenGrows(base, order, names, i);
    }
    assert order[..|order|] == order;
  }

  lemma NothingTaken(base: set<string>, order: seq<string>, names: map<string, string>)
    ensures Taken(base, order, names, 0) == base
  {
  }

  lemma GivenIsTaken(base: set<string>, order: seq<string>, names: map<string, string>, i: nat, j: nat)
    requires i < j <= |order| && order[i] in names
    ensures names[order[i]] in Taken(base, order, names, j)
  {
  }

  lemma FreshIsFree(base: set<string>, order: seq<string>, choices: seq<Choice>, names: map<string, string>, i: nat)
    requires |choices| == |order| && Assigned(base, order, choices, names) && i < |order| && choices[i].Fresh?
    ensures order[i] in names && names[order[i]] !in Taken(base, order, names, i) && names[order[i]] !in base
  {
    hide Candidate;
    assert Obeys(choices[i], Taken(base, order, names, i), names, order[i]);
  }

  // Two keys get the same name exactly when both keep that name.
  lemma CollisionsAreKept(base: set<string>, order: seq<string>, choices: seq<Choice>, names: map<string, string>,
                          i: nat, j: nat)
    requires |choices| == |order| && Assigned(base, order, choices, names) && i < j < |order|
    requires forall k | 0 <= k < |choices| :: choices[k].Keep? ==> choices[k].name in base
    requires !choices[i].Skip? && !choices[j].Skip?
    ensures order[i] in names && order[j] in names
    ensures (names[order[i]] == names[order[j]])
       <==> (choices[i].Keep? && choices[j].Keep? && choices[i].name == choices[j].name)
  {
    hide FirstFree, Taken;
    assert Obeys(choices[i], Taken(base, order, names, i), names, order[i]);
    assert Obeys(choices[j], Taken(base, order, names, j), names, order[j]);
    GivenIsTaken(base, order, names, i, j);
    if choices[i].Fresh? {
      FreshIsFree(base, order, choices, names, i);
    }
    if choices[j].Fresh? {
      FreshIsFree(base, order, choices, names, j);
    }
  }

  ghost predicate Injective(names: map<string, string>) {
    forall a, b | a in names && b in names && names[a] == names[b] :: a == b
  }

  // Names are injective when no two keys keep the same one.
  lemma KeptDistinctly(base: set<string>, order: seq<string>, choices: seq<Choice>, names: map<string, string>)
    requires |choices| == |order| && Assigned(base, order, choices, names)
    requires forall k | 0 <= k < |choices| :: choices[k].Keep? ==> choices[k].name in base
    requires forall i, j | 0 <= i < j < |choices| && choices[i].Keep? && choices[j].Keep? ::
               choices[i].name != choices[j].name
    ensures Injective(names)
  {
    hide Taken, FirstFree;
    forall a, b | a in names && b in names && names[a] == names[b]
      ensures a == b
    {
      var i :| 0 <= i < |order| && order[i] == a;
      var j :| 0 <= j < |order| && order[j] == b;
      assert Obeys(choices[i], Taken(base, order, names, i), names, order[i]);
      assert Obeys(choices[j], Taken(base, order, names, j), names, order[j]);
      if i < j {
        CollisionsAreKept(base, order, choices, names, i, j);
      } else if j < i {
        CollisionsAreKept(base, order, choices, names, j, i);
      }
    }
  }
}
