/** Waiter definitions, their resolution against a model, and the polling loop. */
module Waiters {
  import opened Wrappers
  import opened PyValues
  import opened Smithy
  import opened WaiterCompiler
  import opened WaiterRuntime
  import opened Responses
  import opened WaiterMeaning
  import opened WaiterCorrectness
  import opened WaiterSoundness
  import opened WaiterReads
  import opened WaiterLimits
  import WaiterTyping

  datatype State = SuccessState | RetryState | FailureState

  datatype Test = StringEquals | BooleanEquals | AnyStringEquals | AllStringEquals

  datatype Matcher =
    | OutputMatcher(path: string, test: Test, text: string)
    | ErrorMatcher(code: string)
    | SuccessMatcher(expected: bool)

  datatype Acceptor = Acceptor(state: State, matcher: Matcher)

  // ---------- Parsing waiter metadata ----------

  datatype ParseError =
    | NotAnObject | NeedsAcceptors | InvalidAcceptor | NeedsOneMatcher | InvalidOutputMatcher
    | InvalidPathOrComparator | ExpectedNotString | ExpectedNotBoolean | InvalidErrorType
    | InvalidSuccessMatcher | UnsupportedMatcher | NeedsSuccessAcceptor

  function Keys(names: set<string>): set<Py> {
    set name | name in names :: PyStr(name)
  }

  function Lookup(entries: map<Py, Py>, name: string): Py {
    if PyStr(name) in entries then entries[PyStr(name)] else PyNone
  }

  function ParseState(p: Py): Option<State> {
    if p == PyStr("success") then Some(SuccessState)
    else if p == PyStr("retry") then Some(RetryState)
    else if p == PyStr("failure") then Some(FailureState)
    else None
  }

  function ParseTest(p: Py): Option<Test> {
    if p == PyStr("stringEquals") then Some(StringEquals)
    else if p == PyStr("booleanEquals") then Some(BooleanEquals)
    else if p == PyStr("anyStringEquals") then Some(AnyStringEquals)
    else if p == PyStr("allStringEquals") then Some(AllStringEquals)
    else None
  }

  function ParseOutputMatcher(p: Py): Result<Matcher, ParseError> {
    if !p.PyDict? then Failure(NotAnObject)
    else if p.entries.Keys != Keys({"path", "expected", "comparator"}) then Failure(InvalidOutputMatcher)
    else
      var path, test, expected := Lookup(p.entries, "path"), ParseTest(Lookup(p.entries, "comparator")),
          Lookup(p.entries, "expected");
      if !path.PyStr? || path.text == "" || test.None? then Failure(InvalidPathOrComparator)
      else if !expected.PyStr? then Failure(ExpectedNotString)
      else if test.value.BooleanEquals? && expected.text !in {"true", "false"} then Failure(ExpectedNotBoolean)
      else Success(OutputMatcher(path.text, test.value, expected.text))
  }

  function ParseMatcher(matcher: Py): Result<Matcher, ParseError> {
    if !matcher.PyDict? then Failure(NotAnObject)
    else if |matcher.entries| != 1 then Failure(NeedsOneMatcher)
    else
      var error, success := Lookup(matcher.entries, "errorType"), Lookup(matcher.entries, "success");
      if PyStr("output") in matcher.entries then ParseOutputMatcher(Lookup(matcher.entries, "output"))
      else if PyStr("errorType") in matcher.entries then
        if error.PyStr? && error.text != "" then Success(ErrorMatcher(error.text)) else Failure(InvalidErrorType)
      else if PyStr("success") in matcher.entries then
        if success.PyBool? then Success(SuccessMatcher(success.truth)) else Failure(InvalidSuccessMatcher)
      else Failure(UnsupportedMatcher)
  }

  function ParseAcceptor(raw: Py): Result<Acceptor, ParseError> {
    if !raw.PyDict? then Failure(NotAnObject)
    else
      var state := ParseState(Lookup(raw.entries, "state"));
      if raw.entries.Keys != Keys({"state", "matcher"}) || state.None? then Failure(InvalidAcceptor)
      else
        var matcher :- ParseMatcher(Lookup(raw.entries, "matcher"));
        Success(Acceptor(state.value, matcher))
  }

  // ---------- The metadata of an acceptor ----------

  function StateText(state: State): string {
    match state
    case SuccessState => "success"
    case RetryState => "retry"
    case FailureState => "failure"
  }

  function TestText(test: Test): string {
    match test
    case StringEquals => "stringEquals"
    case BooleanEquals => "booleanEquals"
    case AnyStringEquals => "anyStringEquals"
    case AllStringEquals => "allStringEquals"
  }

  function OutputTable(path: string, test: Test, text: string): map<Py, Py> {
    map[PyStr("path") := PyStr(path), PyStr("expected") := PyStr(text), PyStr("comparator") := PyStr(TestText(test))]
  }

  function MatcherTable(matcher: Matcher): Py {
    match matcher
    case OutputMatcher(path, test, text) =>
      PyDict(map[PyStr("output") := PyDict(OutputTable(path, test, text))])
    case ErrorMatcher(code) => PyDict(map[PyStr("errorType") := PyStr(code)])
    case SuccessMatcher(expected) => PyDict(map[PyStr("success") := PyBool(expected)])
  }

  function AcceptorTable(a: Acceptor): Py {
    PyDict(map[PyStr("state") := PyStr(StateText(a.state)), PyStr("matcher") := MatcherTable(a.matcher)])
  }

  predicate Admissible(matcher: Matcher) {
    match matcher
    case OutputMatcher(path, test, text) => path != "" && (test.BooleanEquals? ==> text == "true" || text == "false")
    case ErrorMatcher(code) => code != ""
    case SuccessMatcher(_) => true
  }

  lemma OnlyEntry(entries: map<Py, Py>, key: Py)
    requires key in entries && |entries| == 1
    ensures entries == map[key := entries[key]]
  {
    assert entries.Keys == {key} by {
      assert |entries.Keys| == |entries|;
      SingleKey(entries.Keys, key);
    }
  }

  lemma SingleKey(keys: set<Py>, key: Py)
    requires key in keys && |keys| == 1
    ensures keys == {key}
  {
    assert |keys - {key}| == 0;
    assert keys - {key} == {};
  }

  lemma TestParsesExactly(p: Py, test: Test)
    ensures ParseTest(p) == Some(test) <==> p == PyStr(TestText(test))
  {}

  // Three keys and their values make the table.
  lemma ThreeEntries(entries: map<Py, Py>, path: string, test: Test, text: string)
    ensures entries == OutputTable(path, test, text) <==>
              && entries.Keys == Keys({"path", "expected", "comparator"})
              && Lookup(entries, "path") == PyStr(path) && Lookup(entries, "expected") == PyStr(text)
              && Lookup(entries, "comparator") == PyStr(TestText(test))
  {
    hide TestText;
    assert Keys({"path", "expected", "comparator"}) == {PyStr("path"), PyStr("expected"), PyStr("comparator")};
  }

  lemma OutputParsesExactly(raw: Py, matcher: Matcher)
    requires matcher.OutputMatcher?
    ensures (ParseOutputMatcher(raw) == Success(matcher))
       <==> (raw == MatcherTable(matcher).entries[PyStr("output")] && Admissible(matcher))
  {
    hide OutputTable, TestText, ParseTest, Lookup, Keys;
    if raw.PyDict? {
      ThreeEntries(raw.entries, matcher.path, matcher.test, matcher.text);
      TestParsesExactly(Lookup(raw.entries, "comparator"), matcher.test);
    }
  }

  lemma MatcherParsesExactly(raw: Py, matcher: Matcher)
    ensures (ParseMatcher(raw) == Success(matcher)) <==> (raw == MatcherTable(matcher) && Admissible(matcher))
  {
    hide ParseOutputMatcher;
    if raw.PyDict? && |raw.entries| == 1 {
      var key :| key in raw.entries;
      OnlyEntry(raw.entries, key);
      if matcher.OutputMatcher? && key == PyStr("output") {
        OutputParsesExactly(raw.entries[key], matcher);
      }
      if key == PyStr("output") {
        OutputIsOutput(raw.entries[key]);
      }
    }
  }

  lemma OutputIsOutput(raw: Py)
    ensures ParseOutputMatcher(raw).Success? ==> ParseOutputMatcher(raw).value.OutputMatcher?
  {
  }

  /** Exactly the table of an admissible acceptor parses, and to that acceptor. */
  lemma AcceptorParsesExactly(raw: Py, a: Acceptor)
    ensures (ParseAcceptor(raw) == Success(a)) <==> (raw == AcceptorTable(a) && Admissible(a.matcher))
  {
    hide ParseMatcher, MatcherTable, Admissible;
    assert Keys({"state", "matcher"}) == {PyStr("state"), PyStr("matcher")};
    if raw.PyDict? && PyStr("matcher") in raw.entries {
      MatcherParsesExactly(raw.entries[PyStr("matcher")], a.matcher);
    }
  }

  predicate HasSuccess(acceptors: seq<Acceptor>) {
    exists a | a in acceptors :: a.state.SuccessState?
  }

  /** The acceptors of one waiter: all of them parsed in order, one of them a success. */
  method ParseAcceptors(raw: Py) returns (r: Result<seq<Acceptor>, ParseError>)
    ensures r.Success? <==>
            && raw.PyList? && raw.items != []
            && (forall i | 0 <= i < |raw.items| :: ParseAcceptor(raw.items[i]).Success?)
            && (exists i :: 0 <= i < |raw.items| && ParseAcceptor(raw.items[i]).Success?
                            && ParseAcceptor(raw.items[i]).value.state.SuccessState?)
    ensures r.Success? ==> |r.value| == |raw.items| && HasSuccess(r.value)
    ensures r.Success? ==> forall i | 0 <= i < |r.value| :: ParseAcceptor(raw.items[i]) == Success(r.value[i])
    ensures r.Failure? && raw.PyList? && raw.items != [] && r.error != NeedsSuccessAcceptor ==>
              exists i :: 0 <= i < |raw.items| && ParseAcceptor(raw.items[i]) == Failure(r.error)
                          && forall j | 0 <= j < i :: ParseAcceptor(raw.items[j]).Success?
  {
    if !raw.PyList? || raw.items == [] {
      return Failure(NeedsAcceptors);
    }
    var parsed: seq<Acceptor> := [];
    var success := false;
    for i := 0 to |raw.items|
      invariant |parsed| == i
      invariant forall j | 0 <= j < i :: ParseAcceptor(raw.items[j]) == Success(parsed[j])
      invariant success <==> HasSuccess(parsed)
    {
      var acceptor := ParseAcceptor(raw.items[i]);
      if acceptor.Failure? {
        return Failure(acceptor.error);
      }
      success := success || acceptor.value.state.SuccessState?;
      parsed := parsed + [acceptor.value];
    }
    if !success {
      forall i | 0 <= i < |raw.items|
        ensures !ParseAcceptor(raw.items[i]).value.state.SuccessState?
      {
        assert parsed[i] in parsed;
      }
      return Failure(NeedsSuccessAcceptor);
    }
    var a :| a in parsed && a.state.SuccessState?;
    return Success(parsed);
  }

  // ---------- Resolution against the model ----------

  datatype ResolveError = Uncompiled(error: CompileError) | IncompatibleComparator | UnmodeledError

  datatype Resolved = Resolved(state: State, matcher: Matcher, expression: Option<Expr>)

  datatype ResolvedWaiter = ResolvedWaiter(acceptors: seq<Resolved>, returnsOutput: bool, returnsNone: bool)

  // What resolution reads: the model, the polled operation's output type and errors, and the
  // JMESPath parser.
  datatype Operation = Operation(svc: Service, output: Type, errors: set<string>, parsePath: string -> Node)

  // The type the comparator looks at: the items of a list for "any" and "all".
  function TestedType(svc: Service, test: Test, t: Type): Result<Type, CompileError> {
    if test.AnyStringEquals? || test.AllStringEquals? then ItemOf(svc, t) else Success(t)
  }

  function ResolveAcceptor(op: Operation, a: Acceptor): Result<Resolved, ResolveError> {
    match a.matcher
    case SuccessMatcher(_) => Success(Resolved(a.state, a.matcher, None))
    case ErrorMatcher(code) =>
      if code in op.errors then Success(Resolved(a.state, a.matcher, None)) else Failure(UnmodeledError)
    case OutputMatcher(path, test, text) =>
      match Compile(op.svc, op.parsePath(path), op.output)
      case Failure(error) => Failure(Uncompiled(error))
      case Success(typed) =>
        match TestedType(op.svc, test, typed.ty)
        case Failure(error) => Failure(Uncompiled(error))
        case Success(tested) =>
          match KindOf(op.svc, tested)
          case Failure(error) => Failure(Uncompiled(error))
          case Success(kind) =>
            if kind != (if test.BooleanEquals? then BooleanKind else StringKind) then Failure(IncompatibleComparator)
            else if kind.StringKind? && !ExpectedAllowed(op.svc, tested, text)
            then Failure(Uncompiled(UnknownEnumValue))
            else Success(Resolved(a.state, a.matcher, Some(typed.expr)))
  }

  // What a comparator asks of the type of the expression, and of the type it looks at.
  ghost predicate FitsTest(svc: Service, test: Test, text: string, ty: Type, tested: Type) {
    && (if test.AnyStringEquals? || test.AllStringEquals? then WaiterTyping.HasItems(svc, ty, tested) else tested == ty)
    && (if test.BooleanEquals? then WaiterTyping.IsBoolean(svc, tested)
        else WaiterTyping.IsString(svc, tested) && WaiterTyping.AllowsText(svc, tested, text))
  }

  // An acceptor fits the operation: its expression is typed as its comparator demands, with an
  // expected string the shape allows, or its error is one the operation models.
  ghost predicate Suits(op: Operation, a: Acceptor) {
    match a.matcher
    case SuccessMatcher(_) => true
    case ErrorMatcher(code) => code in op.errors
    case OutputMatcher(path, test, text) =>
      exists ty, tested ::
        && WaiterTyping.HasTy(op.svc, op.parsePath(path), op.output, ty)
        && FitsTest(op.svc, test, text, ty, tested)
  }

  /** Resolution accepts exactly the acceptors that fit the operation. */
  lemma ResolvesExactly(op: Operation, a: Acceptor)
    ensures ResolveAcceptor(op, a).Success? <==> Suits(op, a)
  {
    hide Compile, WaiterTyping.HasTy, ItemOf, KindOf, WaiterTyping.HasItems, WaiterTyping.IsString;
    hide WaiterTyping.IsBoolean;
    WaiterTyping.KindsAreDeclared(op.svc);
    WaiterTyping.ItemsAreDeclared(op.svc);
    if a.matcher.OutputMatcher? {
      var node, test, text := op.parsePath(a.matcher.path), a.matcher.test, a.matcher.text;
      if Suits(op, a) {
        var ty, tested :| WaiterTyping.HasTy(op.svc, node, op.output, ty) && FitsTest(op.svc, test, text, ty, tested);
        WaiterTyping.TypingDecided(op.svc, node, op.output, ty);
      }
      if ResolveAcceptor(op, a).Success? {
        var ty := Compile(op.svc, node, op.output).value.ty;
        WaiterTyping.TypingDecided(op.svc, node, op.output, ty);
        assert FitsTest(op.svc, test, text, ty, TestedType(op.svc, test, ty).value);
      }
    }
  }

  /** An acceptor that looks at an enum resolves exactly when the enum lists the expected text, or nothing. */
  lemma EnumResolves(op: Operation, a: Acceptor, ty: Type, e: string)
    requires a.matcher.OutputMatcher? && !a.matcher.test.BooleanEquals?
    requires WaiterTyping.HasTy(op.svc, op.parsePath(a.matcher.path), op.output, ty)
    requires e in op.svc.shapes && op.svc.shapes[e].kind == EnumKind
    requires if a.matcher.test.StringEquals? then ty.Plain? && ty.target == Model(e)
             else exists dictionary :: WaiterTyping.HasItems(op.svc, ty, Plain(Model(e), dictionary))
    ensures ResolveAcceptor(op, a).Success? <==>
              op.svc.shapes[e].enumValues == [] || a.matcher.text in op.svc.shapes[e].enumValues
  {
    hide Compile, WaiterTyping.HasTy, ResolveAcceptor;
    ResolvesExactly(op, a);
    forall other
      ensures WaiterTyping.HasTy(op.svc, op.parsePath(a.matcher.path), op.output, other) ==> other == ty
    {
      WaiterTyping.TypingDecided(op.svc, op.parsePath(a.matcher.path), op.output, ty);
      WaiterTyping.TypingDecided(op.svc, op.parsePath(a.matcher.path), op.output, other);
    }
    var tested := if a.matcher.test.StringEquals? then ty
                  else var dictionary :| WaiterTyping.HasItems(op.svc, ty, Plain(Model(e), dictionary));
                       Plain(Model(e), dictionary);
    assert WaiterTyping.IsString(op.svc, tested);
    assert FitsTest(op.svc, a.matcher.test, a.matcher.text, ty, tested) <==>
             WaiterTyping.AllowsText(op.svc, tested, a.matcher.text);
  }

  // A success that a service error confirms: there is no output to return.
  predicate SucceedsWithoutOutput(state: State, matcher: Matcher) {
    state.SuccessState? && (matcher.ErrorMatcher? || matcher == SuccessMatcher(false))
  }

  predicate SucceedsWithOutput(state: State, matcher: Matcher) {
    state.SuccessState? && !SucceedsWithoutOutput(state, matcher)
  }

  ghost predicate ResolvesTo(op: Operation, acceptors: seq<Acceptor>, resolved: seq<Resolved>) {
    |resolved| == |acceptors| &&
    forall i | 0 <= i < |resolved| :: ResolveAcceptor(op, acceptors[i]) == Success(resolved[i])
  }

  // The flags say which forms of success the acceptors have.
  ghost predicate Annotated(waiter: ResolvedWaiter, acceptors: seq<Acceptor>) {
    && (waiter.returnsOutput <==> exists a | a in acceptors :: SucceedsWithOutput(a.state, a.matcher))
    && (waiter.returnsNone <==> exists a | a in acceptors :: SucceedsWithoutOutput(a.state, a.matcher))
  }

  /** Resolves the acceptors of one waiter and records which forms of success it has. */
  method ResolveWaiter(op: Operation, acceptors: seq<Acceptor>) returns (r: Result<ResolvedWaiter, ResolveError>)
    ensures r.Success? ==> ResolvesTo(op, acceptors, r.value.acceptors) && Annotated(r.value, acceptors)
    ensures r.Success? && HasSuccess(acceptors) ==> r.value.returnsOutput || r.value.returnsNone
    ensures r.Failure? ==> exists i :: 0 <= i < |acceptors| && ResolveAcceptor(op, acceptors[i]) == Failure(r.error)
    ensures r.Success? <==> forall i | 0 <= i < |acceptors| :: ResolveAcceptor(op, acceptors[i]).Success?
  {
    var resolved: seq<Resolved> := [];
    var output, none := false, false;
    for i := 0 to |acceptors|
      invariant ResolvesTo(op, acceptors[..i], resolved)
      invariant output <==> exists j :: 0 <= j < i && SucceedsWithOutput(acceptors[j].state, acceptors[j].matcher)
      invariant none <==> exists j :: 0 <= j < i && SucceedsWithoutOutput(acceptors[j].state, acceptors[j].matcher)
    {
      var a := acceptors[i];
      var one := ResolveAcceptor(op, a);
      if one.Failure? {
        return Failure(one.error);
      }
      if a.state.SuccessState? {
        if a.matcher.ErrorMatcher? || (a.matcher.SuccessMatcher? && !a.matcher.expected) {
          none := true;
        } else {
          output := true;
        }
      }
      resolved := resolved + [one.value];
    }
    assert acceptors[..|acceptors|] == acceptors;
    return Success(ResolvedWaiter(resolved, output, none));
  }

  // ---------- Matching one poll ----------

  // One poll of the operation: an output, or the code of a service error.
  datatype Poll<T> = Returned(output: T) | Raised(code: string)

  // `None` when evaluation would raise.
  function Matches(a: Resolved, poll: Poll<Py>): Option<bool> {
    match a.matcher
    case ErrorMatcher(code) => Some(poll == Raised(code))
    case SuccessMatcher(expected) => Some(poll.Returned? == expected)
    case OutputMatcher(_, test, text) =>
      if poll.Raised? then Some(false)
      else if a.expression.None? then None
      else
        match Evaluate(a.expression.value, poll.output)
        case Fault => None
        case Missing => Some(false)
        case Val(value) => Some(Passes(test, text, value))
  }

  predicate Passes(test: Test, text: string, value: Py) {
    match test
    case BooleanEquals => value == PyBool(text == "true")
    case StringEquals => value == PyStr(text)
    case AnyStringEquals => value.PyList? && exists item | item in value.items :: item == PyStr(text)
    case AllStringEquals =>
      value.PyList? && value.items != [] && forall item | item in value.items :: item == PyStr(text)
  }

  // What the acceptor promises in the model's own terms.
  predicate Accepts(op: Operation, a: Acceptor, poll: Poll<Value>) {
    match a.matcher
    case ErrorMatcher(code) => poll == Raised(code)
    case SuccessMatcher(expected) => poll.Returned? == expected
    case OutputMatcher(path, test, text) =>
      poll.Returned? &&
      var answer := Meaning(op.parsePath(path), poll.output);
      answer.Answer? && Promises(test, text, answer.value)
  }

  predicate Promises(test: Test, text: string, v: Value) {
    match test
    case BooleanEquals => v == Bool(text == "true")
    case StringEquals => v == Str(text)
    case AnyStringEquals => v.List? && Str(text) in v.items
    case AllStringEquals => v.List? && v.items != [] && forall item | item in v.items :: item == Str(text)
  }

  // The Python form of a poll.
  function Represented(op: Operation, poll: Poll<Value>): Poll<Py> {
    match poll
    case Returned(output) => Returned(Represent(op.svc, output, op.output))
    case Raised(code) => Raised(code)
  }

  ghost predicate PollConforms(op: Operation, poll: Poll<Value>) {
    poll.Returned? ==> !poll.output.Null? && Conforms(op.svc, poll.output, op.output)
  }

  // The acceptor's expression agrees with its meaning on the polled output.
  ghost predicate AgreesOnPoll(op: Operation, a: Acceptor, poll: Poll<Value>) {
    a.matcher.OutputMatcher? && poll.Returned? ==>
        AgreesOn(op.svc, op.parsePath(a.matcher.path), op.output, poll.output)
  }

  ghost predicate PathFlattensNoSets(op: Operation, a: Acceptor) {
    a.matcher.OutputMatcher? ==> FlattensNoSets(op.svc, op.parsePath(a.matcher.path), op.output)
  }

  lemma StringsRepresented(svc: Service, items: seq<Value>, t: Type, text: string)
    requires forall x | x in items :: Conforms(svc, x, t)
    requires KindOf(svc, t) == Success(StringKind)
    ensures var represented := RepresentAll(svc, items, t);
            && ((exists item | item in represented :: item == PyStr(text)) <==> Str(text) in items)
            && ((forall item | item in represented :: item == PyStr(text)) <==>
                  forall item | item in items :: item == Str(text))
  {
    var represented := RepresentAll(svc, items, t);
    forall i | 0 <= i < |items|
      ensures represented[i] == PyStr(text) <==> items[i] == Str(text)
    {
      assert items[i] in items;
    }
    if Str(text) in items {
      var i :| 0 <= i < |items| && items[i] == Str(text);
      assert represented[i] in represented;
    }
    if forall item | item in represented :: item == PyStr(text) {
      forall item | item in items
        ensures item == Str(text)
      {
        var i :| 0 <= i < |items| && items[i] == item;
        assert represented[i] in represented;
      }
    }
    if forall item | item in items :: item == Str(text) {
      forall p | p in represented
        ensures p == PyStr(text)
      {
        var i :| 0 <= i < |represented| && represented[i] == p;
        assert items[i] in items;
      }
    }
  }

  lemma TestAgrees(svc: Service, test: Test, text: string, v: Value, t: Type)
    requires !v.Null? && Conforms(svc, v, t) && TestedType(svc, test, t).Success?
    requires KindOf(svc, TestedType(svc, test, t).value)
          == Success(if test.BooleanEquals? then BooleanKind else StringKind)
    ensures Passes(test, text, Represent(svc, v, t)) <==> Promises(test, text, v)
  {
    if test.AnyStringEquals? || test.AllStringEquals? {
      hide Conforms, Represent;
      ItemsConform(svc, v, t);
      StringsRepresented(svc, v.items, ItemOf(svc, t).value, text);
      assert RepresentAll(svc, v.items, ItemOf(svc, t).value) == [] <==> v.items == [];
    }
  }

  lemma OutputResolved(op: Operation, a: Acceptor)
    requires a.matcher.OutputMatcher? && ResolveAcceptor(op, a).Success?
    ensures var typed := Compile(op.svc, op.parsePath(a.matcher.path), op.output);
            && typed.Success?
            && ResolveAcceptor(op, a).value == Resolved(a.state, a.matcher, Some(typed.value.expr))
            && var tested := TestedType(op.svc, a.matcher.test, typed.value.ty);
               && tested.Success?
               && KindOf(op.svc, tested.value)
                  == Success(if a.matcher.test.BooleanEquals? then BooleanKind else StringKind)
  {
    hide Compile, ItemOf, KindOf;
  }

  /** A resolved acceptor never raises, whatever its path flattens and whatever nulls the output holds. */
  lemma AcceptorAlwaysDecides(op: Operation, a: Acceptor, poll: Poll<Value>)
    requires WellNamed(op.svc) && (poll.Returned? ==> Conforms(op.svc, poll.output, op.output))
    requires ResolveAcceptor(op, a).Success?
    ensures Matches(ResolveAcceptor(op, a).value, Represented(op, poll)).Some?
  {
    hide Compile, Evaluate, Conforms, Represent, WellNamed, ResolveAcceptor, KindOf, ItemOf, Passes;
    if a.matcher.OutputMatcher? {
      OutputResolved(op, a);
      if poll.Returned? {
        NeverRaises(op.svc, op.parsePath(a.matcher.path), op.output, poll.output);
      }
    } else {
      ResolutionKeepsAcceptor(op, a);
    }
  }

  /** A resolved acceptor decides as its definition promises every poll its expression agrees on. */
  lemma AcceptorMatchesItsDefinition(op: Operation, a: Acceptor, poll: Poll<Value>)
    requires PollConforms(op, poll) && AgreesOnPoll(op, a, poll)
    requires ResolveAcceptor(op, a).Success?
    ensures Matches(ResolveAcceptor(op, a).value, Represented(op, poll)) == Some(Accepts(op, a, poll))
  {
    if a.matcher.OutputMatcher? && poll.Returned? {
      hide Compile, Meaning, Evaluate, Conforms, Represent, ResolveAcceptor, KindOf, ItemOf, Passes;
      var node := op.parsePath(a.matcher.path);
      var typed := Compile(op.svc, node, op.output).value;
      OutputResolved(op, a);
      var v := Meaning(node, poll.output).value;
      if !v.Null? {
        TestAgrees(op.svc, a.matcher.test, a.matcher.text, v, typed.ty);
      }
    }
  }

  // Outputs without null items in reach are agreed on by every acceptor.
  lemma DensePollsAgree(op: Operation, a: Acceptor, poll: Poll<Value>)
    requires WellNamed(op.svc) && PollConforms(op, poll) && PathFlattensNoSets(op, a)
    requires poll.Returned? ==> DenseAt(op.svc, poll.output, op.output, false)
    ensures AgreesOnPoll(op, a, poll)
  {
    hide WellNamed, Conforms, FlattensNoSets, DenseAt, AgreesOn;
    if a.matcher.OutputMatcher? && poll.Returned? {
      DenseAgrees(op.svc, op.parsePath(a.matcher.path), op.output, poll.output);
    }
  }

  // `name[*]`
  function Every(name: string): Node {
    Node(Projection, NoValue, [Node(Field, StrLit(name), []), THIS])
  }

  /**
   `allStringEquals` over `name[*]` misses exactly the outputs with a null among strings that all
   equal the expected one: the definition drops the null, the evaluator keeps it.
   */
  lemma AllStringsMissNulls(op: Operation, a: Acceptor, v: Value, name: string, items: seq<Value>)
    requires WellNamed(op.svc) && ResolveAcceptor(op, a).Success?
    requires a.matcher.OutputMatcher? && a.matcher.test.AllStringEquals? && op.parsePath(a.matcher.path) == Every(name)
    requires v.Struct? && Conforms(op.svc, v, op.output) && FieldOf(v.fields, name) == List(items)
    ensures (Matches(ResolveAcceptor(op, a).value, Represented(op, Returned(v))) == Some(Accepts(op, a, Returned(v))))
       <==> !(Null in items && AllAre(Present(items), a.matcher.text))
  {
    hide Matches, Accepts, AllAre, ResolveAcceptor, Conforms, WellNamed;
    AllStringsMatched(op, a, v, name, items);
    AllStringsAccepted(op, a, v, name, items);
    AllAreWithoutNulls(items, a.matcher.text);
  }

  predicate AllAre(items: seq<Value>, text: string) {
    items != [] && forall x | x in items :: x == Str(text)
  }

  lemma AllAreWithoutNulls(items: seq<Value>, text: string)
    ensures AllAre(items, text) <==> Null !in items && AllAre(Present(items), text)
  {
    PresentOnes(items);
    if items != [] {
      assert items[0] in items;
    }
    if Present(items) != [] {
      assert Present(items)[0] in Present(items);
    }
  }

  // At run time every item must equal the expected string.
  lemma AllStringsMatched(op: Operation, a: Acceptor, v: Value, name: string, items: seq<Value>)
    requires WellNamed(op.svc) && ResolveAcceptor(op, a).Success?
    requires a.matcher.OutputMatcher? && a.matcher.test.AllStringEquals? && op.parsePath(a.matcher.path) == Every(name)
    requires v.Struct? && Conforms(op.svc, v, op.output) && FieldOf(v.fields, name) == List(items)
    ensures Matches(ResolveAcceptor(op, a).value, Represented(op, Returned(v))) == Some(AllAre(items, a.matcher.text))
  {
    hide Compile, Evaluate, Conforms, Represent, WellNamed, ResolveAcceptor, KindOf, ItemOf, RepresentAll;
    OutputResolved(op, a);
    EveryCompiled(op.svc, name, op.output);
    var member := Compile(op.svc, Node(Field, StrLit(name), []), op.output).value;
    var item := ItemOf(op.svc, member.ty).value;
    EveryReads(op.svc, name, op.output, v, items);
    ItemOfListOf(op.svc, item);
    StringsRepresented(op.svc, items, item, a.matcher.text);
    assert RepresentAll(op.svc, items, item) == [] <==> items == [] by {
      AsManyRepresented(op.svc, items, item);
    }
  }

  lemma AsManyRepresented(svc: Service, items: seq<Value>, t: Type)
    ensures |RepresentAll(svc, items, t)| == |items|
  {}

  // The definition asks it of the items that are not null.
  lemma AllStringsAccepted(op: Operation, a: Acceptor, v: Value, name: string, items: seq<Value>)
    requires a.matcher.OutputMatcher? && a.matcher.test.AllStringEquals? && op.parsePath(a.matcher.path) == Every(name)
    requires v.Struct? && FieldOf(v.fields, name) == List(items)
    ensures Accepts(op, a, Returned(v)) <==> AllAre(Present(items), a.matcher.text)
  {
    hide Meaning;
    EveryMeans(name, v, items);
  }

  lemma EveryCompiled(svc: Service, name: string, t: Type)
    requires Compile(svc, Every(name), t).Success?
    ensures var member := Compile(svc, Node(Field, StrLit(name), []), t);
            && member.Success? && member == CompileField(svc, StrLit(name), t)
            && ItemOf(svc, member.value.ty).Success?
            && Compile(svc, Every(name), t).value
                 == Typed(Expr(Projection, NoValue, [member.value.expr, THIS_EXPR]),
                          ListOf(ItemOf(svc, member.value.ty).value))
  {
    hide ItemOf, CompileField;
    var node := Every(name);
    ProjectionDispatch(svc, node, t);
    FieldDispatch(svc, name, t);
    var member := Compile(svc, node.children[0], t).value;
    ThisCompiles(svc, ItemOf(svc, member.ty).value);
  }

  lemma FieldDispatch(svc: Service, name: string, t: Type)
    ensures Compile(svc, Node(Field, StrLit(name), []), t) == CompileField(svc, StrLit(name), t)
  {
    hide CompileField;
  }

  lemma EveryReads(svc: Service, name: string, t: Type, v: Value, items: seq<Value>)
    requires WellNamed(svc) && v.Struct? && Conforms(svc, v, t) && FieldOf(v.fields, name) == List(items)
    requires Compile(svc, Every(name), t).Success?
    ensures var member := Compile(svc, Node(Field, StrLit(name), []), t);
            member.Success? && ItemOf(svc, member.value.ty).Success?
    ensures var member := Compile(svc, Node(Field, StrLit(name), []), t).value;
            && Evaluate(Compile(svc, Every(name), t).value.expr, Represent(svc, v, t))
                 == Val(PyList(RepresentAll(svc, items, ItemOf(svc, member.ty).value)))
            && forall x | x in items :: Conforms(svc, x, ItemOf(svc, member.ty).value)
  {
    hide Compile, Conforms, Represent, WellNamed, ItemOf, CompileField;
    EveryCompiled(svc, name, t);
    FieldStepAgrees(svc, Node(Field, StrLit(name), []), t, v);
    FieldNode(svc, t, v, name);
    var member := Compile(svc, Node(Field, StrLit(name), []), t).value;
    ItemsConform(svc, List(items), member.ty);
    var expr := Compile(svc, Every(name), t).value.expr;
    EvaluateProjectionStep(expr, Represent(svc, v, t));
    StarKeepsItems(expr, RepresentAll(svc, items, ItemOf(svc, member.ty).value));
  }

  lemma ItemOfListOf(svc: Service, element: Type)
    ensures ItemOf(svc, ListOf(element)) == Success(element)
  {}

  lemma EveryMeans(name: string, v: Value, items: seq<Value>)
    requires v.Struct? && FieldOf(v.fields, name) == List(items)
    ensures Meaning(Every(name), v) == Answer(List(Present(items)))
  {
    assert Meaning(Every(name).children[0], v) == Answer(List(items));
    StarMeans(Every(name), items);
  }

  lemma {:induction false} PresentOnes(items: seq<Value>)
    ensures forall x :: x in Present(items) <==> x in items && !x.Null?
  {
    if items != [] {
      PresentOnes(items[1..]);
      assert items == [items[0]] + items[1..];
    }
  }

  // ---------- The polling loop ----------

  // Polls with what the clock says just before and just after each call.
  datatype Attempt<T> = Attempt(poll: Poll<T>, lateBefore: bool, lateAfter: bool)

  datatype Ending<T> =
    | Finished(output: Option<T>)      // success: the polled output, or nothing after an error
    | TerminalState(attempts: nat)     // WaiterFailedError
    | OutOfTime(attempts: nat)         // WaiterTimeoutError, reason "deadline"
    | OutOfPolls(attempts: nat)        // WaiterTimeoutError, reason "max_attempts"
    | ErrorPropagates(code: string)
    | Crashed                          // an acceptor raised

  // The first acceptor to decide: `None` if one raised first, else its index or the count.
  function FirstMatch(acceptors: seq<Resolved>, poll: Poll<Py>): Option<nat> {
    if acceptors == [] then Some(0)
    else
      match Matches(acceptors[0], poll)
      case None => None
      case Some(true) => Some(0)
      case Some(false) =>
        match FirstMatch(acceptors[1..], poll)
        case None => None
        case Some(i) => Some(i + 1)
  }

  function OutputOf<T>(poll: Poll<T>): Option<T> {
    if poll.Returned? then Some(poll.output) else None
  }

  /** The cooperative poller: one call after another until an acceptor or a budget decides. */
  method Wait(acceptors: seq<Resolved>, attempt: nat -> Attempt<Py>, maxAttempts: nat) returns (ending: Ending<Py>)
    requires maxAttempts >= 1
    ensures ending == RunFrom(acceptors, attempt, 0, maxAttempts)
  {
    var attempts := 0;
    while attempts < maxAttempts
      invariant attempts < maxAttempts
      invariant RunFrom(acceptors, attempt, 0, maxAttempts) == RunFrom(acceptors, attempt, attempts, maxAttempts)
      decreases maxAttempts - attempts
    {
      var now := attempt(attempts);
      if now.lateBefore {
        return OutOfTime(attempts);
      }
      attempts := attempts + 1;
      if now.lateAfter {
        return OutOfTime(attempts);
      }
      var index := FirstMatch(acceptors, now.poll);
      if index.None? {
        return Crashed;
      }
      if index.value >= |acceptors| {
        if now.poll.Raised? {
          return ErrorPropagates(now.poll.code);
        }
      } else {
        var state := acceptors[index.value].state;
        if state.SuccessState? {
          return Finished(OutputOf(now.poll));
        }
        if state.FailureState? {
          return TerminalState(attempts);
        }
      }
      if attempts == maxAttempts {
        return OutOfPolls(attempts);
      }
    }
    assert false;
  }

  function RunFrom(acceptors: seq<Resolved>, attempt: nat -> Attempt<Py>, n: nat, maxAttempts: nat): Ending<Py>
    requires n < maxAttempts
    decreases maxAttempts - n
  {
    var now := attempt(n);
    if now.lateBefore then OutOfTime(n)
    else if now.lateAfter then OutOfTime(n + 1)
    else
      var index := FirstMatch(acceptors, now.poll);
      if index.None? then Crashed
      else if index.value >= |acceptors| && now.poll.Raised? then ErrorPropagates(now.poll.code)
      else if index.value < |acceptors| && acceptors[index.value].state.SuccessState? then Finished(OutputOf(now.poll))
      else if index.value < |acceptors| && acceptors[index.value].state.FailureState? then TerminalState(n + 1)
      else if n + 1 == maxAttempts then OutOfPolls(n + 1)
      else RunFrom(acceptors, attempt, n + 1, maxAttempts)
  }

  // ---------- How a run ends ----------

  // The first acceptor, in order, that matches; the earlier ones do not.
  ghost predicate MatchesFirst(acceptors: seq<Resolved>, poll: Poll<Py>, i: nat) {
    i < |acceptors| && Matches(acceptors[i], poll) == Some(true) && forall j | 0 <= j < i ::
        Matches(acceptors[j], poll) == Some(false)
  }

  ghost predicate MatchesNone(acceptors: seq<Resolved>, poll: Poll<Py>) {
    forall a | a in acceptors :: Matches(a, poll) == Some(false)
  }

  ghost predicate RaisesFirst(acceptors: seq<Resolved>, poll: Poll<Py>, i: nat) {
    i < |acceptors| && Matches(acceptors[i], poll).None? && forall j | 0 <= j < i ::
        Matches(acceptors[j], poll) == Some(false)
  }

  /** The acceptors are asked in order, up to the first that matches or raises. */
  lemma {:induction false} FirstMatchIsFirst(acceptors: seq<Resolved>, poll: Poll<Py>)
    ensures match FirstMatch(acceptors, poll)
            case Some(i) =>
              if i < |acceptors| then MatchesFirst(acceptors, poll, i)
              else i == |acceptors| && MatchesNone(acceptors, poll)
            case None => exists i: nat :: RaisesFirst(acceptors, poll, i)
  {
    hide Matches;
    if acceptors != [] && Matches(acceptors[0], poll) == Some(false) {
      var rest := acceptors[1..];
      assert acceptors == [acceptors[0]] + rest;
      FirstMatchIsFirst(rest, poll);
      if FirstMatch(rest, poll).None? {
        var i: nat :| RaisesFirst(rest, poll, i);
        assert RaisesFirst(acceptors, poll, i + 1);
      }
    } else if acceptors != [] && Matches(acceptors[0], poll).None? {
      assert RaisesFirst(acceptors, poll, 0);
    }
  }

  // A poll after which the loop goes on: in time, and matched by nothing without error, or by a retry.
  ghost predicate GoesOn(acceptors: seq<Resolved>, now: Attempt<Py>) {
    && !now.lateBefore && !now.lateAfter
    && ((MatchesNone(acceptors, now.poll) && now.poll.Returned?)
        || exists i: nat :: MatchesFirst(acceptors, now.poll, i) && acceptors[i].state.RetryState?)
  }

  // The ending an attempt brings about, after `n` that went on.
  ghost predicate EndsWith(acceptors: seq<Resolved>, now: Attempt<Py>, n: nat, maxAttempts: nat, ending: Ending<Py>) {
    match ending
    case OutOfTime(attempts) => if now.lateBefore then attempts == n else now.lateAfter && attempts == n + 1
    case OutOfPolls(attempts) => attempts == n + 1 == maxAttempts && GoesOn(acceptors, now)
    case ErrorPropagates(code) =>
      !now.lateBefore && !now.lateAfter && now.poll == Raised(code) && MatchesNone(acceptors, now.poll)
    case Finished(output) =>
      && !now.lateBefore && !now.lateAfter && output == OutputOf(now.poll)
      && exists i: nat :: MatchesFirst(acceptors, now.poll, i) && acceptors[i].state.SuccessState?
    case TerminalState(attempts) =>
      && !now.lateBefore && !now.lateAfter && attempts == n + 1
      && exists i: nat :: MatchesFirst(acceptors, now.poll, i) && acceptors[i].state.FailureState?
    case Crashed => !now.lateBefore && !now.lateAfter && exists i: nat :: RaisesFirst(acceptors, now.poll, i)
  }

  /** Every run: attempts that go on, and then one that ends it as the first matching acceptor says. */
  lemma {:induction false} RunEnds(acceptors: seq<Resolved>, attempt: nat -> Attempt<Py>, n: nat, maxAttempts: nat)
    returns (last: nat)
    requires n < maxAttempts
    ensures n <= last < maxAttempts
    ensures forall i | n <= i < last :: GoesOn(acceptors, attempt(i))
    ensures EndsWith(acceptors, attempt(last), last, maxAttempts, RunFrom(acceptors, attempt, n, maxAttempts))
    decreases maxAttempts - n
  {
    hide Matches, FirstMatch, MatchesFirst, MatchesNone;
    last := n;
    var now := attempt(n);
    if !now.lateBefore && !now.lateAfter {
      FirstMatchIsFirst(acceptors, now.poll);
      var index := FirstMatch(acceptors, now.poll);
      if index.Some? && n + 1 < maxAttempts
         && (if index.value < |acceptors| then acceptors[index.value].state.RetryState? else now.poll.Returned?) {
        last := RunEnds(acceptors, attempt, n + 1, maxAttempts);
      }
    }
  }

  lemma MatchingSuccess(a: Resolved, poll: Poll<Py>)
    requires Matches(a, poll) == Some(true) && a.state.SuccessState?
    ensures if poll.Returned? then SucceedsWithOutput(a.state, a.matcher) else SucceedsWithoutOutput(a.state, a.matcher)
  {}

  /** A successful run returns an output only if the waiter says so, and nothing only if it says so. */
  lemma SuccessIsAnnotated(op: Operation, acceptors: seq<Acceptor>, waiter: ResolvedWaiter,
                           attempt: nat -> Attempt<Py>, maxAttempts: nat)
    requires ResolvesTo(op, acceptors, waiter.acceptors) && Annotated(waiter, acceptors) && maxAttempts >= 1
    requires RunFrom(waiter.acceptors, attempt, 0, maxAttempts).Finished?
    ensures if RunFrom(waiter.acceptors, attempt, 0, maxAttempts).output.Some? then waiter.returnsOutput
            else waiter.returnsNone
  {
    hide Matches, ResolveAcceptor, SucceedsWithOutput, SucceedsWithoutOutput, RunFrom;
    var last := RunEnds(waiter.acceptors, attempt, 0, maxAttempts);
    var poll := attempt(last).poll;
    var i: nat :| MatchesFirst(waiter.acceptors, poll, i) && waiter.acceptors[i].state.SuccessState?;
    MatchingSuccess(waiter.acceptors[i], poll);
    ResolutionKeepsAcceptor(op, acceptors[i]);
    assert acceptors[i] in acceptors;
  }

  lemma ResolutionKeepsAcceptor(op: Operation, a: Acceptor)
    requires ResolveAcceptor(op, a).Success?
    ensures ResolveAcceptor(op, a).value.state == a.state && ResolveAcceptor(op, a).value.matcher == a.matcher
  {}

  // ---------- How the definition says it ends ----------

  // Where the definition says the wait ends: the first acceptor, in order, that accepts.
  ghost predicate Decides(op: Operation, acceptors: seq<Acceptor>, poll: Poll<Value>, i: nat) {
    i < |acceptors| && Accepts(op, acceptors[i], poll) && forall j | 0 <= j < i :: !Accepts(op, acceptors[j], poll)
  }

  ghost predicate Undecided(op: Operation, acceptors: seq<Acceptor>, poll: Poll<Value>) {
    forall a | a in acceptors :: !Accepts(op, a, poll)
  }

  // A poll after which the loop goes on: in time, and undecided without error or told to retry.
  ghost predicate Continues(op: Operation, acceptors: seq<Acceptor>, now: Attempt<Value>) {
    && !now.lateBefore && !now.lateAfter
    && ((Undecided(op, acceptors, now.poll) && now.poll.Returned?)
        || exists i: nat :: Decides(op, acceptors, now.poll, i) && acceptors[i].state.RetryState?)
  }

  // The ending the definition promises after exactly `n` undecided attempts.
  ghost predicate Ends(op: Operation, acceptors: seq<Acceptor>, now: Attempt<Value>, n: nat, maxAttempts: nat,
                       ending: Ending<Py>) {
    match ending
    case OutOfTime(attempts) => if now.lateBefore then attempts == n else now.lateAfter && attempts == n + 1
    case OutOfPolls(attempts) => attempts == n + 1 == maxAttempts && Continues(op, acceptors, now)
    case ErrorPropagates(code) =>
      !now.lateBefore && !now.lateAfter && now.poll == Raised(code) && Undecided(op, acceptors, now.poll)
    case Finished(output) =>
      && !now.lateBefore && !now.lateAfter && output == OutputOf(Represented(op, now.poll))
      && exists i: nat :: Decides(op, acceptors, now.poll, i) && acceptors[i].state.SuccessState?
    case TerminalState(attempts) =>
      && !now.lateBefore && !now.lateAfter && attempts == n + 1
      && exists i: nat :: Decides(op, acceptors, now.poll, i) && acceptors[i].state.FailureState?
    case Crashed => false
  }

  // Every acceptor's expression agrees with its meaning on the poll: on each poll without null
  // items in reach, and on others where the nulls do not matter to the acceptors.
  ghost predicate AllAgree(op: Operation, acceptors: seq<Acceptor>, poll: Poll<Value>) {
    PollConforms(op, poll) && forall a | a in acceptors :: AgreesOnPoll(op, a, poll)
  }

  lemma MatchesAsDefined(op: Operation, acceptors: seq<Acceptor>, resolved: seq<Resolved>, poll: Poll<Value>)
    requires ResolvesTo(op, acceptors, resolved) && AllAgree(op, acceptors, poll)
    ensures forall i | 0 <= i < |acceptors| ::
              && Matches(resolved[i], Represented(op, poll)) == Some(Accepts(op, acceptors[i], poll))
              && resolved[i].state == acceptors[i].state
  {
    hide Matches, ResolveAcceptor, Accepts, PollConforms, AgreesOnPoll;
    forall i | 0 <= i < |acceptors|
      ensures Matches(resolved[i], Represented(op, poll)) == Some(Accepts(op, acceptors[i], poll))
      ensures resolved[i].state == acceptors[i].state
    {
      assert acceptors[i] in acceptors;
      AcceptorMatchesItsDefinition(op, acceptors[i], poll);
      ResolutionKeepsAcceptor(op, acceptors[i]);
    }
  }

  // One poll, matched at run time as the definition decides it.
  lemma PollIsDecided(op: Operation, acceptors: seq<Acceptor>, resolved: seq<Resolved>, poll: Poll<Value>)
    requires ResolvesTo(op, acceptors, resolved) && AllAgree(op, acceptors, poll)
    ensures forall i: nat :: MatchesFirst(resolved, Represented(op, poll), i) <==> Decides(op, acceptors, poll, i)
    ensures forall i: nat :: !RaisesFirst(resolved, Represented(op, poll), i)
    ensures MatchesNone(resolved, Represented(op, poll)) <==> Undecided(op, acceptors, poll)
    ensures forall i | 0 <= i < |acceptors| :: resolved[i].state == acceptors[i].state
  {
    hide Matches, ResolveAcceptor, Accepts, PollConforms, AgreesOnPoll, AllAgree, ResolvesTo;
    SameLength(op, acceptors, resolved);
    MatchesAsDefined(op, acceptors, resolved, poll);
    if MatchesNone(resolved, Represented(op, poll)) {
      forall a | a in acceptors
        ensures !Accepts(op, a, poll)
      {
        var i :| 0 <= i < |acceptors| && acceptors[i] == a;
        assert resolved[i] in resolved;
      }
    }
    if Undecided(op, acceptors, poll) {
      forall r | r in resolved
        ensures Matches(r, Represented(op, poll)) == Some(false)
      {
        var i :| 0 <= i < |resolved| && resolved[i] == r;
        assert acceptors[i] in acceptors;
      }
    }
  }

  lemma SameLength(op: Operation, acceptors: seq<Acceptor>, resolved: seq<Resolved>)
    requires ResolvesTo(op, acceptors, resolved)
    ensures |resolved| == |acceptors|
  {}

  // The attempts as the polling loop sees them.
  function Polled(op: Operation, attempt: nat -> Attempt<Value>): nat -> Attempt<Py> {
    (n: nat) => var now := attempt(n); Attempt(Represented(op, now.poll), now.lateBefore, now.lateAfter)
  }

  lemma AttemptGoesOnAsDefined(op: Operation, acceptors: seq<Acceptor>, resolved: seq<Resolved>, now: Attempt<Value>,
                               n: nat, maxAttempts: nat, ending: Ending<Py>)
    requires ResolvesTo(op, acceptors, resolved) && AllAgree(op, acceptors, now.poll)
    ensures var seen := Attempt(Represented(op, now.poll), now.lateBefore, now.lateAfter);
            && (GoesOn(resolved, seen) <==> Continues(op, acceptors, now))
            && (EndsWith(resolved, seen, n, maxAttempts, ending) ==> Ends(op, acceptors, now, n, maxAttempts, ending))
  {
    hide Matches, Accepts, AllAgree, ResolvesTo, MatchesFirst, Decides, MatchesNone, Undecided, RaisesFirst;
    PollIsDecided(op, acceptors, resolved, now.poll);
    DecidesInRange(op, acceptors, now.poll);
  }

  lemma DecidesInRange(op: Operation, acceptors: seq<Acceptor>, poll: Poll<Value>)
    ensures forall i: nat | Decides(op, acceptors, poll, i) :: i < |acceptors|
  {
    hide Accepts;
  }

  /**
   Every run of a resolved waiter ends as its definition promises: some attempts that continue,
   and then one that ends it, decided by the first acceptor in order.
   */
  lemma RunEndsAsDefined(
      op: Operation, acceptors: seq<Acceptor>, resolved: seq<Resolved>,
      attempt: nat -> Attempt<Value>, maxAttempts: nat) returns (last: nat)
    requires ResolvesTo(op, acceptors, resolved) && maxAttempts >= 1
    requires forall i: nat :: AllAgree(op, acceptors, attempt(i).poll)
    ensures last < maxAttempts
    ensures forall i | 0 <= i < last :: Continues(op, acceptors, attempt(i))
    ensures Ends(op, acceptors, attempt(last), last, maxAttempts,
                 RunFrom(resolved, Polled(op, attempt), 0, maxAttempts))
  {
    hide AllAgree, ResolvesTo, GoesOn, Continues, EndsWith, Ends, RunFrom;
    var polled := Polled(op, attempt);
    last := RunEnds(resolved, polled, 0, maxAttempts);
    var ending := RunFrom(resolved, polled, 0, maxAttempts);
    forall i: nat | i <= last
      ensures i < last ==> Continues(op, acceptors, attempt(i))
    {
      assert polled(i) == Attempt(Represented(op, attempt(i).poll), attempt(i).lateBefore, attempt(i).lateAfter);
      AttemptGoesOnAsDefined(op, acceptors, resolved, attempt(i), i, maxAttempts, ending);
    }
    AttemptGoesOnAsDefined(op, acceptors, resolved, attempt(last), last, maxAttempts, ending);
  }

  /**
   A resolved waiter whose paths flatten no sets ends as its definition promises on every sequence
   of outputs without null items in reach.
   */
  lemma DenseRunEndsAsDefined(
      op: Operation, acceptors: seq<Acceptor>, resolved: seq<Resolved>,
      attempt: nat -> Attempt<Value>, maxAttempts: nat) returns (last: nat)
    requires WellNamed(op.svc) && ResolvesTo(op, acceptors, resolved) && maxAttempts >= 1
    requires forall a | a in acceptors :: PathFlattensNoSets(op, a)
    requires forall i: nat :: PollConforms(op, attempt(i).poll)
    requires forall i: nat | attempt(i).poll.Returned? :: DenseAt(op.svc, attempt(i).poll.output, op.output, false)
    ensures last < maxAttempts
    ensures forall i | 0 <= i < last :: Continues(op, acceptors, attempt(i))
    ensures Ends(op, acceptors, attempt(last), last, maxAttempts,
                 RunFrom(resolved, Polled(op, attempt), 0, maxAttempts))
  {
    hide WellNamed, PathFlattensNoSets, PollConforms, AgreesOnPoll, DenseAt, Continues, Ends, RunFrom, ResolvesTo;
    forall i: nat
      ensures AllAgree(op, acceptors, attempt(i).poll)
    {
      forall a | a in acceptors
        ensures AgreesOnPoll(op, a, attempt(i).poll)
      {
        DensePollsAgree(op, a, attempt(i).poll);
      }
    }
    last := RunEndsAsDefined(op, acceptors, resolved, attempt, maxAttempts);
  }

  /** No acceptor of a resolved waiter ever raises in a run. */
  lemma RunNeverCrashes(op: Operation, acceptors: seq<Acceptor>, resolved: seq<Resolved>,
                        attempt: nat -> Attempt<Value>, maxAttempts: nat)
    requires WellNamed(op.svc) && ResolvesTo(op, acceptors, resolved) && maxAttempts >= 1
    requires forall i: nat :: attempt(i).poll.Returned? ==> Conforms(op.svc, attempt(i).poll.output, op.output)
    ensures !RunFrom(resolved, Polled(op, attempt), 0, maxAttempts).Crashed?
  {
    hide WellNamed, Conforms, Matches, ResolveAcceptor, RunFrom;
    var polled := Polled(op, attempt);
    var last := RunEnds(resolved, polled, 0, maxAttempts);
    var poll := attempt(last).poll;
    assert polled(last).poll == Represented(op, poll);
    forall i | 0 <= i < |acceptors|
      ensures Matches(resolved[i], Represented(op, poll)).Some?
    {
      assert acceptors[i] in acceptors;
      AcceptorAlwaysDecides(op, acceptors[i], poll);
    }
  }
}
