/** Concurrent consumption of a response body, with cancellation and closure. */
module ByteStreams {
  import opened Wrappers
  import opened Lifecycle

  type Bytes = seq<int>

  // What the body still has to give: chunks, or a transport failure.
  datatype Item = Chunk(bytes: Bytes) | Fault

  type Body = seq<Item>

  datatype Call = Next | Read

  // Where a call stands; the owner of the body carries it.
  datatype Stage =
    | Waiting                    // admitted, waiting for the access lock
    | Locked                     // holds the lock, has not looked in the slot
    | Advancing(body: Body)      // an iterator advance under way, lock held
    | Collecting(body: Body)     // a read that took the body, lock released
    | Finished(result: Result)

  datatype Result =
    | Delivered(bytes: Bytes)    // a chunk
    | ReadAll(bytes: Bytes)      // the rest of the body
    | ReadNothing                // a read of an exhausted stream
    | Stopped                    // StopAsyncIteration
    | Failed                     // the stream's own error
    | ClosedError                // StreamClosedError
    | Cancelled

  datatype Task = Task(call: Call, stage: Stage)

  // Who holds the body: the slot or a call; else what became of it, with what was not delivered.
  datatype Fate =
    | Held(owner: Option<nat>)
    | Ended
    | Broken(rest: Body)
    | Collected(reader: nat, rest: Body)
    | Dropped(rest: Body)

  // A chunk and the call it was returned to.
  datatype Receipt = Receipt(task: nat, bytes: Bytes)

  datatype State = State(
    slot: Slot<Body>,
    lock: Option<nat>,
    tasks: map<nat, Task>,
    history: History)

  // History variables: chunks in the order they were returned, and the fate of the body.
  datatype History = History(delivered: seq<Receipt>, fate: Fate)

  datatype Action =
    | Begin(task: nat, call: Call)
    | Access(task: nat)       // the lock is granted
    | Look(task: nat)         // the slot is taken, or found empty
    | Complete(task: nat)     // the advance or collection finishes
    | Interrupt(task: nat)    // the lease sees closure and drops the work
    | Cancel(task: nat)       // the awaiting Python task is cancelled
    | MarkClosed              // `aclose`, first half
    | DropStored              // `aclose`, second half

  predicate Admitted(task: Task) {
    !task.stage.Finished?
  }

  function Start(body: Body): State {
    State(Slot(Some(body), false, 0), None, map[], History([], Held(None)))
  }

  predicate AllChunks(body: Body) {
    forall item | item in body :: item.Chunk?
  }

  function Concat(body: Body): Bytes {
    if body == [] then [] else (if body[0].Chunk? then body[0].bytes else []) + Concat(body[1..])
  }

  // A finished call gives up its lease, and the lock if it holds it.
  function Finish(s: State, t: nat, result: Result): State
    requires t in s.tasks && s.slot.active > 0
  {
    s.(slot := s.slot.Left(),
       lock := if s.lock == Some(t) then None else s.lock,
       tasks := s.tasks[t := s.tasks[t].(stage := Finished(result))])
  }

  function MoveTo(s: State, t: nat, stage: Stage): State
    requires t in s.tasks
  {
    s.(tasks := s.tasks[t := s.tasks[t].(stage := stage)])
  }

  function EmptyResult(call: Call): Result {
    if call.Next? then Stopped else ReadNothing
  }

  // The body's owner gives it back, or drops it when the resource is closed.
  function GiveBack(s: State, body: Body): State {
    s.(slot := s.slot.Restored(body),
       history := s.history.(fate := if s.slot.closed then Dropped(body) else Held(None)))
  }

  function CompleteAdvance(s: State, t: nat, body: Body): State
    requires t in s.tasks && s.slot.active > 0
  {
    if body == [] then Finish(s.(history := s.history.(fate := Ended)), t, Stopped)
    else if body[0].Fault? then Finish(s.(history := s.history.(fate := Broken(body))), t, Failed)
    else
      var given := GiveBack(s, body[1..]);
      var delivered := given.history.delivered + [Receipt(t, body[0].bytes)];
      Finish(given.(history := given.history.(delivered := delivered)), t, Delivered(body[0].bytes))
  }

  function CompleteCollection(s: State, t: nat, body: Body): State
    requires t in s.tasks && s.slot.active > 0
  {
    if AllChunks(body) then Finish(s.(history := s.history.(fate := Collected(t, body))), t, ReadAll(Concat(body)))
    else Finish(s.(history := s.history.(fate := Broken(body))), t, Failed)
  }

  // Dropping the work of a call: an iterator gives the body back, a collection loses it.
  function DropWork(s: State, t: nat): State
    requires t in s.tasks
  {
    match s.tasks[t].stage
    case Advancing(body) => GiveBack(s, body)
    case Collecting(body) => s.(history := s.history.(fate := Dropped(body)))
    case _ => s
  }

  // The state after an action, when the action is possible.
  function Step(s: State, action: Action): Option<State> {
    match action
    case Begin(t, call) =>
      if t in s.tasks then None
      else
        (match s.slot.Entered()
         case None => Some(s.(tasks := s.tasks[t := Task(call, Finished(EmptyResult(call)))]))
         case Some(slot) => Some(s.(slot := slot, tasks := s.tasks[t := Task(call, Waiting)])))
    case Access(t) =>
      if t !in s.tasks || !s.tasks[t].stage.Waiting? || s.lock.Some? then None
      else Some(MoveTo(s.(lock := Some(t)), t, Locked))
    case Look(t) =>
      if t !in s.tasks || !s.tasks[t].stage.Locked? || s.slot.active == 0 then None
      else
        (match s.slot.value
         case None => Some(Finish(s, t, EmptyResult(s.tasks[t].call)))
         case Some(body) =>
           var taken := s.(slot := s.slot.Taken(), history := s.history.(fate := Held(Some(t))));
           if s.tasks[t].call.Next? then Some(MoveTo(taken, t, Advancing(body)))
           else Some(MoveTo(taken.(lock := None), t, Collecting(body))))
    case Complete(t) =>
      if t !in s.tasks || s.slot.active == 0 then None
      else
        (match s.tasks[t].stage
         case Advancing(body) => Some(CompleteAdvance(s, t, body))
         case Collecting(body) => Some(CompleteCollection(s, t, body))
         case _ => None)
    case Interrupt(t) =>
      if t !in s.tasks || !Admitted(s.tasks[t]) || !s.slot.closed || s.slot.active == 0 then None
      else Some(Finish(DropWork(s, t), t, if s.tasks[t].call.Next? then Stopped else ClosedError))
    case Cancel(t) =>
      if t !in s.tasks || !Admitted(s.tasks[t]) || s.slot.active == 0 then None
      else Some(Finish(DropWork(s, t), t, Cancelled))
    case MarkClosed => Some(s.(slot := s.slot.MarkedClosed()))
    case DropStored =>
      if !s.slot.closed then None
      else Some(s.(slot := s.slot.Taken(),
                   history := if s.slot.value.Some? then s.history.(fate := Dropped(s.slot.value.value))
                              else s.history))
  }

  function Run(s: State, actions: seq<Action>): Option<State>
    decreases actions
  {
    if actions == [] then Some(s)
    else
      match Step(s, actions[0])
      case None => None
      case Some(next) => Run(next, actions[1..])
  }

  // ---------- What every reachable state keeps ----------

  function AsChunks(delivered: seq<Receipt>): Body {
    seq(|delivered|, i requires 0 <= i < |delivered| => Chunk(delivered[i].bytes))
  }

  predicate Holds(task: Task) {
    task.stage.Advancing? || task.stage.Collecting?
  }

  function AdmittedTasks(tasks: map<nat, Task>): set<nat> {
    set t | t in tasks && Admitted(tasks[t])
  }

  // One owner at most: the slot, or one call. What is not delivered is with the owner, or is
  // what the body's fate records.
  ghost predicate Owned(s: State, body: Body) {
    var delivered := AsChunks(s.history.delivered);
    match s.history.fate
    case Held(None) =>
      && s.slot.value.Some? && (forall t | t in s.tasks :: !Holds(s.tasks[t]))
      && delivered + s.slot.value.value == body
    case Held(Some(owner)) =>
      && s.slot.value.None? && owner in s.tasks && Holds(s.tasks[owner])
      && (forall t | t in s.tasks && Holds(s.tasks[t]) :: t == owner)
      && delivered + s.tasks[owner].stage.body == body
    case fate =>
      && s.slot.value.None? && (forall t | t in s.tasks :: !Holds(s.tasks[t]))
      && delivered + RestOf(fate) == body
      && (fate.Broken? ==> Fault in fate.rest) && (fate.Collected? ==> AllChunks(fate.rest))
  }

  function RestOf(fate: Fate): Body
    requires !fate.Held?
  {
    if fate.Ended? then [] else fate.rest
  }

  ghost predicate LockRespected(s: State) {
    && (forall t | t in s.tasks && (s.tasks[t].stage.Locked? || s.tasks[t].stage.Advancing?) :: s.lock == Some(t))
    && (s.lock.Some? ==>
          && s.lock.value in s.tasks
          && (s.tasks[s.lock.value].stage.Locked? || s.tasks[s.lock.value].stage.Advancing?))
    && (forall t | t in s.tasks && s.tasks[t].stage.Advancing? :: s.tasks[t].call.Next?)
    && (forall t | t in s.tasks && s.tasks[t].stage.Collecting? :: s.tasks[t].call.Read?)
  }

  // Each chunk was returned to one call, and each call's result is in the history.
  ghost predicate Receipted(s: State) {
    var delivered := s.history.delivered;
    && (forall i | 0 <= i < |delivered| ::
          delivered[i].task in s.tasks && s.tasks[delivered[i].task].stage == Finished(Delivered(delivered[i].bytes)))
    && (forall i, j | 0 <= i < j < |delivered| :: delivered[i].task != delivered[j].task)
    && (forall t | t in s.tasks && s.tasks[t].stage.Finished? && s.tasks[t].stage.result.Delivered? ::
          exists i :: 0 <= i < |delivered| && delivered[i].task == t)
    && (forall t | t in s.tasks && s.tasks[t].stage.Finished? && s.tasks[t].stage.result.ReadAll? ::
          s.history.fate.Collected? && s.history.fate.reader == t
          && s.tasks[t].stage.result.bytes == Concat(s.history.fate.rest))
  }

  ghost predicate Invariant(s: State, body: Body) {
    && Owned(s, body) && LockRespected(s) && Receipted(s)
    && s.slot.active == |AdmittedTasks(s.tasks)|
  }

  lemma AppendReceipt(delivered: seq<Receipt>, receipt: Receipt)
    ensures AsChunks(delivered + [receipt]) == AsChunks(delivered) + [Chunk(receipt.bytes)]
  {}

  lemma FinishKeepsCount(s: State, t: nat, result: Result)
    requires t in s.tasks && Admitted(s.tasks[t]) && s.slot.active == |AdmittedTasks(s.tasks)|
    ensures s.slot.active > 0
    ensures Finish(s, t, result).slot.active == |AdmittedTasks(Finish(s, t, result).tasks)|
  {
    var before := AdmittedTasks(s.tasks);
    assert t in before;
    assert AdmittedTasks(Finish(s, t, result).tasks) == before - {t};
  }

  lemma MoveKeepsCount(s: State, t: nat, stage: Stage)
    requires t in s.tasks && Admitted(s.tasks[t]) && !stage.Finished?
    ensures AdmittedTasks(MoveTo(s, t, stage).tasks) == AdmittedTasks(s.tasks)
  {}

  // Only call `t` differs, and it had no result before.
  ghost predicate OnlyChanges(s: State, next: State, t: nat) {
    && t in next.tasks && next.tasks.Keys == s.tasks.Keys + {t}
    && (forall u | u in s.tasks && u != t :: next.tasks[u] == s.tasks[u])
    && (t in s.tasks ==> Admitted(s.tasks[t]))
  }

  lemma OwnedFrame(s: State, next: State, body: Body, t: nat)
    requires Owned(s, body) && OnlyChanges(s, next, t)
    requires next.slot.value == s.slot.value && next.history == s.history
    requires (t in s.tasks ==> !Holds(s.tasks[t])) && !Holds(next.tasks[t])
    ensures Owned(next, body)
  {}

  lemma ReceiptFrame(s: State, next: State, t: nat)
    requires Receipted(s) && OnlyChanges(s, next, t)
    requires next.history.delivered == s.history.delivered
    requires s.history.fate.Collected? ==> next.history.fate == s.history.fate
    requires Admitted(next.tasks[t]) || (!next.tasks[t].stage.result.Delivered? && !next.tasks[t].stage.result.ReadAll?)
    ensures Receipted(next)
  {}

  lemma BeginCounts(s: State, t: nat, task: Task)
    requires t !in s.tasks && s.slot.active == |AdmittedTasks(s.tasks)|
    ensures |AdmittedTasks(s.tasks[t := task])| == s.slot.active + if Admitted(task) then 1 else 0
  {
    var after := AdmittedTasks(s.tasks[t := task]);
    if Admitted(task) {
      assert after == AdmittedTasks(s.tasks) + {t};
    } else {
      assert after == AdmittedTasks(s.tasks);
    }
  }

  lemma LockFrame(s: State, next: State, t: nat)
    requires LockRespected(s) && OnlyChanges(s, next, t) && next.lock == s.lock && t !in s.tasks
    requires next.tasks[t].stage.Waiting? || next.tasks[t].stage.Finished?
    ensures LockRespected(next)
  {}

  lemma BeginKeepsInvariant(s: State, body: Body, t: nat, call: Call)
    requires Invariant(s, body) && t !in s.tasks
    ensures Invariant(Step(s, Begin(t, call)).value, body)
  {
    hide Owned, Receipted, LockRespected, AdmittedTasks;
    var next := Step(s, Begin(t, call)).value;
    BeginCounts(s, t, next.tasks[t]);
    OwnedFrame(s, next, body, t);
    ReceiptFrame(s, next, t);
    LockFrame(s, next, t);
  }

  lemma AccessKeepsInvariant(s: State, body: Body, t: nat)
    requires Invariant(s, body) && Step(s, Access(t)).Some?
    ensures Invariant(Step(s, Access(t)).value, body)
  {
    hide Owned, Receipted;
    var next := Step(s, Access(t)).value;
    MoveKeepsCount(s, t, Locked);
    OwnedFrame(s, next, body, t);
    ReceiptFrame(s, next, t);
  }

  lemma LookTakes(s: State, next: State, body: Body, t: nat)
    requires Owned(s, body) && OnlyChanges(s, next, t) && t in s.tasks
    requires s.slot.value.Some? && next.slot.value.None? && Holds(next.tasks[t])
    requires next.tasks[t].stage.body == s.slot.value.value
    requires next.history == s.history.(fate := Held(Some(t)))
    ensures Owned(next, body) && !s.history.fate.Collected?
  {}

  lemma LookKeepsLock(s: State, t: nat)
    requires LockRespected(s) && Step(s, Look(t)).Some?
    ensures LockRespected(Step(s, Look(t)).value)
  {}

  lemma LookKeepsInvariant(s: State, body: Body, t: nat)
    requires Invariant(s, body) && Step(s, Look(t)).Some?
    ensures Invariant(Step(s, Look(t)).value, body)
  {
    hide Owned, Receipted, LockRespected;
    var next := Step(s, Look(t)).value;
    LookKeepsLock(s, t);
    if s.slot.value.None? {
      FinishKeepsCount(s, t, EmptyResult(s.tasks[t].call));
      OwnedFrame(s, next, body, t);
    } else {
      MoveKeepsCount(s, t, Advancing(s.slot.value.value));
      MoveKeepsCount(s, t, Collecting(s.slot.value.value));
      LookTakes(s, next, body, t);
    }
    ReceiptFrame(s, next, t);
  }

  // Dropping the work of a call leaves the body with the slot, or records its fate.
  lemma DropOwned(s: State, next: State, body: Body, t: nat)
    requires Owned(s, body) && t in s.tasks && Admitted(s.tasks[t]) && OnlyChanges(s, next, t)
    requires next.tasks[t].stage.Finished?
    requires next.slot.value == DropWork(s, t).slot.value && next.history == DropWork(s, t).history
    ensures Owned(next, body) && (s.history.fate.Collected? ==> next.history.fate == s.history.fate)
  {}

  // Finishing a call that holds nothing, or whose body goes back or is lost.
  lemma DropKeepsInvariant(s: State, body: Body, t: nat, result: Result)
    requires Invariant(s, body) && t in s.tasks && Admitted(s.tasks[t])
    requires !result.Delivered? && !result.ReadAll?
    ensures s.slot.active > 0 && Invariant(Finish(DropWork(s, t), t, result), body)
  {
    hide Owned, Receipted;
    FinishKeepsCount(s, t, result);
    var next := Finish(DropWork(s, t), t, result);
    assert AdmittedTasks(next.tasks) == AdmittedTasks(Finish(s, t, result).tasks);
    DropOwned(s, next, body, t);
    ReceiptFrame(s, next, t);
  }

  lemma CompleteOwned(s: State, body: Body, t: nat)
    requires Owned(s, body) && LockRespected(s) && Step(s, Complete(t)).Some?
    ensures Owned(Step(s, Complete(t)).value, body) && !s.history.fate.Collected?
  {
    var next := Step(s, Complete(t)).value;
    var left := s.tasks[t].stage.body;
    if s.tasks[t].stage.Advancing? && left != [] && left[0].Chunk? {
      AppendReceipt(s.history.delivered, Receipt(t, left[0].bytes));
      assert left == [left[0]] + left[1..];
      assert AsChunks(next.history.delivered) + left[1..] == AsChunks(s.history.delivered) + left;
    } else if s.tasks[t].stage.Collecting? && !AllChunks(left) {
      var item :| item in left && !item.Chunk?;
      assert item == Fault;
    }
  }

  lemma CollectionReceipted(s: State, next: State, t: nat, rest: Body)
    requires Receipted(s) && OnlyChanges(s, next, t) && !s.history.fate.Collected?
    requires next.tasks[t].stage == Finished(ReadAll(Concat(rest)))
    requires next.history == s.history.(fate := Collected(t, rest))
    ensures Receipted(next)
  {}

  lemma CompleteKeepsLock(s: State, t: nat)
    requires LockRespected(s) && Step(s, Complete(t)).Some?
    ensures LockRespected(Step(s, Complete(t)).value)
  {
    hide Concat, AllChunks;
  }

  lemma CompleteKeepsInvariant(s: State, body: Body, t: nat)
    requires Invariant(s, body) && Step(s, Complete(t)).Some?
    ensures Invariant(Step(s, Complete(t)).value, body)
  {
    hide Owned, Receipted, Concat, AllChunks, LockRespected;
    var next := Step(s, Complete(t)).value;
    CompleteKeepsLock(s, t);
    var left := s.tasks[t].stage.body;
    CompleteOwned(s, body, t);
    FinishKeepsCount(s, t, next.tasks[t].stage.result);
    assert AdmittedTasks(next.tasks) == AdmittedTasks(s.tasks) - {t};
    if s.tasks[t].stage.Advancing? && left != [] && left[0].Chunk? {
      ChunkReceipted(s, next, t, left[0].bytes);
    } else if s.tasks[t].stage.Collecting? && AllChunks(left) {
      CollectionReceipted(s, next, t, left);
    } else {
      ReceiptFrame(s, next, t);
    }
  }

  lemma ChunkReceipted(s: State, next: State, t: nat, bytes: Bytes)
    requires Receipted(s) && t in s.tasks && Admitted(s.tasks[t]) && !s.history.fate.Collected?
    requires next.tasks == s.tasks[t := s.tasks[t].(stage := Finished(Delivered(bytes)))]
    requires next.history.delivered == s.history.delivered + [Receipt(t, bytes)]
    ensures Receipted(next)
  {
    var before, after := s.history.delivered, next.history.delivered;
    forall u | u in next.tasks && next.tasks[u].stage.Finished? && next.tasks[u].stage.result.Delivered?
      ensures exists i :: 0 <= i < |after| && after[i].task == u
    {
      if u == t {
        assert after[|before|].task == t;
      } else {
        var i :| 0 <= i < |before| && before[i].task == u;
        assert after[i].task == u;
      }
    }
  }

  lemma CloseKeepsInvariant(s: State, body: Body, action: Action)
    requires Invariant(s, body) && (action.MarkClosed? || action.DropStored?) && Step(s, action).Some?
    ensures Invariant(Step(s, action).value, body)
  {}

  lemma StepKeepsInvariant(s: State, body: Body, action: Action)
    requires Invariant(s, body) && Step(s, action).Some?
    ensures Invariant(Step(s, action).value, body)
  {
    match action
    case Begin(t, call) => BeginKeepsInvariant(s, body, t, call);
    case Access(t) => AccessKeepsInvariant(s, body, t);
    case Look(t) => LookKeepsInvariant(s, body, t);
    case Complete(t) => CompleteKeepsInvariant(s, body, t);
    case Interrupt(t) => DropKeepsInvariant(s, body, t, if s.tasks[t].call.Next? then Stopped else ClosedError);
    case Cancel(t) => DropKeepsInvariant(s, body, t, Cancelled);
    case _ => CloseKeepsInvariant(s, body, action);
  }

  /** The invariant holds of every reachable state, whatever the interleaving. */
  lemma {:induction false} RunKeepsInvariant(s: State, body: Body, actions: seq<Action>)
    requires Invariant(s, body) && Run(s, actions).Some?
    ensures Invariant(Run(s, actions).value, body)
    decreases actions
  {
    hide Invariant, Step;
    if actions != [] {
      StepKeepsInvariant(s, body, actions[0]);
      RunKeepsInvariant(Step(s, actions[0]).value, body, actions[1..]);
    }
  }

  lemma StartIsGood(body: Body)
    ensures Invariant(Start(body), body)
  {
    assert AdmittedTasks(map[]) == {};
    assert AsChunks([]) + body == body;
  }

  // ---------- Nothing is lost or duplicated ----------

  predicate Undisturbed(actions: seq<Action>) {
    forall a | a in actions :: a.Begin? || a.Access? || a.Look? || a.Complete?
  }

  // The bytes the history accounts for.
  function DeliveredBytes(delivered: seq<Receipt>): Bytes {
    if delivered == [] then [] else delivered[0].bytes + DeliveredBytes(delivered[1..])
  }

  lemma {:induction false} ConcatSplits(delivered: seq<Receipt>, rest: Body)
    ensures Concat(AsChunks(delivered) + rest) == DeliveredBytes(delivered) + Concat(rest)
  {
    if delivered == [] {
      assert AsChunks(delivered) + rest == rest;
    } else {
      var all := AsChunks(delivered) + rest;
      assert all[1..] == AsChunks(delivered[1..]) + rest;
      ConcatSplits(delivered[1..], rest);
    }
  }

  lemma StepDropsNothing(s: State, action: Action)
    requires Step(s, action).Some? && !s.slot.closed && !s.history.fate.Dropped?
    requires action.Begin? || action.Access? || action.Look? || action.Complete?
    ensures !Step(s, action).value.slot.closed && !Step(s, action).value.history.fate.Dropped?
  {}

  lemma {:induction false} RunDropsNothing(s: State, actions: seq<Action>)
    requires Run(s, actions).Some? && !s.slot.closed && !s.history.fate.Dropped? && Undisturbed(actions)
    ensures !Run(s, actions).value.history.fate.Dropped?
    decreases actions
  {
    hide Step;
    if actions != [] {
      StepDropsNothing(s, actions[0]);
      RunDropsNothing(Step(s, actions[0]).value, actions[1..]);
    }
  }

  /**
   In every run, the chunks returned, in the order the lock granted them, and the one successful
   read are the body: at most one call reads the tail, and every chunk went to one call.
   */
  lemma ConsumptionIsAPartition(body: Body, actions: seq<Action>, reader: nat, tail: Bytes)
    requires Run(Start(body), actions).Some?
    ensures var s := Run(Start(body), actions).value;
            && Receipted(s)
            && (reader in s.tasks && s.tasks[reader].stage == Finished(ReadAll(tail)) ==>
                  && AllChunks(body) && Concat(body) == DeliveredBytes(s.history.delivered) + tail
                  && forall t, bytes | t in s.tasks && s.tasks[t].stage == Finished(ReadAll(bytes)) :: t == reader)
            && (s.history.fate.Ended? ==> AllChunks(body) && Concat(body) == DeliveredBytes(s.history.delivered))
            && AsChunks(s.history.delivered) <= body
  {
    StartIsGood(body);
    RunKeepsInvariant(Start(body), body, actions);
    var s := Run(Start(body), actions).value;
    hide Run;
    if !s.history.fate.Held? {
      ConcatSplits(s.history.delivered, RestOf(s.history.fate));
      assert forall item | item in AsChunks(s.history.delivered) :: item.Chunk?;
    }
  }

  /**
   Without closure or cancellation nothing is dropped: the body is held, ended, broken by its own
   failure, or read.
   */
  lemma UndisturbedRunsDropNothing(body: Body, actions: seq<Action>)
    requires Run(Start(body), actions).Some? && Undisturbed(actions)
    ensures var s := Run(Start(body), actions).value;
            && !s.history.fate.Dropped?
            && (s.history.fate.Broken? ==> Fault in body)
            && (s.history.fate.Held? && s.slot.active == 0 ==>
                  s.slot.value.Some? && AsChunks(s.history.delivered) + s.slot.value.value == body)
  {
    StartIsGood(body);
    RunKeepsInvariant(Start(body), body, actions);
    RunDropsNothing(Start(body), actions);
    var s := Run(Start(body), actions).value;
    hide Run;
    if s.history.fate.Broken? {
      assert Fault in AsChunks(s.history.delivered) + s.history.fate.rest;
    }
    NobodyAdmitted(s);
  }

  lemma NobodyAdmitted(s: State)
    requires s.slot.active == |AdmittedTasks(s.tasks)|
    ensures s.slot.active == 0 ==> forall t | t in s.tasks :: !Admitted(s.tasks[t])
  {
    if s.slot.active == 0 {
      forall t | t in s.tasks
        ensures !Admitted(s.tasks[t])
      {
        assert t !in AdmittedTasks(s.tasks);
      }
    }
  }

  // ---------- What each call is told ----------

  ghost predicate IsTold(s: State, t: nat, result: Result) {
    t in s.tasks && s.tasks[t].stage == Finished(result)
  }

  // The results a call of each kind can get.
  predicate Suits(call: Call, result: Result) {
    match result
    case Delivered(_) => call == Next
    case Stopped => call == Next
    case ReadAll(_) => call == Read
    case ReadNothing => call == Read
    case ClosedError => call == Read
    case Failed => true
    case Cancelled => true
  }

  // One call is told of a broken body, and only of a broken one.
  ghost predicate FailureTold(s: State) {
    && (s.history.fate.Broken? <==> exists t :: IsTold(s, t, Failed))
    && (forall t, u | IsTold(s, t, Failed) && IsTold(s, u, Failed) :: t == u)
    && (forall t | t in s.tasks && s.tasks[t].stage.Finished? :: Suits(s.tasks[t].call, s.tasks[t].stage.result))
  }

  // What the call whose step ends the body is told: its failure, its end, or the rest of it.
  ghost predicate EndTold(s: State, next: State, action: Action) {
    && (next.history.fate.Broken? ==> action.Complete? && IsTold(next, action.task, Failed))
    && (next.history.fate.Ended? ==> action.Complete? && IsTold(next, action.task, Stopped))
    && (next.history.fate.Collected? ==>
          action.Complete? && next.history.fate.reader == action.task
          && IsTold(next, action.task, ReadAll(Concat(next.history.fate.rest))))
  }

  lemma StepTellsEnd(s: State, body: Body, action: Action)
    requires Invariant(s, body) && s.history.fate.Held? && Step(s, action).Some?
    ensures EndTold(s, Step(s, action).value, action)
  {
    hide Concat, AllChunks;
  }

  lemma OthersAreTold(s: State, body: Body, action: Action)
    requires Invariant(s, body) && Step(s, action).Some?
    ensures var next := Step(s, action).value;
            && (forall t | IsTold(s, t, Failed) :: IsTold(next, t, Failed))
            && (forall t | IsTold(next, t, Failed) && !IsTold(s, t, Failed) ::
                  next.history.fate.Broken? && s.history.fate.Held? && action == Complete(t))
  {
    hide Concat, AllChunks;
  }

  lemma StepSuits(s: State, body: Body, action: Action)
    requires Invariant(s, body) && Step(s, action).Some?
    requires forall t | t in s.tasks && s.tasks[t].stage.Finished? :: Suits(s.tasks[t].call, s.tasks[t].stage.result)
    ensures var next := Step(s, action).value;
            forall t | t in next.tasks && next.tasks[t].stage.Finished? ::
              Suits(next.tasks[t].call, next.tasks[t].stage.result)
  {
    hide Concat, AllChunks;
  }

  lemma StepTellsFailure(s: State, body: Body, action: Action)
    requires Invariant(s, body) && FailureTold(s) && Step(s, action).Some?
    ensures FailureTold(Step(s, action).value)
  {
    StepSuits(s, body, action);
    OthersAreTold(s, body, action);
    if s.history.fate.Held? {
      StepTellsEnd(s, body, action);
    } else {
      StepAfterEnd(s, body, action);
    }
    hide Step, Invariant, IsTold;
    var next := Step(s, action).value;
    if s.history.fate.Broken? {
      var t :| IsTold(s, t, Failed);
      assert IsTold(next, t, Failed);
    }
  }

  lemma {:induction false} RunTellsFailure(s: State, body: Body, actions: seq<Action>)
    requires Invariant(s, body) && FailureTold(s) && Run(s, actions).Some?
    ensures FailureTold(Run(s, actions).value)
    decreases actions
  {
    hide Invariant, FailureTold, Step;
    if actions != [] {
      StepTellsFailure(s, body, actions[0]);
      StepKeepsInvariant(s, body, actions[0]);
      RunTellsFailure(Step(s, actions[0]).value, body, actions[1..]);
    }
  }

  /**
   In every run the body is broken exactly when one call was told of its failure, and never more
   than one; every call gets a result of its own kind.
   */
  lemma FailureIsToldOnce(body: Body, actions: seq<Action>)
    requires Run(Start(body), actions).Some?
    ensures FailureTold(Run(Start(body), actions).value)
  {
    StartIsGood(body);
    RunTellsFailure(Start(body), body, actions);
  }

  /** The step that ends the body in any run tells its own call how: failed, stopped, or read. */
  lemma EndIsTold(body: Body, actions: seq<Action>, action: Action)
    requires Run(Start(body), actions).Some? && Step(Run(Start(body), actions).value, action).Some?
    requires Run(Start(body), actions).value.history.fate.Held?
    ensures var s := Run(Start(body), actions).value; EndTold(s, Step(s, action).value, action)
  {
    StartIsGood(body);
    RunKeepsInvariant(Start(body), body, actions);
    hide Run, Step, Invariant;
    StepTellsEnd(Run(Start(body), actions).value, body, action);
  }

  // ---------- After the end ----------

  // What a call finds at the end of the stream: the empty result of its kind, unless the run
  // cancelled it, or interrupted a read.
  predicate EndOfStream(t: nat, task: Task, actions: seq<Action>) {
    task.stage.Finished? &&
    var result := task.stage.result;
    || result == (if task.call == Next then Stopped else ReadNothing)
    || (result.Cancelled? && Cancel(t) in actions)
    || (result.ClosedError? && task.call.Read? && Interrupt(t) in actions)
  }

  lemma StepAfterEnd(s: State, body: Body, action: Action)
    requires Invariant(s, body) && !s.history.fate.Held? && Step(s, action).Some?
    ensures var next := Step(s, action).value;
            && next.history == s.history
            && forall t | t in next.tasks && next.tasks[t].stage.Finished? ::
                 (t in s.tasks && s.tasks[t] == next.tasks[t]) || EndOfStream(t, next.tasks[t], [action])
  {}

  /** Once the body has ended, failed, been read or been dropped, every later result is end of stream. */
  lemma {:induction false} EndIsFinal(s: State, body: Body, actions: seq<Action>)
    requires Invariant(s, body) && !s.history.fate.Held? && Run(s, actions).Some?
    ensures var end := Run(s, actions).value;
            && end.history == s.history
            && forall t | t in end.tasks && end.tasks[t].stage.Finished? ::
                 (t in s.tasks && s.tasks[t] == end.tasks[t]) || EndOfStream(t, end.tasks[t], actions)
    decreases actions
  {
    if actions != [] {
      StepAfterEnd(s, body, actions[0]);
      StepKeepsInvariant(s, body, actions[0]);
      hide Invariant, Step;
      EndIsFinal(Step(s, actions[0]).value, body, actions[1..]);
    }
  }

  lemma UndisturbedEndIsEmpty(s: State, body: Body, actions: seq<Action>)
    requires Invariant(s, body) && !s.history.fate.Held? && Run(s, actions).Some? && Undisturbed(actions)
    ensures var end := Run(s, actions).value;
            forall t | t in end.tasks && end.tasks[t].stage.Finished? ::
              (t in s.tasks && s.tasks[t] == end.tasks[t])
              || end.tasks[t].stage == Finished(if end.tasks[t].call == Next then Stopped else ReadNothing)
  {
    hide Invariant, Run;
    EndIsFinal(s, body, actions);
  }

  // What a read that took `rest` can come to: all of it, its failure, or what the run did to it.
  predicate ReadOutcome(t: nat, rest: Body, result: Result, actions: seq<Action>) {
    || result == (if AllChunks(rest) then ReadAll(Concat(rest)) else Failed)
    || (result.ClosedError? && Interrupt(t) in actions)
    || (result.Cancelled? && Cancel(t) in actions)
  }

  lemma StepOfReader(s: State, body: Body, reader: nat, action: Action)
    requires Invariant(s, body) && reader in s.tasks && s.tasks[reader].stage.Collecting? && Step(s, action).Some?
    ensures var next := Step(s, action).value;
            && next.history.delivered == s.history.delivered && reader in next.tasks
            && (next.tasks[reader] == s.tasks[reader]
                || (next.tasks[reader].stage.Finished? && !next.history.fate.Held?
                    && ReadOutcome(reader, s.tasks[reader].stage.body, next.tasks[reader].stage.result, [action])))
  {
    hide Concat, AllChunks;
  }

  lemma StepWhileCollecting(s: State, body: Body, reader: nat, action: Action)
    requires Invariant(s, body) && reader in s.tasks && s.tasks[reader].stage.Collecting? && Step(s, action).Some?
    ensures var next := Step(s, action).value;
            forall t | t in next.tasks && t != reader && next.tasks[t].stage.Finished? ::
              (t in s.tasks && s.tasks[t] == next.tasks[t]) || EndOfStream(t, next.tasks[t], [action])
  {
    hide Concat, AllChunks;
  }

  // A finished call stays as it finished.
  lemma StepKeepsFinished(s: State, action: Action, t: nat)
    requires Step(s, action).Some? && t in s.tasks && s.tasks[t].stage.Finished?
    ensures t in Step(s, action).value.tasks && Step(s, action).value.tasks[t] == s.tasks[t]
  {
    hide Concat, AllChunks;
  }

  lemma {:induction false} RunKeepsFinished(s: State, actions: seq<Action>, t: nat)
    requires Run(s, actions).Some? && t in s.tasks && s.tasks[t].stage.Finished?
    ensures t in Run(s, actions).value.tasks && Run(s, actions).value.tasks[t] == s.tasks[t]
    decreases actions
  {
    hide Step;
    if actions != [] {
      StepKeepsFinished(s, actions[0], t);
      RunKeepsFinished(Step(s, actions[0]).value, actions[1..], t);
    }
  }

  /**
   From the moment a read has taken the body, while it still collects and ever after, no chunk is
   returned, and every other call that finishes finds the end of the stream.
   */
  lemma {:induction false} TailIsTakenOnce(s: State, body: Body, reader: nat, actions: seq<Action>)
    requires Invariant(s, body) && reader in s.tasks && s.tasks[reader].stage.Collecting? && Run(s, actions).Some?
    ensures var end := Run(s, actions).value;
            && end.history.delivered == s.history.delivered && reader in end.tasks
            && (end.tasks[reader] == s.tasks[reader]
                || (end.tasks[reader].stage.Finished?
                    && ReadOutcome(reader, s.tasks[reader].stage.body, end.tasks[reader].stage.result, actions)))
            && forall t | t in end.tasks && t != reader && end.tasks[t].stage.Finished? ::
                 (t in s.tasks && s.tasks[t] == end.tasks[t]) || EndOfStream(t, end.tasks[t], actions)
    decreases actions
  {
    hide Invariant, Step, EmptyResult, AllChunks, Concat;
    if actions != [] {
      StepOfReader(s, body, reader, actions[0]);
      StepWhileCollecting(s, body, reader, actions[0]);
      StepKeepsInvariant(s, body, actions[0]);
      var next := Step(s, actions[0]).value;
      if next.tasks[reader] == s.tasks[reader] {
        TailIsTakenOnce(next, body, reader, actions[1..]);
      } else {
        EndIsFinal(next, body, actions[1..]);
        RunKeepsFinished(next, actions[1..], reader);
      }
      var end := Run(s, actions).value;
      forall t | t in end.tasks && t != reader && end.tasks[t].stage.Finished?
        ensures (t in s.tasks && s.tasks[t] == end.tasks[t]) || EndOfStream(t, end.tasks[t], actions)
      {
        assert (t in next.tasks && next.tasks[t] == end.tasks[t]) || EndOfStream(t, end.tasks[t], actions[1..]);
      }
    }
  }

  // ---------- Cancellation and closure ----------

  /** Cancelling an advance on an open stream puts the whole remaining body back. */
  lemma CancelledAdvanceLosesNothing(s: State, body: Body, t: nat)
    requires Invariant(s, body) && !s.slot.closed && Step(s, Cancel(t)).Some? && s.tasks[t].stage.Advancing?
    ensures var next := Step(s, Cancel(t)).value;
            && next.slot.value == Some(s.tasks[t].stage.body)
            && next.history.delivered == s.history.delivered
            && next.history.fate == Held(None)
            && next.lock.None?
  {}

  lemma ClosedStepStaysClosed(s: State, body: Body, action: Action)
    requires Invariant(s, body) && s.slot.closed && s.slot.value.None? && Step(s, action).Some?
    ensures var next := Step(s, action).value;
            next.slot.closed && next.slot.value.None? && next.slot.active <= s.slot.active
  {}

  // A call begun on a closed resource is over at once, with the result of an exhausted stream.
  lemma BegunAfterClosure(s: State, action: Action)
    requires s.slot.closed && Step(s, action).Some?
    ensures var next := Step(s, action).value;
            && next.slot.closed
            && forall t | t in next.tasks && t !in s.tasks ::
                 next.tasks[t].stage == Finished(if next.tasks[t].call == Next then Stopped else ReadNothing)
  {
    hide Concat, AllChunks;
  }

  /** No call is admitted after closure: each one begun later finished at once, empty-handed. */
  lemma {:induction false} ClosureAdmitsNoCall(s: State, actions: seq<Action>)
    requires s.slot.closed && Run(s, actions).Some?
    ensures var end := Run(s, actions).value;
            && end.slot.closed
            && forall t | t in end.tasks && t !in s.tasks ::
                 end.tasks[t].stage == Finished(if end.tasks[t].call == Next then Stopped else ReadNothing)
    decreases actions
  {
    hide Step;
    if actions != [] {
      BegunAfterClosure(s, actions[0]);
      var next := Step(s, actions[0]).value;
      ClosureAdmitsNoCall(next, actions[1..]);
      forall t | t in next.tasks && t !in s.tasks
        ensures t in Run(s, actions).value.tasks && Run(s, actions).value.tasks[t] == next.tasks[t]
      {
        RunKeepsFinished(next, actions[1..], t);
      }
    }
  }

  /** After closure has emptied the slot it is never filled again, and the leases only run out. */
  lemma {:induction false} ClosureIsTerminal(s: State, body: Body, actions: seq<Action>)
    requires Invariant(s, body) && s.slot.closed && s.slot.value.None? && Run(s, actions).Some?
    ensures var end := Run(s, actions).value;
            end.slot.closed && end.slot.value.None? && end.slot.active <= s.slot.active
    decreases actions
  {
    if actions != [] {
      ClosedStepStaysClosed(s, body, actions[0]);
      StepKeepsInvariant(s, body, actions[0]);
      hide Invariant, Step;
      ClosureIsTerminal(Step(s, actions[0]).value, body, actions[1..]);
    }
  }

  /** When closure is acknowledged, with no lease left, nobody holds the body any more. */
  lemma IdleMeansReleased(body: Body, actions: seq<Action>)
    requires Run(Start(body), actions).Some?
    ensures var s := Run(Start(body), actions).value;
            s.slot.closed && s.slot.value.None? && s.slot.active == 0 ==> !s.history.fate.Held?
  {
    StartIsGood(body);
    RunKeepsInvariant(Start(body), body, actions);
    var s := Run(Start(body), actions).value;
    hide Run;
    NobodyAdmitted(s);
  }

  // ---------- One call after another ----------

  // Nothing is under way, and the slot holds the rest of the body.
  predicate Idle(s: State, rest: Body) {
    !s.slot.closed && s.slot.value == Some(rest) && s.lock.None? && s.history.fate == Held(None)
  }

  function Alone(t: nat, call: Call): seq<Action> {
    [Begin(t, call), Access(t), Look(t), Complete(t)]
  }

  lemma RunFour(s: State, a: Action, b: Action, c: Action, d: Action)
    ensures Run(s, [a, b, c, d]) ==
            match Step(s, a)
            case None => None
            case Some(s1) =>
              match Step(s1, b)
              case None => None
              case Some(s2) =>
                match Step(s2, c)
                case None => None
                case Some(s3) => Step(s3, d)
  {
    hide Step, Run;
    assert [a, b, c, d] == [a] + [b, c, d] && [b, c, d] == [b] + [c, d] && [c, d] == [c] + [d] && [d] == [d] + [];
    RunFirst(s, a, [b, c, d]);
    if Step(s, a).Some? {
      var s1 := Step(s, a).value;
      RunFirst(s1, b, [c, d]);
      if Step(s1, b).Some? {
        var s2 := Step(s1, b).value;
        RunFirst(s2, c, [d]);
        if Step(s2, c).Some? {
          RunFirst(Step(s2, c).value, d, []);
          AllNothingRuns();
        }
      }
    }
  }

  lemma RunFirst(s: State, action: Action, rest: seq<Action>)
    ensures Run(s, [action] + rest) == match Step(s, action) case None => None case Some(next) => Run(next, rest)
  {
    hide Step;
    assert ([action] + rest)[1..] == rest;
  }

  lemma AllNothingRuns()
    ensures forall s {:trigger Run(s, [])} :: Run(s, []) == Some(s)
  {}

  /** A call that meets nobody is always served: the next chunk, the rest, the failure or the end. */
  lemma ServedAlone(s: State, t: nat, call: Call, rest: Body)
    requires Idle(s, rest) && t !in s.tasks
    ensures var ran := Run(s, Alone(t, call));
            && ran.Some? && ran.value.tasks.Keys == s.tasks.Keys + {t}
            && (forall u | u in s.tasks :: ran.value.tasks[u] == s.tasks[u])
            && ran.value.lock.None? && ran.value.slot.active == s.slot.active
            && var result := ran.value.tasks[t].stage;
               if call == Read then
                 result == Finished(if AllChunks(rest) then ReadAll(Concat(rest)) else Failed)
                 && !ran.value.history.fate.Held?
               else if rest == [] then result == Finished(Stopped) && ran.value.history.fate == Ended
               else if rest[0].Fault? then result == Finished(Failed) && ran.value.history.fate == Broken(rest)
               else result == Finished(Delivered(rest[0].bytes)) && Idle(ran.value, rest[1..])
  {
    RunFour(s, Begin(t, call), Access(t), Look(t), Complete(t));
    hide Run, Concat, AllChunks;
  }

  /** Any call under way can be cancelled, and once the resource is closed it is interrupted, however far it is. */
  lemma CallsCanBeStopped(s: State, body: Body, t: nat)
    requires Invariant(s, body) && t in s.tasks && !s.tasks[t].stage.Finished?
    ensures Step(s, Cancel(t)).Some? && IsTold(Step(s, Cancel(t)).value, t, Cancelled)
    ensures Step(s, Interrupt(t)).Some? <==> s.slot.closed
    ensures s.slot.closed ==>
              IsTold(Step(s, Interrupt(t)).value, t, if s.tasks[t].call == Next then Stopped else ClosedError)
  {
    assert t in AdmittedTasks(s.tasks);
  }

  /** Every step of a call is open to it in its turn, closure or not. */
  lemma CallsCanGoOn(s: State, body: Body, t: nat)
    requires Invariant(s, body) && t in s.tasks
    ensures s.tasks[t].stage.Waiting? && s.lock.None? ==>
              Step(s, Access(t)).Some? && Step(s, Access(t)).value.tasks[t].stage == Locked
    ensures s.tasks[t].stage.Locked? ==>
              Step(s, Look(t)).Some? &&
              var stage := Step(s, Look(t)).value.tasks[t].stage;
              if s.slot.value.None? then stage == Finished(if s.tasks[t].call == Next then Stopped else ReadNothing)
              else stage == if s.tasks[t].call == Next then Advancing(s.slot.value.value)
                            else Collecting(s.slot.value.value)
    ensures s.tasks[t].stage.Advancing? || s.tasks[t].stage.Collecting? ==> Step(s, Complete(t)).Some?
  {
    hide Concat, AllChunks;
    assert t in AdmittedTasks(s.tasks) || s.tasks[t].stage.Finished?;
  }

  /** Closing takes effect in any state: the resource is closed, and what it stored is dropped. */
  lemma ClosureTakesEffect(s: State)
    ensures Run(s, [MarkClosed, DropStored]).Some?
    ensures var end := Run(s, [MarkClosed, DropStored]).value;
            && end.slot.closed && end.slot.value.None? && end.tasks == s.tasks && end.slot.active == s.slot.active
            && (s.slot.value.Some? ==> end.history.fate == Dropped(s.slot.value.value))
  {
    assert [MarkClosed, DropStored][1..] == [DropStored] && [DropStored][1..] == [];
    assert Run(s, [MarkClosed, DropStored]) == Run(Step(s, MarkClosed).value, [DropStored]);
    assert Run(Step(s, MarkClosed).value, [DropStored]) == Step(Step(s, MarkClosed).value, DropStored);
  }

  // Iterations one after another, the first of them call `t`.
  function Iterations(t: nat, count: nat): seq<Action>
    decreases count
  {
    if count == 0 then [] else Alone(t, Next) + Iterations(t + 1, count - 1)
  }

  lemma {:induction false} RunOneThenRest(s: State, first: seq<Action>, rest: seq<Action>)
    ensures Run(s, first + rest) == match Run(s, first) case None => None case Some(next) => Run(next, rest)
    decreases |first|
  {
    hide Step;
    if first == [] {
      assert first + rest == rest;
    } else {
      assert (first + rest)[1..] == first[1..] + rest;
      if Step(s, first[0]).Some? {
        RunOneThenRest(Step(s, first[0]).value, first[1..], rest);
      }
    }
  }

  /** Iterating one call after another gives every chunk in order, and then stops. */
  lemma {:induction false} IteratesAll(s: State, t: nat, rest: Body)
    requires Idle(s, rest) && AllChunks(rest) && forall u | u in s.tasks :: u < t
    ensures var ran := Run(s, Iterations(t, |rest| + 1));
            && ran.Some?
            && (forall u | u in s.tasks :: u in ran.value.tasks && ran.value.tasks[u] == s.tasks[u])
            && (forall i | 0 <= i < |rest| :: IsTold(ran.value, t + i, Delivered(rest[i].bytes)))
            && IsTold(ran.value, t + |rest|, Stopped)
    decreases |rest|
  {
    hide Step, Run, Alone, Idle;
    var first, others := Alone(t, Next), Iterations(t + 1, |rest|);
    assert Iterations(t, |rest| + 1) == first + others;
    RunOneThenRest(s, first, others);
    ServedAlone(s, t, Next, rest);
    var next := Run(s, first).value;
    if rest == [] {
      AllNothingRuns();
      assert others == [];
    } else {
      assert rest[0] in rest;
      IteratesAll(next, t + 1, rest[1..]);
      var end := Run(next, others).value;
      assert Run(s, Iterations(t, |rest| + 1)) == Some(end);
      forall i | 0 <= i < |rest|
        ensures IsTold(end, t + i, Delivered(rest[i].bytes))
      {
        if i > 0 {
          assert IsTold(end, (t + 1) + (i - 1), Delivered(rest[1..][i - 1].bytes));
        } else {
          assert t in next.tasks;
        }
      }
      assert t + |rest| == (t + 1) + |rest[1..]|;
    }
  }
}
