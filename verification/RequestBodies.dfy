/** Streamed request bodies: the Python poll driver and the sized body on top of it. */
module RequestBodies {
  import opened Wrappers

  type Bytes = seq<int>

  // What happens when the SDK polls: creating the Python poll may fail, with the poll object
  // already made or not, and even with StopAsyncIteration; a poll in flight is pending, or gives
  // what `__anext__` gives.
  datatype Event =
    | CannotCreate(made: bool, stops: bool)
    | NotReady
    | Yields(bytes: Bytes)
    | YieldsOther          // a chunk that is not `bytes`
    | StopsIteration
    | Raises

  datatype Outcome = Pending | End | Frame(bytes: Bytes) | Error

  // ---------- The driver: unfold, guard and fuse ----------

  // `done` and `fused` make the stream final; the counters follow every Python poll.
  datatype Driver = Driver(done: bool, fused: bool, inFlight: bool, created: nat, completed: nat, cancelled: nat)

  // Dropping an armed guard cancels the poll on its own loop.
  function Dropped(d: Driver): Driver {
    if d.inFlight then d.(inFlight := false, cancelled := d.cancelled + 1) else d
  }

  function Completed(d: Driver): Driver {
    d.(inFlight := false, completed := d.completed + 1)
  }

  function PollDriver(d: Driver, event: Event): (Driver, Outcome) {
    if d.fused then (d, End)
    else if !d.inFlight && d.done then (d.(fused := true), End)
    else if !d.inFlight && event.CannotCreate? then
      var made := d.(created := d.created + if event.made then 1 else 0, inFlight := event.made);
      if event.stops then (Dropped(made).(fused := true), End) else (Dropped(made).(done := true), Error)
    else
      var polled := if d.inFlight then d else d.(created := d.created + 1, inFlight := true);
      match event
      case CannotCreate(_, _) => (polled, Pending)
      case NotReady => (polled, Pending)
      case Yields(bytes) => (Completed(polled), Frame(bytes))
      case YieldsOther => (Completed(polled), Error)
      case StopsIteration => (Completed(polled).(fused := true), End)
      case Raises => (Completed(polled).(done := true), Error)
  }

  // ---------- The body ----------

  datatype Body = Body(chunks: Driver, remaining: Option<nat>, finished: bool)

  datatype Hint = Exact(size: nat) | Unknown

  function SaturatingSub(a: nat, b: nat): nat {
    if b <= a then a - b else 0
  }

  function PollBody(b: Body, event: Event): (Body, Outcome) {
    if b.finished then (b, End)
    else
      var (chunks, outcome) := PollDriver(b.chunks, event);
      match outcome
      case Pending => (b.(chunks := chunks), outcome)
      case Frame(bytes) =>
        var remaining := if b.remaining.Some? then Some(SaturatingSub(b.remaining.value, |bytes|)) else None;
        (b.(chunks := chunks, remaining := remaining), outcome)
      case _ => (b.(chunks := chunks, finished := true), outcome)
  }

  function SizeHint(b: Body): Hint {
    if b.finished then Exact(0)
    else if b.remaining.Some? then Exact(b.remaining.value)
    else Unknown
  }

  class PythonIterator {
    var done: bool
    var fused: bool
    var inFlight: bool
    ghost var created: nat
    ghost var completed: nat
    ghost var cancelled: nat

    ghost function Model(): Driver
      reads this
    {
      Driver(done, fused, inFlight, created, completed, cancelled)
    }

    constructor ()
      ensures Model() == Driver(false, false, false, 0, 0, 0)
    {
      done, fused, inFlight := false, false, false;
      created, completed, cancelled := 0, 0, 0;
    }

    method PollNext(event: Event) returns (outcome: Outcome)
      modifies this
      ensures (Model(), outcome) == PollDriver(old(Model()), event)
    {
      if fused {
        return End;
      }
      if !inFlight {
        if done {
          fused := true;
          return End;
        }
        if event.CannotCreate? {
          if event.made {
            created := created + 1;
            inFlight := true;
            Drop();
          }
          if event.stops {
            fused := true;
            return End;
          }
          done := true;
          return Error;
        }
        created := created + 1;
        inFlight := true;
      }
      if event.CannotCreate? || event.NotReady? {
        return Pending;
      }
      inFlight := false;
      completed := completed + 1;
      match event
      case Yields(bytes) => return Frame(bytes);
      case YieldsOther => return Error;
      case StopsIteration =>
        fused := true;
        return End;
      case Raises =>
        done := true;
        return Error;
    }

    // Dropping the stream drops the guard of a poll in flight.
    method Drop()
      modifies this
      ensures Model() == Dropped(old(Model()))
    {
      if inFlight {
        inFlight := false;
        cancelled := cancelled + 1;
      }
    }
  }

  class StreamBody {
    const chunks: PythonIterator
    var remaining: Option<nat>
    var finished: bool

    ghost function Model(): Body
      reads this, chunks
    {
      Body(chunks.Model(), remaining, finished)
    }

    constructor (source: PythonIterator, declared: Option<nat>)
      ensures chunks == source && Model() == Body(source.Model(), declared, false)
    {
      chunks, remaining, finished := source, declared, false;
    }

    method PollFrame(event: Event) returns (outcome: Outcome)
      modifies this, chunks
      ensures (Model(), outcome) == PollBody(old(Model()), event)
    {
      if finished {
        return End;
      }
      outcome := chunks.PollNext(event);
      match outcome
      case Pending =>
      case End => finished := true;
      case Error => finished := true;
      case Frame(bytes) =>
        if remaining.Some? {
          remaining := Some(SaturatingSub(remaining.value, |bytes|));
        }
    }
  }

  // ---------- Whole runs ----------

  const IDLE := Driver(false, false, false, 0, 0, 0)

  function Open(declared: Option<nat>): Body {
    Body(IDLE, declared, false)
  }

  function Run(b: Body, events: seq<Event>): (Body, seq<Outcome>)
    decreases events
  {
    if events == [] then (b, [])
    else
      var (next, outcome) := PollBody(b, events[0]);
      var (end, outcomes) := Run(next, events[1..]);
      (end, [outcome] + outcomes)
  }

  // Creation is attempted only when no poll is in flight.
  predicate Possible(events: seq<Event>) {
    forall i | 0 < i < |events| && events[i].CannotCreate? :: !events[i - 1].NotReady?
  }

  // What a live body shows for an event.
  function Shown(event: Event): Outcome {
    match event
    case NotReady => Pending
    case Yields(bytes) => Frame(bytes)
    case StopsIteration => End
    case CannotCreate(_, stops) => if stops then End else Error
    case _ => Error
  }

  predicate IsFinal(event: Event) {
    !event.NotReady? && !event.Yields?
  }

  predicate Ended(events: seq<Event>) {
    exists event | event in events :: IsFinal(event)
  }

  // The number of bytes in the frames before the end.
  function BytesYielded(events: seq<Event>): nat {
    if events == [] || IsFinal(events[0]) then 0
    else (if events[0].Yields? then |events[0].bytes| else 0) + BytesYielded(events[1..])
  }

  lemma {:induction false} FinishedRun(b: Body, events: seq<Event>)
    requires b.finished
    ensures var (end, outcomes) := Run(b, events);
            && end == b && |outcomes| == |events| && forall i | 0 <= i < |outcomes| :: outcomes[i] == End
  {
    if events != [] {
      FinishedRun(b, events[1..]);
    }
  }

  // A live body between polls.
  predicate Live(b: Body, events: seq<Event>) {
    && !b.finished && !b.chunks.fused && !b.chunks.done && Possible(events)
    && (events != [] && events[0].CannotCreate? ==> !b.chunks.inFlight)
  }

  lemma LivePoll(b: Body, events: seq<Event>)
    requires Live(b, events) && events != []
    ensures var (next, outcome) := PollBody(b, events[0]);
            && outcome == Shown(events[0]) && next.finished == IsFinal(events[0])
            && (!IsFinal(events[0]) ==> Live(next, events[1..]))
            && (!IsFinal(events[0]) ==>
                  next.remaining == if b.remaining.None? then None
                                    else Some(SaturatingSub(b.remaining.value,
                                                            if events[0].Yields? then |events[0].bytes| else 0)))
  {}

  // Whether events have ended, seen from after the first.
  lemma EndedAfterFirst(events: seq<Event>)
    requires events != []
    ensures (Ended(events)) <==> (IsFinal(events[0]) || Ended(events[1..]))
  {
    assert events == [events[0]] + events[1..];
  }

  lemma PrefixAfterFirst(events: seq<Event>, i: nat)
    requires 0 < i < |events|
    ensures (Ended(events[..i])) <==> (IsFinal(events[0]) || Ended(events[1..][..i - 1]))
  {
    assert events[..i][1..] == events[1..][..i - 1];
    EndedAfterFirst(events[..i]);
  }

  lemma {:induction false} LiveRun(b: Body, events: seq<Event>)
    requires Live(b, events)
    ensures var (end, outcomes) := Run(b, events);
            && |outcomes| == |events|
            && (forall i | 0 <= i < |events| :: outcomes[i] == if Ended(events[..i]) then End else Shown(events[i]))
            && end.finished == Ended(events)
            && (!end.finished ==>
                  end.remaining == if b.remaining.None? then None
                                   else Some(SaturatingSub(b.remaining.value, BytesYielded(events))))
    decreases events
  {
    hide PollBody, Shown, IsFinal, Ended, Possible;
    NothingEnded();
    if events != [] {
      var event, rest := events[0], events[1..];
      var (next, outcome) := PollBody(b, event);
      LivePoll(b, events);
      assert events[..0] == [];
      forall i | 0 < i < |events|
        ensures Ended(events[..i]) <==> IsFinal(event) || Ended(rest[..i - 1])
        ensures events[i] == rest[i - 1]
      {
        PrefixAfterFirst(events, i);
      }
      EndedAfterFirst(events);
      if IsFinal(event) {
        FinishedRun(next, rest);
      } else {
        LiveRun(next, rest);
      }
    }
  }

  lemma NothingEnded()
    ensures !Ended([])
  {}

  /**
   Every run of a streamed body shows the producer's chunks in order, then at most one error or
   the end, and then only the end.
   */
  lemma RunShowsTheProducer(declared: Option<nat>, events: seq<Event>)
    requires Possible(events)
    ensures var (end, outcomes) := Run(Open(declared), events);
            && |outcomes| == |events|
            && (forall i | 0 <= i < |events| :: outcomes[i] == if Ended(events[..i]) then End else Shown(events[i]))
            && (forall i, j | 0 <= i < j < |outcomes| && (outcomes[i].Error? || outcomes[i].End?) :: outcomes[j] == End)
  {
    LiveRun(Open(declared), events);
    var (end, outcomes) := Run(Open(declared), events);
    forall i, j | 0 <= i < j < |outcomes| && (outcomes[i].Error? || outcomes[i].End?)
      ensures outcomes[j] == End
    {
      if Ended(events[..i]) {
        var event :| event in events[..i] && IsFinal(event);
        assert event in events[..j];
      } else {
        assert events[i] in events[..j];
      }
    }
  }

  /** The exact size hint is the declared length less the bytes given, never below zero, and zero at the end. */
  lemma HintTracksTheBytes(declared: Option<nat>, events: seq<Event>)
    requires Possible(events)
    ensures SizeHint(Run(Open(declared), events).0) ==
              if Ended(events) then Exact(0)
              else if declared.None? then Unknown
              else if BytesYielded(events) > declared.value then Exact(0)
              else Exact(declared.value - BytesYielded(events))
  {
    LiveRun(Open(declared), events);
  }

  // ---------- Every poll is accounted for ----------

  predicate Balanced(d: Driver) {
    && d.created == d.completed + d.cancelled + (if d.inFlight then 1 else 0)
    && (d.done || d.fused ==> !d.inFlight)
  }

  lemma PollBalances(b: Body, event: Event)
    requires Balanced(b.chunks) && (b.finished ==> !b.chunks.inFlight)
    ensures var next := PollBody(b, event).0; Balanced(next.chunks) && (next.finished ==> !next.chunks.inFlight)
  {}

  lemma {:induction false} RunBalances(b: Body, events: seq<Event>)
    requires Balanced(b.chunks) && (b.finished ==> !b.chunks.inFlight)
    ensures var end := Run(b, events).0; Balanced(end.chunks) && (end.finished ==> !end.chunks.inFlight)
    decreases events
  {
    if events != [] {
      PollBalances(b, events[0]);
      RunBalances(PollBody(b, events[0]).0, events[1..]);
    }
  }

  /** After any run and a drop, every Python poll created was completed or cancelled, exactly once. */
  lemma EveryPollIsSettled(declared: Option<nat>, events: seq<Event>)
    ensures var end := Run(Open(declared), events).0;
            var settled := Dropped(end.chunks);
            && settled.created == settled.completed + settled.cancelled
            && (end.finished ==> settled == end.chunks)
  {
    RunBalances(Open(declared), events);
  }

  lemma {:induction false} RunSplits(b: Body, first: seq<Event>, second: seq<Event>)
    ensures Run(b, first + second).0 == Run(Run(b, first).0, second).0
    decreases first
  {
    if first == [] {
      assert first + second == second;
    } else {
      assert (first + second)[1..] == first[1..] + second;
      RunSplits(PollBody(b, first[0]).0, first[1..], second);
    }
  }

  /** After the end, an error or a bad chunk, the Python iterator is never polled again. */
  lemma NoPollAfterTheEnd(declared: Option<nat>, events: seq<Event>, more: seq<Event>)
    requires Possible(events) && Ended(events)
    ensures Run(Open(declared), events + more).0 == Run(Open(declared), events).0
  {
    LiveRun(Open(declared), events);
    RunSplits(Open(declared), events, more);
    FinishedRun(Run(Open(declared), events).0, more);
  }
}
