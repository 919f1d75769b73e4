/** Types shared by the preingest handlers: the outcome of a call that may
    throw, the action model a handler fills in while it runs, and the lifecycle
    events it emits to the event hub.

    Throughout the project a long message text is written as a concatenation
    of short literals; the concatenated text is the handler's message, and
    the verifier reasons about short literals far more cheaply. */
module Preingest {

  datatype Option<+T> = None | Some(value: T)

  /** A .NET exception as the handlers use it: its message and its stack
      trace, which is opaque text here. */
  datatype Exception = Exception(message: string, stackTrace: string)

  /** The `NullReferenceException` .NET raises when code dereferences null. */
  function NullReference(trace: string): Exception {
    Exception("Object reference not set " + "to an instance of an " + "object.", trace)
  }

  /** The outcome of a call that may throw. */
  datatype Result<+T> = Ok(value: T) | Fail(error: Exception) {
    predicate IsFailure() {
      Fail?
    }

    function PropagateFailure<U>(): Result<U>
      requires Fail?
    {
      Fail(error)
    }

    function Extract(): T
      requires Ok?
    {
      value
    }
  }

  /** A `bool?`: a flag that may be left unset (null). */
  datatype Tri = Unknown | Yes | No

  /** The lifecycle states a handler reports (PreingestActionStates). */
  datatype ActionStates = Started | Executing | Completed | Failed

  /** The verdict of a handler (PreingestActionResults); NoResult is the value
      of a freshly created action model, before a handler sets one. */
  datatype ActionResults = NoResult | Success | Error | Failed

  /** The counters of an action model (its Summary). */
  datatype Summary = Summary(processed: int, accepted: int, rejected: int)

  const InitialSummary := Summary(0, 0, 0)

  /** One emitted lifecycle event, with a snapshot of the counters and the
      verdict at the moment it was emitted. The timestamp is left out. */
  datatype Event = Event(state: ActionStates, description: string, summary: Summary, result: ActionResults)

  /** Everything a handler leaves behind: counters, verdict, messages, the
      action data (null until a handler sets it) and the emitted events. */
  datatype StageOutcome<D> = StageOutcome(
    summary: Summary,
    result: ActionResults,
    messages: seq<string>,
    data: Option<seq<D>>,
    events: seq<Event>)

  /** The three messages every handler reports when an exception escapes its
      body: a summary line, the exception's message and its stack trace. */
  function FailureMessages(header: string, e: Exception): (r: seq<string>)
    ensures |r| == 3 && r[0] == header
  {
    [header, e.message, e.stackTrace]
  }

  /** The lifecycle every handler follows: Started first, then only Executing
      events, then exactly one terminal event, Completed or Failed. */
  ghost predicate IsLifecycle(events: seq<Event>) {
    && |events| >= 2
    && events[0].state == ActionStates.Started
    && (forall k :: 0 < k < |events| - 1 ==> events[k].state == ActionStates.Executing)
    && events[|events| - 1].state in {ActionStates.Completed, ActionStates.Failed}
  }

  /** The action model a handler obtains at its start and updates field by
      field while it runs; `events` records what it has emitted so far. */
  class ActionModel<D> {
    var processed: int
    var accepted: int
    var rejected: int
    var resultValue: ActionResults
    var messages: seq<string>
    var data: Option<seq<D>>
    var events: seq<Event>

    /** A fresh model: zero counters, no verdict, no messages, no data. */
    constructor ()
      ensures Outcome() == StageOutcome(InitialSummary, NoResult, [], None, [])
    {
      processed, accepted, rejected := 0, 0, 0;
      resultValue := NoResult;
      messages := [];
      data := None;
      events := [];
    }

    function CurrentSummary(): Summary
      reads this
    {
      Summary(processed, accepted, rejected)
    }

    /** The abstract value of the model. */
    function Outcome(): StageOutcome<D>
      reads this
    {
      StageOutcome(CurrentSummary(), resultValue, messages, data, events)
    }

    /** OnTrigger: emit an event carrying the model as it stands now. */
    method Trigger(state: ActionStates, description: string)
      modifies this`events
      ensures events == old(events) + [Event(state, description, CurrentSummary(), resultValue)]
    {
      events := events + [Event(state, description, CurrentSummary(), resultValue)];
    }
  }
}
