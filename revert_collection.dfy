/** The revert-collection stage (OPEX): a stub whose two branches, for a
    `.zip` collection and for an unpacked one, do nothing yet, so its whole
    behaviour is the lifecycle and the counters it reports. */
module RevertCollection {
  import opened Preingest
  import Text

  const FailedDescription := ("An exception occured " + "while building opex!")
  const CompletedDescription := ("Build Opex with a " + "collection is done.")

  /** A null collection name is formatted as the empty string. */
  function Formatted(collection: Option<string>): string {
    if collection.Some? then collection.value else ""
  }

  function StartDescription(collection: Option<string>): string {
    ("Start building Opex for " + "container '") + Formatted(collection) + "'."
  }

  function FailureHeader(collection: Option<string>): string {
    ("Build Opex with " + "collection: '") + Formatted(collection) + "' failed!"
  }

  /** What `Execute` leaves behind for a target collection (None when it is
      null) and the stack trace of the exception a null name raises. */
  function ExecuteSpec(collection: Option<string>, trace: string): StageOutcome<string> {
    if collection.None? then FailedOutcome(collection, trace) else CompletedOutcome(collection)
  }

  function StartEvent(collection: Option<string>): Event {
    Event(Started, StartDescription(collection), InitialSummary, NoResult)
  }

  /** The outcome when the null name throws. */
  function FailedOutcome(collection: Option<string>, trace: string): StageOutcome<string> {
    var summary := Summary(1, 0, 1);
    StageOutcome(summary, ActionResults.Failed, FailureMessages(FailureHeader(collection), NullReference(trace)), None,
      [StartEvent(collection), Event(ActionStates.Failed, FailedDescription, summary, ActionResults.Failed)])
  }

  /** The outcome when both branches have done nothing. */
  function CompletedOutcome(collection: Option<string>): StageOutcome<string> {
    StageOutcome(InitialSummary, Success, [], Some([]),
      [StartEvent(collection), Event(Completed, CompletedDescription, InitialSummary, Success)])
  }

  /** The `catch` block. */
  method FailRun(run: ActionModel<string>, collection: Option<string>, trace: string)
    requires run.Outcome() == StageOutcome(InitialSummary, NoResult, [], None, [StartEvent(collection)])
    modifies run
    ensures run.Outcome() == FailedOutcome(collection, trace)
  {
    run.resultValue := ActionResults.Failed;
    run.messages := FailureMessages(FailureHeader(collection), NullReference(trace));
    run.processed, run.accepted, run.rejected := 1, 0, 1;
    run.Trigger(ActionStates.Failed, FailedDescription);
  }

  /** The end of the `try` block: the (empty) data and messages and their
      counts. */
  method CompleteRun(run: ActionModel<string>, collection: Option<string>, anyMessages: seq<string>, jsonData: seq<string>)
    requires anyMessages == [] && jsonData == []
    requires run.Outcome() == StageOutcome(InitialSummary, NoResult, [], None, [StartEvent(collection)])
    modifies run
    ensures run.Outcome() == CompletedOutcome(collection)
  {
    run.data := Some(jsonData);
    run.processed := |jsonData|;
    run.accepted := 0;
    run.rejected := |anyMessages|;
    run.messages := anyMessages;
    run.resultValue := if run.rejected > 0 then Error else Success;
    run.Trigger(Completed, CompletedDescription);
  }

  /** `Execute`: the handler's body, step by step on a fresh action model. */
  method Execute(collection: Option<string>, trace: string) returns (run: ActionModel<string>)
    ensures fresh(run)
    ensures run.Outcome() == ExecuteSpec(collection, trace)
  {
    run := new ActionModel<string>();
    run.Trigger(Started, StartDescription(collection));
    var anyMessages: seq<string> := [];
    var jsonData: seq<string> := [];
    if collection.None? {
      // `TargetCollection.EndsWith` on a null name throws.
      FailRun(run, collection, trace);
      return;
    }
    if Text.EndsWithIgnoreCase(collection.value, ".zip") {
      // a zipped collection: nothing is checked yet
    } else {
      // an unpacked collection: nothing is checked yet
    }
    CompleteRun(run, collection, anyMessages, jsonData);
  }

  /** Started comes first, then exactly one of Completed or Failed; the stage
      fails exactly when the collection name is null. A run that completes
      processes and rejects nothing and reports no messages and no data; one
      that fails reports one processed, rejected item and three messages.
      Nothing is ever accepted. */
  lemma ExecuteOutcome(collection: Option<string>, trace: string)
    ensures var o := ExecuteSpec(collection, trace);
      && IsLifecycle(o.events) && |o.events| == 2
      && o.events[0].state == Started
      && (o.result == ActionResults.Failed <==> collection.None?)
      && (o.events[1].state == Completed <==> o.result != ActionResults.Failed)
      && o.summary.accepted == 0
      && (collection.Some? ==>
            o.summary == Summary(0, 0, 0) && o.result == Success && o.messages == [] && o.data == Some([]))
      && (collection.None? ==>
            o.summary == Summary(1, 0, 1) && |o.messages| == 3 && o.messages[0] == FailureHeader(collection) && o.data.None?)
  {
  }
}
