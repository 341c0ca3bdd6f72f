/**
 Removing third-party boot directories from an EFI system partition: quarantine
 all of them, rebuild the Microsoft boot store, delete, commit, clean up, and
 at every failure put back what can be put back.

 The platform below the transaction answers each call with a step result. Its
 contract is the only thing assumed about it: a proper completion means that the
 mutation happened, a proper failure without mutation means that nothing
 happened, and after anything else the touched object may be in any state.
 */
module EfiDelete {

  // ---------- the platform's answers ----------

  datatype FailureKind = NoFailure | Foreign | Tamper | Race | Io | Verification | ContractViolation

  datatype Extent = NoMutation | Complete | PartialOrUnknown

  datatype StepResult = StepResult(succeeded: bool, failure: FailureKind, extent: Extent, hasError: bool)

  predicate ValidCompleted(step: StepResult) {
    step.succeeded && step.failure == NoFailure && step.extent == Complete && !step.hasError
  }

  predicate ValidFailed(step: StepResult) {
    !step.succeeded && step.failure != NoFailure && step.extent != Complete && step.hasError
  }

  datatype Call =
    | CreateQuarantine
    | MoveCandidate(index: nat)
    | RestoreCandidate(index: nat)
    | RebuildBcd
    | RollbackBcd
    | CommitBcd
    | DeleteCandidate(index: nat)
    | RemoveQuarantine

  /** What an answer proves about the mutation. */
  datatype Verdict = Done | Unchanged | Partial | Violation

  datatype Event = Event(call: Call, verdict: Verdict)

  function Judge(step: StepResult): Verdict {
    if ValidCompleted(step) then Done
    else if !ValidFailed(step) then Violation
    else if step.extent == NoMutation then Unchanged
    else Partial
  }

  /** An answer proves something only if it is consistent in every part. */
  lemma JudgedExactly(step: StepResult)
    ensures Judge(step) == Done <==> step.succeeded && step.failure == NoFailure && step.extent == Complete && !step.hasError
    ensures Judge(step) == Unchanged <==>
      !step.succeeded && step.failure != NoFailure && step.extent == NoMutation && step.hasError
    ensures Judge(step) == Partial <==>
      !step.succeeded && step.failure != NoFailure && step.extent == PartialOrUnknown && step.hasError
  {
  }

  // ---------- the objects ----------

  datatype Location = Original | Quarantined | Deleted | Unknown

  datatype Store = Prior | Rebuilt | Committed | UnknownStore

  datatype Quarantine = Absent | Present | UnknownQuarantine

  datatype State = State(locations: seq<Location>, store: Store, quarantine: Quarantine)

  function Initial(count: nat): State {
    State(seq(count, _ => Original), Prior, Absent)
  }

  function Performed(state: State, call: Call): State {
    match call
    case CreateQuarantine => state.(quarantine := Present)
    case RemoveQuarantine => state.(quarantine := Absent)
    case RebuildBcd => state.(store := Rebuilt)
    case RollbackBcd => state.(store := Prior)
    case CommitBcd => state.(store := Committed)
    case MoveCandidate(i) => Placed(state, i, Quarantined)
    case RestoreCandidate(i) => Placed(state, i, Original)
    case DeleteCandidate(i) => Placed(state, i, Deleted)
  }

  function Placed(state: State, i: nat, location: Location): State {
    if i < |state.locations| then state.(locations := state.locations[i := location]) else state
  }

  /** Only the object of the call may have changed, in any way. */
  function Disturbed(state: State, call: Call, after: State): State {
    match call
    case CreateQuarantine | RemoveQuarantine => state.(quarantine := after.quarantine)
    case RebuildBcd | RollbackBcd | CommitBcd => state.(store := after.store)
    case _ =>
      if call.index < |after.locations| then Placed(state, call.index, after.locations[call.index]) else state
  }

  // ---------- what the calls so far tell about the state ----------

  predicate Doubtful(e: Event) {
    e.verdict == Partial || e.verdict == Violation
  }

  predicate AboutCandidate(call: Call, i: nat) {
    call == MoveCandidate(i) || call == RestoreCandidate(i) || call == DeleteCandidate(i)
  }

  predicate AboutStore(call: Call) {
    call == RebuildBcd || call == RollbackBcd || call == CommitBcd
  }

  predicate AboutQuarantine(call: Call) {
    call == CreateQuarantine || call == RemoveQuarantine
  }

  /** The state if every call did what its verdict proves, and nothing where it proves nothing. */
  function Replay(trace: seq<Event>, count: nat): (state: State)
    ensures |state.locations| == count
    decreases |trace|
  {
    if |trace| == 0 then Initial(count)
    else
      var before, last := Replay(trace[..|trace| - 1], count), trace[|trace| - 1];
      if last.verdict == Done then Performed(before, last.call) else before
  }

  predicate SureOfCandidate(trace: seq<Event>, i: nat) {
    forall j :: 0 <= j < |trace| && AboutCandidate(trace[j].call, i) ==> !Doubtful(trace[j])
  }

  predicate SureOfStore(trace: seq<Event>) {
    forall j :: 0 <= j < |trace| && AboutStore(trace[j].call) ==> !Doubtful(trace[j])
  }

  predicate SureOfQuarantine(trace: seq<Event>) {
    forall j :: 0 <= j < |trace| && AboutQuarantine(trace[j].call) ==> !Doubtful(trace[j])
  }

  /** The state agrees with the trace on every object whose calls were never doubtful. */
  predicate Reflects(state: State, trace: seq<Event>, count: nat) {
    var replayed := Replay(trace, count);
    && |state.locations| == count
    && (forall i :: 0 <= i < count && SureOfCandidate(trace, i) ==> state.locations[i] == replayed.locations[i])
    && (SureOfStore(trace) ==> state.store == replayed.store)
    && (SureOfQuarantine(trace) ==> state.quarantine == replayed.quarantine)
  }

  /** One more call keeps the agreement, whatever the platform answers. */
  lemma ReflectsNext(state: State, trace: seq<Event>, count: nat, e: Event, after: State)
    requires Reflects(state, trace, count)
    ensures Reflects(if e.verdict == Done then Performed(state, e.call)
                     else if e.verdict == Unchanged then state
                     else Disturbed(state, e.call, after), trace + [e], count)
  {
    var longer := trace + [e];
    assert longer[..|longer| - 1] == trace;
    assert forall j :: 0 <= j < |trace| ==> longer[j] == trace[j];
    assert longer[|trace|] == e;
    assert SureOfStore(longer) ==> SureOfStore(trace);
    assert SureOfQuarantine(longer) ==> SureOfQuarantine(trace);
    forall i | 0 <= i < count && SureOfCandidate(longer, i) ensures SureOfCandidate(trace, i) {
    }
  }

  // ---------- the protocol ----------

  function Forward(moved: nat): (events: seq<Event>)
    ensures |events| == moved + 1
    decreases moved
  {
    if moved == 0 then [Event(CreateQuarantine, Done)] else Forward(moved - 1) + [Event(MoveCandidate(moved - 1), Done)]
  }

  /** All candidates are in quarantine, the new boot store is verified, and the first ones are deleted. */
  function Deleting(count: nat, deleted: nat): (events: seq<Event>)
    ensures |events| == count + 2 + deleted
    decreases deleted
  {
    if deleted == 0 then Forward(count) + [Event(RebuildBcd, Done)]
    else Deleting(count, deleted - 1) + [Event(DeleteCandidate(deleted - 1), Done)]
  }

  predicate AllDone(events: seq<Event>) {
    forall j :: 0 <= j < |events| ==> events[j].verdict == Done
  }

  /** Candidates `from` up to `to` are brought back, the last one first, whether or not each attempt works. */
  predicate Restores(events: seq<Event>, from: nat, to: nat) {
    && from <= to
    && |events| == to - from
    && forall j :: 0 <= j < |events| ==> events[j].call == RestoreCandidate(to - 1 - j)
  }

  /** After complete restores the quarantine is removed, if that is allowed. */
  predicate IsRollback(events: seq<Event>, from: nat, to: nat, cleanup: bool) {
    || (Restores(events, from, to) && !(cleanup && AllDone(events)))
    || (&& |events| > 0
        && Restores(events[..|events| - 1], from, to) && AllDone(events[..|events| - 1])
        && cleanup && events[|events| - 1].call == RemoveQuarantine)
  }

  predicate StoppedAtMove(trace: seq<Event>, count: nat, k: nat) {
    && k < count && k + 2 <= |trace|
    && trace[..k + 1] == Forward(k)
    && trace[k + 1].call == MoveCandidate(k) && trace[k + 1].verdict != Done
    && IsRollback(trace[k + 2..], 0, k, trace[k + 1].verdict == Unchanged)
  }

  predicate StoppedAtRebuild(trace: seq<Event>, count: nat) {
    && count + 2 <= |trace|
    && trace[..count + 1] == Forward(count)
    && trace[count + 1].call == RebuildBcd && trace[count + 1].verdict != Done
    && IsRollback(trace[count + 2..], 0, count, true)
  }

  /** The rollback after a failed deletion; if nothing was deleted, the boot store follows. */
  predicate IsDeleteRollback(events: seq<Event>, count: nat, k: nat, intact: bool) {
    var from := if intact then k else k + 1;
    && count - from <= |events|
    && (if k == 0 && intact && AllDone(events[..count - from]) then
          && |events| == count - from + 2
          && IsRollback(events[..|events| - 1], from, count, true)
          && events[|events| - 1].call == RollbackBcd
        else IsRollback(events, from, count, intact))
  }

  predicate StoppedAtDelete(trace: seq<Event>, count: nat, k: nat) {
    && k < count && count + 3 + k <= |trace|
    && trace[..count + 2 + k] == Deleting(count, k)
    && trace[count + 2 + k].call == DeleteCandidate(k) && trace[count + 2 + k].verdict != Done
    && IsDeleteRollback(trace[count + 3 + k..], count, k, trace[count + 2 + k].verdict == Unchanged)
  }

  predicate StoppedAfterDelete(trace: seq<Event>, count: nat) {
    && 2 * count + 3 <= |trace|
    && trace[..2 * count + 2] == Deleting(count, count)
    && trace[2 * count + 2].call == CommitBcd
    && (if trace[2 * count + 2].verdict == Done then
          |trace| == 2 * count + 4 && trace[2 * count + 3].call == RemoveQuarantine
        else |trace| == 2 * count + 3)
  }

  predicate NotStarted(trace: seq<Event>) {
    trace == [] || (|trace| == 1 && trace[0].call == CreateQuarantine && trace[0].verdict != Done)
  }

  /** The calls of every possible run. */
  predicate Protocol(trace: seq<Event>, count: nat) {
    || NotStarted(trace)
    || (exists k :: 0 <= k < count && StoppedAtMove(trace, count, k))
    || StoppedAtRebuild(trace, count)
    || (exists k :: 0 <= k < count && StoppedAtDelete(trace, count, k))
    || StoppedAfterDelete(trace, count)
  }

  // ---------- outcomes ----------

  datatype Outcome =
    | CommittedOutcome
    | StoppedBeforeMutation
    | RolledBack
    | PartialRollback
    | FinalizationIncomplete
    | PartialDelete
    | BcdCleanupIncomplete
    | QuarantineCleanupIncomplete

  /** Exactly one call of the run did not work, and that one changed nothing. */
  predicate OneUnchanged(trace: seq<Event>, at: nat) {
    && at < |trace|
    && trace[at].verdict == Unchanged
    && forall j :: 0 <= j < |trace| && j != at ==> trace[j].verdict == Done
  }

  predicate Retractable(call: Call) {
    call.MoveCandidate? || call == RebuildBcd || call == DeleteCandidate(0)
  }

  predicate CleanlyStopped(trace: seq<Event>) {
    exists at :: 0 <= at < |trace| && OneUnchanged(trace, at) && Retractable(trace[at].call)
  }

  predicate FailsAt(trace: seq<Event>, call: Call) {
    exists j :: 0 <= j < |trace| && trace[j].call == call && trace[j].verdict != Done
  }

  /** A deletion failed that was not the first, or that may have removed something. */
  predicate DeletesInPart(trace: seq<Event>) {
    exists j :: 0 <= j < |trace| && trace[j].call.DeleteCandidate? && trace[j].verdict != Done
                && (trace[j].call.index > 0 || trace[j].verdict != Unchanged)
  }

  predicate Commits(trace: seq<Event>) {
    exists j :: 0 <= j < |trace| && trace[j] == Event(CommitBcd, Done)
  }

  /** The outcome that the calls of a run amount to. */
  function OutcomeOf(trace: seq<Event>): Outcome {
    if trace == [] || (|trace| == 1 && trace[0] == Event(CreateQuarantine, Unchanged)) then StoppedBeforeMutation
    else if AllDone(trace) then CommittedOutcome
    else if FailsAt(trace, CommitBcd) then BcdCleanupIncomplete
    else if Commits(trace) then QuarantineCleanupIncomplete
    else if DeletesInPart(trace) then PartialDelete
    else if CleanlyStopped(trace) then RolledBack
    else PartialRollback
  }

  // ---------- what the outcomes are worth ----------

  predicate AllAt(state: State, location: Location) {
    forall i :: 0 <= i < |state.locations| ==> state.locations[i] == location
  }

  lemma {:induction false} ForwardElements(moved: nat, j: nat)
    requires j <= moved
    ensures Forward(moved)[j] == Event(if j == 0 then CreateQuarantine else MoveCandidate(j - 1), Done)
    decreases moved
  {
    if j < moved {
      ForwardElements(moved - 1, j);
    }
  }

  lemma {:induction false} DeletingElements(count: nat, deleted: nat, j: nat)
    requires j < count + 2 + deleted
    ensures j <= count ==> Deleting(count, deleted)[j] == Forward(count)[j]
    ensures j == count + 1 ==> Deleting(count, deleted)[j] == Event(RebuildBcd, Done)
    ensures j >= count + 2 ==> Deleting(count, deleted)[j] == Event(DeleteCandidate(j - count - 2), Done)
    decreases deleted
  {
    if deleted > 0 && j < count + 1 + deleted {
      DeletingElements(count, deleted - 1, j);
    }
  }

  lemma {:induction false} ReplayForward(moved: nat, count: nat)
    requires moved <= count
    ensures var state := Replay(Forward(moved), count);
      && state.store == Prior && state.quarantine == Present
      && forall i :: 0 <= i < count ==> state.locations[i] == if i < moved then Quarantined else Original
    decreases moved
  {
    if moved > 0 {
      ReplayForward(moved - 1, count);
      assert Forward(moved)[..moved] == Forward(moved - 1);
    } else {
      assert Forward(0)[..0] == [];
    }
  }

  lemma {:induction false} ReplayDeleting(count: nat, deleted: nat)
    requires deleted <= count
    ensures var state := Replay(Deleting(count, deleted), count);
      && state.store == Rebuilt && state.quarantine == Present
      && forall i :: 0 <= i < count ==> state.locations[i] == if i < deleted then Deleted else Quarantined
    decreases deleted
  {
    if deleted > 0 {
      ReplayDeleting(count, deleted - 1);
      assert Deleting(count, deleted)[..count + 1 + deleted] == Deleting(count, deleted - 1);
    } else {
      ReplayForward(count, count);
      assert Deleting(count, 0)[..count + 1] == Forward(count);
    }
  }

  /** Restores that all worked bring exactly the candidates of the range back. */
  lemma {:induction false} ReplayRestores(front: seq<Event>, events: seq<Event>, from: nat, to: nat, count: nat)
    requires Restores(events, from, to) && AllDone(events) && to <= count
    ensures var before, after := Replay(front, count), Replay(front + events, count);
      && after.store == before.store && after.quarantine == before.quarantine
      && forall i :: 0 <= i < count ==>
           after.locations[i] == if from <= i < to then Original else before.locations[i]
    decreases |events|
  {
    if |events| > 0 {
      var n := |events| - 1;
      assert (front + events)[..|front + events| - 1] == front + events[..n];
      assert (front + events)[|front + events| - 1] == events[n];
      ReplayRestores(front, events[..n], from + 1, to, count);
    } else {
      assert front + events == front;
    }
  }

  lemma ReplayStep(trace: seq<Event>, count: nat)
    requires |trace| > 0
    ensures var before, last := Replay(trace[..|trace| - 1], count), trace[|trace| - 1];
      Replay(trace, count) == if last.verdict == Done then Performed(before, last.call) else before
  {
  }

  lemma NoDoubt(state: State, trace: seq<Event>, count: nat)
    requires Reflects(state, trace, count)
    requires forall j :: 0 <= j < |trace| ==> !Doubtful(trace[j])
    ensures state == Replay(trace, count)
  {
    hide Replay;
    var replayed := Replay(trace, count);
    forall i | 0 <= i < count ensures state.locations[i] == replayed.locations[i] {
      assert SureOfCandidate(trace, i);
    }
    assert state.locations == replayed.locations;
  }

  /** Committed means: every candidate deleted, the new boot store final, the quarantine gone. */
  lemma CommittedIsTrue(state: State, trace: seq<Event>, count: nat)
    requires Protocol(trace, count) && Reflects(state, trace, count)
    requires OutcomeOf(trace) == CommittedOutcome
    ensures AllAt(state, Deleted) && state.store == Committed && state.quarantine == Absent
  {
    hide Replay;
    NoDoubt(state, trace, count);
    assert StoppedAfterDelete(trace, count);
    ReplayStep(trace, count);
    assert trace[..|trace| - 1][..|trace| - 2] == Deleting(count, count);
    ReplayStep(trace[..|trace| - 1], count);
    ReplayDeleting(count, count);
  }

  // ---------- complete rollbacks ----------

  /** A rollback that worked throughout ends with the quarantine removed, if it was allowed to. */
  lemma CompleteRollback(events: seq<Event>, from: nat, to: nat)
    requires IsRollback(events, from, to, true) && AllDone(events)
    ensures from <= to && |events| == to - from + 1 && Restores(events[..to - from], from, to)
    ensures events[to - from] == Event(RemoveQuarantine, Done)
  {
    assert AllDone(events[..|events| - 1]) || |events| == 0;
  }

  lemma ReplayRollback(front: seq<Event>, e: Event, events: seq<Event>, from: nat, to: nat, count: nat)
    requires e.verdict == Unchanged && IsRollback(events, from, to, true) && AllDone(events) && to <= count
    ensures var before, after := Replay(front, count), Replay(front + [e] + events, count);
      && after.store == before.store && after.quarantine == Absent
      && forall i :: 0 <= i < count ==>
           after.locations[i] == if from <= i < to then Original else before.locations[i]
  {
    hide Replay, Restores, IsRollback;
    CompleteRollback(events, from, to);
    var restores := events[..to - from];
    assert (front + [e])[..|front + [e]| - 1] == front;
    ReplayStep(front + [e], count);
    ReplayRestores(front + [e], restores, from, to, count);
    var all := front + [e] + events;
    assert all[..|all| - 1] == front + [e] + restores;
    ReplayStep(all, count);
  }

  /** The run without its failed call, and what followed. */
  lemma AroundFailure(trace: seq<Event>, at: nat)
    requires at < |trace|
    ensures trace == trace[..at] + [trace[at]] + trace[at + 1..]
  {
  }

  lemma SameFailure(trace: seq<Event>, a: nat, b: nat)
    requires OneUnchanged(trace, a) && b < |trace| && trace[b].verdict != Done
    ensures a == b
  {
  }

  /** In a clean stop, everything behind the failed call worked. */
  lemma RestDone(trace: seq<Event>, at: nat)
    requires OneUnchanged(trace, at)
    ensures AllDone(trace[at + 1..])
  {
  }

  predicate UntouchedAfter(trace: seq<Event>, count: nat) {
    var state := Replay(trace, count);
    AllAt(state, Original) && state.store == Prior && state.quarantine == Absent
  }

  lemma CleanStopAtMove(trace: seq<Event>, count: nat, k: nat)
    requires StoppedAtMove(trace, count, k) && OneUnchanged(trace, k + 1)
    ensures UntouchedAfter(trace, count)
  {
    hide Replay, IsRollback;
    RestDone(trace, k + 1);
    AroundFailure(trace, k + 1);
    ReplayForward(k, count);
    ReplayRollback(Forward(k), trace[k + 1], trace[k + 2..], 0, k, count);
  }

  lemma CleanStopAtRebuild(trace: seq<Event>, count: nat)
    requires StoppedAtRebuild(trace, count) && OneUnchanged(trace, count + 1)
    ensures UntouchedAfter(trace, count)
  {
    hide Replay, IsRollback;
    RestDone(trace, count + 1);
    AroundFailure(trace, count + 1);
    ReplayForward(count, count);
    ReplayRollback(Forward(count), trace[count + 1], trace[count + 2..], 0, count, count);
  }

  lemma CleanStopAtDelete(trace: seq<Event>, count: nat)
    requires StoppedAtDelete(trace, count, 0) && OneUnchanged(trace, count + 2)
    ensures UntouchedAfter(trace, count)
    ensures |trace| == 2 * count + 5 && trace[2 * count + 3] == Event(RemoveQuarantine, Done)
    ensures trace[2 * count + 4] == Event(RollbackBcd, Done)
  {
    hide Replay, IsRollback;
    RestDone(trace, count + 2);
    var events := trace[count + 3..];
    assert AllDone(events[..count]);
    var front := trace[..|trace| - 1];
    assert front == Deleting(count, 0) + [trace[count + 2]] + events[..|events| - 1];
    ReplayDeleting(count, 0);
    ReplayRollback(Deleting(count, 0), trace[count + 2], events[..|events| - 1], 0, count, count);
    CompleteRollback(events[..|events| - 1], 0, count);
    ReplayStep(trace, count);
  }

  /** The three ways to a clean stop. */
  lemma CleanStopShape(trace: seq<Event>, count: nat) returns (at: nat)
    requires Protocol(trace, count) && CleanlyStopped(trace)
    ensures OneUnchanged(trace, at) && Retractable(trace[at].call)
    ensures || (at >= 1 && at - 1 < count && StoppedAtMove(trace, count, at - 1))
            || (at == count + 1 && StoppedAtRebuild(trace, count))
            || (at == count + 2 && StoppedAtDelete(trace, count, 0))
  {
    at :| 0 <= at < |trace| && OneUnchanged(trace, at) && Retractable(trace[at].call);
    if k :| 0 <= k < count && StoppedAtMove(trace, count, k) {
      SameFailure(trace, at, k + 1);
    } else if StoppedAtRebuild(trace, count) {
      SameFailure(trace, at, count + 1);
    } else if k :| 0 <= k < count && StoppedAtDelete(trace, count, k) {
      SameFailure(trace, at, count + 2 + k);
    } else if StoppedAfterDelete(trace, count) {
      AfterDeleteNotRetractable(trace, count, at);
    }
  }

  lemma AfterDeleteNotRetractable(trace: seq<Event>, count: nat, at: nat)
    requires StoppedAfterDelete(trace, count) && at < |trace| && trace[at].verdict != Done
    ensures !Retractable(trace[at].call)
  {
    if at < 2 * count + 2 {
      DeletingElements(count, count, at);
      assert trace[at] == Deleting(count, count)[at];
      if at <= count {
        ForwardElements(count, at);
      }
    }
  }

  /** Rolled back means: every candidate in its place, the prior boot store, the quarantine gone. */
  lemma RolledBackIsTrue(state: State, trace: seq<Event>, count: nat)
    requires Protocol(trace, count) && Reflects(state, trace, count)
    requires OutcomeOf(trace) == RolledBack
    ensures AllAt(state, Original) && state.store == Prior && state.quarantine == Absent
  {
    hide Protocol, Reflects, Replay, StoppedAtMove, StoppedAtRebuild, StoppedAtDelete;
    var at := CleanStopShape(trace, count);
    NoDoubt(state, trace, count);
    if at >= 1 && at - 1 < count && StoppedAtMove(trace, count, at - 1) {
      CleanStopAtMove(trace, count, at - 1);
    } else if at == count + 1 && StoppedAtRebuild(trace, count) {
      CleanStopAtRebuild(trace, count);
    } else {
      CleanStopAtDelete(trace, count);
    }
  }

  /** Stopped before mutation means just that. */
  lemma StoppedIsTrue(state: State, trace: seq<Event>, count: nat)
    requires Reflects(state, trace, count) && OutcomeOf(trace) == StoppedBeforeMutation
    ensures state == Initial(count)
  {
    NoDoubt(state, trace, count);
    if |trace| == 1 {
      assert trace[..0] == [];
    }
  }

  // ---------- order ----------

  lemma ForwardHasNoDelete(trace: seq<Event>, moved: nat, j: nat)
    requires moved + 1 <= |trace| && trace[..moved + 1] == Forward(moved) && j < moved + 1
    ensures !trace[j].call.DeleteCandidate?
  {
    ForwardElements(moved, j);
    assert trace[j] == trace[..moved + 1][j];
  }

  lemma RollbackHasNoDelete(events: seq<Event>, from: nat, to: nat, cleanup: bool, j: nat)
    requires IsRollback(events, from, to, cleanup) && j < |events|
    ensures !events[j].call.DeleteCandidate?
  {
    if !Restores(events, from, to) && j < |events| - 1 {
      assert events[j] == events[..|events| - 1][j];
    }
  }

  lemma MoveStopHasNoDelete(trace: seq<Event>, count: nat, k: nat, j: nat)
    requires StoppedAtMove(trace, count, k) && j < |trace|
    ensures !trace[j].call.DeleteCandidate?
  {
    hide IsRollback;
    if j < k + 1 {
      ForwardHasNoDelete(trace, k, j);
    } else if j > k + 1 {
      RollbackHasNoDelete(trace[k + 2..], 0, k, trace[k + 1].verdict == Unchanged, j - k - 2);
    }
  }

  lemma RebuildStopHasNoDelete(trace: seq<Event>, count: nat, j: nat)
    requires StoppedAtRebuild(trace, count) && j < |trace|
    ensures !trace[j].call.DeleteCandidate?
  {
    hide IsRollback;
    if j < count + 1 {
      ForwardHasNoDelete(trace, count, j);
    } else if j > count + 1 {
      RollbackHasNoDelete(trace[count + 2..], 0, count, true, j - count - 2);
    }
  }

  /** No deletion before every candidate is in quarantine and the new boot store is verified. */
  lemma DeletesComeLast(trace: seq<Event>, count: nat, j: nat)
    requires Protocol(trace, count) && j < |trace| && trace[j].call.DeleteCandidate?
    ensures j >= count + 2
    ensures trace[..count + 2] == Forward(count) + [Event(RebuildBcd, Done)]
  {
    hide IsRollback, IsDeleteRollback;
    if k :| 0 <= k < count && StoppedAtMove(trace, count, k) {
      MoveStopHasNoDelete(trace, count, k, j);
    } else if StoppedAtRebuild(trace, count) {
      RebuildStopHasNoDelete(trace, count, j);
    } else if k :| 0 <= k < count && StoppedAtDelete(trace, count, k) {
      DeletingFront(trace, count, k, j);
    } else if StoppedAfterDelete(trace, count) {
      DeletingFront(trace, count, count, j);
    }
  }

  lemma DeletingFront(trace: seq<Event>, count: nat, deleted: nat, j: nat)
    requires count + 2 + deleted <= |trace| && trace[..count + 2 + deleted] == Deleting(count, deleted)
    requires j < |trace| && trace[j].call.DeleteCandidate?
    ensures j >= count + 2 && trace[..count + 2] == Forward(count) + [Event(RebuildBcd, Done)]
  {
    DeletingStart(count, deleted);
    assert trace[..count + 2] == trace[..count + 2 + deleted][..count + 2];
    assert trace[..count + 1] == trace[..count + 2 + deleted][..count + 1];
    assert trace[count + 1] == trace[..count + 2][count + 1];
    if j < count + 1 {
      ForwardHasNoDelete(trace, count, j);
    }
  }

  lemma {:induction false} DeletingStart(count: nat, deleted: nat)
    ensures Deleting(count, deleted)[..count + 2] == Forward(count) + [Event(RebuildBcd, Done)]
    ensures Deleting(count, deleted)[..count + 1] == Forward(count)
    decreases deleted
  {
    if deleted > 0 {
      DeletingStart(count, deleted - 1);
      assert Deleting(count, deleted)[..count + 2] == Deleting(count, deleted - 1)[..count + 2];
      assert Deleting(count, deleted)[..count + 1] == Deleting(count, deleted - 1)[..count + 1];
    }
  }

  // ---------- deletions that stopped ----------

  /** A candidate whose deletion is complete is never called about again. */
  lemma DeletedStaysDeleted(state: State, trace: seq<Event>, count: nat, k: nat, i: nat)
    requires StoppedAtDelete(trace, count, k) && Reflects(state, trace, count) && i < k
    ensures state.locations[i] == Deleted
  {
    hide Replay;
    var at := count + 2 + k;
    var events := trace[at + 1..];
    forall j | at < j < |trace| ensures !AboutCandidate(trace[j].call, i) {
      assert trace[j] == events[j - at - 1];
      DeleteRollbackCalls(events, count, k, trace[at].verdict == Unchanged, j - at - 1);
    }
    forall j | 0 <= j < at ensures trace[j].verdict == Done {
      DeletingElements(count, k, j);
      assert trace[j] == trace[..at][j];
      if j <= count {
        ForwardElements(count, j);
      }
    }
    assert SureOfCandidate(trace, i);
    ReplayDeleting(count, k);
    ReplaySame(trace, at, count, i);
  }

  lemma DeleteRollbackCalls(events: seq<Event>, count: nat, k: nat, intact: bool, j: nat)
    requires IsDeleteRollback(events, count, k, intact) && j < |events|
    ensures var call := events[j].call;
      || call == RemoveQuarantine
      || (call == RollbackBcd && k == 0)
      || (call.RestoreCandidate? && call.index >= (if intact then k else k + 1))
  {
    var from := if intact then k else k + 1;
    if k == 0 && intact && AllDone(events[..count - from]) {
      if j < |events| - 1 {
        assert events[j] == events[..|events| - 1][j];
        RollbackCalls(events[..|events| - 1], from, count, true, j);
      }
    } else {
      RollbackCalls(events, from, count, intact, j);
    }
  }

  lemma RollbackCalls(events: seq<Event>, from: nat, to: nat, cleanup: bool, j: nat)
    requires IsRollback(events, from, to, cleanup) && j < |events|
    ensures events[j].call == RemoveQuarantine
         || (events[j].call.RestoreCandidate? && from <= events[j].call.index < to)
  {
    if !Restores(events, from, to) && j < |events| - 1 {
      assert events[j] == events[..|events| - 1][j];
    }
  }

  /** Calls about other things leave the replayed place alone. */
  lemma {:induction false} ReplaySame(trace: seq<Event>, at: nat, count: nat, i: nat)
    requires at <= |trace| && i < count
    requires forall j :: at <= j < |trace| ==> !AboutCandidate(trace[j].call, i)
    ensures Replay(trace, count).locations[i] == Replay(trace[..at], count).locations[i]
    decreases |trace|
  {
    if at < |trace| {
      var front := trace[..|trace| - 1];
      ReplaySame(front, at, count, i);
      assert front[..at] == trace[..at];
    } else {
      assert trace[..at] == trace;
    }
  }

  /** What can be known of a candidate behind the failed deletion. */
  lemma IntactSurvives(state: State, trace: seq<Event>, count: nat, k: nat, i: nat)
    requires StoppedAtDelete(trace, count, k) && Reflects(state, trace, count)
    requires k <= i < count && SureOfCandidate(trace, i)
    ensures state.locations[i] == Original || state.locations[i] == Quarantined
    ensures state.locations[i] == Original <==> Event(RestoreCandidate(i), Done) in trace
  {
    hide Replay;
    var at := count + 2 + k;
    ReplayDeleting(count, k);
    assert trace[..at] == Deleting(count, k);
    forall j | 0 <= j < at ensures trace[j].call != RestoreCandidate(i) {
      DeletingElements(count, k, j);
      assert trace[j] == trace[..at][j];
      if j <= count {
        ForwardElements(count, j);
      }
    }
    var events := trace[at + 1..];
    forall j | at < j < |trace| ensures !trace[j].call.MoveCandidate? && !trace[j].call.DeleteCandidate? {
      assert trace[j] == events[j - at - 1];
      DeleteRollbackCalls(events, count, k, trace[at].verdict == Unchanged, j - at - 1);
    }
    ReplayFrom(trace, at, count, i, |trace|);
    assert trace[..|trace|] == trace;
  }

  /** Behind the failed deletion, only a restore that worked moves the candidate. */
  lemma {:induction false} ReplayFrom(trace: seq<Event>, at: nat, count: nat, i: nat, n: nat)
    requires at <= n <= |trace| && i < count && at < |trace| && trace[at].verdict != Done
    requires Replay(trace[..at], count).locations[i] == Quarantined
    requires forall j :: at < j < |trace| ==> !trace[j].call.MoveCandidate? && !trace[j].call.DeleteCandidate?
    ensures var location := Replay(trace[..n], count).locations[i];
      && (location == Original || location == Quarantined)
      && (location == Original <==> exists j :: at <= j < n && trace[j] == Event(RestoreCandidate(i), Done))
    decreases n
  {
    if n > at {
      ReplayFrom(trace, at, count, i, n - 1);
      assert trace[..n][..n - 1] == trace[..n - 1];
      ReplayStep(trace[..n], count);
    }
  }

  /**
   After a deletion that failed at candidate `k`, exactly the candidates before
   `k` are deleted. The later ones exist, as far as their restores were not
   doubtful, and those that were restored are back in their place.
   */
  lemma FailedDeleteIsExact(state: State, trace: seq<Event>, count: nat, k: nat)
    requires StoppedAtDelete(trace, count, k) && Reflects(state, trace, count)
    ensures forall i :: 0 <= i < k ==> state.locations[i] == Deleted
    ensures forall i :: k <= i < count && SureOfCandidate(trace, i) ==>
      && state.locations[i] != Deleted
      && (state.locations[i] == Original <==> Event(RestoreCandidate(i), Done) in trace)
  {
    hide Replay, IsDeleteRollback, SureOfCandidate;
    forall i | 0 <= i < k ensures state.locations[i] == Deleted {
      DeletedStaysDeleted(state, trace, count, k, i);
    }
    forall i | k <= i < count && SureOfCandidate(trace, i)
      ensures state.locations[i] != Deleted
      ensures state.locations[i] == Original <==> Event(RestoreCandidate(i), Done) in trace
    {
      IntactSurvives(state, trace, count, k, i);
    }
  }

  /** Once all deletions worked, all candidates are deleted, however the rest goes. */
  lemma FinishedDeletesAreTrue(state: State, trace: seq<Event>, count: nat)
    requires StoppedAfterDelete(trace, count) && Reflects(state, trace, count)
    ensures AllAt(state, Deleted)
    ensures OutcomeOf(trace) == QuarantineCleanupIncomplete ==> state.store == Committed
  {
    hide Replay;
    var at := 2 * count + 2;
    ReplayDeleting(count, count);
    assert trace[..at] == Deleting(count, count);
    forall i | 0 <= i < count ensures state.locations[i] == Deleted {
      forall j | 0 <= j < |trace| && AboutCandidate(trace[j].call, i) ensures !Doubtful(trace[j]) {
        FinishedElements(trace, count, j);
      }
      ReplaySame(trace, at, count, i);
    }
    if OutcomeOf(trace) == QuarantineCleanupIncomplete {
      forall j | 0 <= j < |trace| && AboutStore(trace[j].call) ensures !Doubtful(trace[j]) {
        FinishedElements(trace, count, j);
        assert trace[at] == Event(CommitBcd, Done) || FailsAt(trace, CommitBcd);
      }
      assert trace[at] == Event(CommitBcd, Done) || FailsAt(trace, CommitBcd);
      assert trace[..at + 1][..at] == trace[..at];
      ReplayStep(trace[..at + 1], count);
      assert trace[..at + 2] == trace && trace[..at + 2][..at + 1] == trace[..at + 1];
      ReplayStep(trace, count);
    }
  }

  lemma FinishedElements(trace: seq<Event>, count: nat, j: nat)
    requires StoppedAfterDelete(trace, count) && j < |trace|
    ensures j < 2 * count + 2 ==> trace[j].verdict == Done
    ensures j == 2 * count + 2 ==> trace[j].call == CommitBcd
    ensures j > 2 * count + 2 ==> trace[j].call == RemoveQuarantine
  {
    if j < 2 * count + 2 {
      DeletingElements(count, count, j);
      assert trace[j] == trace[..2 * count + 2][j];
      if j <= count {
        ForwardElements(count, j);
      }
    }
  }

  // ---------- the Windows adapter ----------

  /** The adapter removes the quarantine only when it has seen every candidate deleted. */
  predicate RemovesOnlyAfterDeletion(trace: seq<Event>, count: nat) {
    forall j :: 0 <= j < |trace| && trace[j] == Event(RemoveQuarantine, Done) ==>
      forall i :: 0 <= i < count ==> AttemptedDelete(trace, j, i)
  }

  predicate AttemptedDelete(trace: seq<Event>, j: nat, i: nat)
    requires j <= |trace|
  {
    exists h :: 0 <= h < j && trace[h].call == DeleteCandidate(i) && trace[h].verdict != Unchanged
  }

  lemma CleanStopDeletesNothing(trace: seq<Event>, count: nat, h: nat)
    requires Protocol(trace, count) && CleanlyStopped(trace) && h < |trace| && trace[h].call.DeleteCandidate?
    ensures trace[h].verdict == Unchanged
  {
    hide IsRollback, IsDeleteRollback;
    var at := CleanStopShape(trace, count);
    if at >= 1 && at - 1 < count && StoppedAtMove(trace, count, at - 1) {
      MoveStopHasNoDelete(trace, count, at - 1, h);
    } else if at == count + 1 && StoppedAtRebuild(trace, count) {
      RebuildStopHasNoDelete(trace, count, h);
    } else {
      DeletesComeLast(trace, count, h);
      if h > at {
        var events := trace[at + 1..];
        assert trace[h] == events[h - at - 1];
        DeleteRollbackCalls(events, count, 0, true, h - at - 1);
      }
    }
  }

  /** Under that adapter no run with a candidate ends rolled back: the last step of a rollback is never possible. */
  lemma RolledBackUnreachable(trace: seq<Event>, count: nat)
    requires count > 0 && Protocol(trace, count) && RemovesOnlyAfterDeletion(trace, count)
    ensures OutcomeOf(trace) != RolledBack
  {
    if OutcomeOf(trace) == RolledBack {
      var j := RemovedAt(trace, count);
      assert AttemptedDelete(trace, j, 0);
      var h :| 0 <= h < j && trace[h].call == DeleteCandidate(0) && trace[h].verdict != Unchanged;
      CleanStopDeletesNothing(trace, count, h);
    }
  }

  lemma RemovedAt(trace: seq<Event>, count: nat) returns (j: nat)
    requires Protocol(trace, count) && CleanlyStopped(trace)
    ensures j < |trace| && trace[j] == Event(RemoveQuarantine, Done)
  {
    hide Protocol, IsRollback;
    var at := CleanStopShape(trace, count);
    RestDone(trace, at);
    var events := trace[at + 1..];
    if at >= 1 && at - 1 < count && StoppedAtMove(trace, count, at - 1) {
      CompleteRollback(events, 0, at - 1);
      j := |trace| - 1;
    } else if at == count + 1 && StoppedAtRebuild(trace, count) {
      CompleteRollback(events, 0, count);
      j := |trace| - 1;
    } else {
      CleanStopAtDelete(trace, count);
      j := 2 * count + 3;
    }
  }
}
