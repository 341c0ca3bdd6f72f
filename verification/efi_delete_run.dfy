/** The deletion transaction at work on a platform that may answer anything. */
module EfiDeleteRun {
  import opened EfiDelete

  /**
   The platform: its answers, and what a doubtful call leaves behind, are fixed
   by the number of the call and otherwise arbitrary.
   */
  class Platform {
    const count: nat
    const answers: nat -> StepResult
    const aftermath: nat -> State
    const identityValid: bool
    var state: State
    var calls: nat
    ghost var trace: seq<Event>

    constructor (count: nat, answers: nat -> StepResult, aftermath: nat -> State, identityValid: bool)
      ensures Valid() && trace == [] && this.count == count && state == Initial(count)
    {
      this.count := count;
      this.answers := answers;
      this.aftermath := aftermath;
      this.identityValid := identityValid;
      state := Initial(count);
      calls := 0;
      trace := [];
    }

    ghost predicate Valid()
      reads this
    {
      && Reflects(state, trace, count)
      && calls == |trace| && Answered(Verdicts(), trace)
    }

    /** What the answers of a run prove, the first call being the creation of the quarantine. */
    function Verdicts(): nat -> Verdict {
      (n: nat) => if n == 0 then VerdictOf(CreateQuarantine, answers(0)) else Judge(answers(n))
    }

    /** A quarantine without a proper identity does not count as created. */
    function VerdictOf(call: Call, step: StepResult): Verdict {
      if call == CreateQuarantine && Judge(step) == Done && !identityValid then Violation else Judge(step)
    }

    method Perform(call: Call) returns (step: StepResult)
      requires Valid() && (call == CreateQuarantine <==> trace == [])
      modifies this
      ensures Valid()
      ensures trace == old(trace) + [Event(call, VerdictOf(call, step))]
    {
      step := answers(calls);
      var verdict := VerdictOf(call, step);
      ReflectsNext(state, trace, count, Event(call, verdict), aftermath(calls));
      state := if verdict == Done then Performed(state, call)
               else if verdict == Unchanged then state
               else Disturbed(state, call, aftermath(calls));
      calls := calls + 1;
      trace := trace + [Event(call, verdict)];
    }
  }

  /** The verdicts of the trace are those of the first calls. */
  ghost predicate Answered(verdicts: nat -> Verdict, trace: seq<Event>) {
    forall j :: 0 <= j < |trace| ==> trace[j].verdict == verdicts(j)
  }

  // ---------- the report ----------

  datatype Stage =
    | NoStage | ConfirmationStage | FreshInspection | TargetIdentity | TreeManifest | QuarantinePrepare | QuarantineMove
    | BcdRebuild | BcdCommit | RollbackStage | FinalDelete | QuarantineCleanup | PlatformContract

  datatype Report = Report(
    outcome: Outcome,
    stage: Stage,
    quarantined: nat,
    restored: nat,
    deleted: nat,
    targetReidentified: bool,
    manifestVerified: bool,
    allQuarantined: bool,
    rebuildVerified: bool,
    rebuildRolledBack: bool,
    boundaryCommitted: bool,
    storeRolledBack: bool)

  function EmptyReport(): Report {
    Report(StoppedBeforeMutation, NoStage, 0, 0, 0, false, false, false, false, false, false, false)
  }

  predicate SameKind(a: Call, b: Call) {
    match a
    case MoveCandidate(_) => b.MoveCandidate?
    case RestoreCandidate(_) => b.RestoreCandidate?
    case DeleteCandidate(_) => b.DeleteCandidate?
    case _ => a == b
  }

  /** How many calls of this kind worked. */
  function Tally(trace: seq<Event>, kind: Call): nat
    decreases |trace|
  {
    if |trace| == 0 then 0
    else
      var last := trace[|trace| - 1];
      Tally(trace[..|trace| - 1], kind) + (if last.verdict == Done && SameKind(last.call, kind) then 1 else 0)
  }

  lemma {:induction false} TallySplits(a: seq<Event>, b: seq<Event>, kind: Call)
    ensures Tally(a + b, kind) == Tally(a, kind) + Tally(b, kind)
    decreases |b|
  {
    if |b| > 0 {
      assert (a + b)[..|a + b| - 1] == a + b[..|b| - 1];
      TallySplits(a, b[..|b| - 1], kind);
    } else {
      assert a + b == a;
    }
  }

  lemma TallyOne(e: Event, kind: Call)
    ensures Tally([e], kind) == if e.verdict == Done && SameKind(e.call, kind) then 1 else 0
  {
    assert [e][..0] == [];
  }

  predicate Violates(events: seq<Event>) {
    exists j :: 0 <= j < |events| && events[j].verdict == Violation
  }

  /** The stage that a run failed in. */
  function StageOf(trace: seq<Event>): Stage
  {
    if FailsAt(trace, CreateQuarantine) then
      if Event(CreateQuarantine, Violation) in trace then PlatformContract else QuarantinePrepare
    else if FailsAt(trace, CommitBcd) then BcdCommit
    else if Commits(trace) then if AllDone(trace) then NoStage else QuarantineCleanup
    else if FailsAtDelete(trace) then if FailsAt(trace, RollbackBcd) then RollbackStage else FinalDelete
    else if ViolatesInRollback(trace) then RollbackStage
    else if FailsAt(trace, RebuildBcd) then BcdRebuild
    else QuarantineMove
  }

  predicate FailsAtDelete(trace: seq<Event>) {
    exists j :: 0 <= j < |trace| && trace[j].call.DeleteCandidate? && trace[j].verdict != Done
  }

  predicate ViolatesInRollback(trace: seq<Event>) {
    exists j :: 0 <= j < |trace| && trace[j].verdict == Violation
                && (trace[j].call.RestoreCandidate? || trace[j].call == RemoveQuarantine)
  }

  /** The counters and flags of the report say what happened. */
  predicate Tells(report: Report, trace: seq<Event>, count: nat) {
    && report.outcome == OutcomeOf(trace)
    && report.stage == StageOf(trace)
    && report.quarantined == Tally(trace, MoveCandidate(0))
    && report.restored == Tally(trace, RestoreCandidate(0))
    && report.deleted == Tally(trace, DeleteCandidate(0))
    && (report.rebuildVerified <==> Event(RebuildBcd, Done) in trace)
    && (report.rebuildRolledBack <==> Event(RebuildBcd, Unchanged) in trace)
    && (report.boundaryCommitted <==> Event(CommitBcd, Done) in trace)
    && (report.storeRolledBack <==> Event(RollbackBcd, Done) in trace)
  }

  datatype Summary = Summary(complete: bool, violation: bool, restored: nat)

  // ---------- rollback ----------

  /** Brings the candidates back, the last one first; a failure does not stop the others. */
  method RollbackQuarantined(indices: seq<nat>, cleanupAllowed: bool, platform: Platform, ghost from: nat, ghost to: nat)
    returns (summary: Summary, ghost events: seq<Event>)
    requires platform.Valid() && platform.trace != []
    requires from <= to && |indices| == to - from && forall j :: 0 <= j < |indices| ==> indices[j] == from + j
    modifies platform
    ensures platform.Valid() && platform.trace == old(platform.trace) + events
    ensures IsRollback(events, from, to, cleanupAllowed)
    ensures summary.complete <==> AllDone(events)
    ensures summary.violation <==> Violates(events)
    ensures |events| >= |indices| && summary.restored == Tally(events, RestoreCandidate(0))
    ensures summary.restored == |indices| <==> AllDone(events[..|indices|])
  {
    hide Reflects, Answered, Tally;
    events := [];
    assert Tally(events, RestoreCandidate(0)) == 0 by {
      NoneTallied(events, RestoreCandidate(0));
    }
    assert platform.trace == old(platform.trace) + events;
    summary := Summary(true, false, 0);
    var cursor := |indices|;
    while cursor > 0
      invariant 0 <= cursor <= |indices| && |events| == |indices| - cursor
      invariant platform.Valid() && platform.trace == old(platform.trace) + events
      invariant forall j :: 0 <= j < |events| ==> events[j].call == RestoreCandidate(to - 1 - j)
      invariant summary.complete <==> AllDone(events)
      invariant summary.violation <==> Violates(events)
      invariant summary.restored == Tally(events, RestoreCandidate(0)) <= |events|
      invariant summary.restored == |events| <==> AllDone(events)
    {
      cursor := cursor - 1;
      var restored := platform.Perform(RestoreCandidate(indices[cursor]));
      ghost var e := Event(RestoreCandidate(indices[cursor]), Judge(restored));
      ghost var earlier := events;
      events := events + [e];
      TallySplits(earlier, [e], RestoreCandidate(0));
      TallyOne(e, RestoreCandidate(0));
      AppendEvent(earlier, e);
      if !ValidCompleted(restored) {
        summary := summary.(complete := false, violation := summary.violation || !ValidFailed(restored));
        continue;
      }
      summary := summary.(restored := summary.restored + 1);
    }
    assert Restores(events, from, to);
    assert events[..|indices|] == events;
    if cleanupAllowed && summary.complete && summary.restored == |indices| {
      var cleanup := platform.Perform(RemoveQuarantine);
      ghost var e := Event(RemoveQuarantine, Judge(cleanup));
      ghost var earlier := events;
      events := events + [e];
      assert events[..|indices|] == earlier && events[..|events| - 1] == earlier;
      TallySplits(earlier, [e], RestoreCandidate(0));
      TallyOne(e, RestoreCandidate(0));
      AppendEvent(earlier, e);
      if !ValidCompleted(cleanup) {
        summary := summary.(complete := false, violation := summary.violation || !ValidFailed(cleanup));
      }
    }
  }

  lemma AppendEvent(events: seq<Event>, e: Event)
    ensures AllDone(events + [e]) <==> AllDone(events) && e.verdict == Done
    ensures Violates(events + [e]) <==> Violates(events) || e.verdict == Violation
  {
    var longer := events + [e];
    assert longer[|events|] == e && forall j :: 0 <= j < |events| ==> longer[j] == events[j];
  }

  // ---------- counting ----------

  lemma {:induction false} NoneTallied(events: seq<Event>, kind: Call)
    requires forall j :: 0 <= j < |events| ==> events[j].verdict != Done || !SameKind(events[j].call, kind)
    ensures Tally(events, kind) == 0
    decreases |events|
  {
    if |events| > 0 {
      NoneTallied(events[..|events| - 1], kind);
    }
  }

  lemma {:induction false} ForwardTally(moved: nat)
    ensures Tally(Forward(moved), MoveCandidate(0)) == moved
    ensures Tally(Forward(moved), RestoreCandidate(0)) == Tally(Forward(moved), DeleteCandidate(0)) == 0
    decreases moved
  {
    if moved > 0 {
      ForwardTally(moved - 1);
      assert Forward(moved)[..moved] == Forward(moved - 1);
    } else {
      assert Forward(0)[..0] == [];
    }
  }

  lemma {:induction false} DeletingTally(count: nat, deleted: nat)
    ensures Tally(Deleting(count, deleted), MoveCandidate(0)) == count
    ensures Tally(Deleting(count, deleted), RestoreCandidate(0)) == 0
    ensures Tally(Deleting(count, deleted), DeleteCandidate(0)) == deleted
    decreases deleted
  {
    if deleted > 0 {
      DeletingTally(count, deleted - 1);
      assert Deleting(count, deleted)[..count + 1 + deleted] == Deleting(count, deleted - 1);
    } else {
      ForwardTally(count);
      assert Deleting(count, 0)[..count + 1] == Forward(count);
    }
  }

  /** The tallies of a run that failed once and then went into rollback. */
  lemma StoppedTally(front: seq<Event>, e: Event, events: seq<Event>, moved: nat, deleted: nat)
    requires Tally(front, MoveCandidate(0)) == moved && Tally(front, RestoreCandidate(0)) == 0
    requires Tally(front, DeleteCandidate(0)) == deleted
    requires e.verdict != Done
    requires forall j :: 0 <= j < |events| ==> RollbackCall(events[j].call)
    ensures var trace := front + [e] + events;
      && Tally(trace, MoveCandidate(0)) == moved
      && Tally(trace, DeleteCandidate(0)) == deleted
      && Tally(trace, RestoreCandidate(0)) == Tally(events, RestoreCandidate(0))
  {
    TallyAround(front, e, events, MoveCandidate(0));
    TallyAround(front, e, events, DeleteCandidate(0));
    TallyAround(front, e, events, RestoreCandidate(0));
    NoneTallied(events, MoveCandidate(0));
    NoneTallied(events, DeleteCandidate(0));
  }

  lemma TallyAround(front: seq<Event>, e: Event, events: seq<Event>, kind: Call)
    requires e.verdict != Done
    ensures Tally(front + [e] + events, kind) == Tally(front, kind) + Tally(events, kind)
  {
    TallySplits(front + [e], events, kind);
    TallySplits(front, [e], kind);
    TallyOne(e, kind);
  }

  predicate RollbackCall(call: Call) {
    call.RestoreCandidate? || call == RemoveQuarantine || call == RollbackBcd
  }

  // ---------- the outcome of each kind of run ----------

  /** Everything before the failed call worked. */
  predicate DoneUntil(trace: seq<Event>, at: nat) {
    && at < |trace|
    && trace[at].verdict != Done
    && (forall j :: 0 <= j < at ==> trace[j].verdict == Done && !RollbackCall(trace[j].call) && trace[j].call != CommitBcd)
    && (forall j :: at < j < |trace| ==> RollbackCall(trace[j].call))
  }

  lemma StoppedOutcome(trace: seq<Event>, at: nat)
    requires DoneUntil(trace, at) && 0 < at && trace[at].call != CreateQuarantine
    requires trace[at].call.MoveCandidate? || trace[at].call == RebuildBcd || trace[at].call.DeleteCandidate?
    ensures var e, rest := trace[at], trace[at + 1..];
      var doubtfulDelete := e.call.DeleteCandidate? && (e.call.index > 0 || e.verdict != Unchanged);
      && OutcomeOf(trace) == (if doubtfulDelete then PartialDelete
                              else if e.verdict == Unchanged && AllDone(rest) then RolledBack
                              else PartialRollback)
      && StageOf(trace) == (if e.call.DeleteCandidate? then if FailsAt(rest, RollbackBcd) then RollbackStage else FinalDelete
                            else if ViolatesInRollback(rest) then RollbackStage
                            else if e.call == RebuildBcd then BcdRebuild
                            else QuarantineMove)
  {
    var e, rest := trace[at], trace[at + 1..];
    assert forall j :: at < j < |trace| ==> trace[j] == rest[j - at - 1];
    assert forall j :: 0 <= j < |rest| ==> rest[j] == trace[j + at + 1];
    assert !AllDone(trace) && !FailsAt(trace, CommitBcd) && !Commits(trace) && !FailsAt(trace, CreateQuarantine);
    StoppedFailures(trace, at);
    assert Event(CreateQuarantine, Unchanged) != e;
    if e.verdict == Unchanged && AllDone(rest) {
      assert OneUnchanged(trace, at);
    }
    if CleanlyStopped(trace) {
      var a :| 0 <= a < |trace| && OneUnchanged(trace, a) && Retractable(trace[a].call);
      SameFailure(trace, a, at);
      RestDone(trace, at);
    }
  }

  lemma StoppedFailures(trace: seq<Event>, at: nat)
    requires DoneUntil(trace, at)
    ensures var e, rest := trace[at], trace[at + 1..];
      && (FailsAtDelete(trace) <==> e.call.DeleteCandidate?)
      && (DeletesInPart(trace) <==> e.call.DeleteCandidate? && (e.call.index > 0 || e.verdict != Unchanged))
      && (FailsAt(trace, RebuildBcd) <==> e.call == RebuildBcd)
      && (e.call.DeleteCandidate? ==> (FailsAt(trace, RollbackBcd) <==> FailsAt(rest, RollbackBcd)))
      && (!RollbackCall(e.call) ==> (ViolatesInRollback(trace) <==> ViolatesInRollback(rest)))
  {
    var e, rest := trace[at], trace[at + 1..];
    assert forall j :: at < j < |trace| ==> trace[j] == rest[j - at - 1];
    assert forall j :: 0 <= j < |rest| ==> rest[j] == trace[j + at + 1];
  }

  lemma ForwardIsDone(moved: nat)
    ensures AllDone(Forward(moved))
    ensures forall j :: 0 <= j < |Forward(moved)| ==>
      Forward(moved)[j].call == CreateQuarantine || Forward(moved)[j].call.MoveCandidate?
  {
    forall j | 0 <= j < |Forward(moved)|
      ensures Forward(moved)[j].verdict == Done
      ensures Forward(moved)[j].call == CreateQuarantine || Forward(moved)[j].call.MoveCandidate?
    {
      ForwardElements(moved, j);
    }
  }

  lemma DeletingIsDone(count: nat, deleted: nat)
    ensures AllDone(Deleting(count, deleted))
    ensures forall j :: 0 <= j < |Deleting(count, deleted)| ==>
      !RollbackCall(Deleting(count, deleted)[j].call) && Deleting(count, deleted)[j].call != CommitBcd
    ensures Deleting(count, deleted)[count + 1] == Event(RebuildBcd, Done)
  {
    forall j | 0 <= j < |Deleting(count, deleted)|
      ensures Deleting(count, deleted)[j].verdict == Done
      ensures !RollbackCall(Deleting(count, deleted)[j].call) && Deleting(count, deleted)[j].call != CommitBcd
    {
      DeletingElements(count, deleted, j);
      if j <= count {
        ForwardElements(count, j);
      }
    }
    DeletingElements(count, deleted, count + 1);
  }

  lemma RollbackCallsOnly(events: seq<Event>, from: nat, to: nat, cleanup: bool)
    requires IsRollback(events, from, to, cleanup)
    ensures forall j :: 0 <= j < |events| ==> RollbackCall(events[j].call) && events[j].call != RollbackBcd
    ensures Violates(events) <==> ViolatesInRollback(events)
  {
    forall j | 0 <= j < |events| ensures RollbackCall(events[j].call) && events[j].call != RollbackBcd {
      RollbackCalls(events, from, to, cleanup, j);
    }
  }

  /** A run in three parts: what worked, the call that failed, what followed. */
  lemma PartsOfRun(front: seq<Event>, e: Event, rest: seq<Event>)
    requires AllDone(front) && e.verdict != Done
    requires forall j :: 0 <= j < |front| ==> !RollbackCall(front[j].call) && front[j].call != CommitBcd
    requires forall j :: 0 <= j < |rest| ==> RollbackCall(rest[j].call)
    ensures var trace := front + [e] + rest;
      && DoneUntil(trace, |front|)
      && trace[..|front|] == front && trace[|front|] == e && trace[|front| + 1..] == rest
  {
    var trace := front + [e] + rest;
    assert forall j :: 0 <= j < |front| ==> trace[j] == front[j];
    assert forall j :: |front| < j < |trace| ==> trace[j] == rest[j - |front| - 1];
    assert trace[..|front|] == front && trace[|front| + 1..] == rest;
  }

  // ---------- the failed calls ----------

  /** What was established before the failed call stays in the report. */
  predicate SameProgress(r: Report, report: Report) {
    && r.targetReidentified == report.targetReidentified && r.manifestVerified == report.manifestVerified
    && r.allQuarantined == report.allQuarantined
  }

  /** A candidate could not be quarantined: the earlier ones come back. */
  method StopAtMove(report: Report, moved: StepResult, k: nat, platform: Platform) returns (r: Report)
    requires platform.Valid() && k < platform.count
    requires platform.trace == Forward(k) + [Event(MoveCandidate(k), Judge(moved))] && Judge(moved) != Done
    requires report == EmptyReport().(quarantined := k, targetReidentified := true, manifestVerified := true)
    modifies platform
    ensures platform.Valid() && StoppedAtMove(platform.trace, platform.count, k) && platform.trace != []
    ensures Tells(r, platform.trace, platform.count) && SameProgress(r, report)
  {
    hide Reflects, Replay, IsRollback, Tally, OutcomeOf, StageOf, Violates, ViolatesInRollback, Answered,
      Platform.Valid;
    ghost var e := Event(MoveCandidate(k), Judge(moved));
    var certain := Judge(moved) == Unchanged;
    var indices := seq(k, i requires 0 <= i < k => i);
    var summary, events := RollbackQuarantined(indices, certain, platform, 0, k);
    r := report.(restored := summary.restored,
                 stage := if summary.violation then RollbackStage else QuarantineMove,
                 outcome := if certain && summary.complete then RolledBack else PartialRollback);
    ForwardIsDone(k);
    RollbackCallsOnly(events, 0, k, certain);
    PartsOfRun(Forward(k), e, events);
    StoppedOutcome(platform.trace, k + 1);
    ForwardTally(k);
    StoppedTally(Forward(k), e, events, k, 0);
  }

  /** The boot store could not be rebuilt: all candidates come back. */
  method StopAtRebuild(report: Report, rebuilt: StepResult, platform: Platform) returns (r: Report)
    requires platform.Valid()
    requires platform.trace == Forward(platform.count) + [Event(RebuildBcd, Judge(rebuilt))] && Judge(rebuilt) != Done
    requires report == EmptyReport().(quarantined := platform.count, targetReidentified := true, manifestVerified := true,
                                      allQuarantined := true)
    modifies platform
    ensures platform.Valid() && StoppedAtRebuild(platform.trace, platform.count) && platform.trace != []
    ensures Tells(r, platform.trace, platform.count) && SameProgress(r, report)
  {
    hide Reflects, Replay, IsRollback, Tally, OutcomeOf, StageOf, Violates, ViolatesInRollback, Answered,
      Platform.Valid, StoppedAtRebuild, Forward, AllDone;
    ghost var e := Event(RebuildBcd, Judge(rebuilt));
    var count := platform.count;
    var rolledBack := Judge(rebuilt) == Unchanged;
    var indices := seq(count, i requires 0 <= i < count => i);
    var summary, events := RollbackQuarantined(indices, true, platform, 0, count);
    r := report.(restored := summary.restored,
                 rebuildRolledBack := rolledBack,
                 stage := if summary.violation then RollbackStage else BcdRebuild,
                 outcome := if rolledBack && summary.complete then RolledBack else PartialRollback);
    RebuildStopTells(count, e, events);
  }

  lemma RebuildStopTells(count: nat, e: Event, rest: seq<Event>)
    requires e.call == RebuildBcd && e.verdict != Done && IsRollback(rest, 0, count, true)
    ensures var trace := Forward(count) + [e] + rest;
      && StoppedAtRebuild(trace, count)
      && OutcomeOf(trace) == (if e.verdict == Unchanged && AllDone(rest) then RolledBack else PartialRollback)
      && StageOf(trace) == (if Violates(rest) then RollbackStage else BcdRebuild)
      && Tally(trace, MoveCandidate(0)) == count && Tally(trace, DeleteCandidate(0)) == 0
      && Tally(trace, RestoreCandidate(0)) == Tally(rest, RestoreCandidate(0))
      && Event(RebuildBcd, Done) !in trace && (Event(RebuildBcd, Unchanged) in trace <==> e.verdict == Unchanged)
      && Event(CommitBcd, Done) !in trace && Event(RollbackBcd, Done) !in trace
  {
    hide IsRollback, Tally, OutcomeOf, StageOf, Violates, ViolatesInRollback;
    ForwardIsDone(count);
    RollbackCallsOnly(rest, 0, count, true);
    PartsOfRun(Forward(count), e, rest);
    StoppedOutcome(Forward(count) + [e] + rest, count + 1);
    ForwardTally(count);
    StoppedTally(Forward(count), e, rest, count, 0);
  }

  /** A deletion did not work: the candidates that are left come back, and if none is gone, so does the boot store. */
  method StopAtDelete(report: Report, removed: StepResult, k: nat, platform: Platform) returns (r: Report)
    requires platform.Valid() && k < platform.count
    requires platform.trace == Deleting(platform.count, k) + [Event(DeleteCandidate(k), Judge(removed))]
    requires Judge(removed) != Done
    requires report == EmptyReport().(quarantined := platform.count, targetReidentified := true, manifestVerified := true,
                                      allQuarantined := true, rebuildVerified := true, deleted := k)
    modifies platform
    ensures platform.Valid() && StoppedAtDelete(platform.trace, platform.count, k) && platform.trace != []
    ensures Tells(r, platform.trace, platform.count) && SameProgress(r, report)
  {
    hide Reflects, Replay, IsRollback, Tally, OutcomeOf, StageOf, Violates, Deleting, IsDeleteRollback, StoppedAtDelete,
         FailsAt, AllDone;
    var count := platform.count;
    var intact := Judge(removed) == Unchanged;
    var first := if intact then k else k + 1;
    var indices := seq(count - first, i requires 0 <= i < count - first => first + i);
    var summary, events := RollbackQuarantined(indices, intact, platform, first, count);
    r := report.(restored := summary.restored, stage := FinalDelete);
    WithoutStoreRollback(events, count, k, intact);
    ghost var rest := events;
    if report.deleted != 0 || !intact {
      r := r.(outcome := PartialDelete);
    } else if summary.restored == |indices| {
      var storeRollback := platform.Perform(RollbackBcd);
      ghost var last := Event(RollbackBcd, Judge(storeRollback));
      rest := events + [last];
      AppendStoreRollback(events, last, count);
      if ValidCompleted(storeRollback) {
        r := r.(storeRolledBack := true, outcome := if summary.complete then RolledBack else PartialRollback);
      } else {
        r := r.(stage := RollbackStage, outcome := PartialRollback);
      }
    } else {
      r := r.(outcome := PartialRollback);
      SomeNotDone(events, count);
    }
    assert platform.trace == Deleting(count, k) + [Event(DeleteCandidate(k), Judge(removed))] + rest;
    DeleteStopTells(count, k, Event(DeleteCandidate(k), Judge(removed)), rest);
  }

  lemma SomeNotDone(events: seq<Event>, n: nat)
    requires n <= |events| && !AllDone(events[..n])
    ensures !AllDone(events)
  {
  }

  lemma WithoutStoreRollback(events: seq<Event>, count: nat, k: nat, intact: bool)
    requires k < count && IsRollback(events, if intact then k else k + 1, count, intact)
    ensures var from := if intact then k else k + 1;
      && count - from <= |events|
      && !FailsAt(events, RollbackBcd) && Event(RollbackBcd, Done) !in events
      && (!(k == 0 && intact && AllDone(events[..count - from])) ==> IsDeleteRollback(events, count, k, intact))
  {
    hide IsRollback, AllDone;
    var from := if intact then k else k + 1;
    RollbackCallsOnly(events, from, count, intact);
    RollbackLength(events, from, count, intact);
  }

  lemma RollbackLength(events: seq<Event>, from: nat, to: nat, cleanup: bool)
    requires IsRollback(events, from, to, cleanup)
    ensures from <= to && to - from <= |events|
  {
  }

  lemma DeleteStopTells(count: nat, k: nat, e: Event, rest: seq<Event>)
    requires k < count && e.call == DeleteCandidate(k) && e.verdict != Done
    requires IsDeleteRollback(rest, count, k, e.verdict == Unchanged)
    ensures var trace := Deleting(count, k) + [e] + rest;
      && StoppedAtDelete(trace, count, k)
      && OutcomeOf(trace) == (if k > 0 || e.verdict != Unchanged then PartialDelete
                              else if AllDone(rest) then RolledBack else PartialRollback)
      && StageOf(trace) == (if FailsAt(rest, RollbackBcd) then RollbackStage else FinalDelete)
      && Tally(trace, MoveCandidate(0)) == count && Tally(trace, DeleteCandidate(0)) == k
      && Tally(trace, RestoreCandidate(0)) == Tally(rest, RestoreCandidate(0))
      && Event(RebuildBcd, Done) in trace && Event(RebuildBcd, Unchanged) !in trace && Event(CommitBcd, Done) !in trace
      && (Event(RollbackBcd, Done) in trace <==> Event(RollbackBcd, Done) in rest)
  {
    hide Tally, OutcomeOf, StageOf, Violates, ViolatesInRollback, Deleting, IsDeleteRollback;
    var trace := Deleting(count, k) + [e] + rest;
    forall j | 0 <= j < |rest| ensures RollbackCall(rest[j].call) {
      DeleteRollbackCalls(rest, count, k, e.verdict == Unchanged, j);
    }
    DeletingIsDone(count, k);
    PartsOfRun(Deleting(count, k), e, rest);
    StoppedOutcome(trace, count + 2 + k);
    DeletingTally(count, k);
    StoppedTally(Deleting(count, k), e, rest, count, k);
    assert trace[count + 1] == Deleting(count, k)[count + 1];
  }

  lemma AppendStoreRollback(events: seq<Event>, last: Event, count: nat)
    requires last.call == RollbackBcd && |events| >= count && AllDone(events[..count])
    requires IsRollback(events, 0, count, true)
    ensures IsDeleteRollback(events + [last], count, 0, true)
    ensures AllDone(events + [last]) <==> AllDone(events) && last.verdict == Done
    ensures Tally(events + [last], RestoreCandidate(0)) == Tally(events, RestoreCandidate(0))
    ensures FailsAt(events + [last], RollbackBcd) <==> last.verdict != Done
    ensures Event(RollbackBcd, Done) in events + [last] <==> last.verdict == Done
  {
    hide IsRollback, AllDone, Tally, FailsAt;
    var rest := events + [last];
    AppendEvent(events, last);
    TallySplits(events, [last], RestoreCandidate(0));
    TallyOne(last, RestoreCandidate(0));
    RollbackCallsOnly(events, 0, count, true);
    assert rest[..|events|] == events && rest[..count] == events[..count];
    assert rest[|events|] == last;
    CleanupFollows(events, count);
    LastFails(events, last);
  }

  lemma CleanupFollows(events: seq<Event>, count: nat)
    requires IsRollback(events, 0, count, true) && |events| >= count && AllDone(events[..count])
    ensures |events| == count + 1
  {
    assert events[..|events|] == events;
  }

  lemma LastFails(events: seq<Event>, last: Event)
    requires forall j :: 0 <= j < |events| ==> events[j].call != last.call
    ensures FailsAt(events + [last], last.call) <==> last.verdict != Done
    ensures Event(last.call, Done) in events + [last] <==> last.verdict == Done
  {
    var rest := events + [last];
    assert rest[|events|] == last && forall j :: 0 <= j < |events| ==> rest[j] == events[j];
  }

  // ---------- the outcome in terms of the answers ----------

  ghost predicate AllWork(verdicts: nat -> Verdict, from: nat, to: nat) {
    forall n :: from <= n < to ==> verdicts(n) == Done
  }

  /** The first of the calls in front of `end` that does not do its work. */
  function FirstFailure(verdicts: nat -> Verdict, end: nat): (failed: nat)
    ensures failed <= end
    ensures forall n :: 0 <= n < failed ==> verdicts(n) == Done
    ensures failed < end ==> verdicts(failed) != Done
  {
    if end == 0 then 0
    else
      var failed := FirstFailure(verdicts, end - 1);
      if failed < end - 1 || verdicts(failed) != Done then failed else end
  }

  /**
   The outcome that the answers deserve. The calls of a run that works are: the quarantine, `count` moves, the
   rebuild, `count` deletions, the commit, and the removal of the quarantine. A run is rolled back exactly if the
   failed call changed nothing, was not behind a deletion, and every call of the rollback works.
   */
  ghost function OutcomeFrom(verdicts: nat -> Verdict, count: nat): Outcome {
    var failed := FirstFailure(verdicts, 2 * count + 4);
    var harmless := verdicts(failed) == Unchanged;
    if failed == 2 * count + 4 then CommittedOutcome
    else if failed == 2 * count + 3 then QuarantineCleanupIncomplete
    else if failed == 2 * count + 2 then BcdCleanupIncomplete
    else if failed > count + 2 || (failed == count + 2 && !harmless) then PartialDelete
    else if failed == 0 then if harmless then StoppedBeforeMutation else PartialRollback
    else
      var undoing := if failed == count + 2 then count + 2 else failed;
      if harmless && AllWork(verdicts, failed + 1, failed + 1 + undoing) then RolledBack else PartialRollback
  }

  lemma FailureAt(verdicts: nat -> Verdict, trace: seq<Event>, at: nat, end: nat)
    requires Answered(verdicts, trace) && at < |trace| && at < end
    requires AllDone(trace[..at]) && trace[at].verdict != Done
    ensures FirstFailure(verdicts, end) == at
  {
    forall n | 0 <= n < at ensures verdicts(n) == Done {
      assert trace[..at][n] == trace[n];
    }
    var failed := FirstFailure(verdicts, end);
  }

  /** Whether everything behind the failed call works, in terms of the answers. */
  lemma RestWorks(verdicts: nat -> Verdict, trace: seq<Event>, at: nat)
    requires Answered(verdicts, trace) && at < |trace|
    ensures AllDone(trace[at + 1..]) <==> AllWork(verdicts, at + 1, |trace|)
  {
    var rest := trace[at + 1..];
    assert forall j :: 0 <= j < |rest| ==> rest[j] == trace[j + at + 1];
    assert forall n :: at < n < |trace| ==> trace[n] == rest[n - at - 1];
  }

  /** A rollback has all its calls if all its calls work, and otherwise some call in it fails. */
  lemma RollbackInFull(events: seq<Event>, from: nat, to: nat)
    requires IsRollback(events, from, to, true)
    ensures |events| <= to - from + 1
    ensures AllDone(events) ==> |events| == to - from + 1
  {
    if AllDone(events) {
      CompleteRollback(events, from, to);
    }
  }

  lemma OutcomeAtMove(verdicts: nat -> Verdict, trace: seq<Event>, count: nat, k: nat)
    requires StoppedAtMove(trace, count, k) && Answered(verdicts, trace)
    ensures OutcomeOf(trace) == OutcomeFrom(verdicts, count)
  {
    hide IsRollback, OutcomeOf;
    var at, rest := k + 1, trace[k + 2..];
    StoppedAtForward(trace, k, at, MoveCandidate(k));
    FailureAt(verdicts, trace, at, 2 * count + 4);
    RollbackCallsOnly(rest, 0, k, trace[at].verdict == Unchanged);
    StopParts(trace, at);
    StoppedOutcome(trace, at);
    RestWorks(verdicts, trace, at);
    if trace[at].verdict == Unchanged {
      RollbackInFull(rest, 0, k);
    }
  }

  lemma StoppedAtForward(trace: seq<Event>, moved: nat, at: nat, call: Call)
    requires at == moved + 1 && at < |trace| && trace[..at] == Forward(moved) && trace[at].call == call
    ensures AllDone(trace[..at])
    ensures forall j :: 0 <= j < at ==> !RollbackCall(trace[j].call) && trace[j].call != CommitBcd
  {
    forall j | 0 <= j < at ensures trace[j].verdict == Done && !RollbackCall(trace[j].call) && trace[j].call != CommitBcd {
      ForwardElements(moved, j);
      assert trace[j] == trace[..at][j];
    }
  }

  lemma StoppedAtDeleting(trace: seq<Event>, count: nat, deleted: nat, at: nat)
    requires at == count + 2 + deleted && at <= |trace| && trace[..at] == Deleting(count, deleted)
    ensures AllDone(trace[..at])
    ensures forall j :: 0 <= j < at ==> !RollbackCall(trace[j].call) && trace[j].call != CommitBcd
  {
    forall j | 0 <= j < at ensures trace[j].verdict == Done && !RollbackCall(trace[j].call) && trace[j].call != CommitBcd {
      DeletingElements(count, deleted, j);
      assert trace[j] == trace[..at][j];
      if j <= count {
        ForwardElements(count, j);
      }
    }
  }

  lemma StopParts(trace: seq<Event>, at: nat)
    requires at < |trace| && AllDone(trace[..at]) && trace[at].verdict != Done
    requires forall j :: 0 <= j < at ==> !RollbackCall(trace[j].call) && trace[j].call != CommitBcd
    requires var rest := trace[at + 1..]; forall j :: 0 <= j < |rest| ==> RollbackCall(rest[j].call)
    ensures DoneUntil(trace, at)
  {
    AroundFailure(trace, at);
    PartsOfRun(trace[..at], trace[at], trace[at + 1..]);
  }

  lemma OutcomeAtRebuild(verdicts: nat -> Verdict, trace: seq<Event>, count: nat)
    requires StoppedAtRebuild(trace, count) && Answered(verdicts, trace)
    ensures OutcomeOf(trace) == OutcomeFrom(verdicts, count)
  {
    hide IsRollback, OutcomeOf;
    var at, rest := count + 1, trace[count + 2..];
    StoppedAtForward(trace, count, at, RebuildBcd);
    FailureAt(verdicts, trace, at, 2 * count + 4);
    RollbackCallsOnly(rest, 0, count, true);
    StopParts(trace, at);
    StoppedOutcome(trace, at);
    RestWorks(verdicts, trace, at);
    RollbackInFull(rest, 0, count);
  }

  lemma OutcomeAtDelete(verdicts: nat -> Verdict, trace: seq<Event>, count: nat, k: nat)
    requires StoppedAtDelete(trace, count, k) && Answered(verdicts, trace)
    ensures OutcomeOf(trace) == OutcomeFrom(verdicts, count)
  {
    hide IsDeleteRollback, OutcomeOf;
    var at, rest := count + 2 + k, trace[count + 3 + k..];
    StoppedAtDeleting(trace, count, k, at);
    FailureAt(verdicts, trace, at, 2 * count + 4);
    forall j | 0 <= j < |rest| ensures RollbackCall(rest[j].call) {
      DeleteRollbackCalls(rest, count, k, trace[at].verdict == Unchanged, j);
    }
    StopParts(trace, at);
    StoppedOutcome(trace, at);
    RestWorks(verdicts, trace, at);
    if k == 0 && trace[at].verdict == Unchanged {
      DeleteRollbackInFull(rest, count);
    }
  }

  lemma DeleteRollbackInFull(events: seq<Event>, count: nat)
    requires IsDeleteRollback(events, count, 0, true)
    ensures |events| <= count + 2
    ensures AllDone(events) ==> |events| == count + 2
  {
    hide IsRollback;
    if AllDone(events[..count]) {
      assert |events| == count + 2;
    } else {
      RollbackInFull(events, 0, count);
    }
  }

  lemma OutcomeAfterDelete(verdicts: nat -> Verdict, trace: seq<Event>, count: nat)
    requires StoppedAfterDelete(trace, count) && Answered(verdicts, trace)
    ensures OutcomeOf(trace) == OutcomeFrom(verdicts, count)
  {
    var at := 2 * count + 2;
    StoppedAtDeleting(trace, count, count, at);
    assert forall j :: 0 <= j < at ==> trace[..at][j] == trace[j];
    if trace[at].verdict != Done {
      FailureAt(verdicts, trace, at, 2 * count + 4);
    } else if trace[at + 1].verdict != Done {
      assert AllDone(trace[..at + 1]);
      FailureAt(verdicts, trace, at + 1, 2 * count + 4);
    } else {
      assert FirstFailure(verdicts, 2 * count + 4) == 2 * count + 4;
    }
  }

  /** The protocol leaves no choice: the outcome of a run is the one that its answers deserve. */
  lemma OutcomeFollows(verdicts: nat -> Verdict, trace: seq<Event>, count: nat)
    requires Protocol(trace, count) && trace != [] && Answered(verdicts, trace)
    ensures OutcomeOf(trace) == OutcomeFrom(verdicts, count)
  {
    hide OutcomeOf, OutcomeFrom, StoppedAtMove, StoppedAtRebuild, StoppedAtDelete, StoppedAfterDelete;
    if k :| 0 <= k < count && StoppedAtMove(trace, count, k) {
      OutcomeAtMove(verdicts, trace, count, k);
    } else if StoppedAtRebuild(trace, count) {
      OutcomeAtRebuild(verdicts, trace, count);
    } else if k :| 0 <= k < count && StoppedAtDelete(trace, count, k) {
      OutcomeAtDelete(verdicts, trace, count, k);
    } else if StoppedAfterDelete(trace, count) {
      OutcomeAfterDelete(verdicts, trace, count);
    } else {
      OutcomeAtCreate(verdicts, trace, count);
    }
  }

  lemma OutcomeAtCreate(verdicts: nat -> Verdict, trace: seq<Event>, count: nat)
    requires NotStarted(trace) && trace != [] && Answered(verdicts, trace)
    ensures OutcomeOf(trace) == OutcomeFrom(verdicts, count)
  {
    FailureAt(verdicts, trace, 0, 2 * count + 4);
  }

  // ---------- the transaction ----------

  /** What the inspection right before the transaction found. */
  datatype Inspection = InspectionFailed | TargetChanged | ManifestChanged | Matches

  method ExecuteEfiDelete(acknowledged: bool, token: string, inspection: Inspection, platform: Platform) returns (r: Report)
    requires platform.Valid() && platform.trace == []
    modifies platform
    ensures platform.Valid() && Protocol(platform.trace, platform.count)
    ensures platform.trace != [] <==> acknowledged && token == "OK" && inspection == Matches
    ensures platform.trace != [] ==> Tells(r, platform.trace, platform.count)
    ensures r.outcome == if acknowledged && token == "OK" && inspection == Matches
                         then OutcomeFrom(platform.Verdicts(), platform.count) else StoppedBeforeMutation
    ensures r.manifestVerified <==> platform.trace != []
    ensures r.allQuarantined <==> platform.trace != [] && AllWork(platform.Verdicts(), 0, platform.count + 1)
    ensures r.targetReidentified <==> acknowledged && token == "OK" && (inspection == Matches || inspection == ManifestChanged)
    ensures platform.trace == [] ==>
      r.stage == (if !acknowledged || token != "OK" then ConfirmationStage
                  else if inspection == InspectionFailed then FreshInspection
                  else if inspection == TargetChanged then TargetIdentity
                  else TreeManifest)
      && r.deleted == 0
    ensures r.outcome == CommittedOutcome ==>
      AllAt(platform.state, Deleted) && platform.state.store == Committed && platform.state.quarantine == Absent
    ensures r.outcome == RolledBack ==>
      AllAt(platform.state, Original) && platform.state.store == Prior && platform.state.quarantine == Absent
    ensures r.outcome == StoppedBeforeMutation ==> platform.state == Initial(platform.count)
    ensures r.outcome != FinalizationIncomplete
  {
    hide Reflects, Replay, Tally, StageOf, StoppedAtMove, StoppedAtRebuild, StoppedAtDelete, StoppedAfterDelete, Answered,
      OutcomeFrom;
    r := EmptyReport();
    if !acknowledged || token != "OK" {
      r := r.(stage := ConfirmationStage);
    } else if inspection == InspectionFailed {
      r := r.(stage := FreshInspection);
    } else if inspection == TargetChanged {
      r := r.(stage := TargetIdentity);
    } else if inspection == ManifestChanged {
      r := r.(targetReidentified := true, stage := TreeManifest);
    } else {
      r := QuarantineAndDelete(r.(targetReidentified := true, manifestVerified := true), platform);
      OutcomeFollows(platform.Verdicts(), platform.trace, platform.count);
    }
    var trace, count := platform.trace, platform.count;
    if OutcomeOf(trace) == CommittedOutcome {
      CommittedIsTrue(platform.state, trace, count);
    } else if OutcomeOf(trace) == RolledBack {
      RolledBackIsTrue(platform.state, trace, count);
    } else if OutcomeOf(trace) == StoppedBeforeMutation {
      StoppedIsTrue(platform.state, trace, count);
    }
  }

  lemma NotAllQuarantined(verdicts: nat -> Verdict, trace: seq<Event>, at: nat, count: nat)
    requires Answered(verdicts, trace) && at < |trace| && at <= count && trace[at].verdict != Done
    ensures !AllWork(verdicts, 0, count + 1)
  {
  }

  lemma MoveFailed(verdicts: nat -> Verdict, trace: seq<Event>, count: nat, k: nat)
    requires Answered(verdicts, trace) && StoppedAtMove(trace, count, k)
    ensures !AllWork(verdicts, 0, count + 1)
  {
    NotAllQuarantined(verdicts, trace, k + 1, count);
  }

  lemma ForwardWorked(verdicts: nat -> Verdict, trace: seq<Event>, count: nat)
    requires Answered(verdicts, trace) && trace == Forward(count)
    ensures AllWork(verdicts, 0, count + 1)
  {
    forall n | 0 <= n < count + 1 ensures verdicts(n) == Done {
      ForwardElements(count, n);
    }
  }

  method QuarantineAndDelete(report: Report, platform: Platform) returns (r: Report)
    requires platform.Valid() && platform.trace == []
    requires report == EmptyReport().(targetReidentified := true, manifestVerified := true)
    modifies platform
    ensures platform.Valid() && Protocol(platform.trace, platform.count) && platform.trace != []
    ensures Tells(r, platform.trace, platform.count) && r.targetReidentified && r.manifestVerified
    ensures r.allQuarantined <==> AllWork(platform.Verdicts(), 0, platform.count + 1)
  {
    hide Reflects, Replay, StoppedAtMove, StoppedAtRebuild, StoppedAtDelete, StoppedAfterDelete, Tells, AllWork, Answered;
    var count := platform.count;
    r := report;
    var created := platform.Perform(CreateQuarantine);
    var verdict := platform.VerdictOf(CreateQuarantine, created);
    assert platform.trace == [Event(CreateQuarantine, verdict)];
    if verdict != Done {
      r := r.(stage := if verdict == Violation then PlatformContract else QuarantinePrepare,
              outcome := if verdict == Unchanged then StoppedBeforeMutation else PartialRollback);
      CreateStopTells(r, platform.trace, count);
      NotAllQuarantined(platform.Verdicts(), platform.trace, 0, count);
      return;
    }
    for k := 0 to count
      invariant platform.Valid() && platform.trace == Forward(k)
      invariant r == report.(quarantined := k)
    {
      var moved := platform.Perform(MoveCandidate(k));
      if !ValidCompleted(moved) {
        r := StopAtMove(r, moved, k, platform);
        MoveFailed(platform.Verdicts(), platform.trace, count, k);
        return;
      }
      r := r.(quarantined := k + 1);
    }
    r := r.(allQuarantined := true);
    ForwardWorked(platform.Verdicts(), platform.trace, count);
    var rebuilt := platform.Perform(RebuildBcd);
    if !ValidCompleted(rebuilt) {
      r := StopAtRebuild(r, rebuilt, platform);
      return;
    }
    r := r.(rebuildVerified := true);
    for k := 0 to count
      invariant platform.Valid() && platform.trace == Deleting(count, k)
      invariant r == report.(quarantined := count, allQuarantined := true, rebuildVerified := true, deleted := k)
    {
      var removed := platform.Perform(DeleteCandidate(k));
      if !ValidCompleted(removed) {
        r := StopAtDelete(r, removed, k, platform);
        return;
      }
      r := r.(deleted := k + 1);
    }
    var committed := platform.Perform(CommitBcd);
    ghost var e := Event(CommitBcd, Judge(committed));
    if !ValidCompleted(committed) {
      r := r.(stage := BcdCommit, outcome := BcdCleanupIncomplete);
      FinalTells(r, count, [e]);
      return;
    }
    r := r.(boundaryCommitted := true);
    var cleanup := platform.Perform(RemoveQuarantine);
    assert platform.trace == Deleting(count, count) + [e, Event(RemoveQuarantine, Judge(cleanup))];
    if !ValidCompleted(cleanup) {
      r := r.(stage := QuarantineCleanup, outcome := QuarantineCleanupIncomplete);
    } else {
      r := r.(stage := NoStage, outcome := CommittedOutcome);
    }
    FinalTells(r, count, [e, Event(RemoveQuarantine, Judge(cleanup))]);
  }

  lemma CreateStopTells(r: Report, trace: seq<Event>, count: nat)
    requires |trace| == 1 && trace[0].call == CreateQuarantine && trace[0].verdict != Done
    requires r == EmptyReport().(
               targetReidentified := true, manifestVerified := true,
               stage := if trace[0].verdict == Violation then PlatformContract else QuarantinePrepare,
               outcome := if trace[0].verdict == Unchanged then StoppedBeforeMutation else PartialRollback)
    ensures Tells(r, trace, count)
  {
    NoneTallied(trace, MoveCandidate(0));
    NoneTallied(trace, RestoreCandidate(0));
    NoneTallied(trace, DeleteCandidate(0));
    assert trace == [trace[0]];
  }

  /** The run behind the last deletion. */
  predicate Finish(rest: seq<Event>) {
    && 1 <= |rest| <= 2
    && rest[0].call == CommitBcd
    && (|rest| == 2 <==> rest[0].verdict == Done)
    && (|rest| == 2 ==> rest[1].call == RemoveQuarantine)
  }

  lemma FinalTells(r: Report, count: nat, rest: seq<Event>)
    requires Finish(rest)
    requires r == EmptyReport().(
               targetReidentified := true, manifestVerified := true, quarantined := count, allQuarantined := true,
               rebuildVerified := true, deleted := count, boundaryCommitted := |rest| == 2,
               stage := if |rest| == 1 then BcdCommit else if rest[1].verdict != Done then QuarantineCleanup else NoStage,
               outcome := if |rest| == 1 then BcdCleanupIncomplete
                          else if rest[1].verdict != Done then QuarantineCleanupIncomplete
                          else CommittedOutcome)
    ensures StoppedAfterDelete(Deleting(count, count) + rest, count)
    ensures Tells(r, Deleting(count, count) + rest, count)
  {
    hide Tally, Deleting, OutcomeOf, StageOf;
    var front, trace := Deleting(count, count), Deleting(count, count) + rest;
    DeletingIsDone(count, count);
    DeletingTally(count, count);
    FinishTallies(front, rest);
    FinishOutcome(front, rest);
    assert trace[..|front|] == front && trace[|front|] == rest[0];
    assert trace[count + 1] == front[count + 1];
  }

  lemma FinishOutcome(front: seq<Event>, rest: seq<Event>)
    requires Finish(rest) && AllDone(front) && |front| > 0
    requires forall j :: 0 <= j < |front| ==> !RollbackCall(front[j].call) && front[j].call != CommitBcd
    ensures var trace := front + rest;
      && OutcomeOf(trace) == (if |rest| == 1 then BcdCleanupIncomplete
                              else if rest[1].verdict != Done then QuarantineCleanupIncomplete
                              else CommittedOutcome)
      && StageOf(trace) == (if |rest| == 1 then BcdCommit
                            else if rest[1].verdict != Done then QuarantineCleanup
                            else NoStage)
      && (Event(CommitBcd, Done) in trace <==> |rest| == 2)
      && Event(RebuildBcd, Unchanged) !in trace && Event(RollbackBcd, Done) !in trace
  {
    var trace := front + rest;
    assert forall j :: 0 <= j < |front| ==> trace[j] == front[j];
    assert trace[|front|] == rest[0];
    assert |rest| == 2 ==> trace[|front| + 1] == rest[1];
    assert forall j :: |front| <= j < |trace| ==> trace[j] == rest[j - |front|];
  }

  lemma FinishTallies(front: seq<Event>, rest: seq<Event>)
    requires Finish(rest)
    ensures Tally(front + rest, MoveCandidate(0)) == Tally(front, MoveCandidate(0))
    ensures Tally(front + rest, DeleteCandidate(0)) == Tally(front, DeleteCandidate(0))
    ensures Tally(front + rest, RestoreCandidate(0)) == Tally(front, RestoreCandidate(0))
  {
    hide Tally;
    TallySplits(front, rest, MoveCandidate(0));
    TallySplits(front, rest, DeleteCandidate(0));
    TallySplits(front, rest, RestoreCandidate(0));
    NoneTallied(rest, MoveCandidate(0));
    NoneTallied(rest, DeleteCandidate(0));
    NoneTallied(rest, RestoreCandidate(0));
  }
}
