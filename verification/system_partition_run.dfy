/**
 The creation of the system partition at work: shrink, look, create, look, and
 on every failure the way back. A changing call may do anything and may say
 anything; only what is observed afterwards is believed.
 */
module SystemPartitionRun {
  import opened Bytes
  import opened Results
  import opened SystemPartition

  datatype Call = Shrink | Create | Delete | Extend

  /** A changing call and what it reported. */
  datatype Event = Event(call: Call, ok: bool)

  /** What a call reports and what a changing call leaves, by the number of the call. */
  datatype Script = Script(reports: nat -> bool, effects: nat -> Observation)

  class Platform {
    const script: Script
    var calls: nat
    var world: Observation
    ghost var trace: seq<Event>

    constructor (world: Observation, script: Script)
      ensures this.world == world && this.script == script && calls == 0 && trace == []
    {
      this.world := world;
      this.script := script;
      calls := 0;
      trace := [];
    }

    /** Looks at the disk; this may fail, but it does not lie. */
    method Observe() returns (r: Option<Observation>)
      modifies this`calls
      ensures r == (if script.reports(old(calls)) then Some(world) else None) && calls == old(calls) + 1
    {
      r := if script.reports(calls) then Some(world) else None;
      calls := calls + 1;
    }

    method Change(call: Call) returns (ok: bool)
      modifies this
      ensures trace == old(trace) + [Event(call, ok)]
      ensures ok == script.reports(old(calls)) && world == script.effects(old(calls)) && calls == old(calls) + 1
    {
      ok := script.reports(calls);
      world := script.effects(calls);
      calls := calls + 1;
      trace := trace + [Event(call, ok)];
    }
  }

  // ---------- the loops of the checks ----------

  method UsesNumbersOnce(ps: seq<Partition>) returns (ok: bool)
    ensures ok == NumbersInUse(ps)
  {
    var numbers: set<u32> := {};
    for k := 0 to |ps|
      invariant numbers == set i | 0 <= i < k :: ps[i].number
      invariant forall i :: 0 <= i < k ==> ps[i].number != 0
      invariant forall i, j :: 0 <= i < j < k ==> ps[i].number != ps[j].number
    {
      if ps[k].number == 0 || ps[k].number in numbers {
        return false;
      }
      numbers := numbers + {ps[k].number};
    }
    return true;
  }

  method CheckShrunkenBase(reviewed: Reviewed, now: Plan, systemPresent: bool) returns (ok: bool)
    ensures ok == ShrunkenBase(reviewed, now, systemPresent)
  {
    hide SameRest, NumbersInUse, FindPartition, FindWindows;
    var was := reviewed.discovery;
    if !SameRest(was, now)
       || |now.disk.partitions| != |was.disk.partitions| + (if systemPresent then 1 else 0)
       || |now.windows| != |was.windows| {
      return false;
    }
    var distinct := UsesNumbersOnce(now.disk.partitions);
    if !distinct {
      return false;
    }
    for k := 0 to |was.disk.partitions|
      invariant forall i :: 0 <= i < k ==>
        FindPartition(now.disk.partitions, was.disk.partitions[i].number)
        == Some(Adjusted(was.disk.partitions[i], reviewed))
    {
      var current := FindPartition(now.disk.partitions, was.disk.partitions[k].number);
      if current.None? || current.value != Adjusted(was.disk.partitions[k], reviewed) {
        return false;
      }
    }
    for k := 0 to |was.windows|
      invariant forall i :: 0 <= i < k ==>
        FindWindows(now.windows, was.windows[i].partition.number) == Some(AdjustedWindows(was.windows[i], reviewed))
    {
      var current := FindWindows(now.windows, was.windows[k].partition.number);
      if current.None? || current.value != AdjustedWindows(was.windows[k], reviewed) {
        return false;
      }
    }
    var selected := FindWindows(now.windows, reviewed.windows.partition.number);
    return selected.Some?
      && selected.value.partition.size == reviewed.shrunkenSize
      && selected.value.partition.offset == reviewed.windows.partition.offset
      && selected.value.volumeLength == reviewed.shrunkenSize
      && selected.value.volume == reviewed.windows.volume;
  }

  method CheckAfterShrink(reviewed: Reviewed, now: Plan) returns (ok: bool)
    ensures ok == AfterShrink(reviewed, now)
  {
    hide ShrunkenBase;
    var base := CheckShrunkenBase(reviewed, now, false);
    return now.candidates == [] && now.createNeeded && !now.systemPolicyNeeded && base;
  }

  method CheckCompleted(reviewed: Reviewed, now: Plan) returns (ok: bool)
    ensures ok == Completed(reviewed, now)
  {
    hide ShrunkenBase, SystemAsReviewed;
    var base := CheckShrunkenBase(reviewed, now, true);
    if !base || now.createNeeded || now.systemPolicyNeeded || |now.candidates| != 1 {
      return false;
    }
    var system := now.candidates[0];
    return SystemAsReviewed(reviewed, system)
      && FindPartition(now.disk.partitions, system.partition.number) == Some(system.partition);
  }

  // ---------- the transaction ----------

  datatype Outcome = Committed | FailedBeforeMutation | RolledBackExact | RollbackIncomplete

  datatype Report = Report(
    outcome: Outcome,
    confirmed: bool,
    revalidated: bool,
    shrunk: bool,
    shrunkenVerified: bool,
    created: bool,
    completedVerified: bool,
    rollbackAttempted: bool,
    createdRemoved: bool,
    extentRestored: bool,
    originalRestored: bool,
    completed: Option<Plan>)

  function EmptyReport(): Report {
    Report(FailedBeforeMutation, false, false, false, false, false, false, false, false, false, false, None)
  }

  /** Confirmed and revalidated, and perhaps with Windows shrunk as reviewed. */
  function BeganReport(shrunken: bool): Report {
    EmptyReport().(confirmed := true, revalidated := true, shrunk := shrunken, shrunkenVerified := shrunken)
  }

  /** The changing calls of a rollback: a partition is deleted only if it was created, and Windows grows only then. */
  predicate RollbackCalls(calls: seq<Event>, created: bool) {
    if created then
      || calls == [Event(Delete, false)]
      || (|calls| == 2 && calls[0] == Event(Delete, true) && calls[1].call == Extend)
    else |calls| == 1 && calls[0].call == Extend
  }

  // ---------- the outcome in terms of the calls ----------

  /** A look at what an earlier call left shows the disk as it was reviewed. */
  predicate LooksExact(script: Script, look: nat, left: Observation, reviewed: Reviewed) {
    script.reports(look) && ExactBefore(reviewed, left)
  }

  predicate LooksShrunken(script: Script, look: nat, left: Observation, reviewed: Reviewed) {
    script.reports(look) && SafeVolume(left) && AfterShrink(reviewed, left.plan)
  }

  predicate LooksCompleted(script: Script, look: nat, left: Observation, reviewed: Reviewed) {
    script.reports(look) && SafeVolume(left) && Completed(reviewed, left.plan)
  }

  /** A rollback from call `n` on: exact if the deletion, the extension and the look all work and show the old disk. */
  function UndoneFrom(script: Script, n: nat, created: bool, reviewed: Reviewed): Outcome {
    var extend := if created then n + 1 else n;
    if (created ==> script.reports(n)) && script.reports(extend)
       && LooksExact(script, extend + 1, script.effects(extend), reviewed) then RolledBackExact
    else RollbackIncomplete
  }

  /** A run of a confirmed request: look, shrink, look, create, look are the calls from `c` on. */
  function RunFrom(script: Script, c: nat, world: Observation, reviewed: Reviewed): Outcome {
    var shrunk, created := script.effects(c + 1), script.effects(c + 3);
    if !LooksExact(script, c, world, reviewed) then FailedBeforeMutation
    else if !script.reports(c + 1) && LooksExact(script, c + 2, shrunk, reviewed) then FailedBeforeMutation
    else if !script.reports(c + 1) && !LooksShrunken(script, c + 2, shrunk, reviewed) then RollbackIncomplete
    else if !script.reports(c + 1) || !LooksShrunken(script, c + 2, shrunk, reviewed) then
      UndoneFrom(script, c + 3, false, reviewed)
    else if !script.reports(c + 3) then UndoneFrom(script, c + 4, false, reviewed)
    else if !LooksCompleted(script, c + 4, created, reviewed) then UndoneFrom(script, c + 5, true, reviewed)
    else Committed
  }

  /** A run commits exactly if all its five calls work and all three looks show what was reviewed. */
  lemma CommitsWhenAllWorks(script: Script, c: nat, world: Observation, reviewed: Reviewed)
    ensures RunFrom(script, c, world, reviewed) == Committed <==>
      && LooksExact(script, c, world, reviewed)
      && script.reports(c + 1) && LooksShrunken(script, c + 2, script.effects(c + 1), reviewed)
      && script.reports(c + 3) && LooksCompleted(script, c + 4, script.effects(c + 3), reviewed)
  {
    hide LooksExact, LooksShrunken, LooksCompleted;
  }

  /** From call `n` on every call works, and every changing call leaves the disk as it was reviewed. */
  ghost predicate Recovers(script: Script, n: nat, reviewed: Reviewed) {
    forall k :: k >= n ==> script.reports(k) && ExactBefore(reviewed, script.effects(k))
  }

  /**
   If the way back works, a run that began is complete, exactly undone, or harmless, with one exception: the shrink
   reported a failure and left neither the old nor the reviewed shrunken layout to be seen.
   */
  lemma OnlyAnUnclearShrinkRemains(script: Script, c: nat, world: Observation, reviewed: Reviewed, n: nat)
    requires n <= (if !LooksShrunken(script, c + 2, script.effects(c + 1), reviewed) || !script.reports(c + 1) then c + 3
                   else if !script.reports(c + 3) then c + 4 else c + 5)
    requires Recovers(script, n, reviewed)
    ensures RunFrom(script, c, world, reviewed) == RollbackIncomplete <==>
      && LooksExact(script, c, world, reviewed) && !script.reports(c + 1)
      && !LooksExact(script, c + 2, script.effects(c + 1), reviewed)
      && !LooksShrunken(script, c + 2, script.effects(c + 1), reviewed)
  {
    hide LooksShrunken, LooksCompleted, ExactBefore;
  }

  /** The flags of the report say what was reached, in terms of the calls. */
  predicate SaysProgress(r: Report, script: Script, c: nat, world: Observation, reviewed: Reviewed) {
    var exact := LooksExact(script, c, world, reviewed);
    var shrunken := LooksShrunken(script, c + 2, script.effects(c + 1), reviewed);
    var undone := !script.reports(c + 1) && LooksExact(script, c + 2, script.effects(c + 1), reviewed);
    && r.confirmed && (r.revalidated <==> exact)
    && (r.shrunk <==> exact && (script.reports(c + 1) || (shrunken && !undone)))
    && (r.shrunkenVerified <==> exact && shrunken && !undone)
    && (r.created <==> exact && shrunken && script.reports(c + 1) && script.reports(c + 3))
    && (r.completedVerified <==> r.outcome == Committed) && (r.completed.Some? <==> r.outcome == Committed)
    && (r.rollbackAttempted <==> exact && r.outcome != Committed && !undone && (script.reports(c + 1) || shrunken))
  }

  /** A rollback adds to the report and takes nothing back. */
  predicate KeepsProgress(r: Report, report: Report) {
    && r.confirmed == report.confirmed && r.revalidated == report.revalidated
    && r.shrunk == report.shrunk && r.shrunkenVerified == report.shrunkenVerified
    && r.created == report.created && r.completedVerified == report.completedVerified
    && r.completed == report.completed
  }

  /** Undoes what was done, as far as each step works, and looks whether everything is as before. */
  method AttemptRollback(reviewed: Reviewed, platform: Platform, created: bool, report: Report)
    returns (r: Report, ghost undoing: seq<Event>)
    modifies platform
    ensures platform.trace == old(platform.trace) + undoing && RollbackCalls(undoing, created)
    ensures r.outcome == RolledBackExact || r.outcome == RollbackIncomplete
    ensures r.outcome == UndoneFrom(platform.script, old(platform.calls), created, reviewed)
    ensures r.outcome == RolledBackExact ==> ExactBefore(reviewed, platform.world)
    ensures r.outcome == RolledBackExact <==> r.createdRemoved && r.extentRestored && r.originalRestored
    ensures r.rollbackAttempted && KeepsProgress(r, report)
    ensures r.createdRemoved == (created ==> platform.script.reports(old(platform.calls)))
    ensures var extend := if created then old(platform.calls) + 1 else old(platform.calls);
      r.extentRestored == (r.createdRemoved && platform.script.reports(extend))
  {
    hide ExactBefore, RollbackCalls, LooksExact, Attempted;
    AttemptedMeans(report);
    var removed, extended, undone := UndoChanges(platform, created);
    undoing := undone;
    var restored := false;
    if extended {
      restored := LooksAsBefore(reviewed, platform);
    }
    r := Attempted(report, removed, extended, restored);
  }

  function Attempted(report: Report, removed: bool, extended: bool, restored: bool): Report {
    report.(rollbackAttempted := true, createdRemoved := removed, extentRestored := extended,
            originalRestored := restored,
            outcome := if removed && extended && restored then RolledBackExact else RollbackIncomplete)
  }

  lemma AttemptedMeans(report: Report)
    ensures forall removed, extended, restored :: var r := Attempted(report, removed, extended, restored);
      && r.rollbackAttempted && r.createdRemoved == removed && r.extentRestored == extended
      && r.originalRestored == restored && KeepsProgress(r, report)
      && r.outcome == (if removed && extended && restored then RolledBackExact else RollbackIncomplete)
  {
  }

  /** Deletes the new partition, if there is one, and then gives Windows its end back. */
  method UndoChanges(platform: Platform, created: bool)
    returns (removed: bool, extended: bool, ghost undoing: seq<Event>)
    modifies platform
    ensures platform.trace == old(platform.trace) + undoing && RollbackCalls(undoing, created)
    ensures extended ==> removed
    ensures removed == (created ==> platform.script.reports(old(platform.calls)))
    ensures var extend := if created then old(platform.calls) + 1 else old(platform.calls);
      && extended == (removed && platform.script.reports(extend))
      && (removed ==> platform.calls == extend + 1 && platform.world == platform.script.effects(extend))
  {
    hide RollbackCalls;
    removed, extended := true, false;
    undoing := [];
    if created {
      removed := platform.Change(Delete);
      undoing := [Event(Delete, removed)];
    }
    if removed {
      extended := platform.Change(Extend);
      undoing := undoing + [Event(Extend, extended)];
    }
    UndoingCalls(created, removed, extended);
  }

  method LooksAsBefore(reviewed: Reviewed, platform: Platform) returns (same: bool)
    modifies platform`calls
    ensures same == LooksExact(platform.script, old(platform.calls), platform.world, reviewed)
    ensures same ==> ExactBefore(reviewed, platform.world)
  {
    hide ExactBefore;
    var observed := platform.Observe();
    same := observed.Some? && ExactBefore(reviewed, observed.value);
  }

  lemma UndoingCalls(created: bool, removed: bool, extended: bool)
    requires !created ==> removed
    ensures RollbackCalls((if created then [Event(Delete, removed)] else [])
                          + (if removed then [Event(Extend, extended)] else []), created)
  {
  }

  /** What the outcome says about the disk. */
  ghost predicate Truthful(r: Report, reviewed: Reviewed, platform: Platform)
    reads platform
  {
    match r.outcome
    case Committed =>
      Completed(reviewed, platform.world.plan) && SafeVolume(platform.world)
      && r.completed == Some(platform.world.plan)
    case RolledBackExact => ExactBefore(reviewed, platform.world)
    case FailedBeforeMutation => platform.trace == [] || ExactBefore(reviewed, platform.world)
    case RollbackIncomplete => platform.trace != []
  }

  /** The changing calls of every run, and the outcomes that go with them. */
  predicate Protocol(trace: seq<Event>, outcome: Outcome) {
    || (trace == [] && outcome == FailedBeforeMutation)
    || (trace == [Event(Shrink, false)] && outcome in [FailedBeforeMutation, RollbackIncomplete])
    || (trace == [Event(Shrink, true), Event(Create, true)] && outcome == Committed)
    || (&& outcome in [RolledBackExact, RollbackIncomplete]
        && |trace| > 0 && trace[0].call == Shrink
        && (|| RollbackCalls(trace[1..], false)
            || (|trace| > 1 && trace[1] == Event(Create, false) && RollbackCalls(trace[2..], false))
            || (|trace| > 1 && trace[1] == Event(Create, true) && RollbackCalls(trace[2..], true))))
  }

  lemma RolledBackShrink(front: seq<Event>, undoing: seq<Event>, outcome: Outcome)
    requires outcome in [RolledBackExact, RollbackIncomplete]
    requires |front| == 1 && front[0].call == Shrink && RollbackCalls(undoing, false)
    ensures Protocol(front + undoing, outcome) && front + undoing != []
  {
    assert (front + undoing)[1..] == undoing;
  }

  lemma RolledBackCreate(front: seq<Event>, undoing: seq<Event>, outcome: Outcome)
    requires outcome in [RolledBackExact, RollbackIncomplete]
    requires |front| == 2 && front[0].call == Shrink && front[1].call == Create && RollbackCalls(undoing, front[1].ok)
    ensures Protocol(front + undoing, outcome) && front + undoing != []
  {
    assert (front + undoing)[2..] == undoing;
    assert front[1] == Event(Create, front[1].ok);
  }

  method ExecuteCreation(reviewed: Reviewed, acknowledged: bool, token: string, platform: Platform) returns (r: Report)
    requires platform.trace == []
    modifies platform
    ensures Truthful(r, reviewed, platform) && Protocol(platform.trace, r.outcome)
    ensures platform.trace != [] ==> acknowledged && token == "OK" && ExactBefore(reviewed, old(platform.world))
    ensures r.outcome == if !acknowledged || token != "OK" then FailedBeforeMutation
                         else RunFrom(platform.script, old(platform.calls), old(platform.world), reviewed)
    ensures if !acknowledged || token != "OK" then r == EmptyReport()
            else SaysProgress(r, platform.script, old(platform.calls), old(platform.world), reviewed)
  {
    hide ExactBefore, AfterShrink, Completed, SafeVolume, RollbackCalls, UndoneFrom;
    r := EmptyReport();
    if !acknowledged || token != "OK" {
      return;
    }
    r := r.(confirmed := true);
    var before := platform.Observe();
    if before.None? || !ExactBefore(reviewed, before.value) {
      return;
    }
    r := r.(revalidated := true);
    var shrunk := platform.Change(Shrink);
    if !shrunk {
      r := AfterFailedShrink(reviewed, platform, r);
      return;
    }
    r := r.(shrunk := true);
    var after := platform.Observe();
    var verified := after.Some? && SafeVolume(after.value);
    if verified {
      verified := CheckAfterShrink(reviewed, after.value.plan);
    }
    ghost var undoing;
    if !verified {
      r, undoing := AttemptRollback(reviewed, platform, false, r);
      RolledBackShrink([Event(Shrink, true)], undoing, r.outcome);
      return;
    }
    r := CreateSystem(reviewed, platform, r.(shrunkenVerified := true));
  }

  /** The shrink reported a failure: what does the disk look like? */
  method AfterFailedShrink(reviewed: Reviewed, platform: Platform, report: Report) returns (r: Report)
    requires platform.trace == [Event(Shrink, false)] && report == BeganReport(false)
    modifies platform
    ensures Truthful(r, reviewed, platform) && Protocol(platform.trace, r.outcome) && platform.trace != []
    ensures var script, look, left := platform.script, old(platform.calls), old(platform.world);
      r.outcome == if LooksExact(script, look, left, reviewed) then FailedBeforeMutation
                   else if LooksShrunken(script, look, left, reviewed) then UndoneFrom(script, look + 1, false, reviewed)
                   else RollbackIncomplete
    ensures var script, look, left := platform.script, old(platform.calls), old(platform.world);
      var verified := !LooksExact(script, look, left, reviewed) && LooksShrunken(script, look, left, reviewed);
      KeepsProgress(r, BeganReport(verified)) && r.rollbackAttempted == verified
  {
    hide ExactBefore, AfterShrink, Completed, SafeVolume, RollbackCalls, UndoneFrom;
    r := report;
    var after := platform.Observe();
    if after.Some? && ExactBefore(reviewed, after.value) {
      return;
    }
    if after.Some? && SafeVolume(after.value) {
      var verified := CheckAfterShrink(reviewed, after.value.plan);
      if verified {
        ghost var undoing;
        r, undoing := AttemptRollback(reviewed, platform, false, r.(shrunk := true, shrunkenVerified := true));
        RolledBackShrink([Event(Shrink, false)], undoing, r.outcome);
        return;
      }
    }
    r := r.(outcome := RollbackIncomplete);
  }

  /** Windows is shrunk as reviewed: creates the partition and accepts only the reviewed result. */
  method CreateSystem(reviewed: Reviewed, platform: Platform, report: Report) returns (r: Report)
    requires platform.trace == [Event(Shrink, true)] && report == BeganReport(true)
    modifies platform
    ensures Truthful(r, reviewed, platform) && Protocol(platform.trace, r.outcome) && platform.trace != []
    ensures var script, n := platform.script, old(platform.calls);
      r.outcome == if !script.reports(n) then UndoneFrom(script, n + 1, false, reviewed)
                   else if LooksCompleted(script, n + 1, script.effects(n), reviewed) then Committed
                   else UndoneFrom(script, n + 2, true, reviewed)
    ensures var committed := r.outcome == Committed;
      && KeepsProgress(r, BeganReport(true).(created := platform.script.reports(old(platform.calls)),
                                             completedVerified := committed, completed := r.completed))
      && (r.completed.Some? <==> committed) && r.rollbackAttempted == !committed
  {
    hide ExactBefore, AfterShrink, Completed, SafeVolume, RollbackCalls, UndoneFrom;
    r := report;
    ghost var undoing;
    var created := platform.Change(Create);
    if !created {
      r, undoing := AttemptRollback(reviewed, platform, false, r);
      RolledBackCreate([Event(Shrink, true), Event(Create, false)], undoing, r.outcome);
      return;
    }
    r := r.(created := true);
    var completed := platform.Observe();
    var verified := completed.Some? && SafeVolume(completed.value);
    if verified {
      verified := CheckCompleted(reviewed, completed.value.plan);
    }
    if !verified {
      r, undoing := AttemptRollback(reviewed, platform, true, r);
      RolledBackCreate([Event(Shrink, true), Event(Create, true)], undoing, r.outcome);
      return;
    }
    r := r.(completedVerified := true, completed := Some(completed.value.plan), outcome := Committed);
  }

  /** A committed run: the disk has the reviewed layout but for the freed end of Windows, which is the new partition. */
  lemma CommittedLayout(r: Report, reviewed: Reviewed, platform: Platform, number: u32, o: Observation)
    requires Truthful(r, reviewed, platform) && r.outcome == Committed
    requires Review(reviewed.discovery, number, o) == Ok(reviewed) && SoundLayout(reviewed.discovery.disk)
    requires reviewed.windows.partition in reviewed.discovery.disk.partitions
    ensures var now := platform.world.plan;
      && |now.candidates| == 1
      && IsFreedTail(reviewed, now.disk.partitions, now.candidates[0].partition)
      && NothingOverlaps(now.disk.partitions)
  {
    hide Review, SoundLayout, ShrunkenBase, SystemAsReviewed, IsFreedTail, NothingOverlaps, DistinctNumbers;
    var now := platform.world.plan;
    CompletedIsFreedTail(reviewed, now, number, o);
    FreedTailIsApart(reviewed, now.disk.partitions, now.candidates[0].partition);
  }
}
