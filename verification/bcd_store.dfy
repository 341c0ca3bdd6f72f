/**
 Rebuilding the boot configuration store with BCDBoot: the prior store is moved
 aside, BCDBoot writes a new one, the new one is verified, and only then is the
 prior one removed.

 The model has the two paths of the transaction. Every call may fail, and a
 call that fails changes nothing, but for a move: one that reports a failure
 may have moved the file all the same. BCDBoot may leave anything at the store
 path, but it does not touch the backup path.
 */
module BcdStore {
  import opened Results

  /** A file as it is identified: which object it is, and a stamp of its metadata that a rename may change. */
  datatype File = File(id: nat, stamp: nat)

  datatype Path = StorePath | BackupPath

  datatype Snapshot = Snapshot(store: Option<File>, backup: Option<File>, verified: bool)

  predicate SameObject(a: Option<File>, b: Option<File>) {
    a.Some? == b.Some? && (a.Some? ==> a.value.id == b.value.id)
  }

  /** The prior store is at one of the two paths, or a verified new store is in place. */
  predicate Kept(s: Snapshot, prior: Option<File>) {
    prior.Some? ==> SameObject(s.store, prior) || SameObject(s.backup, prior) || (s.store.Some? && s.verified)
  }

  predicate NeverLost(history: seq<Snapshot>, prior: Option<File>) {
    forall i :: 0 <= i < |history| ==> Kept(history[i], prior)
  }

  // ---------- what the outside world answers ----------

  datatype Fault = Works | Fails | FailsHalfway

  /** By the number of the call: whether it works, which stamp a rename leaves, and which store BCDBoot leaves. */
  datatype Script = Script(faults: nat -> Fault, stamps: nat -> nat, written: nat -> Option<File>)

  ghost predicate AllWork(script: Script, from: nat, to: nat) {
    forall n :: from <= n < to ==> script.faults(n).Works?
  }

  /** The calls of one BCDBoot run: signature, run, look, verification, look. */
  const RUN_CALLS: nat := 5

  /** The first of them that does not do its work; the first look also fails if BCDBoot left no store. */
  function RunFailure(script: Script, at: nat): (failed: Option<nat>)
    ensures failed.Some? ==> at <= failed.value < at + RUN_CALLS
  {
    if !script.faults(at).Works? then Some(at)
    else if !script.faults(at + 1).Works? then Some(at + 1)
    else if !script.faults(at + 2).Works? || script.written(at + 1).None? then Some(at + 2)
    else if !script.faults(at + 3).Works? then Some(at + 3)
    else if !script.faults(at + 4).Works? then Some(at + 4)
    else None
  }

  /** The same for several runs, one behind the other. */
  function RunsFailure(script: Script, at: nat, runs: nat): (failed: Option<nat>)
    ensures failed.Some? ==> at <= failed.value < at + RUN_CALLS * runs
    decreases runs
  {
    if runs == 0 then None
    else
      var earlier := RunsFailure(script, at, runs - 1);
      if earlier.Some? then earlier else RunFailure(script, at + RUN_CALLS * (runs - 1))
  }

  // ---------- the files ----------

  class BcdFiles {
    const script: Script
    var calls: nat
    var store: Option<File>
    var backup: Option<File>
    /** The file that the last successful verification found at the store path. */
    ghost var verified: Option<File>
    /** The state after every call that may change it. */
    ghost var history: seq<Snapshot>

    constructor (store: Option<File>, backup: Option<File>, script: Script)
      ensures this.store == store && this.backup == backup && this.script == script
      ensures calls == 0 && verified == None && history == []
    {
      this.script := script;
      this.store := store;
      this.backup := backup;
      calls := 0;
      verified := None;
      history := [];
    }

    function At(path: Path): Option<File>
      reads this
    {
      if path == StorePath then store else backup
    }

    ghost function Now(): Snapshot
      reads this
    {
      Snapshot(store, backup, verified == store)
    }

    method Observe(path: Path) returns (r: Result<Option<File>>)
      modifies this`calls
      ensures calls == old(calls) + 1
      ensures r == if script.faults(old(calls)).Works? then Ok(At(path)) else Err(IoFailed)
    {
      r := if script.faults(calls).Works? then Ok(At(path)) else Err(IoFailed);
      calls := calls + 1;
    }

    /** Opens the store read-only and looks for its boot objects. */
    method VerifyStore() returns (ok: bool)
      modifies this`calls, this`verified
      ensures calls == old(calls) + 1
      ensures ok == (script.faults(old(calls)).Works? && store.Some?)
      ensures verified == if ok then store else old(verified)
    {
      ok := script.faults(calls).Works? && store.Some?;
      calls := calls + 1;
      if ok {
        verified := store;
      }
    }

    method Set(path: Path, file: Option<File>)
      modifies this`store, this`backup
      ensures At(path) == file
      ensures path == StorePath ==> backup == old(backup)
      ensures path == BackupPath ==> store == old(store)
    {
      if path == StorePath {
        store := file;
      } else {
        backup := file;
      }
    }

    /** The expected file is there, and nothing at the destination would be replaced. */
    predicate Movable(from: Path, to: Path, expected: File)
      reads this
    {
      At(from) == Some(expected) && At(to).None?
    }

    method Move(from: Path, to: Path, expected: File) returns (ok: bool)
      requires from != to
      modifies this
      ensures calls == old(calls) + 1
      ensures ok == (old(Movable(from, to, expected)) && script.faults(old(calls)).Works?)
      ensures if old(Movable(from, to, expected)) && !script.faults(old(calls)).Fails? then
          At(from).None? && At(to) == Some(expected.(stamp := script.stamps(old(calls))))
        else store == old(store) && backup == old(backup)
      ensures verified == old(verified) && history == old(history) + [Now()]
    {
      var fault := script.faults(calls);
      ok := Movable(from, to, expected) && fault.Works?;
      if Movable(from, to, expected) && !fault.Fails? {
        Set(from, None);
        Set(to, Some(expected.(stamp := script.stamps(calls))));
      }
      calls := calls + 1;
      history := history + [Now()];
    }

    method Remove(path: Path, expected: File) returns (ok: bool)
      modifies this
      ensures calls == old(calls) + 1
      ensures ok == (old(At(path)) == Some(expected) && script.faults(old(calls)).Works?)
      ensures At(path) == if ok then None else old(At(path))
      ensures path == StorePath ==> backup == old(backup)
      ensures path == BackupPath ==> store == old(store)
      ensures verified == old(verified) && history == old(history) + [Now()]
    {
      ok := At(path) == Some(expected) && script.faults(calls).Works?;
      if ok {
        Set(path, None);
      }
      calls := calls + 1;
      history := history + [Now()];
    }

    /** Checks the signature and runs BCDBoot. */
    method RunBcdBoot() returns (ok: bool)
      modifies this
      ensures var signed := script.faults(old(calls)).Works?;
        && ok == (signed && script.faults(old(calls) + 1).Works?)
        && calls == old(calls) + (if signed then 2 else 1)
        && store == if signed then script.written(old(calls) + 1) else old(store)
      ensures backup == old(backup) && verified == old(verified) && history == old(history) + [Now()]
    {
      ok := script.faults(calls).Works?;
      calls := calls + 1;
      if ok {
        store := script.written(calls);
        ok := script.faults(calls).Works?;
        calls := calls + 1;
      }
      history := history + [Now()];
    }
  }

  // ---------- the transaction ----------

  datatype Outcome =
    /** Nothing was changed. */
    | Stopped
    /** Moving the prior store aside was reported as failed; nothing is undone. */
    | MoveFailed
    /** It failed, and the prior state is back. */
    | Restored
    /** It failed, and a call of the rollback failed too. */
    | RollbackFailed
    /** The new store is verified, but the prior one could not be removed. */
    | CleanupFailed
    | Succeeded(priorReplaced: bool)

  /** The prior store is aside, and nothing was lost so far. */
  ghost predicate Aside(files: BcdFiles, prior: Option<File>, moved: Option<File>)
    reads files
  {
    && NeverLost(files.history, prior)
    && files.backup == moved
    && SameObject(moved, prior)
  }

  /** The prior store is at one of its two paths and nothing is at the other. */
  ghost predicate AtEitherPath(files: BcdFiles, prior: Option<File>)
    reads files
  {
    || (SameObject(files.store, prior) && files.backup.None?)
    || (files.store.None? && SameObject(files.backup, prior))
  }

  /**
   Moves the prior store aside and looks at what is there now. If the look fails, the file is moved back under the
   identity it had before: that works exactly when the rename left this identity as it was.
   */
  method MoveAside(files: BcdFiles, existing: Option<File>) returns (outcome: Option<Outcome>, moved: Option<File>)
    requires files.store == existing && files.backup.None? && NeverLost(files.history, existing)
    modifies files
    ensures NeverLost(files.history, existing) && Kept(files.Now(), existing)
    ensures var c, script := old(files.calls), files.script;
      if existing.None? then outcome.None? && files.calls == c
      else if !script.faults(c).Works? then outcome == Some(MoveFailed)
      else if !script.faults(c + 1).Works? then
        outcome == Some(if script.faults(c + 2).Works? && script.stamps(c) == existing.value.stamp then Restored
                        else RollbackFailed)
      else outcome.None? && files.calls == c + 2
    ensures outcome.None? ==> Aside(files, existing, moved) && (existing.Some? ==> files.store.None?)
                              && files.store == (if existing.Some? then None else old(files.store))
    ensures outcome.Some? ==> AtEitherPath(files, existing)
    ensures outcome == Some(MoveFailed) && files.script.faults(old(files.calls)).Fails? ==>
      files.store == existing && files.backup.None?
    ensures outcome == Some(MoveFailed) && files.script.faults(old(files.calls)).FailsHalfway? ==> files.store.None?
    ensures outcome == Some(Restored) ==> SameObject(files.store, existing) && files.backup.None?
    ensures outcome == Some(RollbackFailed) && !files.script.faults(old(files.calls) + 2).FailsHalfway? ==>
      files.store.None?
    ensures outcome == Some(RollbackFailed) && files.script.stamps(old(files.calls)) != existing.value.stamp ==>
      files.store.None?
  {
    if existing.None? {
      return None, None;
    }
    var ok := files.Move(StorePath, BackupPath, existing.value);
    if !ok {
      return Some(MoveFailed), None;
    }
    var observed := files.Observe(BackupPath);
    if observed.Err? || !SameObject(observed.value, existing) {
      var restored := files.Move(BackupPath, StorePath, ExpectedBack(observed, existing.value));
      return Some(if restored then Restored else RollbackFailed), None;
    }
    return None, observed.value;
  }

  /** The identity to move back: what was observed, or else what was moved. */
  function ExpectedBack(observed: Result<Option<File>>, existing: File): File {
    if observed.Ok? && observed.value.Some? then observed.value.value else existing
  }

  /** Removes what BCDBoot left and moves the prior store back; it restores exactly if all its calls work. */
  method Rollback(files: BcdFiles, prior: Option<File>, moved: Option<File>, replacement: Option<File>)
    returns (outcome: Outcome)
    requires Aside(files, prior, moved)
    modifies files
    ensures NeverLost(files.history, prior) && Kept(files.Now(), prior)
    ensures old(files.calls) <= files.calls <= old(files.calls) + 3
    ensures outcome ==
      if AllWork(files.script, old(files.calls), files.calls)
         && (replacement.Some? ==> replacement == old(files.store)) then Restored
      else RollbackFailed
    ensures outcome == Restored ==> SameObject(files.store, prior) && files.backup.None?
  {
    var present := replacement;
    if present.None? {
      var observed := files.Observe(StorePath);
      if observed.Err? {
        return RollbackFailed;
      }
      present := observed.value;
    }
    if present.Some? {
      var removed := files.Remove(StorePath, present.value);
      if !removed {
        return RollbackFailed;
      }
    }
    if moved.Some? {
      var back := files.Move(BackupPath, StorePath, moved.value);
      return if back then Restored else RollbackFailed;
    }
    return Restored;
  }

  /** What a failed run is worth: the state is restored exactly if every call behind the failed one worked. */
  ghost predicate UndoneSince(files: BcdFiles, outcome: Outcome, prior: Option<File>, failed: nat)
    reads files
  {
    && failed < files.calls <= failed + 4
    && outcome == (if AllWork(files.script, failed + 1, files.calls) then Restored else RollbackFailed)
    && (outcome == Restored ==> SameObject(files.store, prior) && files.backup.None?)
  }

  /** Runs BCDBoot once and verifies the store that it left. */
  method RunAndVerify(files: BcdFiles, prior: Option<File>, moved: Option<File>) returns (failure: Option<Outcome>)
    requires Aside(files, prior, moved)
    modifies files
    ensures NeverLost(files.history, prior) && Kept(files.Now(), prior)
    ensures failure.Some? <==> RunFailure(files.script, old(files.calls)).Some?
    ensures failure.None? ==>
      && files.calls == old(files.calls) + RUN_CALLS
      && Aside(files, prior, moved)
      && files.store == files.script.written(old(files.calls) + 1) && files.store.Some? && files.verified == files.store
    ensures failure.Some? ==>
      UndoneSince(files, failure.value, prior, RunFailure(files.script, old(files.calls)).value)
  {
    var ok := files.RunBcdBoot();
    if !ok {
      var undone := Rollback(files, prior, moved, None);
      return Some(undone);
    }
    var rebuilt := files.Observe(StorePath);
    if rebuilt.Err? || rebuilt.value.None? {
      var undone := Rollback(files, prior, moved, None);
      return Some(undone);
    }
    var valid := files.VerifyStore();
    if !valid {
      var undone := Rollback(files, prior, moved, rebuilt.value);
      return Some(undone);
    }
    var again := files.Observe(StorePath);
    if again.Err? || again.value != rebuilt.value {
      var undone := Rollback(files, prior, moved, rebuilt.value);
      return Some(undone);
    }
    return None;
  }

  /** Removes the prior store, now that the new one is verified. */
  method RemovePrior(files: BcdFiles, prior: Option<File>, moved: Option<File>) returns (outcome: Outcome)
    requires Aside(files, prior, moved) && files.store.Some? && files.verified == files.store
    modifies files
    ensures NeverLost(files.history, prior)
    ensures files.store == old(files.store) && files.verified == old(files.verified)
    ensures outcome == if prior.Some? && !files.script.faults(old(files.calls)).Works? then CleanupFailed
                       else Succeeded(prior.Some?)
    ensures files.backup == if outcome == CleanupFailed then moved else None
  {
    if moved.Some? {
      var removed := files.Remove(BackupPath, moved.value);
      if !removed {
        return CleanupFailed;
      }
    }
    return Succeeded(prior.Some?);
  }

  // ---------- what each outcome is worth, and when it comes ----------

  /** In terms of the files before and after. */
  ghost predicate Truthful(files: BcdFiles, outcome: Outcome, store: Option<File>, backup: Option<File>)
    reads files
  {
    && NeverLost(files.history, store)
    && Kept(files.Now(), store)
    && match outcome
       case Stopped => files.store == store && files.backup == backup
       case MoveFailed => AtEitherPath(files, store) && backup.None?
       case Restored => SameObject(files.store, store) && files.backup.None? && backup.None?
       case RollbackFailed => backup.None?
       case CleanupFailed => files.store.Some? && files.verified == files.store && SameObject(files.backup, store)
       case Succeeded(replaced) =>
         files.store.Some? && files.verified == files.store && files.backup.None? && replaced == store.Some?
  }

  /**
   In terms of the answers of the calls, the first being `c` and the last one in front of `end`: two looks, the move
   aside and a look at its result, the runs, and the removal of the prior store.
   */
  ghost predicate Deserved(script: Script, c: nat, end: nat, ready: bool, runs: nat, store: Option<File>,
                           backup: Option<File>, outcome: Outcome) {
    if !ready || !AllWork(script, c, c + 2) || backup.Some? then outcome == Stopped
    else if store.Some? && !script.faults(c + 2).Works? then outcome == MoveFailed
    else if store.Some? && !script.faults(c + 3).Works? then
      outcome == (if script.faults(c + 4).Works? && script.stamps(c + 2) == store.value.stamp then Restored
                  else RollbackFailed)
    else
      var first := if store.Some? then c + 4 else c + 2;
      var failed := RunsFailure(script, first, runs);
      if failed.Some? then
        outcome == (if AllWork(script, failed.value + 1, end) then Restored else RollbackFailed)
      else if store.Some? && !script.faults(first + RUN_CALLS * runs).Works? then outcome == CleanupFailed
      else outcome == Succeeded(store.Some?)
  }

  /** Looks at both paths; a file at the backup path is left from an earlier run and stops the transaction. */
  method ObserveBoth(files: BcdFiles) returns (ok: bool, existing: Option<File>)
    modifies files`calls
    ensures ok == (AllWork(files.script, old(files.calls), old(files.calls) + 2) && files.backup.None?)
    ensures ok ==> existing == files.store && files.calls == old(files.calls) + 2
  {
    var observed := files.Observe(StorePath);
    if observed.Err? {
      return false, None;
    }
    var left := files.Observe(BackupPath);
    if left.Err? || left.value.Some? {
      return false, None;
    }
    return true, observed.value;
  }

  /** Rebuilds the store for one Windows installation. The signature is checked before anything is changed. */
  method RebuildStore(files: BcdFiles, requestValid: bool, signed: bool) returns (outcome: Outcome)
    requires files.history == []
    modifies files
    ensures Truthful(files, outcome, old(files.store), old(files.backup))
    ensures Deserved(files.script, old(files.calls), files.calls, requestValid && signed, 1, old(files.store),
                     old(files.backup), outcome)
    ensures LeftAside(files, old(files.calls), old(files.store), outcome)
  {
    if !requestValid || !signed {
      return Stopped;
    }
    var ok, existing := ObserveBoth(files);
    if !ok {
      return Stopped;
    }
    var stopped, moved := MoveAside(files, existing);
    if stopped.Some? {
      return stopped.value;
    }
    var failure := RunAndVerify(files, existing, moved);
    if failure.Some? {
      return failure.value;
    }
    outcome := RemovePrior(files, existing, moved);
  }

  /** BCDBoot runs once for each installation, until one run fails. */
  method RunAll(files: BcdFiles, prior: Option<File>, moved: Option<File>, installations: nat)
    returns (failure: Option<Outcome>)
    requires Aside(files, prior, moved) && installations > 0
    modifies files
    ensures NeverLost(files.history, prior)
    ensures failure.Some? <==> RunsFailure(files.script, old(files.calls), installations).Some?
    ensures failure.None? ==>
      && files.calls == old(files.calls) + RUN_CALLS * installations
      && Aside(files, prior, moved) && files.store.Some? && files.verified == files.store
    ensures failure.Some? ==>
      && Kept(files.Now(), prior)
      && UndoneSince(files, failure.value, prior, RunsFailure(files.script, old(files.calls), installations).value)
  {
    hide NeverLost, Kept, SameObject, RunsFailure, RunFailure, UndoneSince;
    ghost var first := files.calls;
    NoRunNoFailure(files.script, first);
    for k := 0 to installations
      invariant Aside(files, prior, moved) && files.calls == first + RUN_CALLS * k
      invariant RunsFailure(files.script, first, k).None?
      invariant k > 0 ==> files.store.Some? && files.verified == files.store
    {
      OneMoreRun(files.script, first, k);
      failure := RunAndVerify(files, prior, moved);
      if failure.Some? {
        LaterRuns(files.script, first, k + 1, installations);
        return;
      }
    }
    return None;
  }

  /** Rebuilds the store for several installations, in boot order: BCDBoot runs once for each. */
  method RebuildStoreForAll(files: BcdFiles, installations: nat, requestsValid: bool, signed: bool)
    returns (outcome: Outcome)
    requires files.history == []
    modifies files
    ensures Truthful(files, outcome, old(files.store), old(files.backup))
    ensures Deserved(files.script, old(files.calls), files.calls,
                     1 <= installations <= 32 && requestsValid && signed, installations, old(files.store),
                     old(files.backup), outcome)
    ensures LeftAside(files, old(files.calls), old(files.store), outcome)
  {
    hide NeverLost, RunsFailure, RunFailure;
    NothingLost(files.store);
    if installations == 0 || installations > 32 || !requestsValid || !signed {
      return Stopped;
    }
    var ok, existing := ObserveBoth(files);
    if !ok {
      return Stopped;
    }
    var stopped, moved := MoveAside(files, existing);
    if stopped.Some? {
      return stopped.value;
    }
    var failure := RunAll(files, existing, moved, installations);
    if failure.Some? {
      return failure.value;
    }
    outcome := RemovePrior(files, existing, moved);
  }

  lemma NothingLost(prior: Option<File>)
    ensures NeverLost([], prior)
  {
  }

  lemma NoRunNoFailure(script: Script, at: nat)
    ensures RunsFailure(script, at, 0).None?
  {
  }

  lemma OneMoreRun(script: Script, at: nat, k: nat)
    requires RunsFailure(script, at, k).None?
    ensures RunsFailure(script, at, k + 1) == RunFailure(script, at + RUN_CALLS * k)
  {
  }

  /** A run that fails stays the first to fail, however many are to follow. */
  lemma {:induction false} LaterRuns(script: Script, at: nat, k: nat, runs: nat)
    requires k <= runs && RunsFailure(script, at, k).Some?
    ensures RunsFailure(script, at, runs) == RunsFailure(script, at, k)
    decreases runs
  {
    hide RunFailure;
    if k < runs {
      LaterRuns(script, at, k, runs - 1);
    }
  }

  /** Where the two failures around the move aside leave the prior store: at the backup path. */
  ghost predicate LeftAside(files: BcdFiles, c: nat, store: Option<File>, outcome: Outcome)
    reads files
  {
    && (outcome == MoveFailed ==> (files.store.None? <==> files.script.faults(c + 2).FailsHalfway?))
    && (outcome == RollbackFailed && store.Some? && !files.script.faults(c + 3).Works?
        && files.script.stamps(c + 2) != store.value.stamp ==>
          files.store.None? && SameObject(files.backup, store))
  }

  /** The call works, and if it is a run of BCDBoot, it leaves a store. */
  predicate DoesItsWork(script: Script, n: nat) {
    script.faults(n).Works? && script.written(n).Some?
  }

  /**
   If all calls but one do their work, the rollback is complete, with one exception: the look behind the move aside
   fails and the rename has changed the identity under which the prior store is to be moved back.
   */
  lemma OneFaultIsUndone(script: Script, c: nat, end: nat, ready: bool, runs: nat, store: Option<File>,
                         backup: Option<File>, outcome: Outcome, fault: nat)
    requires Deserved(script, c, end, ready, runs, store, backup, outcome)
    requires forall n: nat :: n != fault ==> DoesItsWork(script, n)
    ensures outcome == RollbackFailed <==>
      && ready && backup.None? && store.Some?
      && fault == c + 3 && !script.faults(fault).Works? && script.stamps(c + 2) != store.value.stamp
  {
    hide RunsFailure;
    forall n: nat | n != fault ensures script.faults(n).Works? {
      assert DoesItsWork(script, n);
    }
    FailsAtFault(script, if store.Some? then c + 4 else c + 2, runs, fault);
  }

  lemma {:induction false} FailsAtFault(script: Script, at: nat, runs: nat, fault: nat)
    requires forall n: nat :: n != fault ==> DoesItsWork(script, n)
    ensures var failed := RunsFailure(script, at, runs);
      failed.Some? ==> failed.value == fault || (failed.value == fault + 1 && script.faults(fault).Works?)
    decreases runs
  {
    if runs > 0 {
      FailsAtFault(script, at, runs - 1, fault);
      var last := at + RUN_CALLS * (runs - 1);
      forall n: nat | last <= n < last + RUN_CALLS && n != fault
        ensures script.faults(n).Works? && script.written(n).Some?
      {
        assert DoesItsWork(script, n);
      }
    }
  }

  /** The witness: the look behind the move fails, the rename changed the stamp, and every other call works. */
  method StaleIdentityIsRefused() returns (files: BcdFiles, outcome: Outcome)
    ensures outcome == RollbackFailed
    ensures files.store.None? && files.backup.Some? && files.backup.value.id == 7
  {
    var script := Script(n => if n == 3 then Fails else Works, _ => 2, _ => None);
    files := new BcdFiles(Some(File(7, 1)), None, script);
    outcome := RebuildStore(files, true, true);
  }

  /** A move aside that fails halfway leaves the prior store at the backup path, and nothing is undone. */
  method HalfMovedIsLeft() returns (files: BcdFiles, outcome: Outcome)
    ensures outcome == MoveFailed
    ensures files.store.None? && files.backup.Some? && files.backup.value.id == 7
  {
    var script := Script(n => if n == 2 then FailsHalfway else Works, _ => 2, _ => None);
    files := new BcdFiles(Some(File(7, 1)), None, script);
    outcome := RebuildStore(files, true, true);
  }
}
