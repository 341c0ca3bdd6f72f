/**
 The layout of the rebuilt disk: EFI system partition, Microsoft reserved
 partition, Windows, recovery tools, data. The model's specification computes
 with unbounded numbers; the planner below works with checked 64-bit ones and a
 moving cursor.
 */
module Mbr2GptLayout {
  import opened Bytes
  import opened Mbr2GptSource
  import opened Results

  const ESP_512: nat := 200 * MIB
  const ESP_4KN: nat := 300 * MIB
  const MSR: nat := 16 * MIB
  const MINIMUM_RECOVERY: nat := 990 * MIB
  const RECOVERY_FREE: nat := 250 * MIB

  datatype TargetRole = EfiSystem | MicrosoftReserved | WindowsTarget | RecoveryTools | DataTarget

  datatype Action = CreateFat32 | CreateReserved | CopyContents | CreateAndStageWinRe

  datatype PlannedPartition = PlannedPartition(
    number: u32,
    role: TargetRole,
    action: Action,
    sourceNumber: u32,
    offset: u64,
    size: u64)

  datatype RebuildPlan = RebuildPlan(
    partitions: seq<PlannedPartition>,
    alignment: u64,
    tail: u64,
    inPlacePrecheck: bool,
    validateStillRequired: bool,
    sourceUnchanged: bool,
    systemReplaced: bool,
    recoveryCreated: bool,
    recoveryOrderChanged: bool,
    bcdbootRequired: bool,
    winReRegistration: bool)

  // ---------- arithmetic ----------

  function RoundUp(n: nat): (r: nat)
    ensures r % MIB == 0 && n <= r < n + MIB
  {
    (n + MIB - 1) / MIB * MIB
  }

  function RoundDown(n: nat): (r: nat)
    ensures r % MIB == 0 && r <= n < r + MIB
  {
    n / MIB * MIB
  }

  function CheckedAdd(left: u64, right: u64): (r: Result<u64>)
    ensures r == if left + right < U64_LIMIT then Ok(left + right) else Err(InvalidData)
  {
    if left > U64_LIMIT - 1 - right then Err(InvalidData) else Ok(left + right)
  }

  /** The alignment is always one MiB. */
  function AlignUp(value: u64): (r: Result<u64>)
    ensures r == if RoundUp(value) < U64_LIMIT then Ok(RoundUp(value)) else Err(InvalidData)
  {
    var remainder := value % MIB;
    if remainder == 0 then Ok(value) else CheckedAdd(value, MIB - remainder)
  }

  function AlignDown(value: u64): (r: u64)
    ensures r == RoundDown(value)
  {
    value - value % MIB
  }

  function Max(a: nat, b: nat): nat {
    if a < b then b else a
  }

  // ---------- drafts: what is to be placed ----------

  datatype Draft = Draft(role: TargetRole, action: Action, sourceNumber: u32, size: nat)

  function TotalSize(drafts: seq<Draft>): nat
    decreases |drafts|
  {
    if |drafts| == 0 then 0 else TotalSize(drafts[..|drafts| - 1]) + drafts[|drafts| - 1].size
  }

  /** The partition of every data partition of the source, in source order. */
  function DataDrafts(ps: seq<SourcePartition>): (drafts: seq<Draft>)
    ensures |drafts| == Count(ps, Data)
    decreases |ps|
  {
    if |ps| == 0 then []
    else
      var last := ps[|ps| - 1];
      DataDrafts(ps[..|ps| - 1])
      + (if last.role == Data then [Draft(DataTarget, CopyContents, last.number, RoundUp(last.size))] else [])
  }

  /** The drafts one behind the other, the first at `start`. */
  function Place(drafts: seq<Draft>, start: nat): (placed: seq<PlannedPartition>)
    requires start + TotalSize(drafts) < U64_LIMIT && |drafts| < U32_LIMIT
    ensures |placed| == |drafts|
    decreases |drafts|
  {
    if |drafts| == 0 then []
    else
      var front, last := drafts[..|drafts| - 1], drafts[|drafts| - 1];
      Place(front, start)
      + [PlannedPartition(|drafts|, last.role, last.action, last.sourceNumber, start + TotalSize(front), last.size)]
  }

  // ---------- the parts of a plan ----------

  /** The first partition of that role, or the length of the list. */
  function Find(ps: seq<SourcePartition>, role: SourceRole, from: nat): (index: nat)
    requires from <= |ps|
    ensures from <= index <= |ps|
    ensures index < |ps| ==> ps[index].role == role
    ensures forall i :: from <= i < index ==> ps[i].role != role
    decreases |ps| - from
  {
    if from == |ps| || ps[from].role == role then from else Find(ps, role, from + 1)
  }

  function FindPartition(ps: seq<SourcePartition>, role: SourceRole): (found: Option<SourcePartition>) {
    var index := Find(ps, role, 0);
    if index < |ps| then Some(ps[index]) else None
  }

  function RecoveryFault(request: Request, recovery: Option<SourcePartition>): Option<ErrorKind> {
    if !request.requireRecovery then None
    else if request.winReState == Missing || request.winReState == Unknown || request.winReImageSize == 0 then
      Some(VerificationFailed)
    else if request.winReState == RegisteredPartition
         && (recovery.None? || request.registeredWinReNumber != recovery.value.number) then
      Some(IdentityMismatch)
    else None
  }

  /** What the recovery tools need: the image and free space, and never less than the minimum. */
  function NeededRecovery(request: Request): nat {
    RoundUp(Max(MINIMUM_RECOVERY, request.winReImageSize + RECOVERY_FREE))
  }

  /** The source's recovery partition is registered and big enough to be copied. */
  predicate Reuses(request: Request, recovery: Option<SourcePartition>) {
    && request.requireRecovery
    && request.winReState == RegisteredPartition
    && recovery.Some?
    && recovery.value.size >= NeededRecovery(request)
  }

  function RecoveryDrafts(request: Request, recovery: Option<SourcePartition>): seq<Draft> {
    if !request.requireRecovery then []
    else if Reuses(request, recovery) then
      [Draft(RecoveryTools, CopyContents, recovery.value.number, RoundUp(recovery.value.size))]
    else [Draft(RecoveryTools, CreateAndStageWinRe, 0, NeededRecovery(request))]
  }

  function EspSize(request: Request): nat {
    if request.sectorSize == 4096 then ESP_4KN else ESP_512
  }

  function Drafts(request: Request, ps: seq<SourcePartition>, windows: SourcePartition,
                  recovery: Option<SourcePartition>, extra: nat): seq<Draft> {
    [ Draft(EfiSystem, CreateFat32, 0, EspSize(request)),
      Draft(MicrosoftReserved, CreateReserved, 0, MSR),
      Draft(WindowsTarget, CopyContents, windows.number, RoundUp(windows.size) + extra) ]
    + RecoveryDrafts(request, recovery)
    + DataDrafts(ps)
  }

  /** The bytes between the first aligned offset and the last one that leaves room for the backup table. */
  function Available(request: Request): int {
    RoundDown(Max(request.targetSize, MIB) - MIB) - MIB
  }

  /** Microsoft's in-place conversion might be possible. */
  predicate InPlaceCandidate(request: Request, ps: seq<SourcePartition>) {
    && SupportedPlatform(request)
    && 1 <= |ps| <= 3
    && (forall i :: 0 <= i < |ps| ==>
          && ps[i].primary && ps[i].role != Unsupported
          && (ps[i].active ==> ps[i].role == SystemReserved || ps[i].role == Windows))
    && (exists i :: 0 <= i < |ps| && ps[i].active)
    && (forall i, j :: 0 <= i < j < |ps| ==> !(ps[i].active && ps[j].active))
    && 16 * 1024 + 2 * request.sectorSize <= ps[0].offset
    && End(ps[|ps| - 1]) + 16 * 1024 + request.sectorSize <= request.sourceSize
  }

  function PlanFor(request: Request, ps: seq<SourcePartition>, windows: SourcePartition,
                   recovery: Option<SourcePartition>, extra: nat): RebuildPlan
    requires MIB + TotalSize(Drafts(request, ps, windows, recovery, extra)) <= request.targetSize
    requires |ps| <= 128
  {
    var drafts := Drafts(request, ps, windows, recovery, extra);
    RebuildPlan(
      Place(drafts, MIB), MIB, request.targetSize - MIB - TotalSize(drafts),
      InPlaceCandidate(request, ps), true, true,
      (exists i :: 0 <= i < |ps| && ps[i].role == SystemReserved),
      request.requireRecovery && !Reuses(request, recovery),
      request.requireRecovery && (recovery.None? || Find(ps, Recovery, 0) != Find(ps, Windows, 0) + 1),
      true, request.requireRecovery)
  }

  function PlanRebuild(request: Request): (r: Result<RebuildPlan>) {
    var ps :- ValidateAndSort(request);
    AcceptedSources(request);
    WindowsPresent(ps);
    var windows, recovery := ps[Find(ps, Windows, 0)], FindPartition(ps, Recovery);
    var fault := RecoveryFault(request, recovery);
    if fault.Some? then Err(fault.value)
    else
      var required := TotalSize(Drafts(request, ps, windows, recovery, 0));
      if NeededRecovery(request) >= U64_LIMIT || required >= U64_LIMIT then Err(InvalidData)
      else if required > Available(request) then Err(UnsupportedLayout)
      else
        var extra := Available(request) - required;
        ExpandedTotal(request, ps, windows, recovery, extra);
        Ok(PlanFor(request, ps, windows, recovery, extra))
  }

  lemma {:induction false} NoneFoundNoneCounted(ps: seq<SourcePartition>, role: SourceRole)
    requires forall i :: 0 <= i < |ps| ==> ps[i].role != role
    ensures Count(ps, role) == 0
    decreases |ps|
  {
    if |ps| > 0 {
      NoneFoundNoneCounted(ps[..|ps| - 1], role);
    }
  }

  lemma WindowsPresent(ps: seq<SourcePartition>)
    requires Count(ps, Windows) == 1
    ensures Find(ps, Windows, 0) < |ps|
  {
    if Find(ps, Windows, 0) == |ps| {
      NoneFoundNoneCounted(ps, Windows);
    }
  }

  // ---------- sums ----------

  lemma {:induction false} TotalSplits(a: seq<Draft>, b: seq<Draft>)
    ensures TotalSize(a + b) == TotalSize(a) + TotalSize(b)
    decreases |b|
  {
    if |b| > 0 {
      assert (a + b)[..|a + b| - 1] == a + b[..|b| - 1];
      TotalSplits(a, b[..|b| - 1]);
    } else {
      assert a + b == a;
    }
  }

  lemma ThreeDrafts(a: Draft, b: Draft, c: Draft)
    ensures TotalSize([a, b, c]) == a.size + b.size + c.size
  {
    assert [a, b, c][..2] == [a, b] && [a, b][..1] == [a] && [a][..0] == [];
    assert TotalSize([a]) == TotalSize([]) + a.size == a.size;
    assert TotalSize([a, b]) == TotalSize([a]) + b.size;
    assert TotalSize([a, b, c]) == TotalSize([a, b]) + c.size;
  }

  lemma ExpandedTotal(request: Request, ps: seq<SourcePartition>, windows: SourcePartition,
                      recovery: Option<SourcePartition>, extra: nat)
    ensures TotalSize(Drafts(request, ps, windows, recovery, extra))
         == TotalSize(Drafts(request, ps, windows, recovery, 0)) + extra
    ensures TotalSize(Drafts(request, ps, windows, recovery, extra))
         == EspSize(request) + MSR + RoundUp(windows.size) + extra
            + TotalSize(RecoveryDrafts(request, recovery)) + TotalSize(DataDrafts(ps))
  {
    hide RoundUp, RecoveryDrafts, DataDrafts, TotalSize;
    var esp, msr := Draft(EfiSystem, CreateFat32, 0, EspSize(request)), Draft(MicrosoftReserved, CreateReserved, 0, MSR);
    var plain := Draft(WindowsTarget, CopyContents, windows.number, RoundUp(windows.size));
    var grown := plain.(size := plain.size + extra);
    ThreeDrafts(esp, msr, plain);
    ThreeDrafts(esp, msr, grown);
    TotalSplits([esp, msr, plain], RecoveryDrafts(request, recovery));
    TotalSplits([esp, msr, grown], RecoveryDrafts(request, recovery));
    TotalSplits([esp, msr, plain] + RecoveryDrafts(request, recovery), DataDrafts(ps));
    TotalSplits([esp, msr, grown] + RecoveryDrafts(request, recovery), DataDrafts(ps));
  }
}
