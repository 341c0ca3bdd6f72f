/**
 The independent cross-check of layout and table, the ordered list of build
 steps, and the theorem that the stages of the rebuild fit together.
 */
module Mbr2GptExecution {
  import opened Bytes
  import opened Gpt
  import opened GptBuild
  import opened GptPlan
  import opened GptStore
  import opened Mbr2GptLayout
  import opened Mbr2GptMetadata
  import opened Mbr2GptPlanner
  import opened Results
  import GptCrash

  datatype StepKind =
    | VerifySource | RunValidate | ReidentifySource | VerifyTargetEmpty | VerifyConfirmation | VerifyTools
    | WriteTable | CreateEsp | CopyPartition | ExtendWindows | CreateRecovery | StageWinRe
    | RunBcdBoot | RegisterWinRe | VerifyReadback | VerifyContents | VerifyBootFiles | VerifyWinRe | RequireColdBoot

  datatype PlannedStep = PlannedStep(kind: StepKind, source: u32, target: u32, mutates: bool)

  datatype Step = Step(sequence: u32, kind: StepKind, source: u32, target: u32, mutates: bool, sourceReadOnly: bool)

  datatype Preparation = Preparation(
    steps: seq<Step>,
    firstMutation: nat,
    crossChecked: bool,
    sourceWritesPermitted: bool,
    validateRequired: bool,
    signatureCheckRequired: bool,
    winReRegistration: bool,
    coldBootRequired: bool,
    adapterConnected: bool,
    writeStarted: bool)

  // ---------- the cross-check ----------

  predicate ExactSequence(writes: seq<Write>) {
    && |writes| == 5
    && writes[0].kind == PrimaryEntries
    && writes[1].kind == BackupEntries
    && writes[2].kind == BackupHeaderSector
    && writes[3].kind == ProtectiveMbrSector
    && writes[4].kind == PrimaryHeaderCommit
    && forall i :: 0 <= i < 5 ==> |writes[i].bytes| > 0
  }

  predicate Prepared(layout: RebuildPlan, plan: Plan) {
    && layout.sourceUnchanged && layout.validateStillRequired && layout.bcdbootRequired
    && layout.alignment != 0
    && 3 <= |layout.partitions| == |plan.target.partitions|
    && SupportedSectorSize(plan.target.sectorSize)
    && plan.target.sectorCount != 0
    && !IsZero(plan.target.diskGuid)
    && ExactSequence(plan.writes)
    && LbaOffset(plan.target.sectorSize, plan.target.sectorCount) < U64_LIMIT
    && forall i :: 0 <= i < |plan.writes| ==> InsideDisk(plan.writes[i], plan.target)
  }

  predicate InsideDisk(w: Write, disk: Disk)
    requires SupportedSectorSize(disk.sectorSize)
  {
    w.offset + |w.bytes| <= LbaOffset(disk.sectorSize, disk.sectorCount)
  }

  /** Entry `k` of the table is partition `k` of the layout. */
  predicate Matches(p: PlannedPartition, q: Partition, k: nat, ss: u32) {
    && SupportedSectorSize(ss)
    && q.entryIndex == k
    && q.typeGuid == TypeGuidFor(p.role)
    && WholeSectorExtent(p, ss)
    && q.firstLba == WholeSectors(ss, p.offset)
    && q.lastLba == WholeSectors(ss, p.offset) + WholeSectors(ss, p.size) - 1
    && q.attributes == AttributesFor(p.role)
  }

  predicate OrderChecked(ps: seq<PlannedPartition>, k: nat)
    requires k < |ps|
  {
    && ps[k].number == k + 1
    && (k == 0 ==> ps[k].role == EfiSystem)
    && (k == 1 ==> ps[k].role == MicrosoftReserved)
    && (k == 2 ==> ps[k].role == WindowsTarget)
    && ActionFits(ps[k].role, ps[k].action, ps[k].sourceNumber)
    && (ps[k].role == RecoveryTools ==> !Seen(ps, k, RecoveryTools) && !Seen(ps, k, DataTarget))
  }

  predicate NewIdentity(qs: seq<Partition>, k: nat)
    requires k < |qs|
  {
    && !IsZero(qs[k].uniqueGuid)
    && forall i :: 0 <= i < k ==> qs[i].uniqueGuid != qs[k].uniqueGuid
  }

  predicate EntryAgrees(layout: RebuildPlan, disk: Disk, k: nat)
    requires k < |layout.partitions| == |disk.partitions|
  {
    && OrderChecked(layout.partitions, k)
    && NewIdentity(disk.partitions, k)
    && Matches(layout.partitions[k], disk.partitions[k], k, disk.sectorSize)
  }

  function CrossCheck(layout: RebuildPlan, plan: Plan): Option<ErrorKind> {
    if !Prepared(layout, plan) then Some(InvalidData)
    else if (exists k :: 0 <= k < |layout.partitions| && !EntryAgrees(layout, plan.target, k))
         || Seen(layout.partitions, |layout.partitions|, RecoveryTools) != layout.winReRegistration then
      Some(VerificationFailed)
    else None
  }

  /** A layout and a table that agree: the same partitions in the same order, byte for byte, with identities of their own. */
  lemma CheckedAgrees(layout: RebuildPlan, plan: Plan, k: nat)
    requires CrossCheck(layout, plan).None? && k < |layout.partitions|
    ensures |layout.partitions| == |plan.target.partitions| && 3 <= |layout.partitions|
    ensures var p, q, ss := layout.partitions[k], plan.target.partitions[k], plan.target.sectorSize;
      && p.number == k + 1 && q.entryIndex == k && p.size > 0
      && q.firstLba * ss == p.offset && (q.lastLba + 1) * ss == p.offset + p.size
      && !IsZero(q.uniqueGuid)
      && (forall i :: 0 <= i < k ==> plan.target.partitions[i].uniqueGuid != q.uniqueGuid)
    ensures k == 0 ==> layout.partitions[k].role == EfiSystem
    ensures k == 1 ==> layout.partitions[k].role == MicrosoftReserved
    ensures k == 2 ==> layout.partitions[k].role == WindowsTarget
    ensures layout.partitions[k].role == RecoveryTools ==>
      forall i :: 0 <= i < k ==> layout.partitions[i].role != RecoveryTools && layout.partitions[i].role != DataTarget
    ensures layout.winReRegistration <==> exists i :: 0 <= i < |layout.partitions| && layout.partitions[i].role == RecoveryTools
  {
    hide IsZero, ActionFits, TypeGuidFor, ExactSequence, InsideDisk, WholeSectors;
    assert EntryAgrees(layout, plan.target, k);
    WholeSectorSpan(layout.partitions[k], plan.target.sectorSize);
  }

  lemma WholeSectorSpan(p: PlannedPartition, ss: u32)
    requires SupportedSectorSize(ss) && WholeSectorExtent(p, ss)
    ensures WholeSectors(ss, p.offset) * ss == p.offset && WholeSectors(ss, p.size) * ss == p.size
    ensures (WholeSectors(ss, p.offset) + WholeSectors(ss, p.size)) * ss == p.offset + p.size
  {
  }

  /** The writes that go with it: the five in commit order, none empty, all inside the disk, and entries of the right type. */
  lemma CheckedWrites(layout: RebuildPlan, plan: Plan)
    requires CrossCheck(layout, plan).None?
    ensures |plan.writes| == 5
    ensures plan.writes[0].kind == PrimaryEntries && plan.writes[1].kind == BackupEntries
    ensures plan.writes[2].kind == BackupHeaderSector && plan.writes[3].kind == ProtectiveMbrSector
    ensures plan.writes[4].kind == PrimaryHeaderCommit
    ensures forall i :: 0 <= i < 5 ==>
      && |plan.writes[i].bytes| > 0
      && plan.writes[i].offset + |plan.writes[i].bytes| <= plan.target.sectorCount * plan.target.sectorSize
    ensures !IsZero(plan.target.diskGuid)
    ensures |layout.partitions| == |plan.target.partitions|
    ensures forall k :: 0 <= k < |layout.partitions| ==>
      && plan.target.partitions[k].typeGuid == TypeGuidFor(layout.partitions[k].role)
      && plan.target.partitions[k].attributes == AttributesFor(layout.partitions[k].role)
    ensures layout.sourceUnchanged && layout.validateStillRequired && layout.bcdbootRequired && layout.alignment != 0
  {
    hide IsZero, TypeGuidFor, WholeSectors, OrderChecked, NewIdentity;
    forall i | 0 <= i < 5
      ensures plan.writes[i].offset + |plan.writes[i].bytes| <= plan.target.sectorCount * plan.target.sectorSize
    {
      assert InsideDisk(plan.writes[i], plan.target);
    }
    forall k | 0 <= k < |layout.partitions|
      ensures plan.target.partitions[k].typeGuid == TypeGuidFor(layout.partitions[k].role)
      ensures plan.target.partitions[k].attributes == AttributesFor(layout.partitions[k].role)
    {
      assert EntryAgrees(layout, plan.target, k);
    }
  }

  method ValidateLayoutAndMetadata(layout: RebuildPlan, plan: Plan) returns (fault: Option<ErrorKind>)
    ensures fault == CrossCheck(layout, plan)
  {
    hide IsZero, ActionFits, WholeSectors, LbaOffset, TypeGuidFor, EntryAgrees;
    if !Prepared(layout, plan) {
      return Some(InvalidData);
    }
    var ps, qs, ss := layout.partitions, plan.target.partitions, plan.target.sectorSize;
    var recoverySeen, dataSeen := false, false;
    var uniqueGuids: seq<Guid> := [];
    for k := 0 to |ps|
      invariant recoverySeen == Seen(ps, k, RecoveryTools) && dataSeen == Seen(ps, k, DataTarget)
      invariant |uniqueGuids| == k && forall i :: 0 <= i < k ==> uniqueGuids[i] == qs[i].uniqueGuid
      invariant forall i :: 0 <= i < k ==> EntryAgrees(layout, plan.target, i)
    {
      var agrees := CheckEntry(layout, plan.target, k, recoverySeen, dataSeen, uniqueGuids);
      if !agrees {
        return Some(VerificationFailed);
      }
      recoverySeen := recoverySeen || ps[k].role == RecoveryTools;
      dataSeen := dataSeen || ps[k].role == DataTarget;
      uniqueGuids := uniqueGuids + [qs[k].uniqueGuid];
    }
    return if recoverySeen != layout.winReRegistration then Some(VerificationFailed) else None;
  }

  /** One entry of the table against one partition of the layout. */
  method CheckEntry(layout: RebuildPlan, disk: Disk, k: nat, recoverySeen: bool, dataSeen: bool, uniqueGuids: seq<Guid>)
    returns (agrees: bool)
    requires k < |layout.partitions| == |disk.partitions| && SupportedSectorSize(disk.sectorSize)
    requires recoverySeen == Seen(layout.partitions, k, RecoveryTools)
    requires dataSeen == Seen(layout.partitions, k, DataTarget)
    requires |uniqueGuids| == k && forall i :: 0 <= i < k ==> uniqueGuids[i] == disk.partitions[i].uniqueGuid
    ensures agrees == EntryAgrees(layout, disk, k)
  {
    hide IsZero, ActionFits, LbaOffset, TypeGuidFor, Seen;
    var p, q, ss := layout.partitions[k], disk.partitions[k], disk.sectorSize;
    var requiredRole := if k == 0 then EfiSystem else if k == 1 then MicrosoftReserved
                        else if k == 2 then WindowsTarget else p.role;
    if p.number != k + 1 || p.role != requiredRole || !ActionFits(p.role, p.action, p.sourceNumber)
       || q.entryIndex != k || q.typeGuid != TypeGuidFor(p.role) || IsZero(q.uniqueGuid)
       || q.uniqueGuid in uniqueGuids
       || !Source.WholeSectorSize(ss, p.offset) || p.size == 0 || !Source.WholeSectorSize(ss, p.size) {
      return false;
    }
    var firstLba, lbaCount := WholeSectors(ss, p.offset), WholeSectors(ss, p.size);
    if lbaCount == 0 || firstLba > U64_LIMIT - 1 - (lbaCount - 1)
       || q.firstLba != firstLba || q.lastLba != firstLba + lbaCount - 1 {
      return false;
    }
    return q.attributes == AttributesFor(p.role) && !(recoverySeen && p.role == RecoveryTools)
           && !(dataSeen && p.role == RecoveryTools);
  }

  // ---------- the steps ----------

  function StepsOf(p: PlannedPartition): seq<PlannedStep> {
    if p.action == CopyContents then
      [PlannedStep(CopyPartition, p.sourceNumber, p.number, true)]
      + (if p.role == WindowsTarget then [PlannedStep(ExtendWindows, 0, p.number, true)] else [])
    else if p.action == CreateAndStageWinRe then
      [PlannedStep(CreateRecovery, 0, p.number, true), PlannedStep(StageWinRe, 0, p.number, true)]
    else []
  }

  function PartitionSteps(ps: seq<PlannedPartition>): seq<PlannedStep>
    decreases |ps|
  {
    if |ps| == 0 then [] else PartitionSteps(ps[..|ps| - 1]) + StepsOf(ps[|ps| - 1])
  }

  function Gates(): (gates: seq<PlannedStep>)
    ensures |gates| == 6
  {
    [ PlannedStep(VerifySource, 0, 0, false), PlannedStep(RunValidate, 0, 0, false), PlannedStep(ReidentifySource, 0, 0, false),
      PlannedStep(VerifyTargetEmpty, 0, 0, false), PlannedStep(VerifyConfirmation, 0, 0, false), PlannedStep(VerifyTools, 0, 0, false) ]
  }

  function Checks(winRe: bool): seq<PlannedStep> {
    [PlannedStep(VerifyReadback, 0, 0, false), PlannedStep(VerifyContents, 0, 0, false), PlannedStep(VerifyBootFiles, 0, 1, false)]
    + (if winRe then [PlannedStep(VerifyWinRe, 0, 0, false)] else [])
    + [PlannedStep(RequireColdBoot, 0, 0, false)]
  }

  function FirstOfRole(ps: seq<PlannedPartition>, role: TargetRole, from: nat): (index: nat)
    requires from <= |ps|
    ensures from <= index <= |ps|
    ensures index < |ps| ==> ps[index].role == role
    ensures forall i :: from <= i < index ==> ps[i].role != role
    decreases |ps| - from
  {
    if from == |ps| || ps[from].role == role then from else FirstOfRole(ps, role, from + 1)
  }

  function Registration(layout: RebuildPlan): seq<PlannedStep>
    requires layout.winReRegistration ==> Seen(layout.partitions, |layout.partitions|, RecoveryTools)
  {
    if layout.winReRegistration then
      [PlannedStep(RegisterWinRe, 0, layout.partitions[FirstOfRole(layout.partitions, RecoveryTools, 0)].number, true)]
    else []
  }

  function BuildSteps(layout: RebuildPlan): seq<PlannedStep>
    requires layout.winReRegistration ==> Seen(layout.partitions, |layout.partitions|, RecoveryTools)
  {
    Gates()
    + [PlannedStep(WriteTable, 0, 0, true), PlannedStep(CreateEsp, 0, 1, true)]
    + PartitionSteps(layout.partitions)
    + [PlannedStep(RunBcdBoot, 0, 1, true)]
    + Registration(layout)
    + Checks(layout.winReRegistration)
  }

  /** The sequence number is stored in 32 bits. */
  function Numbered(planned: seq<PlannedStep>): (steps: seq<Step>)
    ensures |steps| == |planned|
    decreases |planned|
  {
    if |planned| == 0 then []
    else
      var last := planned[|planned| - 1];
      Numbered(planned[..|planned| - 1]) + [Step(|planned| % U32_LIMIT, last.kind, last.source, last.target, last.mutates, true)]
  }

  lemma {:induction false} NumberedElements(planned: seq<PlannedStep>, k: nat)
    requires k < |planned|
    ensures Numbered(planned)[k]
         == Step((k + 1) % U32_LIMIT, planned[k].kind, planned[k].source, planned[k].target, planned[k].mutates, true)
    decreases |planned|
  {
    if k < |planned| - 1 {
      NumberedElements(planned[..|planned| - 1], k);
    }
  }

  lemma NumberedNext(planned: seq<PlannedStep>, s: PlannedStep)
    ensures Numbered(planned + [s])
         == Numbered(planned) + [Step((|planned| + 1) % U32_LIMIT, s.kind, s.source, s.target, s.mutates, true)]
  {
    assert (planned + [s])[..|planned|] == planned;
  }

  /** The list of steps while it is being written. */
  class StepList {
    var steps: seq<Step>
    ghost var planned: seq<PlannedStep>

    ghost predicate Valid()
      reads this
    {
      steps == Numbered(planned)
    }

    constructor ()
      ensures Valid() && planned == []
    {
      steps := [];
      planned := [];
    }

    method Append(kind: StepKind, source: u32, target: u32, mutates: bool)
      requires Valid()
      modifies this
      ensures Valid() && planned == old(planned) + [PlannedStep(kind, source, target, mutates)]
    {
      NumberedNext(planned, PlannedStep(kind, source, target, mutates));
      steps := steps + [Step((|steps| + 1) % U32_LIMIT, kind, source, target, mutates, true)];
      planned := planned + [PlannedStep(kind, source, target, mutates)];
    }

    method AppendPartition(p: PlannedPartition)
      requires Valid()
      modifies this
      ensures Valid() && planned == old(planned) + StepsOf(p)
    {
      if p.action == CopyContents {
        Append(CopyPartition, p.sourceNumber, p.number, true);
        if p.role == WindowsTarget {
          Append(ExtendWindows, 0, p.number, true);
        }
      } else if p.action == CreateAndStageWinRe {
        Append(CreateRecovery, 0, p.number, true);
        Append(StageWinRe, 0, p.number, true);
      }
    }

    method AppendPartitions(ps: seq<PlannedPartition>)
      requires Valid()
      modifies this
      ensures Valid() && planned == old(planned) + PartitionSteps(ps)
    {
      hide StepsOf, Numbered;
      for k := 0 to |ps|
        invariant Valid() && planned == old(planned) + PartitionSteps(ps[..k])
      {
        assert ps[..k + 1][..k] == ps[..k];
        AppendPartition(ps[k]);
      }
      assert ps[..|ps|] == ps;
    }

    method AppendGates()
      requires Valid() && planned == []
      modifies this
      ensures Valid() && planned == Gates()
    {
      Append(VerifySource, 0, 0, false);
      Append(RunValidate, 0, 0, false);
      Append(ReidentifySource, 0, 0, false);
      Append(VerifyTargetEmpty, 0, 0, false);
      Append(VerifyConfirmation, 0, 0, false);
      Append(VerifyTools, 0, 0, false);
    }

    method AppendChecks(winRe: bool)
      requires Valid()
      modifies this
      ensures Valid() && planned == old(planned) + Checks(winRe)
    {
      hide Numbered;
      Append(VerifyReadback, 0, 0, false);
      Append(VerifyContents, 0, 0, false);
      Append(VerifyBootFiles, 0, 1, false);
      if winRe {
        Append(VerifyWinRe, 0, 0, false);
      }
      Append(RequireColdBoot, 0, 0, false);
    }
  }

  lemma {:induction false} FewSteps(ps: seq<PlannedPartition>)
    ensures |PartitionSteps(ps)| <= 2 * |ps|
    decreases |ps|
  {
    if |ps| > 0 {
      FewSteps(ps[..|ps| - 1]);
    }
  }

  /** Cross-checks layout and table and lists the steps of the build; nothing is written. */
  method PrepareExecution(layout: RebuildPlan, plan: Plan) returns (r: Result<Preparation>)
    ensures CrossCheck(layout, plan).Some? ==> r == Err(CrossCheck(layout, plan).value)
    ensures CrossCheck(layout, plan).None? ==>
      r == Ok(Preparation(Numbered(BuildSteps(layout)), 6, true, false, true, true, layout.winReRegistration,
                             true, false, false))
    ensures r.Ok? ==> Guarded(layout, r.value.steps)
  {
    hide Prepared, EntryAgrees, Numbered, PartitionSteps, Gates, Checks, Guarded;
    var fault := ValidateLayoutAndMetadata(layout, plan);
    if fault.Some? {
      return Err(fault.value);
    }
    var list := new StepList();
    list.AppendGates();
    NumberedLength(list.planned);
    var firstMutation := |list.steps|;
    list.Append(WriteTable, 0, 0, true);
    list.Append(CreateEsp, 0, 1, true);
    list.AppendPartitions(layout.partitions);
    list.Append(RunBcdBoot, 0, 1, true);
    if layout.winReRegistration {
      var recovery := FirstOfRole(layout.partitions, RecoveryTools, 0);
      list.Append(RegisterWinRe, 0, layout.partitions[recovery].number, true);
    }
    list.AppendChecks(layout.winReRegistration);
    assert list.planned == BuildSteps(layout);
    StepsAreGuarded(layout, plan);
    return Ok(Preparation(list.steps, firstMutation, true, false, true, true, layout.winReRegistration,
                          true, false, false));
  }

  lemma NumberedLength(planned: seq<PlannedStep>)
    ensures |Numbered(planned)| == |planned|
  {
  }

  // ---------- what the steps do ----------

  /** The copies among the steps: from which source partition to which target partition. */
  function Copies(planned: seq<PlannedStep>): seq<(u32, u32)>
    decreases |planned|
  {
    if |planned| == 0 then []
    else
      var last := planned[|planned| - 1];
      Copies(planned[..|planned| - 1]) + (if last.kind == CopyPartition then [(last.source, last.target)] else [])
  }

  /** The partitions of the layout whose contents come from the source. */
  function Copied(ps: seq<PlannedPartition>): seq<(u32, u32)>
    decreases |ps|
  {
    if |ps| == 0 then []
    else
      var last := ps[|ps| - 1];
      Copied(ps[..|ps| - 1]) + (if last.action == CopyContents then [(last.sourceNumber, last.number)] else [])
  }

  lemma {:induction false} CopiesSplit(a: seq<PlannedStep>, b: seq<PlannedStep>)
    ensures Copies(a + b) == Copies(a) + Copies(b)
    decreases |b|
  {
    if |b| > 0 {
      assert (a + b)[..|a + b| - 1] == a + b[..|b| - 1];
      CopiesSplit(a, b[..|b| - 1]);
    } else {
      assert a + b == a;
    }
  }

  lemma {:induction false} NoCopies(planned: seq<PlannedStep>)
    requires forall i :: 0 <= i < |planned| ==> planned[i].kind != CopyPartition
    ensures Copies(planned) == []
    decreases |planned|
  {
    if |planned| > 0 {
      NoCopies(planned[..|planned| - 1]);
    }
  }

  lemma CopiesOfPartition(p: PlannedPartition)
    ensures Copies(StepsOf(p)) == if p.action == CopyContents then [(p.sourceNumber, p.number)] else []
  {
    if p.action == CopyContents {
      var copy := PlannedStep(CopyPartition, p.sourceNumber, p.number, true);
      assert [copy][..0] == [];
      assert Copies([copy]) == [(p.sourceNumber, p.number)];
      var rest := if p.role == WindowsTarget then [PlannedStep(ExtendWindows, 0, p.number, true)] else [];
      NoCopies(rest);
      CopiesSplit([copy], rest);
    } else {
      NoCopies(StepsOf(p));
    }
  }

  lemma {:induction false} CopiesOfPartitions(ps: seq<PlannedPartition>)
    ensures Copies(PartitionSteps(ps)) == Copied(ps)
    decreases |ps|
  {
    if |ps| > 0 {
      CopiesOfPartitions(ps[..|ps| - 1]);
      CopiesSplit(PartitionSteps(ps[..|ps| - 1]), StepsOf(ps[|ps| - 1]));
      CopiesOfPartition(ps[|ps| - 1]);
    }
  }

  /** The steps are numbered and in order, they never write to the source, and they copy what the layout copies. */
  ghost predicate Guarded(layout: RebuildPlan, steps: seq<Step>) {
    && (exists boot :: InOrder(layout, Bare(steps), boot))
    && (forall k :: 0 <= k < |steps| ==> steps[k].sequence == (k + 1) % U32_LIMIT && steps[k].sourceReadOnly)
    && Copies(Bare(steps)) == Copied(layout.partitions)
  }

  lemma StepsAreGuarded(layout: RebuildPlan, plan: Plan)
    requires CrossCheck(layout, plan).None?
    ensures Guarded(layout, Numbered(BuildSteps(layout)))
  {
    hide InOrder, Opens, Closes, PartitionSteps, Numbered, Copies, Copied, CrossCheck, OpeningSteps, ClosingSteps;
    CheckedNumbers(layout, plan);
    var planned := BuildSteps(layout);
    BareNumbered(planned);
    StepsInOrder(layout, plan);
    forall k | 0 <= k < |planned|
      ensures Numbered(planned)[k].sequence == (k + 1) % U32_LIMIT && Numbered(planned)[k].sourceReadOnly
    {
      NumberedElements(planned, k);
    }
    CopiesOfSteps(layout);
  }

  lemma CopiesOfSteps(layout: RebuildPlan)
    requires layout.winReRegistration ==> Seen(layout.partitions, |layout.partitions|, RecoveryTools)
    requires NumberedInOrder(layout.partitions)
    ensures Copies(BuildSteps(layout)) == Copied(layout.partitions)
  {
    hide Opens, Closes, PartitionSteps, Copies, Copied, OpeningSteps, ClosingSteps;
    var front, middle, back := OpeningSteps(), PartitionSteps(layout.partitions), ClosingSteps(layout);
    OpeningAndClosing(layout);
    Edges(layout);
    forall i | 0 <= i < |front| ensures front[i].kind != CopyPartition {
      OpeningKinds(front, i);
    }
    forall i | 0 <= i < |back| ensures back[i].kind != CopyPartition {
      ClosingKinds(layout, back, i);
    }
    NoCopies(front);
    NoCopies(back);
    CopiesOfPartitions(layout.partitions);
    CopiesSplit(front, middle);
    CopiesSplit(front + middle, back);
  }

  /** Every layout that fits a table of 128 entries has few enough steps for their 32-bit numbers. */
  lemma FewEnoughSteps(layout: RebuildPlan, plan: Plan)
    requires CrossCheck(layout, plan).None? && |layout.partitions| <= ENTRY_COUNT
    ensures |BuildSteps(layout)| <= 2 * |layout.partitions| + 15 < U32_LIMIT
  {
    hide PartitionSteps, Prepared, EntryAgrees;
    FewSteps(layout.partitions);
  }

  // ---------- the order of the steps ----------

  /** The steps without their numbers. */
  function Bare(steps: seq<Step>): (planned: seq<PlannedStep>)
    ensures |planned| == |steps|
  {
    seq(|steps|, i requires 0 <= i < |steps| =>
      PlannedStep(steps[i].kind, steps[i].source, steps[i].target, steps[i].mutates))
  }

  lemma BareNumbered(planned: seq<PlannedStep>)
    ensures Bare(Numbered(planned)) == planned
  {
    hide Numbered;
    forall k | 0 <= k < |planned| ensures Bare(Numbered(planned))[k] == planned[k] {
      NumberedElements(planned, k);
    }
  }

  /** The step fills a partition of the layout, and its neighbours are the ones it needs. */
  predicate FillsPartition(ps: seq<PlannedPartition>, s: seq<PlannedStep>, i: nat)
    requires i < |s|
  {
    var target := s[i].target;
    && s[i].mutates && 1 <= target <= |ps|
    && var p := ps[target - 1];
    match s[i].kind
    case CopyPartition =>
      && p.action == CopyContents && s[i].source == p.sourceNumber
      && (p.role == WindowsTarget ==> i + 1 < |s| && s[i + 1] == PlannedStep(ExtendWindows, 0, target, true))
    case ExtendWindows =>
      p.role == WindowsTarget && i > 0 && s[i - 1] == PlannedStep(CopyPartition, p.sourceNumber, target, true)
    case CreateRecovery =>
      p.action == CreateAndStageWinRe && i + 1 < |s| && s[i + 1] == PlannedStep(StageWinRe, 0, target, true)
    case StageWinRe => i > 0 && s[i - 1] == PlannedStep(CreateRecovery, 0, target, true)
    case _ => false
  }

  /** What the partition needs is among the steps. */
  predicate IsFilled(p: PlannedPartition, s: seq<PlannedStep>) {
    && (p.action == CopyContents ==> PlannedStep(CopyPartition, p.sourceNumber, p.number, true) in s)
    && (p.action == CreateAndStageWinRe ==> PlannedStep(CreateRecovery, 0, p.number, true) in s)
  }

  predicate NoStepTwice(s: seq<PlannedStep>) {
    forall i, j :: 0 <= i < j < |s| ==> s[i] != s[j]
  }

  predicate NumberedInOrder(ps: seq<PlannedPartition>) {
    forall k :: 0 <= k < |ps| ==> ps[k].number == k + 1
  }

  /** The steps that fill the partitions, on their own. */
  predicate AllFilled(ps: seq<PlannedPartition>, s: seq<PlannedStep>) {
    && (forall i :: 0 <= i < |s| ==> FillsPartition(ps, s, i))
    && (forall k :: 0 <= k < |ps| ==> IsFilled(ps[k], s))
    && NoStepTwice(s)
  }

  lemma FillsBefore(ps: seq<PlannedPartition>, qs: seq<PlannedPartition>, s: seq<PlannedStep>, t: seq<PlannedStep>, i: nat)
    requires i < |s| && FillsPartition(ps, s, i) && ps <= qs && s <= t
    ensures FillsPartition(qs, t, i)
  {
  }

  lemma FillsNext(ps: seq<PlannedPartition>, s: seq<PlannedStep>, i: nat)
    requires |ps| > 0 && NumberedInOrder(ps) && i < |StepsOf(ps[|ps| - 1])|
    ensures FillsPartition(ps, s + StepsOf(ps[|ps| - 1]), |s| + i)
  {
  }

  lemma {:induction false} PartitionStepsFill(ps: seq<PlannedPartition>)
    requires NumberedInOrder(ps)
    ensures AllFilled(ps, PartitionSteps(ps))
    decreases |ps|
  {
    hide FillsPartition;
    if |ps| > 0 {
      var earlier, last := ps[..|ps| - 1], ps[|ps| - 1];
      var s, t := PartitionSteps(earlier), PartitionSteps(ps);
      PartitionStepsFill(earlier);
      forall i | 0 <= i < |t| ensures FillsPartition(ps, t, i) {
        if i < |s| {
          FillsBefore(earlier, ps, s, t, i);
        } else {
          FillsNext(ps, s, i - |s|);
        }
      }
      StepsOfLast(earlier, s, last);
      forall k | 0 <= k < |ps| ensures IsFilled(ps[k], t) {
        assert k < |earlier| ==> ps[k] == earlier[k];
      }
    }
  }

  lemma StepsOfLast(earlier: seq<PlannedPartition>, s: seq<PlannedStep>, last: PlannedPartition)
    requires AllFilled(earlier, s) && last.number == |earlier| + 1
    ensures NoStepTwice(s + StepsOf(last)) && IsFilled(last, s + StepsOf(last))
    ensures forall k :: 0 <= k < |earlier| ==> IsFilled(earlier[k], s + StepsOf(last))
  {
    var t := s + StepsOf(last);
    forall i, j | 0 <= i < j < |t| ensures t[i] != t[j] {
      if i < |s| {
        assert FillsPartition(earlier, s, i);
      }
    }
    assert |StepsOf(last)| > 0 ==> t[|s|] == StepsOf(last)[0];
    forall k | 0 <= k < |earlier| ensures IsFilled(earlier[k], t) {
      assert IsFilled(earlier[k], s);
    }
  }

  datatype Phase = Opening | Filling | Closing

  function PhaseOf(kind: StepKind): Phase {
    match kind
    case VerifySource | RunValidate | ReidentifySource | VerifyTargetEmpty | VerifyConfirmation | VerifyTools
       | WriteTable | CreateEsp => Opening
    case CopyPartition | ExtendWindows | CreateRecovery | StageWinRe => Filling
    case _ => Closing
  }

  /** The checks of source, target and tools, in this order, then the table and the EFI partition. */
  predicate Opens(s: seq<PlannedStep>) {
    && |s| == 8
    && s[0].kind == VerifySource && s[1].kind == RunValidate && s[2].kind == ReidentifySource
    && s[3].kind == VerifyTargetEmpty && s[4].kind == VerifyConfirmation && s[5].kind == VerifyTools
    && s[6] == PlannedStep(WriteTable, 0, 0, true) && s[7] == PlannedStep(CreateEsp, 0, 1, true)
    && forall i :: 0 <= i < 6 ==> !s[i].mutates
  }

  /** BCDBoot, the registration of the recovery partition if there is one, and then only checks. */
  predicate Closes(layout: RebuildPlan, s: seq<PlannedStep>) {
    var ps, winRe := layout.partitions, layout.winReRegistration;
    var checks := if winRe then 2 else 1;
    && |s| == (if winRe then 7 else 5)
    && s[0] == PlannedStep(RunBcdBoot, 0, 1, true)
    && (winRe ==>
          && s[1].kind == RegisterWinRe && s[1].mutates
          && 1 <= s[1].target <= |ps| && ps[s[1].target - 1].role == RecoveryTools
          && s[5].kind == VerifyWinRe)
    && s[checks].kind == VerifyReadback && s[checks + 1].kind == VerifyContents
    && s[checks + 2] == PlannedStep(VerifyBootFiles, 0, 1, false)
    && s[|s| - 1].kind == RequireColdBoot
    && forall i :: checks <= i < |s| ==> !s[i].mutates
  }

  /** The partitions are filled between the opening and BCDBoot. */
  predicate InOrder(layout: RebuildPlan, s: seq<PlannedStep>, boot: nat) {
    && 8 <= boot <= |s|
    && Opens(s[..8])
    && (forall i :: 8 <= i < boot ==> FillsPartition(layout.partitions, s, i))
    && (forall k :: 0 <= k < |layout.partitions| ==> IsFilled(layout.partitions[k], s))
    && Closes(layout, s[boot..])
    && NoStepTwice(s)
  }

  /** A step of this kind stands where the order has it, and nowhere else; behind the registration nothing mutates. */
  lemma OnlyThere(layout: RebuildPlan, s: seq<PlannedStep>, boot: nat, i: nat)
    requires InOrder(layout, s, boot) && i < |s|
    ensures s[i].kind == CreateEsp <==> i == 7
    ensures s[i].kind == RunBcdBoot <==> i == boot
    ensures s[i].kind == RegisterWinRe <==> layout.winReRegistration && i == boot + 1
    ensures s[i].kind == RequireColdBoot <==> i == |s| - 1
    ensures PhaseOf(s[i].kind) == (if i < 8 then Opening else if i < boot then Filling else Closing)
    ensures s[i].mutates <==> 6 <= i < (if layout.winReRegistration then boot + 2 else boot + 1)
  {
    hide NoStepTwice, IsFilled, Opens, Closes, FillsPartition;
    if i < 8 {
      OpeningKinds(s[..8], i);
    } else if i < boot {
      FillingKinds(layout.partitions, s, i);
    } else {
      ClosingKinds(layout, s[boot..], i - boot);
    }
    CloseLength(layout, s[boot..]);
  }

  lemma CloseLength(layout: RebuildPlan, s: seq<PlannedStep>)
    requires Closes(layout, s)
    ensures |s| == if layout.winReRegistration then 7 else 5
  {
  }

  lemma OpeningKinds(s: seq<PlannedStep>, i: nat)
    requires Opens(s) && i < 8
    ensures s[i].kind == CreateEsp <==> i == 7
    ensures PhaseOf(s[i].kind) == Opening
    ensures s[i].mutates <==> 6 <= i
  {
    assert i == 0 || i == 1 || i == 2 || i == 3 || i == 4 || i == 5 || i == 6 || i == 7;
  }

  lemma FillingKinds(ps: seq<PlannedPartition>, s: seq<PlannedStep>, i: nat)
    requires i < |s| && FillsPartition(ps, s, i)
    ensures PhaseOf(s[i].kind) == Filling && s[i].mutates
  {
  }

  lemma ClosingKinds(layout: RebuildPlan, s: seq<PlannedStep>, i: nat)
    requires Closes(layout, s) && i < |s|
    ensures s[i].kind == RunBcdBoot <==> i == 0
    ensures s[i].kind == RegisterWinRe <==> layout.winReRegistration && i == 1
    ensures s[i].kind == RequireColdBoot <==> i == |s| - 1
    ensures PhaseOf(s[i].kind) == Closing
    ensures s[i].mutates <==> i < (if layout.winReRegistration then 2 else 1)
  {
    assert i == 0 || i == 1 || i == 2 || i == 3 || i == 4 || i == 5 || i == 6;
  }

  /** The steps of every checked layout are in order. */
  lemma StepsInOrder(layout: RebuildPlan, plan: Plan)
    requires CrossCheck(layout, plan).None?
    ensures InOrder(layout, BuildSteps(layout), 8 + |PartitionSteps(layout.partitions)|)
  {
    hide FillsPartition, CrossCheck, PartitionSteps, AllFilled, NoStepTwice, IsFilled, OpeningSteps, ClosingSteps, BuildSteps,
         Opens, Closes, NumberedInOrder;
    var ps := layout.partitions;
    CheckedNumbers(layout, plan);
    PartitionStepsFill(ps);
    OpeningAndClosing(layout);
    Edges(layout);
    var s := OpeningSteps() + PartitionSteps(ps) + ClosingSteps(layout);
    Surrounded(layout, OpeningSteps(), PartitionSteps(ps), ClosingSteps(layout));
    assert s[..8] == OpeningSteps() && s[8 + |PartitionSteps(ps)|..] == ClosingSteps(layout);
  }

  function OpeningSteps(): (front: seq<PlannedStep>)
    ensures |front| == 8
  {
    Gates() + [PlannedStep(WriteTable, 0, 0, true), PlannedStep(CreateEsp, 0, 1, true)]
  }

  function ClosingSteps(layout: RebuildPlan): (back: seq<PlannedStep>)
    requires layout.winReRegistration ==> Seen(layout.partitions, |layout.partitions|, RecoveryTools)
    ensures |back| == if layout.winReRegistration then 7 else 5
  {
    [PlannedStep(RunBcdBoot, 0, 1, true)] + Registration(layout) + Checks(layout.winReRegistration)
  }

  lemma OpeningAndClosing(layout: RebuildPlan)
    requires layout.winReRegistration ==> Seen(layout.partitions, |layout.partitions|, RecoveryTools)
    ensures BuildSteps(layout) == OpeningSteps() + PartitionSteps(layout.partitions) + ClosingSteps(layout)
  {
    hide PartitionSteps, Gates, Registration, Checks;
  }

  lemma Edges(layout: RebuildPlan)
    requires layout.winReRegistration ==> Seen(layout.partitions, |layout.partitions|, RecoveryTools)
    requires NumberedInOrder(layout.partitions)
    ensures Opens(OpeningSteps()) && Closes(layout, ClosingSteps(layout))
  {
    hide FirstOfRole;
    var ps := layout.partitions;
    if layout.winReRegistration {
      var k := FirstOfRole(ps, RecoveryTools, 0);
      assert k < |ps| && ps[ps[k].number - 1] == ps[k];
    }
  }

  lemma NoneTwiceInOpening(s: seq<PlannedStep>)
    requires Opens(s)
    ensures NoStepTwice(s) && |s| == 8
  {
  }

  lemma NoneTwiceInClosing(layout: RebuildPlan, s: seq<PlannedStep>)
    requires Closes(layout, s)
    ensures NoStepTwice(s)
  {
  }

  lemma CheckedNumbers(layout: RebuildPlan, plan: Plan)
    requires CrossCheck(layout, plan).None?
    ensures NumberedInOrder(layout.partitions)
    ensures layout.winReRegistration ==> Seen(layout.partitions, |layout.partitions|, RecoveryTools)
  {
    hide NewIdentity, Matches, ExactSequence, InsideDisk;
    forall k | 0 <= k < |layout.partitions| ensures layout.partitions[k].number == k + 1 {
      assert EntryAgrees(layout, plan.target, k);
    }
  }

  /** The steps in front and behind leave the filling of the partitions as it is. */
  lemma Surrounded(layout: RebuildPlan, front: seq<PlannedStep>, middle: seq<PlannedStep>, back: seq<PlannedStep>)
    requires AllFilled(layout.partitions, middle) && Opens(front) && Closes(layout, back)
    ensures var s, ps := front + middle + back, layout.partitions;
      && (forall i :: |front| <= i < |front| + |middle| ==> FillsPartition(ps, s, i))
      && (forall k :: 0 <= k < |ps| ==> IsFilled(ps[k], s))
      && NoStepTwice(s)
  {
    hide Opens, Closes;
    var s, ps := front + middle + back, layout.partitions;
    forall i | |front| <= i < |front| + |middle| ensures FillsPartition(ps, s, i) {
      assert FillsPartition(ps, middle, i - |front|);
    }
    forall k | 0 <= k < |ps| ensures IsFilled(ps[k], s) {
      assert IsFilled(ps[k], middle);
    }
    SurroundedTwice(layout, front, middle, back);
  }

  lemma SurroundedTwice(layout: RebuildPlan, front: seq<PlannedStep>, middle: seq<PlannedStep>, back: seq<PlannedStep>)
    requires AllFilled(layout.partitions, middle) && Opens(front) && Closes(layout, back)
    ensures NoStepTwice(front + middle + back)
  {
    hide Opens, Closes, FillsPartition;
    var s := front + middle + back;
    NoneTwiceInOpening(front);
    NoneTwiceInClosing(layout, back);
    forall i | 0 <= i < |s|
      ensures PhaseOf(s[i].kind) == (if i < |front| then Opening else if i < |front| + |middle| then Filling else Closing)
    {
      if i < |front| {
        OpeningKinds(front, i);
      } else if i < |front| + |middle| {
        FillingKinds(layout.partitions, middle, i - |front|);
      } else {
        ClosingKinds(layout, back, i - |front| - |middle|);
      }
    }
    forall i, j | 0 <= i < j < |s| ensures s[i] != s[j] {
    }
  }

  // ---------- the stages fit together ----------

  lemma FreshTableSucceeds(table: Disk, targetSize: u64, draws: Draws)
    requires Template(table) && GoodDraws(draws, |table.partitions| + 1)
    requires LbaOffset(table.sectorSize, table.sectorCount) == targetSize
    requires table.lastUsable == table.sectorCount - 2 - EntrySectors(table.sectorSize, table.entryCount)
    requires forall i :: 0 <= i < |table.partitions| ==>
      InUsableRange(table.partitions[i], table.firstUsable, table.lastUsable)
    ensures PlanFreshTable(table, targetSize, table.sectorSize, draws).Ok?
    ensures var target := PlanFreshTable(table, targetSize, table.sectorSize, draws).value;
      && |target.partitions| == |table.partitions|
      && forall i :: 0 <= i < |table.partitions| ==>
           target.partitions[i] == table.partitions[i].(uniqueGuid := target.partitions[i].uniqueGuid)
  {
    hide IsZero, DrawGuids, Typed, Nameable, Ascending, DisjointExtents, EntrySectors;
    DrawsSucceed(draws, |table.partitions| + 1);
    WholeAgain(table.sectorSize, table.sectorCount);
  }

  lemma WholeAgain(ss: u32, sectors: nat)
    requires SupportedSectorSize(ss)
    ensures WholeSectors(ss, LbaOffset(ss, sectors)) == sectors
  {
  }

  /** For layouts of the rebuild planner, the metadata planner succeeds exactly up to 128 partitions. */
  lemma MetadataAccepts(request: Source.Request, draws: Draws)
    requires PlanRebuild(request).Ok?
    requires GoodDraws(draws, |PlanRebuild(request).value.partitions| + 1)
    ensures var plan := PlanRebuild(request).value;
      PlanMetadata(plan, request.targetSize, request.sectorSize, draws).Ok? <==> |plan.partitions| <= ENTRY_COUNT
  {
    hide PlanRebuild, TableFor, PlanFreshTable, GoodDraws, Template, InUsableRange, EntrySectors;
    var plan := PlanRebuild(request).value;
    PlannedLayoutHasTable(request);
    if |plan.partitions| <= ENTRY_COUNT {
      var table := TableFor(plan, request.targetSize, request.sectorSize).value;
      TableIsTemplate(plan, request.targetSize, request.sectorSize, table);
      TableShape(plan, request.targetSize, request.sectorSize, table);
      FreshTableSucceeds(table, request.targetSize, draws);
    }
  }

  lemma TableShape(layout: RebuildPlan, targetSize: u64, ss: u32, table: Disk)
    requires TableFor(layout, targetSize, ss) == Ok(table)
    ensures table.sectorSize == ss && |table.partitions| == |layout.partitions|
    ensures SupportedSectorSize(ss)
    ensures table.lastUsable == table.sectorCount - 2 - EntrySectors(table.sectorSize, table.entryCount)
    ensures forall i :: 0 <= i < |table.partitions| ==>
      && FaultAt(layout.partitions, i, targetSize, ss).None?
      && WholeSectorExtent(layout.partitions[i], ss) && EndOf(layout.partitions[i]) < U64_LIMIT && i < ENTRY_COUNT
      && table.partitions[i] == TableEntry(layout.partitions[i], i, ss)
    ensures Seen(layout.partitions, |layout.partitions|, RecoveryTools) == layout.winReRegistration
    ensures layout.alignment != 0 && layout.sourceUnchanged && 3 <= |layout.partitions|
  {
    hide FaultAt, TableEntry, WholeSectorExtent, EntrySectors;
  }

  /** Whatever the metadata planner makes of a sound layout passes the independent cross-check. */
  lemma CrossCheckAccepts(layout: RebuildPlan, targetSize: u64, ss: u32, draws: Draws, target: Disk)
    requires PlanMetadata(layout, targetSize, ss, draws) == Ok(target)
    requires layout.validateStillRequired && layout.bcdbootRequired
    ensures WellFormed(target) && target.sectorSize == ss && LbaOffset(ss, target.sectorCount) == targetSize
    ensures CrossCheck(layout, Plan(target, FreshWrites(target))).None?
    ensures |target.partitions| == |layout.partitions|
    ensures forall k :: 0 <= k < |layout.partitions| ==> EntryAgrees(layout, target, k)
  {
    hide TableFor, PlanFreshTable, Template, InUsableRange, EntrySectors, WellFormed, FreshWrites, EntryAgrees,
         Prepared;
    var table := TableFor(layout, targetSize, ss).value;
    TableIsTemplate(layout, targetSize, ss, table);
    TableShape(layout, targetSize, ss, table);
    FreshTargetWellFormed(table, targetSize, ss, draws, target);
    PlannedEntries(layout, targetSize, ss, draws, target);
    PreparedTarget(layout, target);
    forall k | 0 <= k < |layout.partitions| ensures EntryAgrees(layout, target, k) {
      EntryAccepted(layout, targetSize, ss, draws, target, k);
    }
  }

  lemma PlannedEntries(layout: RebuildPlan, targetSize: u64, ss: u32, draws: Draws, target: Disk)
    requires PlanMetadata(layout, targetSize, ss, draws) == Ok(target)
    ensures |target.partitions| == |layout.partitions|
    ensures TableFor(layout, targetSize, ss).Ok?
    ensures var qs := TableFor(layout, targetSize, ss).value.partitions;
      |qs| == |target.partitions|
      && forall k :: 0 <= k < |qs| ==> target.partitions[k] == qs[k].(uniqueGuid := target.partitions[k].uniqueGuid)
  {
    hide TableFor, PlanFreshTable, Template, EntrySectors, LbaOffset, GoodGeometry, WellFormed;
    var table := TableFor(layout, targetSize, ss).value;
    TableIsTemplate(layout, targetSize, ss, table);
    TableShape(layout, targetSize, ss, table);
    FreshTargetFills(table, targetSize, ss, draws, target);
    forall k | 0 <= k < |table.partitions|
      ensures target.partitions[k] == table.partitions[k].(uniqueGuid := target.partitions[k].uniqueGuid)
    {
      assert SameButIdentity(target.partitions[k], table.partitions[k]);
    }
  }

  /** The whole table of a layout: 128 entries, all usable sectors, and for every partition its type, name and place. */
  lemma PlannedTable(layout: RebuildPlan, targetSize: u64, ss: u32, draws: Draws, target: Disk)
    requires PlanMetadata(layout, targetSize, ss, draws) == Ok(target)
    ensures target.sectorSize == ss && target.sectorCount * ss == targetSize
    ensures target.entryCount == 128 && target.entrySize == 128
    ensures target.firstUsable == (if ss == 512 then 34 else 6)
    ensures target.lastUsable == target.sectorCount - (if ss == 512 then 34 else 6)
    ensures |target.partitions| == |layout.partitions|
    ensures forall k :: 0 <= k < |layout.partitions| ==>
      var p, q := layout.partitions[k], target.partitions[k];
      && q.entryIndex == k && q.typeGuid == PublishedType(p.role) && q.name == NameFor(p.role)
      && q.attributes == AttributesFor(p.role)
      && q.firstLba * ss == p.offset && (q.lastLba + 1) * ss == p.offset + p.size
      && draws(k + 1) == Ok(q.uniqueGuid)
    ensures draws(0) == Ok(target.diskGuid)
  {
    hide TableFor, PlanFreshTable, Template, GoodGeometry, WellFormed, TypeGuidFor, PublishedType, NameFor, FaultAt,
         WholeSectors, LbaOffset, EntrySectors;
    var table := TableFor(layout, targetSize, ss).value;
    TableIsTemplate(layout, targetSize, ss, table);
    TableShape(layout, targetSize, ss, table);
    TableSpan(layout, targetSize, ss, table);
    FreshTargetFills(table, targetSize, ss, draws, target);
    SpanOfTarget(target);
    forall k | 0 <= k < |layout.partitions|
      ensures var p, q := layout.partitions[k], target.partitions[k];
        && q.entryIndex == k && q.typeGuid == PublishedType(p.role) && q.name == NameFor(p.role)
        && q.attributes == AttributesFor(p.role)
        && q.firstLba * ss == p.offset && (q.lastLba + 1) * ss == p.offset + p.size
    {
      assert SameButIdentity(target.partitions[k], table.partitions[k]);
      PublishedTypes(layout.partitions[k].role);
      EntryPlace(layout.partitions[k], k, ss);
    }
  }

  lemma TableSpan(layout: RebuildPlan, targetSize: u64, ss: u32, table: Disk)
    requires TableFor(layout, targetSize, ss) == Ok(table)
    ensures table.entryCount == 128 && table.entrySize == 128 && SupportedSectorSize(ss)
    ensures table.firstUsable == (if ss == 512 then 34 else 6)
  {
    hide FaultAt, TableEntry;
  }

  lemma SpanOfTarget(target: Disk)
    requires GoodGeometry(target) && target.entryCount == 128 && target.lastUsable + 1 == BackupArrayLba(target)
    ensures target.lastUsable == target.sectorCount - (if target.sectorSize == 512 then 34 else 6)
  {
  }

  lemma EntryPlace(p: PlannedPartition, k: nat, ss: u32)
    requires SupportedSectorSize(ss) && WholeSectorExtent(p, ss) && k < ENTRY_COUNT && EndOf(p) < U64_LIMIT
    ensures var q := TableEntry(p, k, ss);
      && q.entryIndex == k && q.typeGuid == TypeGuidFor(p.role) && q.name == NameFor(p.role)
      && q.attributes == AttributesFor(p.role)
      && q.firstLba * ss == p.offset && (q.lastLba + 1) * ss == p.offset + p.size
  {
    hide TypeGuidFor, NameFor;
    SectorsOf(p, ss);
  }

  lemma EntryAccepted(layout: RebuildPlan, targetSize: u64, ss: u32, draws: Draws, target: Disk, k: nat)
    requires PlanMetadata(layout, targetSize, ss, draws) == Ok(target)
    requires WellFormed(target) && target.sectorSize == ss
    requires k < |layout.partitions| == |target.partitions|
    ensures EntryAgrees(layout, target, k)
  {
    hide TableFor, PlanMetadata, IsZero, TableEntry, Matches, OrderChecked, EntrySectors, Typed, Nameable, Ascending,
         LbaOffset, FaultAt, Placed;
    PlannedEntries(layout, targetSize, ss, draws, target);
    TableShape(layout, targetSize, ss, TableFor(layout, targetSize, ss).value);
    FaultlessOrdered(layout.partitions, targetSize, ss, k);
    EntryMatches(layout.partitions[k], target.partitions[k], k, ss);
    OwnIdentity(target, k);
  }

  lemma OwnIdentity(target: Disk, k: nat)
    requires WellFormed(target) && k < |target.partitions|
    ensures NewIdentity(target.partitions, k)
  {
    hide IsZero, EntrySectors, Typed, Nameable, Ascending, LbaOffset;
    assert Placed(target.partitions[k], target.firstUsable, target.lastUsable);
    forall i | 0 <= i < k ensures target.partitions[i].uniqueGuid != target.partitions[k].uniqueGuid {
      assert Apart(target.partitions[i], target.partitions[k]);
    }
  }

  lemma FaultlessOrdered(ps: seq<PlannedPartition>, targetSize: u64, ss: u32, k: nat)
    requires k < |ps| && SupportedSectorSize(ss) && FaultAt(ps, k, targetSize, ss).None?
    ensures OrderChecked(ps, k)
  {
    hide ActionFits, EntrySectors, WholeSectorExtent, WholeSectors, Seen;
  }

  lemma EntryMatches(p: PlannedPartition, q: Partition, k: nat, ss: u32)
    requires SupportedSectorSize(ss) && WholeSectorExtent(p, ss) && k < ENTRY_COUNT && EndOf(p) < U64_LIMIT
    requires q == TableEntry(p, k, ss).(uniqueGuid := q.uniqueGuid)
    ensures Matches(p, q, k, ss)
  {
    hide TypeGuidFor, NameFor, WholeSectors, WholeSectorExtent;
    SectorSum(p, ss);
  }

  lemma SectorSum(p: PlannedPartition, ss: u32)
    requires SupportedSectorSize(ss) && WholeSectorExtent(p, ss)
    ensures WholeSectors(ss, EndOf(p)) == WholeSectors(ss, p.offset) + WholeSectors(ss, p.size)
  {
  }

  lemma PreparedTarget(layout: RebuildPlan, target: Disk)
    requires WellFormed(target) && |layout.partitions| == |target.partitions| >= 3
    requires layout.validateStillRequired && layout.bcdbootRequired && layout.sourceUnchanged && layout.alignment != 0
    ensures Prepared(layout, Plan(target, FreshWrites(target)))
  {
    hide IsZero, EntrySectors, Typed, Nameable, Ascending, Consistent, PaddedEntries, HeaderSector, ProtectiveMbr,
         EntriesCrc;
    GptCrash.ArraySpan(target);
    ArrayNotEmpty(target);
  }

  lemma ArrayNotEmpty(disk: Disk)
    requires GoodGeometry(disk)
    ensures LbaOffset(disk.sectorSize, ArraySectors(disk)) > 0
  {
  }

  /**
   The rebuild from end to end: with enough different identities, every layout
   the rebuild planner accepts is put into a table exactly when it has at most
   128 partitions; the table passes the cross-check, and once its writes are on
   any disk of the target's size, that disk is read as exactly this table.
   */
  lemma RebuildFitsTogether(request: Source.Request, draws: Draws, image: Image)
    requires PlanRebuild(request).Ok? && |image| == request.targetSize
    requires GoodDraws(draws, |PlanRebuild(request).value.partitions| + 1)
    ensures var layout := PlanRebuild(request).value;
      var planned := PlanMetadata(layout, request.targetSize, request.sectorSize, draws);
      && (planned.Ok? <==> |layout.partitions| <= 128)
      && (planned.Ok? ==>
            var target := planned.value;
            && GoodGeometry(target)
            && CrossCheck(layout, Plan(target, FreshWrites(target))).None?
            && GptCrash.AllFit(FreshWrites(target), image)
            && ParseGpt(request.sectorSize, GptCrash.Applied(image, FreshWrites(target))) == Ok(target)
            && |target.partitions| == |layout.partitions|
            && forall k :: 0 <= k < |layout.partitions| ==>
                 Matches(layout.partitions[k], target.partitions[k], k, request.sectorSize))
  {
    hide PlanRebuild, PlanMetadata, GoodDraws, ParseGpt, FreshWrites, GptCrash.Applied, GptCrash.AllFit, Consistent,
         Typed, Nameable, Ascending, Matches, Prepared, SoundLayout, OrderChecked, NewIdentity, EntrySectors, IsZero;
    AcceptedLayoutSound(request);
    MetadataAccepts(request, draws);
    var layout := PlanRebuild(request).value;
    var planned := PlanMetadata(layout, request.targetSize, request.sectorSize, draws);
    if planned.Ok? {
      var target := planned.value;
      CrossCheckAccepts(layout, request.targetSize, request.sectorSize, draws, target);
      GptCrash.WellFormedRoundTrip(target, image);
      forall k | 0 <= k < |layout.partitions|
        ensures Matches(layout.partitions[k], target.partitions[k], k, request.sectorSize)
      {
        assert EntryAgrees(layout, target, k);
      }
    }
  }
}
