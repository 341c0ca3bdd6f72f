/**
 From the semantic layout to a partition table: the planner that turns a layout
 into the protective MBR and the GPT, with fresh identities.
 */
module Mbr2GptMetadata {
  import opened Bytes
  import opened Gpt
  import opened GptBuild
  import opened GptExecute
  import opened GptPlan
  import opened GptStore
  import opened Mbr2GptLayout
  import opened Mbr2GptPlanner
  import opened Results
  import Source = Mbr2GptSource

  const ENTRY_COUNT: u32 := 128
  const RECOVERY_ATTRIBUTES: u64 := 0x8000_0000_0000_0001

  function TypeGuidFor(role: TargetRole): (guid: Guid)
    ensures !IsZero(guid)
  {
    match role
    case EfiSystem =>
      var g := [0x28, 0x73, 0x2A, 0xC1, 0x1F, 0xF8, 0xD2, 0x11, 0xBA, 0x4B, 0x00, 0xA0, 0xC9, 0x3E, 0xC9, 0x3B];
      assert g[0] != 0;
      g
    case MicrosoftReserved =>
      var g := [0x16, 0xE3, 0xC9, 0xE3, 0x5C, 0x0B, 0xB8, 0x4D, 0x81, 0x7D, 0xF9, 0x2D, 0xF0, 0x02, 0x15, 0xAE];
      assert g[0] != 0;
      g
    case RecoveryTools =>
      var g := [0xA4, 0xBB, 0x94, 0xDE, 0xD1, 0x06, 0x40, 0x4D, 0xA1, 0x6A, 0xBF, 0xD5, 0x01, 0x79, 0xD6, 0xAC];
      assert g[0] != 0;
      g
    case WindowsTarget | DataTarget =>
      var g := [0xA2, 0xA0, 0xD0, 0xEB, 0xE5, 0xB9, 0x33, 0x44, 0x87, 0xC0, 0x68, 0xB6, 0xB7, 0x26, 0x99, 0xC7];
      assert g[0] != 0;
      g
  }

  /** The names as UTF-16 code units; three of them are Japanese. */
  function NameFor(role: TargetRole): (name: seq<u16>)
    ensures |name| <= NAME_UNITS && 0 !in name
  {
    match role
    case EfiSystem => [0x45, 0x46, 0x49, 0x20, 0x30B7, 0x30B9, 0x30C6, 0x30E0]
    case MicrosoftReserved => [0x4D, 0x69, 0x63, 0x72, 0x6F, 0x73, 0x6F, 0x66, 0x74, 0x20, 0x4E88, 0x7D04]
    case WindowsTarget => [0x57, 0x69, 0x6E, 0x64, 0x6F, 0x77, 0x73]
    case RecoveryTools =>
      [0x57, 0x69, 0x6E, 0x64, 0x6F, 0x77, 0x73, 0x20, 0x52, 0x45, 0x20, 0x30C4, 0x30FC, 0x30EB]
    case DataTarget => [0x30C7, 0x30FC, 0x30BF]
  }

  function AttributesFor(role: TargetRole): u64 {
    if role == RecoveryTools then RECOVERY_ATTRIBUTES else 0
  }

  /** A GUID as it is published, in its stored form: the first three fields count from the least significant byte. */
  function GuidOf(first: u32, second: u16, third: u16, rest: seq<byte>): (guid: Guid)
    requires |rest| == 8
  {
    Little(first, 4) + Little(second, 2) + Little(third, 2) + rest
  }

  lemma LittleOfBytes(a: byte, b: byte, c: byte, d: byte)
    ensures Little(0x100 * (b as int) + a, 2) == [a, b]
    ensures Little(0x100_0000 * (d as int) + 0x1_0000 * (c as int) + 0x100 * (b as int) + a, 4) == [a, b, c, d]
  {
    var value := 0x100_0000 * (d as int) + 0x1_0000 * (c as int) + 0x100 * (b as int) + a;
    var second, third := value / 0x100, value / 0x1_0000;
    assert second == 0x1_0000 * (d as int) + 0x100 * (c as int) + b && third == 0x100 * (d as int) + c;
    assert value % 0x100 == a && second % 0x100 == b && third % 0x100 == c;
    assert second / 0x100 == third && third / 0x100 == d;
    assert Little(value, 4) == [a] + Little(second, 3);
    assert Little(second, 3) == [b] + Little(third, 2);
    assert Little(third, 2) == [c] + Little(third / 0x100, 1);
  }

  /** The published partition types: EFI system, Microsoft reserved, recovery, basic data. */
  function PublishedType(role: TargetRole): Guid {
    match role
    case EfiSystem => GuidOf(0xC12A_7328, 0xF81F, 0x11D2, [0xBA, 0x4B, 0x00, 0xA0, 0xC9, 0x3E, 0xC9, 0x3B])
    case MicrosoftReserved => GuidOf(0xE3C9_E316, 0x0B5C, 0x4DB8, [0x81, 0x7D, 0xF9, 0x2D, 0xF0, 0x02, 0x15, 0xAE])
    case RecoveryTools => GuidOf(0xDE94_BBA4, 0x06D1, 0x4D40, [0xA1, 0x6A, 0xBF, 0xD5, 0x01, 0x79, 0xD6, 0xAC])
    case WindowsTarget | DataTarget =>
      GuidOf(0xEBD0_A0A2, 0xB9E5, 0x4433, [0x87, 0xC0, 0x68, 0xB6, 0xB7, 0x26, 0x99, 0xC7])
  }

  /** Every entry has the published type of its role. */
  lemma PublishedTypes(role: TargetRole)
    ensures TypeGuidFor(role) == PublishedType(role)
  {
    hide TypeGuidFor, PublishedType;
    match role
    case EfiSystem => PublishedEfiSystem();
    case MicrosoftReserved => PublishedMicrosoftReserved();
    case RecoveryTools => PublishedRecoveryTools();
    case WindowsTarget | DataTarget => PublishedData();
  }

  lemma PublishedEfiSystem()
    ensures TypeGuidFor(EfiSystem) == PublishedType(EfiSystem)
  {
    hide GuidOf;
    SpelledGuid(0xC12A_7328, 0xF81F, 0x11D2, [0x28, 0x73, 0x2A, 0xC1, 0x1F, 0xF8, 0xD2, 0x11],
                [0xBA, 0x4B, 0x00, 0xA0, 0xC9, 0x3E, 0xC9, 0x3B]);
  }

  lemma PublishedMicrosoftReserved()
    ensures TypeGuidFor(MicrosoftReserved) == PublishedType(MicrosoftReserved)
  {
    hide GuidOf;
    SpelledGuid(0xE3C9_E316, 0x0B5C, 0x4DB8, [0x16, 0xE3, 0xC9, 0xE3, 0x5C, 0x0B, 0xB8, 0x4D],
                [0x81, 0x7D, 0xF9, 0x2D, 0xF0, 0x02, 0x15, 0xAE]);
  }

  lemma PublishedRecoveryTools()
    ensures TypeGuidFor(RecoveryTools) == PublishedType(RecoveryTools)
  {
    hide GuidOf;
    SpelledGuid(0xDE94_BBA4, 0x06D1, 0x4D40, [0xA4, 0xBB, 0x94, 0xDE, 0xD1, 0x06, 0x40, 0x4D],
                [0xA1, 0x6A, 0xBF, 0xD5, 0x01, 0x79, 0xD6, 0xAC]);
  }

  lemma PublishedData()
    ensures TypeGuidFor(WindowsTarget) == PublishedType(WindowsTarget)
    ensures TypeGuidFor(DataTarget) == PublishedType(DataTarget)
  {
    hide GuidOf;
    SpelledGuid(0xEBD0_A0A2, 0xB9E5, 0x4433, [0xA2, 0xA0, 0xD0, 0xEB, 0xE5, 0xB9, 0x33, 0x44],
                [0x87, 0xC0, 0x68, 0xB6, 0xB7, 0x26, 0x99, 0xC7]);
  }

  lemma SpelledGuid(first: u32, second: u16, third: u16, front: seq<byte>, rest: seq<byte>)
    requires |front| == |rest| == 8
    requires first == 0x100_0000 * (front[3] as int) + 0x1_0000 * (front[2] as int) + 0x100 * (front[1] as int) + front[0]
    requires second == 0x100 * (front[5] as int) + front[4] && third == 0x100 * (front[7] as int) + front[6]
    ensures GuidOf(first, second, third, rest) == front + rest
  {
    hide Little;
    LittleOfBytes(front[0], front[1], front[2], front[3]);
    LittleOfBytes(front[4], front[5], 0, 0);
    LittleOfBytes(front[6], front[7], 0, 0);
    assert front == front[..4] + front[4..6] + front[6..];
  }

  /** Only Windows and data share a type, and only the recovery partition has attributes: required, no drive letter. */
  lemma TypesTellRolesApart(a: TargetRole, b: TargetRole)
    ensures TypeGuidFor(a) == TypeGuidFor(b) <==> a == b || {a, b} == {WindowsTarget, DataTarget}
    ensures AttributesFor(a) != 0 <==> a == RecoveryTools
    ensures AttributesFor(RecoveryTools) % 2 == 1 && AttributesFor(RecoveryTools) / 2 == 0x4000_0000_0000_0000
  {
    var g, h := TypeGuidFor(a), TypeGuidFor(b);
    assert g == h ==> g[0] == h[0];
  }

  predicate Spells(name: seq<u16>, text: string) {
    |name| == |text| && forall i :: 0 <= i < |name| ==> name[i] == text[i] as int
  }

  /** The names that the partitions are given. */
  lemma PublishedNames()
    ensures Spells(NameFor(EfiSystem), "EFI \U{30B7}\U{30B9}\U{30C6}\U{30E0}")
    ensures Spells(NameFor(MicrosoftReserved), "Microsoft \U{4E88}\U{7D04}")
    ensures Spells(NameFor(WindowsTarget), "Windows")
    ensures Spells(NameFor(RecoveryTools), "Windows RE \U{30C4}\U{30FC}\U{30EB}")
    ensures Spells(NameFor(DataTarget), "\U{30C7}\U{30FC}\U{30BF}")
  {
  }

  predicate Seen(ps: seq<PlannedPartition>, k: nat, role: TargetRole)
    requires k <= |ps|
  {
    exists i :: 0 <= i < k && ps[i].role == role
  }

  function PlannedEndBefore(ps: seq<PlannedPartition>, k: nat): nat
    requires k <= |ps|
  {
    if k == 0 then 0 else EndOf(ps[k - 1])
  }

  predicate RoleInOrder(ps: seq<PlannedPartition>, k: nat)
    requires k < |ps|
  {
    if k == 0 then ps[k].role == EfiSystem
    else if k == 1 then ps[k].role == MicrosoftReserved
    else if k == 2 then ps[k].role == WindowsTarget
    else
      || ps[k].role == DataTarget
      || (ps[k].role == RecoveryTools && !Seen(ps, k, RecoveryTools) && !Seen(ps, k, DataTarget))
  }

  predicate WholeSectorExtent(p: PlannedPartition, ss: u32) {
    && Source.WholeSectorSize(ss, p.offset)
    && p.size != 0
    && Source.WholeSectorSize(ss, p.size)
  }

  function FirstLba(p: PlannedPartition, ss: u32): nat
    requires SupportedSectorSize(ss)
  {
    WholeSectors(ss, p.offset)
  }

  function LastLba(p: PlannedPartition, ss: u32): int
    requires SupportedSectorSize(ss)
  {
    WholeSectors(ss, EndOf(p)) - 1
  }

  function FirstUsable(ss: u32): nat
    requires SupportedSectorSize(ss)
  {
    2 + EntrySectors(ss, ENTRY_COUNT)
  }

  function LastUsable(ss: u32, targetSize: u64): int
    requires SupportedSectorSize(ss)
  {
    WholeSectors(ss, targetSize) - 2 - EntrySectors(ss, ENTRY_COUNT)
  }

  function FaultAt(ps: seq<PlannedPartition>, k: nat, targetSize: u64, ss: u32): Option<ErrorKind>
    requires k < |ps| && SupportedSectorSize(ss)
  {
    if ps[k].number != k + 1 || !RoleInOrder(ps, k)
       || !ActionFits(ps[k].role, ps[k].action, ps[k].sourceNumber)
       || !WholeSectorExtent(ps[k], ss)
       || ps[k].offset < PlannedEndBefore(ps, k) || EndOf(ps[k]) > targetSize then
      Some(InvalidData)
    else if FirstLba(ps[k], ss) < FirstUsable(ss) || LastLba(ps[k], ss) > LastUsable(ss, targetSize) then
      Some(UnsupportedLayout)
    else None
  }

  function FirstFault(ps: seq<PlannedPartition>, k: nat, targetSize: u64, ss: u32): (fault: Option<ErrorKind>)
    requires k <= |ps| && SupportedSectorSize(ss)
    ensures fault.None? <==> forall i :: k <= i < |ps| ==> FaultAt(ps, i, targetSize, ss).None?
    decreases |ps| - k
  {
    if k == |ps| then None
    else if FaultAt(ps, k, targetSize, ss).Some? then FaultAt(ps, k, targetSize, ss)
    else FirstFault(ps, k + 1, targetSize, ss)
  }

  function NoGuid(): Guid {
    Zeros(16)
  }

  /** The partition as it goes into the table; its identity is drawn later. */
  function TableEntry(p: PlannedPartition, k: nat, ss: u32): Partition
    requires SupportedSectorSize(ss) && WholeSectorExtent(p, ss) && k < ENTRY_COUNT && EndOf(p) < U64_LIMIT
  {
    SectorsOf(p, ss);
    Partition(k, TypeGuidFor(p.role), NoGuid(), FirstLba(p, ss), LastLba(p, ss), AttributesFor(p.role), NameFor(p.role))
  }

  lemma SectorsOf(p: PlannedPartition, ss: u32)
    requires SupportedSectorSize(ss) && WholeSectorExtent(p, ss)
    ensures LbaOffset(ss, FirstLba(p, ss)) == p.offset
    ensures LbaOffset(ss, LastLba(p, ss) + 1) == EndOf(p)
    ensures FirstLba(p, ss) <= LastLba(p, ss) <= EndOf(p)
    ensures FirstLba(p, ss) <= p.offset
  {
  }

  function TableEntries(ps: seq<PlannedPartition>, targetSize: u64, ss: u32, count: nat): (table: seq<Partition>)
    requires SupportedSectorSize(ss) && count <= |ps| <= ENTRY_COUNT
    requires forall i :: 0 <= i < count ==> FaultAt(ps, i, targetSize, ss).None?
    ensures |table| == count
    ensures forall i :: 0 <= i < count ==>
      WholeSectorExtent(ps[i], ss) && EndOf(ps[i]) < U64_LIMIT && table[i] == TableEntry(ps[i], i, ss)
  {
    Extents(ps, targetSize, ss, count);
    seq(count, i requires 0 <= i < count => TableEntry(ps[i], i, ss))
  }

  lemma Extents(ps: seq<PlannedPartition>, targetSize: u64, ss: u32, count: nat)
    requires SupportedSectorSize(ss) && count <= |ps|
    requires forall i :: 0 <= i < count ==> FaultAt(ps, i, targetSize, ss).None?
    ensures forall i :: 0 <= i < count ==> WholeSectorExtent(ps[i], ss) && EndOf(ps[i]) < U64_LIMIT
  {
    hide FaultAt, WholeSectorExtent;
    forall i | 0 <= i < count ensures WholeSectorExtent(ps[i], ss) && EndOf(ps[i]) < U64_LIMIT {
      Extent(ps, targetSize, ss, i);
    }
  }

  lemma Extent(ps: seq<PlannedPartition>, targetSize: u64, ss: u32, k: nat)
    requires SupportedSectorSize(ss) && k < |ps| && FaultAt(ps, k, targetSize, ss).None?
    ensures WholeSectorExtent(ps[k], ss) && EndOf(ps[k]) < U64_LIMIT
  {
    hide EntrySectors, ActionFits, WholeSectors, RoleInOrder, WholeSectorExtent;
  }

  predicate SupportedLayout(layout: RebuildPlan, targetSize: u64, ss: u32) {
    && SupportedSectorSize(ss)
    && targetSize >= Source.MINIMUM_DISK
    && Source.WholeSectorSize(ss, targetSize)
    && layout.alignment != 0
    && 3 <= |layout.partitions| <= ENTRY_COUNT
    && layout.sourceUnchanged
  }

  /** The table for the layout, but for its identities. */
  function TableFor(layout: RebuildPlan, targetSize: u64, ss: u32): (r: Result<Disk>) {
    if !SupportedLayout(layout, targetSize, ss) then Err(InvalidArgument)
    else
      var ps := layout.partitions;
      var fault := FirstFault(ps, 0, targetSize, ss);
      if fault.Some? then Err(fault.value)
      else if Seen(ps, |ps|, RecoveryTools) != layout.winReRegistration then Err(InvalidData)
      else
        UsableSpan(targetSize, ss);
        Ok(Disk(ss, WholeSectors(ss, targetSize), NoGuid(), FirstUsable(ss), LastUsable(ss, targetSize),
                ENTRY_COUNT, ENTRY_SIZE, TableEntries(ps, targetSize, ss, |ps|)))
  }

  lemma UsableSpan(targetSize: u64, ss: u32)
    requires SupportedSectorSize(ss) && targetSize >= Source.MINIMUM_DISK
    ensures FirstUsable(ss) < LastUsable(ss, targetSize) < U64_LIMIT
    ensures 68 <= WholeSectors(ss, targetSize) < U64_LIMIT
    ensures WholeSectors(ss, targetSize) > 3 + 2 * EntrySectors(ss, ENTRY_COUNT)
  {
  }

  function PlanMetadata(layout: RebuildPlan, targetSize: u64, ss: u32, draws: Draws): (r: Result<Disk>) {
    var table :- TableFor(layout, targetSize, ss);
    PlanFreshTable(table, targetSize, ss, draws)
  }

  // ---------- the table is a template ----------

  lemma {:induction false} LaterExtents(ps: seq<PlannedPartition>, targetSize: u64, ss: u32, i: nat, j: nat)
    requires SupportedSectorSize(ss) && i < j < |ps|
    requires forall k :: 0 <= k < |ps| ==> FaultAt(ps, k, targetSize, ss).None?
    ensures LastLba(ps[i], ss) < FirstLba(ps[j], ss)
    decreases j
  {
    assert FaultAt(ps, i, targetSize, ss).None? && FaultAt(ps, j, targetSize, ss).None?;
    assert FaultAt(ps, j - 1, targetSize, ss).None?;
    SectorsOf(ps[j - 1], ss);
    if i < j - 1 {
      LaterExtents(ps, targetSize, ss, i, j - 1);
    }
  }

  lemma TableIsTemplate(layout: RebuildPlan, targetSize: u64, ss: u32, table: Disk)
    requires TableFor(layout, targetSize, ss) == Ok(table)
    ensures Template(table) && LbaOffset(ss, table.sectorCount) == targetSize
    ensures forall i :: 0 <= i < |table.partitions| ==>
      InUsableRange(table.partitions[i], table.firstUsable, table.lastUsable)
  {
    hide IsZero, EntrySectors, TypeGuidFor, NameFor, RoleInOrder, ActionFits, LbaOffset, WholeSectors;
    var ps, qs := layout.partitions, table.partitions;
    UsableSpan(targetSize, ss);
    WholeDisk(targetSize, ss);
    forall i | 0 <= i < |qs|
      ensures qs[i] == TableEntry(ps[i], i, ss) && qs[i].firstLba <= qs[i].lastLba
      ensures InUsableRange(qs[i], table.firstUsable, table.lastUsable)
    {
      assert FaultAt(ps, i, targetSize, ss).None?;
      SectorsOf(ps[i], ss);
    }
    forall i, j | 0 <= i < j < |qs| ensures qs[i].lastLba < qs[j].firstLba {
      LaterExtents(ps, targetSize, ss, i, j);
    }
    EntriesNamed(layout, targetSize, ss, table);
  }

  lemma WholeDisk(targetSize: u64, ss: u32)
    requires SupportedSectorSize(ss) && Source.WholeSectorSize(ss, targetSize)
    ensures LbaOffset(ss, WholeSectors(ss, targetSize)) == targetSize
  {
  }

  lemma EntriesNamed(layout: RebuildPlan, targetSize: u64, ss: u32, table: Disk)
    requires TableFor(layout, targetSize, ss) == Ok(table)
    ensures Ascending(table.partitions, ENTRY_COUNT) && Typed(table.partitions) && Nameable(table.partitions)
  {
    hide IsZero, EntrySectors, TypeGuidFor, NameFor, RoleInOrder, ActionFits, LbaOffset, WholeSectors, FaultAt;
    var ps, qs := layout.partitions, table.partitions;
    forall q | q in qs ensures !IsZero(q.typeGuid) && |q.name| <= NAME_UNITS && 0 !in q.name {
      var i :| 0 <= i < |qs| && qs[i] == q;
      assert q == TableEntry(ps[i], i, ss);
    }
  }

  // ---------- the layouts of the rebuild planner ----------

  lemma SoundLayoutFaultless(plan: RebuildPlan, request: Source.Request, k: nat)
    requires SoundLayout(plan, request) && k < |plan.partitions|
    requires request.targetSize >= Source.MINIMUM_DISK && SupportedSectorSize(request.sectorSize)
    ensures FaultAt(plan.partitions, k, request.targetSize, request.sectorSize).None?
  {
    hide ActionFits, CopiesWhole;
    var ps := plan.partitions;
    StaysInside(ps, Source.MIB, RoundDown(request.targetSize - Source.MIB), k);
    AlignedIsWhole(ps[k], request.targetSize, request.sectorSize);
  }

  lemma {:induction false} StaysInside(ps: seq<PlannedPartition>, start: nat, end: nat, k: nat)
    requires Contiguous(ps, start, end) && k < |ps|
    ensures start <= ps[k].offset && EndOf(ps[k]) <= end
  {
    StartsInside(ps, start, end, k);
    EndsInside(ps, start, end, k);
  }

  lemma {:induction false} StartsInside(ps: seq<PlannedPartition>, start: nat, end: nat, k: nat)
    requires Contiguous(ps, start, end) && k < |ps|
    ensures start <= ps[k].offset
    decreases k
  {
    if k > 0 {
      StartsInside(ps, start, end, k - 1);
    }
  }

  lemma {:induction false} EndsInside(ps: seq<PlannedPartition>, start: nat, end: nat, k: nat)
    requires Contiguous(ps, start, end) && k < |ps|
    ensures EndOf(ps[k]) <= end
    decreases |ps| - k
  {
    if k + 1 < |ps| {
      EndsInside(ps, start, end, k + 1);
      assert ps[k + 1].offset == EndOf(ps[k]);
    }
  }

  lemma WholeMiB(n: nat)
    requires n % Source.MIB == 0
    ensures n % 512 == 0 && n % 4096 == 0
  {
    var k := n / Source.MIB;
    assert n == Source.MIB * k;
    assert n == 4096 * (256 * k) && n == 512 * (2048 * k);
  }

  lemma OneMiBOfSectors(low: nat, high: nat)
    requires low + Source.MIB <= high
    ensures low / 512 + 2048 <= high / 512 && low / 4096 + 256 <= high / 4096
  {
    assert (low + Source.MIB) / 512 == low / 512 + 2048;
    assert (low + Source.MIB) / 4096 == low / 4096 + 256;
  }

  lemma ArraySizes()
    ensures EntrySectors(512, ENTRY_COUNT) == 32 && EntrySectors(4096, ENTRY_COUNT) == 4
  {
  }

  lemma AlignedIsWhole(p: PlannedPartition, targetSize: u64, ss: u32)
    requires SupportedSectorSize(ss) && AlignedPartition(p)
    requires Source.MIB <= p.offset && targetSize >= Source.MINIMUM_DISK
    requires EndOf(p) <= RoundDown(targetSize - Source.MIB)
    ensures WholeSectorExtent(p, ss) && EndOf(p) <= targetSize
    ensures FirstUsable(ss) <= FirstLba(p, ss) && LastLba(p, ss) <= LastUsable(ss, targetSize)
  {
    hide RoundDown, EntrySectors;
    WholeMiB(p.offset);
    WholeMiB(p.size);
    ArraySizes();
    OneMiBOfSectors(0, p.offset);
    OneMiBOfSectors(EndOf(p), targetSize);
  }

  /** A layout of the rebuild planner can be put into a table exactly when it has no more partitions than entries. */
  lemma PlannedLayoutHasTable(request: Source.Request)
    requires PlanRebuild(request).Ok?
    ensures var plan := PlanRebuild(request).value;
      TableFor(plan, request.targetSize, request.sectorSize).Ok? <==> |plan.partitions| <= ENTRY_COUNT
  {
    hide PlanRebuild, FaultAt, EntrySectors, SoundLayout, TableEntries;
    AcceptedLayoutSound(request);
    SupportedRequest(request);
    var plan := PlanRebuild(request).value;
    forall k | 0 <= k < |plan.partitions|
      ensures FaultAt(plan.partitions, k, request.targetSize, request.sectorSize).None?
    {
      SoundLayoutFaultless(plan, request, k);
    }
    RecoverySeen(plan, request);
  }

  lemma SupportedRequest(request: Source.Request)
    requires PlanRebuild(request).Ok?
    ensures Source.SupportedMedia(request)
  {
    hide RecoveryFault, Drafts, TotalSize, PlanFor, NeededRecovery, Find, FindPartition;
    Source.AcceptedSources(request);
  }

  lemma RecoverySeen(plan: RebuildPlan, request: Source.Request)
    requires SoundLayout(plan, request) && |plan.partitions| >= 3 + (if request.requireRecovery then 1 else 0)
    ensures Seen(plan.partitions, |plan.partitions|, RecoveryTools) <==> request.requireRecovery
  {
    hide Contiguous, AlignedPartition, ActionFits, CopiesWhole;
    if request.requireRecovery {
      assert plan.partitions[3].role == RecoveryTools;
    }
  }

  // ---------- the planner ----------

  /** Puts the layout into a table, draws the identities and builds the writes. */
  method MakeMetadataPlan(layout: RebuildPlan, targetSize: u64, ss: u32, generator: GuidGenerator)
    returns (r: Result<Plan>)
    modifies generator
    ensures r.Err? ==> PlanMetadata(layout, targetSize, ss, old(generator.Ahead())) == Err(r.error)
    ensures r.Ok? ==> PlanMetadata(layout, targetSize, ss, old(generator.Ahead())) == Ok(r.value.target)
    ensures r.Ok? ==> GoodGeometry(r.value.target) && r.value.writes == FreshWrites(r.value.target)
  {
    hide Template, PlanFreshTable, GoodGeometry, FreshWrites;
    var table := BuildTable(layout, targetSize, ss);
    if table.Err? {
      return Err(table.error);
    }
    TableIsTemplate(layout, targetSize, ss, table.value);
    r := MakeGptWritePlan(table.value, targetSize, ss, generator);
  }

  method BuildTable(layout: RebuildPlan, targetSize: u64, ss: u32) returns (r: Result<Disk>)
    ensures r == TableFor(layout, targetSize, ss)
  {
    hide IsZero, EntrySectors, TypeGuidFor, NameFor, LbaOffset, WholeSectors, TableEntry, TableEntries, FaultAt,
         WholeSectorExtent;
    if !SupportedLayout(layout, targetSize, ss) {
      return Err(InvalidArgument);
    }
    var ps := layout.partitions;
    var recoverySeen, dataSeen := false, false;
    var previousEnd: nat := 0;
    UsableSpan(targetSize, ss);
    var table: seq<Partition> := [];
    for k := 0 to |ps|
      invariant recoverySeen == Seen(ps, k, RecoveryTools) && dataSeen == Seen(ps, k, DataTarget)
      invariant previousEnd == PlannedEndBefore(ps, k)
      invariant FirstFault(ps, 0, targetSize, ss) == FirstFault(ps, k, targetSize, ss)
      invariant forall i :: 0 <= i < k ==> FaultAt(ps, i, targetSize, ss).None?
      invariant table == TableEntries(ps, targetSize, ss, k)
    {
      var fault := CheckPartition(ps, k, recoverySeen, dataSeen, previousEnd, targetSize, ss);
      if fault.Some? {
        return Err(fault.value);
      }
      recoverySeen := recoverySeen || ps[k].role == RecoveryTools;
      dataSeen := dataSeen || ps[k].role == DataTarget;
      previousEnd := ps[k].offset + ps[k].size;
      EntriesGrow(ps, targetSize, ss, k);
      table := table + [TableEntry(ps[k], k, ss)];
    }
    if recoverySeen != layout.winReRegistration {
      return Err(InvalidData);
    }
    return Ok(Disk(ss, WholeSectors(ss, targetSize), NoGuid(), FirstUsable(ss), LastUsable(ss, targetSize),
                   ENTRY_COUNT, ENTRY_SIZE, table));
  }

  /** One partition of the layout, against what the ones before it left behind. */
  method CheckPartition(ps: seq<PlannedPartition>, k: nat, recoverySeen: bool, dataSeen: bool, previousEnd: nat,
                        targetSize: u64, ss: u32)
    returns (fault: Option<ErrorKind>)
    requires SupportedSectorSize(ss) && k < |ps|
    requires recoverySeen == Seen(ps, k, RecoveryTools) && dataSeen == Seen(ps, k, DataTarget)
    requires previousEnd == PlannedEndBefore(ps, k)
    requires forall i :: 0 <= i < k ==> FaultAt(ps, i, targetSize, ss).None?
    ensures fault == FaultAt(ps, k, targetSize, ss)
  {
    hide EntrySectors, LbaOffset, WholeSectors, Seen, Source.WholeSectorSize;
    var p := ps[k];
    var requiredRole := if k == 0 then EfiSystem else if k == 1 then MicrosoftReserved
                        else if k == 2 then WindowsTarget else p.role;
    var trailing := k < 3 || (p.role == RecoveryTools && !recoverySeen && !dataSeen) || p.role == DataTarget;
    FixedRoles(ps, k, targetSize, ss);
    if p.number != k + 1 || p.role != requiredRole || !trailing || (recoverySeen && p.role == RecoveryTools)
       || !ActionFits(p.role, p.action, p.sourceNumber)
       || !Source.WholeSectorSize(ss, p.offset) || p.size == 0 || !Source.WholeSectorSize(ss, p.size)
       || p.offset < previousEnd || p.offset > targetSize || p.size > targetSize - p.offset {
      return Some(InvalidData);
    }
    var firstLba, lastLba := WholeSectors(ss, p.offset), WholeSectors(ss, p.offset + p.size) - 1;
    return if firstLba < FirstUsable(ss) || lastLba > LastUsable(ss, targetSize) then Some(UnsupportedLayout) else None;
  }

  /** The first three roles are neither recovery tools nor data. */
  lemma FixedRoles(ps: seq<PlannedPartition>, k: nat, targetSize: u64, ss: u32)
    requires k < |ps| && SupportedSectorSize(ss)
    requires forall i :: 0 <= i < k ==> FaultAt(ps, i, targetSize, ss).None?
    ensures k < 3 ==> !Seen(ps, k, RecoveryTools)
  {
    hide EntrySectors, ActionFits, WholeSectors;
    forall i | 0 <= i < k && i < 3 ensures ps[i].role != RecoveryTools {
      assert FaultAt(ps, i, targetSize, ss).None?;
    }
  }

  lemma EntriesGrow(ps: seq<PlannedPartition>, targetSize: u64, ss: u32, k: nat)
    requires SupportedSectorSize(ss) && k < |ps| <= ENTRY_COUNT
    requires forall i :: 0 <= i <= k ==> FaultAt(ps, i, targetSize, ss).None?
    ensures WholeSectorExtent(ps[k], ss) && EndOf(ps[k]) < U64_LIMIT
    ensures TableEntries(ps, targetSize, ss, k + 1) == TableEntries(ps, targetSize, ss, k) + [TableEntry(ps[k], k, ss)]
  {
    hide FaultAt, TableEntry, WholeSectorExtent;
    Extent(ps, targetSize, ss, k);
  }
}
