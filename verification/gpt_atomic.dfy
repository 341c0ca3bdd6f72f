/**
 Adding a partition to a live table: whenever the machine stops, the disk is
 rejected, or it still has the old table, or it has the new one.
 */
module GptAtomic {
  import opened Bytes
  import opened Crc32
  import opened Gpt
  import opened GptBuild
  import opened GptCrash
  import opened GptPlan
  import opened GptStore
  import opened Results

  /** An image with the old primary header can only be accepted with the old geometry and two equal arrays. */
  lemma AcceptedUnderOldHeader(ss: u32, before: Image, after: Image)
    requires ParseGpt(ss, before).Ok? && ParseGpt(ss, after).Ok?
    requires |before| == |after| && LbaOffset(ss, 2) <= |before| && SectorAt(ss, before, 1) == SectorAt(ss, after, 1)
    ensures var disk := ParseGpt(ss, before).value;
      && GoodGeometry(disk)
      && |after| == LbaOffset(disk.sectorSize, disk.sectorCount)
      && BackupArray(disk, after) == PrimaryArray(disk, after)
      && ParseGpt(ss, after).value
         == disk.(partitions := UsedPartitions(PrimaryArray(disk, after), disk.entryCount))
  {
    hide ParseGpt, UsedPartitions, Consistent, Typed, Nameable, Ascending, IsZero, EntrySectors;
    ParsedWellFormed(ss, before);
    ParsedWellFormed(ss, after);
    SameHeaderSameDisk(ss, before, after);
  }

  /** Whatever is in the primary array, the backup array still decides: the old table or none. */
  lemma PrimaryArrayDamaged(ss: u32, before: Image, after: Image)
    requires ParseGpt(ss, before).Ok?
    requires |before| == |after| && LbaOffset(ss, 2) <= |before| && SectorAt(ss, before, 1) == SectorAt(ss, after, 1)
    requires var disk := ParseGpt(ss, before).value;
      && GoodGeometry(disk)
      && |before| == LbaOffset(disk.sectorSize, disk.sectorCount)
      && BackupArray(disk, before) == BackupArray(disk, after)
    ensures ParseGpt(ss, after).Err? || ParseGpt(ss, after) == ParseGpt(ss, before)
  {
    hide ParseGpt, UsedPartitions, Consistent, Typed, Nameable, Ascending, IsZero, EntrySectors, PrimaryArray,
         BackupArray;
    if ParseGpt(ss, after).Ok? {
      ParsedWellFormed(ss, before);
      AcceptedUnderOldHeader(ss, before, after);
    }
  }

  /** With the new primary array in place and the old primary header, only the new table can be read. */
  lemma PrimaryArrayReplaced(ss: u32, before: Image, after: Image, target: Disk)
    requires ParseGpt(ss, before).Ok? && Storable(target)
    requires target == ParseGpt(ss, before).value.(partitions := target.partitions)
    requires |before| == |after| == LbaOffset(target.sectorSize, target.sectorCount)
    requires ss == target.sectorSize && LbaOffset(ss, 2) <= |before|
    requires SectorAt(ss, before, 1) == SectorAt(ss, after, 1)
    requires PrimaryArray(target, after) == Entries(target.partitions, target.entryCount)
    ensures ParseGpt(ss, after).Err? || ParseGpt(ss, after) == Ok(Canonical(target))
  {
    hide ParseGpt, UsedPartitions, Consistent, Typed, Indexed, IsZero, EntrySectors, BackupArray, Entries, ByIndex;
    if ParseGpt(ss, after).Ok? {
      AcceptedUnderOldHeader(ss, before, after);
      EntriesRoundTrip(target.partitions, target.entryCount);
    }
  }

  /** The tool read `current` from the image and planned `target`. */
  predicate Planned(ss: u32, image: Image, current: Disk, request: AddRequest, draws: Draws, target: Disk) {
    ParseGpt(ss, image) == Ok(current) && PlanAddedPartition(current, request, draws) == Ok(target)
  }

  /** The plan keeps the geometry, its writes fit the disk, and only one partition is new. */
  predicate IsUpdate(image: Image, current: Disk, target: Disk) {
    && WellFormed(current)
    && Storable(target)
    && target == current.(partitions := target.partitions)
    && |image| == LbaOffset(target.sectorSize, target.sectorCount)
    && AllFit(UpdateWrites(target), image)
    && AddsOne(current.partitions, target.partitions)
  }

  lemma PlannedTarget(ss: u32, image: Image, current: Disk, request: AddRequest, draws: Draws, target: Disk)
    requires Planned(ss, image, current, request, draws, target)
    ensures IsUpdate(image, current, target) && ss == target.sectorSize
  {
    hide ParseGpt, PlanAddedPartition, IsZero, UpdateWrites, Consistent, Typed, Nameable, Ascending, Indexed,
         EntrySectors, Slot, UsedPartitions, PrimaryArray, BackupArray;
    ParsedWellFormed(ss, image);
    AddedTargetStorable(current, request, draws);
    WritesStayApart(target, UpdateWrites(target));
    MetadataFits(target, UpdateWrites(target), image);
  }

  predicate AddsOne(ps: seq<Partition>, qs: seq<Partition>) {
    && |qs| == |ps| + 1
    && qs[..|ps|] == ps
    && Slot(ps, qs[|ps|].entryIndex).None?
  }

  /** The old array and the new one differ: the free entry has a type now. */
  lemma ArraysDiffer(current: Disk, image: Image, target: Disk)
    requires IsUpdate(image, current, target)
    requires current.partitions == UsedPartitions(PrimaryArray(current, image), current.entryCount)
    ensures PrimaryArray(current, image) != Entries(target.partitions, target.entryCount)
  {
    hide UsedPartitions, Consistent, Typed, Nameable, Ascending, IsZero, EntrySectors, Entries, ByIndex, Slot,
         PrimaryArray, Stored;
    if PrimaryArray(current, image) == Entries(target.partitions, target.entryCount) {
      EntriesRoundTrip(target.partitions, target.entryCount);
      var n := |current.partitions|;
      var index := target.partitions[n].entryIndex;
      AddedSlot(current.partitions, target.partitions);
      ByIndexComplete(target.partitions, target.entryCount, index);
      StoredIndex(target.partitions[n]);
    }
  }

  lemma AddedSlot(ps: seq<Partition>, qs: seq<Partition>)
    requires AddsOne(ps, qs)
    ensures Slot(qs, qs[|ps|].entryIndex) == Some(qs[|ps|])
    ensures forall i: nat :: i != qs[|ps|].entryIndex ==> Slot(qs, i) == Slot(ps, i)
  {
    hide Slot;
    assert qs == ps + [qs[|ps|]];
    SlotAppended(ps, qs[|ps|], qs[|ps|].entryIndex);
    forall i: nat | i != qs[|ps|].entryIndex ensures Slot(qs, i) == Slot(ps, i) {
      SlotAppended(ps, qs[|ps|], i);
    }
  }

  // ---------- crashes ----------

  /** Equal outside the range of the write. */
  predicate EqualOutside(a: Image, b: Image, w: Write) {
    && |a| == |b| && Fits(w, a)
    && a[..w.offset] == b[..w.offset]
    && a[w.offset + |w.bytes|..] == b[w.offset + |w.bytes|..]
  }

  /**
   The disk after a crash: the first `k` writes are done, the rest are not. An
   array write takes many sectors, so one that was under way may have left
   anything in its range; a header is a single sector, which is written whole.
   */
  predicate CrashedAt(disk: Disk, image: Image, crashed: Image, k: nat) {
    && GoodGeometry(disk)
    && AllFit(UpdateWrites(disk), image)
    && k <= 4
    && AllFit(UpdateWrites(disk)[..k], image)
    && (|| crashed == Applied(image, UpdateWrites(disk)[..k])
        || (k < 2 && EqualOutside(Applied(image, UpdateWrites(disk)[..k]), crashed, UpdateWrites(disk)[k])))
  }

  /** Everything the two main cases need to know about a crashed image. */
  lemma CrashedParts(disk: Disk, image: Image, crashed: Image, k: nat)
    requires GoodGeometry(disk) && |image| == LbaOffset(disk.sectorSize, disk.sectorCount)
    requires CrashedAt(disk, image, crashed, k)
    ensures |crashed| == |image|
    ensures k < 4 ==> SectorAt(disk.sectorSize, crashed, 1) == SectorAt(disk.sectorSize, image, 1)
    ensures k == 0 ==> BackupArray(disk, crashed) == BackupArray(disk, image)
    ensures k > 0 ==> PrimaryArray(disk, crashed) == Entries(disk.partitions, disk.entryCount)
  {
    hide IsZero, Applied, PaddedEntries, HeaderSector, EntrySectors, EntriesCrc, Entries;
    var ws := UpdateWrites(disk);
    var done := Applied(image, ws[..k]);
    WritesStayApart(disk, ws);
    var ss := disk.sectorSize;
    if k < 4 {
      assert forall i :: 0 <= i < k ==> ws[..k][i] == ws[i] && Disjoint(ws[i], ws[3]);
      AppliedElsewhere(image, ws[..k], LbaOffset(ss, 1), LbaOffset(ss, 1) + ss);
      if crashed != done {
        OutsideSlice(done, crashed, ws[k], LbaOffset(ss, 1), LbaOffset(ss, 1) + ss);
      }
    }
    if k == 0 {
      BackupArrayOutside(disk, image, crashed);
    } else {
      PrimaryArrayHeld(disk, image, crashed, k);
    }
  }

  lemma OutsideSlice(a: Image, b: Image, w: Write, lo: nat, hi: nat)
    requires EqualOutside(a, b, w) && lo <= hi <= |a|
    requires hi <= w.offset || w.offset + |w.bytes| <= lo
    ensures a[lo..hi] == b[lo..hi]
  {
    var end := w.offset + |w.bytes|;
    if hi <= w.offset {
      SubSlice(a, 0, w.offset, lo, hi);
      SubSlice(b, 0, w.offset, lo, hi);
    } else {
      SubSlice(a, end, |a|, lo - end, hi - end);
      SubSlice(b, end, |b|, lo - end, hi - end);
    }
  }

  lemma BackupArrayOutside(disk: Disk, image: Image, crashed: Image)
    requires GoodGeometry(disk) && |image| == LbaOffset(disk.sectorSize, disk.sectorCount)
    requires CrashedAt(disk, image, crashed, 0)
    ensures |crashed| == |image| && BackupArray(disk, crashed) == BackupArray(disk, image)
  {
    hide IsZero, PaddedEntries, HeaderSector, EntrySectors, EntriesCrc, Entries;
    var ws := UpdateWrites(disk);
    assert Applied(image, ws[..0]) == image;
    WritesStayApart(disk, ws);
    ArrayInside(disk);
    if crashed != image {
      var offset := LbaOffset(disk.sectorSize, BackupArrayLba(disk));
      OutsideSlice(image, crashed, ws[0], offset, offset + disk.entryCount * ENTRY_SIZE);
    }
  }

  lemma PrimaryArrayHeld(disk: Disk, image: Image, crashed: Image, k: nat)
    requires GoodGeometry(disk) && |image| == LbaOffset(disk.sectorSize, disk.sectorCount)
    requires 0 < k && CrashedAt(disk, image, crashed, k)
    ensures |crashed| == |image| && PrimaryArray(disk, crashed) == Entries(disk.partitions, disk.entryCount)
  {
    hide IsZero, Applied, PaddedEntries, HeaderSector, EntrySectors, EntriesCrc, Entries;
    var ws := UpdateWrites(disk);
    var done := Applied(image, ws[..k]);
    WritesStayApart(disk, ws);
    assert forall i :: 0 <= i < k ==> ws[..k][i] == ws[i];
    AppliedHolds(image, ws[..k], 0);
    if crashed != done {
      OutsideSlice(done, crashed, ws[k], ws[0].offset, ws[0].offset + |ws[0].bytes|);
    }
    ArrayWritten(disk, crashed, ws[0]);
  }

  /**
   Crash atomicity. Before the primary array is complete the old table is read,
   or none; from then on the new table is read, or none. After the first write
   alone the disk is rejected, and after the last the new table is there.
   */
  lemma AddPartitionIsAtomic(ss: u32, image: Image, current: Disk, request: AddRequest, draws: Draws, target: Disk,
                             k: nat, crashed: Image)
    requires Planned(ss, image, current, request, draws, target)
    requires CrashedAt(target, image, crashed, k)
    ensures k == 0 ==> ParseGpt(ss, crashed).Err? || ParseGpt(ss, crashed) == Ok(current)
    ensures k > 0 ==> ParseGpt(ss, crashed).Err? || ParseGpt(ss, crashed) == Ok(Canonical(target))
    ensures k == 1 && crashed == Applied(image, UpdateWrites(target)[..1]) ==> ParseGpt(ss, crashed).Err?
    ensures k == 4 ==> ParseGpt(ss, crashed) == Ok(Canonical(target))
  {
    hide ParseGpt, PlanAddedPartition, GoodGeometry, Applied, UpdateWrites, Canonical, EqualOutside, AllFit;
    if k == 0 {
      CrashBeforeArray(ss, image, current, request, draws, target, crashed);
    } else if k < 4 {
      CrashBeforeCommit(ss, image, current, request, draws, target, k, crashed);
      if k == 1 && crashed == Applied(image, UpdateWrites(target)[..1]) {
        FirstWriteRejected(ss, image, current, request, draws, target);
      }
    } else {
      CommittedUpdate(ss, image, current, request, draws, target, crashed);
    }
  }

  lemma CrashBeforeArray(ss: u32, image: Image, current: Disk, request: AddRequest, draws: Draws, target: Disk,
                         crashed: Image)
    requires Planned(ss, image, current, request, draws, target)
    requires CrashedAt(target, image, crashed, 0)
    ensures ParseGpt(ss, crashed).Err? || ParseGpt(ss, crashed) == Ok(current)
  {
    hide ParseGpt, PlanAddedPartition, IsZero, CrashedAt, UpdateWrites, Consistent, Typed, Nameable, Ascending, Indexed,
         EntrySectors, PrimaryArray, BackupArray, AddsOne;
    PlannedTarget(ss, image, current, request, draws, target);
    CrashedParts(target, image, crashed, 0);
    SameGeometryArrays(current, target, image);
    SameGeometryArrays(current, target, crashed);
    PrimaryArrayDamaged(ss, image, crashed);
  }

  lemma CrashBeforeCommit(ss: u32, image: Image, current: Disk, request: AddRequest, draws: Draws, target: Disk,
                          k: nat, crashed: Image)
    requires Planned(ss, image, current, request, draws, target)
    requires 0 < k < 4 && CrashedAt(target, image, crashed, k)
    ensures ParseGpt(ss, crashed).Err? || ParseGpt(ss, crashed) == Ok(Canonical(target))
  {
    hide ParseGpt, PlanAddedPartition, IsZero, CrashedAt, UpdateWrites, Consistent, Typed, Nameable, Ascending, Indexed,
         EntrySectors, PrimaryArray, BackupArray, AddsOne, Entries;
    PlannedTarget(ss, image, current, request, draws, target);
    CrashedParts(target, image, crashed, k);
    PrimaryArrayReplaced(ss, image, crashed, target);
  }

  lemma CommittedUpdate(ss: u32, image: Image, current: Disk, request: AddRequest, draws: Draws, target: Disk,
                        crashed: Image)
    requires Planned(ss, image, current, request, draws, target)
    requires CrashedAt(target, image, crashed, 4)
    ensures ParseGpt(ss, crashed) == Ok(Canonical(target))
  {
    hide ParseGpt, PlanAddedPartition, IsZero, UpdateWrites, Consistent, Typed, Nameable, Ascending, Indexed,
         EntrySectors, Stores, Applied, AddsOne, EqualOutside;
    PlannedTarget(ss, image, current, request, draws, target);
    assert UpdateWrites(target)[..4] == UpdateWrites(target);
    ProtectedByMbr(ss, image);
    UpdateWritesHeld(target, image);
    StoredParses(target, crashed);
  }

  lemma SameGeometryArrays(a: Disk, b: Disk, image: Image)
    requires GoodGeometry(a) && b == a.(partitions := b.partitions)
    requires |image| == LbaOffset(a.sectorSize, a.sectorCount)
    ensures GoodGeometry(b)
    ensures PrimaryArray(a, image) == PrimaryArray(b, image) && BackupArray(a, image) == BackupArray(b, image)
  {
    hide IsZero, EntrySectors;
  }

  lemma ProtectedByMbr(ss: u32, image: Image)
    requires ParseGpt(ss, image).Ok?
    ensures SupportedSectorSize(ss) && ss <= |image| && IsProtectiveMbr(SectorAt(ss, image, 0))
  {
    hide IsProtectiveMbr, ParseTables, ParseHeader;
  }

  /** With the new array in one copy only, the table is rejected even if the checksums collide. */
  lemma FirstWriteRejected(ss: u32, image: Image, current: Disk, request: AddRequest, draws: Draws, target: Disk)
    requires Planned(ss, image, current, request, draws, target)
    requires GoodGeometry(target) && AllFit(UpdateWrites(target)[..1], image)
    ensures ParseGpt(ss, Applied(image, UpdateWrites(target)[..1])).Err?
  {
    hide ParseGpt, PlanAddedPartition, IsZero, Applied, Consistent, Typed, Nameable, Ascending, Indexed, UpdateWrites,
         ByIndex, EntrySectors, Slot, PrimaryArray, BackupArray, Entries, UsedPartitions, LbaOffset;
    PlannedTarget(ss, image, current, request, draws, target);
    var after := Applied(image, UpdateWrites(target)[..1]);
    CrashedParts(target, image, after, 1);
    SameGeometryArrays(current, target, image);
    SameGeometryArrays(current, target, after);
    BackupArrayAfterFirst(target, image);
    ParsedWellFormed(ss, image);
    ArraysDiffer(current, image, target);
    if ParseGpt(ss, after).Ok? {
      SecondSectorInside(ss, current);
      AcceptedUnderOldHeader(ss, image, after);
    }
  }

  lemma SecondSectorInside(ss: u32, disk: Disk)
    requires GoodGeometry(disk) && ss == disk.sectorSize
    ensures LbaOffset(ss, 2) <= LbaOffset(ss, disk.sectorCount)
  {
    hide IsZero, EntrySectors;
  }

  lemma BackupArrayAfterFirst(disk: Disk, image: Image)
    requires GoodGeometry(disk) && |image| == LbaOffset(disk.sectorSize, disk.sectorCount)
    requires AllFit(UpdateWrites(disk)[..1], image)
    ensures BackupArray(disk, Applied(image, UpdateWrites(disk)[..1])) == BackupArray(disk, image)
  {
    hide IsZero, Applied, PaddedEntries, HeaderSector, EntrySectors, EntriesCrc;
    var ws := UpdateWrites(disk);
    WritesStayApart(disk, ws);
    ArrayInside(disk);
    assert ws[..1] == [ws[0]];
    var offset := LbaOffset(disk.sectorSize, BackupArrayLba(disk));
    AppliedElsewhere(image, ws[..1], offset, offset + disk.entryCount * ENTRY_SIZE);
  }

  /**
   The primary header comes last: before it is written, the new table is read
   only if its array happens to have the checksum of the old one.
   */
  lemma CommittedByHeader(ss: u32, image: Image, current: Disk, request: AddRequest, draws: Draws, target: Disk,
                          k: nat, crashed: Image)
    requires Planned(ss, image, current, request, draws, target)
    requires k < 4 && CrashedAt(target, image, crashed, k) && ParseGpt(ss, crashed) == Ok(Canonical(target))
    ensures WellFormed(current) && |image| == |crashed| == LbaOffset(current.sectorSize, current.sectorCount)
    ensures PrimaryArray(current, image) != PrimaryArray(current, crashed)
    ensures Checksum(PrimaryArray(current, image)) == Checksum(PrimaryArray(current, crashed))
  {
    hide ParseGpt, PlanAddedPartition, IsZero, UpdateWrites, Consistent, Typed, Nameable, Ascending, Indexed,
         EntrySectors, Applied, EqualOutside, Slot, Stored, UsedPartitions, PrimaryArray, BackupArray, CrashedAt,
         LbaOffset, IsProtectiveMbr;
    PlannedTarget(ss, image, current, request, draws, target);
    CrashedParts(target, image, crashed, k);
    AcceptedExactly(ss, image, current);
    AcceptedExactly(ss, crashed, Canonical(target));
    SameGeometryArrays(target, current, crashed);
    SameGeometryArrays(target, Canonical(target), crashed);
    AddedEntry(current, request, draws, target);
    NewTable(ss, image, current, request, draws, target, target.partitions[|current.partitions|].entryIndex);
    NewEntryWasFree(current, request, draws, target);
  }

  lemma NewEntryWasFree(current: Disk, request: AddRequest, draws: Draws, target: Disk)
    requires PlanAddedPartition(current, request, draws) == Ok(target)
    ensures |target.partitions| == |current.partitions| + 1
    ensures Slot(current.partitions, target.partitions[|current.partitions|].entryIndex).None?
  {
    hide CompatibleWith, FreshGuid;
  }

  // ---------- the new table ----------

  /** The new table has every old partition in its old entry, and the requested one in the first free entry. */
  lemma NewTable(ss: u32, image: Image, current: Disk, request: AddRequest, draws: Draws, target: Disk, index: nat)
    requires Planned(ss, image, current, request, draws, target)
    requires index < current.entryCount
    ensures |target.partitions| == |current.partitions| + 1
    ensures var added := target.partitions[|current.partitions|];
      && added.typeGuid == request.typeGuid
      && added.firstLba == request.firstLba
      && added.lastLba == request.firstLba + request.sectorCount - 1
      && added.attributes == request.attributes
      && added.name == request.name
      && FreeEntry(current.partitions, current.entryCount, 0) == Some(added.entryIndex)
      && Slot(Canonical(target).partitions, index)
         == if index == added.entryIndex then Some(Stored(added)) else Slot(current.partitions, index)
  {
    hide ParseGpt, IsZero, Consistent, Typed, Nameable, Ascending, Indexed, EntrySectors, Slot, ByIndex, Stored,
         FreshGuid, CompatibleWith, Placed, FreeEntry, UpdateWrites, PrimaryArray, BackupArray, UsedPartitions;
    PlannedTarget(ss, image, current, request, draws, target);
    AddedSlot(current.partitions, target.partitions);
    SlotByIndex(target.partitions, target.entryCount, index);
    SlotByIndex(current.partitions, current.entryCount, index);
    WellFormedIsCanonical(current);
  }

  lemma {:induction false} SlotByIndex(ps: seq<Partition>, count: nat, index: nat)
    ensures index < count ==>
      Slot(ByIndex(ps, count), index)
      == if Slot(ps, index).Some? then Some(Stored(Slot(ps, index).value)) else None
    ensures index >= count ==> Slot(ByIndex(ps, count), index).None?
    decreases count
  {
    hide Stored;
    if count > 0 {
      SlotByIndex(ps, count - 1, index);
      var slot := Slot(ps, count - 1);
      if slot.Some? {
        StoredIndex(slot.value);
        SlotAppended(ByIndex(ps, count - 1), Stored(slot.value), index);
      } else {
        assert ByIndex(ps, count) == ByIndex(ps, count - 1);
      }
    }
  }

  lemma StoredIndex(p: Partition)
    ensures Stored(p).entryIndex == p.entryIndex
  {
  }

  /** A requested name comes back whole exactly when it contains no NUL. */
  lemma NameKept(p: Partition)
    requires |p.name| <= NAME_UNITS
    ensures Stored(p) == p <==> 0 !in p.name
  {
    if 0 !in p.name {
      VisibleAll(p.name, NAME_UNITS);
    } else {
      assert 0 !in Visible(p.name, NAME_UNITS);
    }
  }

  /** After all four writes, the disk has the partition as it was planned exactly when its name contains no NUL. */
  lemma AddedAsPlanned(ss: u32, image: Image, current: Disk, request: AddRequest, draws: Draws, target: Disk)
    requires Planned(ss, image, current, request, draws, target)
    ensures GoodGeometry(target) && AllFit(UpdateWrites(target), image)
    ensures var after := ParseGpt(ss, Applied(image, UpdateWrites(target)));
      && |target.partitions| == |current.partitions| + 1
      && var added := target.partitions[|current.partitions|];
      && added.name == request.name && after.Ok?
      && Slot(after.value.partitions, added.entryIndex) == Some(Stored(added))
      && (Slot(after.value.partitions, added.entryIndex) == Some(added) <==> 0 !in request.name)
  {
    hide ParseGpt, PlanAddedPartition, IsZero, UpdateWrites, Consistent, Typed, Nameable, Ascending, Indexed,
         EntrySectors, Applied, AddsOne, EqualOutside, Slot, Stored;
    PlannedTarget(ss, image, current, request, draws, target);
    assert UpdateWrites(target)[..4] == UpdateWrites(target);
    CommittedUpdate(ss, image, current, request, draws, target, Applied(image, UpdateWrites(target)));
    AddedEntry(current, request, draws, target);
    var added := target.partitions[|current.partitions|];
    NewTable(ss, image, current, request, draws, target, added.entryIndex);
    NameKept(added);
  }

  lemma AddedEntry(current: Disk, request: AddRequest, draws: Draws, target: Disk)
    requires PlanAddedPartition(current, request, draws) == Ok(target)
    ensures |target.partitions| == |current.partitions| + 1
    ensures target.partitions[|current.partitions|].entryIndex < current.entryCount
    ensures |request.name| <= NAME_UNITS
  {
    hide CompatibleWith, FreshGuid;
  }

  /** Every request that is accepted would be accepted with the name "A NUL B" as well, and "A" is all that is kept. */
  lemma NameWithNulIsCut(ss: u32, image: Image, current: Disk, request: AddRequest, draws: Draws)
    requires ParseGpt(ss, image) == Ok(current) && PlanAddedPartition(current, request, draws).Ok?
    ensures PlanAddedPartition(current, request.(name := [0x41, 0, 0x42]), draws).Ok?
    ensures var target := PlanAddedPartition(current, request.(name := [0x41, 0, 0x42]), draws).value;
      && |target.partitions| == |current.partitions| + 1
      && GoodGeometry(target) && AllFit(UpdateWrites(target), image)
      && var added, after := target.partitions[|current.partitions|], ParseGpt(ss, Applied(image, UpdateWrites(target)));
      && after.Ok? && added.name == [0x41, 0, 0x42]
      && Slot(after.value.partitions, added.entryIndex) == Some(added.(name := [0x41]))
  {
    hide ParseGpt, UpdateWrites, Applied, Slot, CompatibleWith, FreshGuid, GoodGeometry, FreeEntry, EntrySectors;
    var name: seq<u16> := [0x41, 0, 0x42];
    var target := PlanAddedPartition(current, request.(name := name), draws).value;
    AddedAsPlanned(ss, image, current, request.(name := name), draws, target);
    assert name[1..][0] == 0;
    assert Visible(name[1..], NAME_UNITS - 1) == [];
    assert Visible(name, NAME_UNITS) == [0x41];
  }
}
