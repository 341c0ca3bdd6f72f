/**
 The two write planners: a fresh table for a clone target, and one more
 partition for a table that is already there.
 */
module GptPlan {
  import opened Bytes
  import opened Crc32
  import opened Gpt
  import opened GptBuild
  import opened GptStore
  import opened Results

  datatype Kind = ProtectiveMbrSector | PrimaryEntries | BackupEntries | BackupHeaderSector | PrimaryHeaderCommit

  datatype Write = Write(kind: Kind, offset: u64, bytes: seq<byte>)

  datatype Plan = Plan(target: Disk, writes: seq<Write>)

  /** The answers of the GUID generator, by the number of the call. */
  type Draws = nat -> Result<Guid>

  // ---------- the writes ----------

  /** The entry array filled up with zeros to whole sectors. */
  function PaddedEntries(disk: Disk): (bytes: seq<byte>)
    requires GoodGeometry(disk)
    ensures |bytes| == LbaOffset(disk.sectorSize, ArraySectors(disk))
  {
    var entries := Entries(disk.partitions, disk.entryCount);
    entries + Zeros(LbaOffset(disk.sectorSize, ArraySectors(disk)) - |entries|)
  }

  function EntriesCrc(disk: Disk): u32 {
    Checksum(Entries(disk.partitions, disk.entryCount))
  }

  function PrimaryEntriesWrite(disk: Disk): (w: Write)
    requires GoodGeometry(disk)
  {
    Write(PrimaryEntries, LbaOffset(disk.sectorSize, 2), PaddedEntries(disk))
  }

  function BackupEntriesWrite(disk: Disk): (w: Write)
    requires GoodGeometry(disk)
  {
    Write(BackupEntries, LbaOffset(disk.sectorSize, BackupArrayLba(disk)), PaddedEntries(disk))
  }

  function BackupHeaderWrite(disk: Disk): (w: Write)
    requires GoodGeometry(disk)
  {
    Write(BackupHeaderSector, LbaOffset(disk.sectorSize, disk.sectorCount - 1),
          HeaderSector(disk, disk.sectorCount - 1, 1, BackupArrayLba(disk), EntriesCrc(disk)))
  }

  function ProtectiveMbrWrite(disk: Disk): (w: Write)
    requires GoodGeometry(disk)
  {
    Write(ProtectiveMbrSector, 0, ProtectiveMbr(disk))
  }

  function PrimaryHeaderWrite(disk: Disk): (w: Write)
    requires GoodGeometry(disk)
  {
    Write(PrimaryHeaderCommit, LbaOffset(disk.sectorSize, 1),
          HeaderSector(disk, 1, disk.sectorCount - 1, 2, EntriesCrc(disk)))
  }

  /** A whole new table; the primary header makes it valid and comes last. */
  function FreshWrites(disk: Disk): (ws: seq<Write>)
    requires GoodGeometry(disk)
    ensures |ws| == 5
  {
    [PrimaryEntriesWrite(disk), BackupEntriesWrite(disk), BackupHeaderWrite(disk), ProtectiveMbrWrite(disk),
     PrimaryHeaderWrite(disk)]
  }

  /** A changed table; the protective MBR stays. */
  function UpdateWrites(disk: Disk): (ws: seq<Write>)
    requires GoodGeometry(disk)
    ensures |ws| == 4
  {
    [PrimaryEntriesWrite(disk), BackupEntriesWrite(disk), BackupHeaderWrite(disk), PrimaryHeaderWrite(disk)]
  }

  // ---------- fresh table ----------

  /** The first `count` answers of the generator, if all are usable: no failure, no zero, no repetition. */
  function DrawGuids(draws: Draws, count: nat): (r: Result<seq<Guid>>)
    ensures r.Ok? ==> |r.value| == count
    decreases count
  {
    if count == 0 then Ok([])
    else
      var earlier :- DrawGuids(draws, count - 1);
      var guid :- draws(count - 1);
      if IsZero(guid) || guid in earlier then Err(InvalidData) else Ok(earlier + [guid])
  }

  predicate DistinctGuids(guids: seq<Guid>) {
    && (forall i :: 0 <= i < |guids| ==> !IsZero(guids[i]))
    && (forall i, j :: 0 <= i < j < |guids| ==> guids[i] != guids[j])
  }

  lemma {:induction false} DrawnGuids(draws: Draws, count: nat)
    ensures DrawGuids(draws, count).Ok? ==>
              && DistinctGuids(DrawGuids(draws, count).value)
              && forall i :: 0 <= i < count ==> draws(i) == Ok(DrawGuids(draws, count).value[i])
    decreases count
  {
    hide IsZero;
    if count > 0 {
      DrawnGuids(draws, count - 1);
    }
  }

  /** Distinct non-zero answers are all accepted. */
  lemma {:induction false} DrawsSucceed(draws: Draws, count: nat)
    requires forall i :: 0 <= i < count ==> draws(i).Ok? && !IsZero(draws(i).value)
    requires forall i, j :: 0 <= i < j < count ==> draws(i) != draws(j)
    ensures DrawGuids(draws, count).Ok?
    decreases count
  {
    hide IsZero;
    if count > 0 {
      DrawsSucceed(draws, count - 1);
      DrawnGuids(draws, count - 1);
    }
  }

  /** The generator is good for that many identities: it does not fail, and they are non-zero and different. */
  predicate GoodDraws(draws: Draws, count: nat) {
    && (forall i :: 0 <= i < count ==> draws(i).Ok? && !IsZero(draws(i).value))
    && (forall i, j :: 0 <= i < j < count ==> draws(i) != draws(j))
  }

  lemma DrawsExactly(draws: Draws, count: nat)
    ensures DrawGuids(draws, count).Ok? <==> GoodDraws(draws, count)
  {
    hide IsZero;
    DrawnGuids(draws, count);
    if GoodDraws(draws, count) {
      DrawsSucceed(draws, count);
    }
  }

  /** The partitions with the identities `guids[1..]`. */
  function Renamed(ps: seq<Partition>, guids: seq<Guid>): (renamed: seq<Partition>)
    requires |guids| == |ps| + 1
    ensures |renamed| == |ps|
    ensures forall i :: 0 <= i < |ps| ==> renamed[i] == ps[i].(uniqueGuid := guids[i + 1])
  {
    seq(|ps|, i requires 0 <= i < |ps| => ps[i].(uniqueGuid := guids[i + 1]))
  }

  predicate InUsableRange(p: Partition, firstUsable: u64, lastUsable: u64) {
    firstUsable <= p.firstLba && p.lastLba <= lastUsable
  }

  function PlanFreshTable(source: Disk, targetSize: u64, targetSs: u32, draws: Draws): (r: Result<Disk>) {
    if !SupportedSectorSize(targetSs) || targetSs != source.sectorSize
       || targetSize != LbaOffset(targetSs, WholeSectors(targetSs, targetSize))
       || source.entrySize != ENTRY_SIZE || source.entryCount == 0 || source.entryCount > MAXIMUM_ENTRIES then
      Err(UnsupportedLayout)
    else if LbaOffset(source.sectorSize, source.sectorCount) >= U64_LIMIT
         || targetSize < LbaOffset(source.sectorSize, source.sectorCount) then
      Err(UnsupportedLayout)
    else
      var sectorCount := WholeSectors(targetSs, targetSize);
      var entrySectors := EntrySectors(targetSs, source.entryCount);
      if sectorCount <= 3 + 2 * entrySectors then Err(InvalidData)
      else
        var firstUsable := if source.firstUsable < 2 + entrySectors then 2 + entrySectors else source.firstUsable;
        var lastUsable := sectorCount - 1 - entrySectors - 1;
        if exists i :: 0 <= i < |source.partitions|
                       && !InUsableRange(source.partitions[i], firstUsable, lastUsable) then
          Err(InvalidData)
        else
          var guids :- DrawGuids(draws, |source.partitions| + 1);
          Ok(source.(sectorCount := sectorCount, firstUsable := firstUsable, lastUsable := lastUsable,
                     diskGuid := guids[0], partitions := Renamed(source.partitions, guids)))
  }

  /**
   A table whose identities are still to be chosen: everything about a
   well-formed table but the GUIDs.
   */
  predicate Template(disk: Disk) {
    && SupportedSectorSize(disk.sectorSize)
    && 68 <= disk.sectorCount
    && LbaOffset(disk.sectorSize, disk.sectorCount) < U64_LIMIT
    && 0 < disk.entryCount <= MAXIMUM_ENTRIES
    && disk.entrySize == ENTRY_SIZE
    && 2 + ArraySectors(disk) <= disk.firstUsable <= disk.lastUsable < disk.sectorCount - 1 - ArraySectors(disk)
    && Ascending(disk.partitions, disk.entryCount)
    && Typed(disk.partitions)
    && Nameable(disk.partitions)
    && DisjointExtents(disk.partitions)
  }

  predicate DisjointExtents(ps: seq<Partition>) {
    && (forall i :: 0 <= i < |ps| ==> ps[i].firstLba <= ps[i].lastLba)
    && (forall i, j :: 0 <= i < j < |ps| ==> ps[i].lastLba < ps[j].firstLba || ps[j].lastLba < ps[i].firstLba)
  }

  lemma WellFormedIsTemplate(disk: Disk)
    requires WellFormed(disk)
    ensures Template(disk)
  {
    hide IsZero, EntrySectors, LbaOffset, Ascending, Typed, Nameable;
    var ps := disk.partitions;
    forall i | 0 <= i < |ps| ensures ps[i].firstLba <= ps[i].lastLba {
      assert Placed(ps[i], disk.firstUsable, disk.lastUsable);
    }
    forall i, j | 0 <= i < j < |ps| ensures ps[i].lastLba < ps[j].firstLba || ps[j].lastLba < ps[i].firstLba {
      assert Apart(ps[i], ps[j]);
    }
  }

  /** The plan for a target: the source's partitions in place, under new identities. */
  lemma FreshTargetWellFormed(source: Disk, targetSize: u64, targetSs: u32, draws: Draws, target: Disk)
    requires Template(source) && PlanFreshTable(source, targetSize, targetSs, draws) == Ok(target)
    ensures WellFormed(target)
    ensures target.sectorSize == targetSs && LbaOffset(targetSs, target.sectorCount) == targetSize
  {
    hide IsZero, DrawGuids, Typed, Nameable, Consistent, Ascending, Renamed, DisjointExtents;
    DrawnGuids(draws, |source.partitions| + 1);
    var guids := DrawGuids(draws, |source.partitions| + 1).value;
    RenamedWellFormed(source, guids, target.firstUsable, target.lastUsable);
  }

  /** Same entry, type, place, attributes and name: only the identity may differ. */
  predicate SameButIdentity(p: Partition, q: Partition) {
    && p.entryIndex == q.entryIndex && p.typeGuid == q.typeGuid
    && p.firstLba == q.firstLba && p.lastLba == q.lastLba
    && p.attributes == q.attributes && p.name == q.name
  }

  /** All of a larger target becomes usable; everything but the end and the identities is the source's. */
  lemma FreshTargetFills(source: Disk, targetSize: u64, targetSs: u32, draws: Draws, target: Disk)
    requires Template(source) && PlanFreshTable(source, targetSize, targetSs, draws) == Ok(target)
    ensures GoodGeometry(target) && target.lastUsable + 1 == BackupArrayLba(target)
    ensures target.firstUsable == source.firstUsable && target.sectorSize == source.sectorSize
    ensures target.sectorCount * target.sectorSize == targetSize
    ensures target.entryCount == source.entryCount && target.entrySize == source.entrySize
    ensures Ok(target.diskGuid) == draws(0)
    ensures |target.partitions| == |source.partitions|
    ensures forall i :: 0 <= i < |source.partitions| ==>
              && SameButIdentity(target.partitions[i], source.partitions[i])
              && draws(i + 1) == Ok(target.partitions[i].uniqueGuid)
  {
    hide IsZero, DrawGuids, Typed, Nameable, Consistent, Ascending, DisjointExtents, EntrySectors;
    FreshTargetWellFormed(source, targetSize, targetSs, draws, target);
    DrawnGuids(draws, |source.partitions| + 1);
  }

  /** A table that was read can be planned for exactly the targets of whole sectors that are at least as large. */
  lemma FreshTableAccepted(source: Disk, targetSize: u64, targetSs: u32, draws: Draws)
    requires WellFormed(source)
    ensures PlanFreshTable(source, targetSize, targetSs, draws).Ok? <==>
      && targetSs == source.sectorSize && targetSize % targetSs == 0
      && targetSize >= source.sectorCount * source.sectorSize
      && GoodDraws(draws, |source.partitions| + 1)
  {
    hide IsZero, DrawGuids, Typed, Nameable, Apart, Ascending, EntrySectors, LbaOffset, WholeSectors, GoodDraws;
    DrawsExactly(draws, |source.partitions| + 1);
    if SupportedSectorSize(targetSs) {
      WholeTarget(targetSs, targetSize, source.sectorCount);
    }
    forall i | 0 <= i < |source.partitions|
      ensures source.firstUsable <= source.partitions[i].firstLba && source.partitions[i].lastLba <= source.lastUsable
    {
      assert Placed(source.partitions[i], source.firstUsable, source.lastUsable);
    }
  }

  lemma WholeTarget(ss: u32, size: u64, count: nat)
    requires SupportedSectorSize(ss)
    ensures LbaOffset(ss, count) == count * ss
    ensures size == LbaOffset(ss, WholeSectors(ss, size)) <==> size % ss == 0
    ensures size >= LbaOffset(ss, count) ==> WholeSectors(ss, size) >= count
  {
  }

  lemma RenamedWellFormed(source: Disk, guids: seq<Guid>, firstUsable: u64, lastUsable: u64)
    requires Template(source) && |guids| == |source.partitions| + 1 && DistinctGuids(guids)
    requires forall i :: 0 <= i < |source.partitions| ==> InUsableRange(source.partitions[i], firstUsable, lastUsable)
    ensures var renamed := Renamed(source.partitions, guids);
      && Ascending(renamed, source.entryCount)
      && Typed(renamed)
      && Nameable(renamed)
      && Consistent(renamed, firstUsable, lastUsable)
  {
    hide IsZero, Consistent, Placed, Apart, DisjointExtents, EntrySectors, LbaOffset;
    var ps, renamed := source.partitions, Renamed(source.partitions, guids);
    forall p | p in renamed ensures !IsZero(p.typeGuid) && |p.name| <= NAME_UNITS && 0 !in p.name {
      var i :| 0 <= i < |renamed| && renamed[i] == p;
      assert ps[i] in ps;
    }
    RenamedConsistent(ps, guids, firstUsable, lastUsable);
  }

  lemma RenamedConsistent(ps: seq<Partition>, guids: seq<Guid>, firstUsable: u64, lastUsable: u64)
    requires DisjointExtents(ps)
    requires |guids| == |ps| + 1 && DistinctGuids(guids)
    requires forall i :: 0 <= i < |ps| ==> InUsableRange(ps[i], firstUsable, lastUsable)
    ensures Consistent(Renamed(ps, guids), firstUsable, lastUsable)
  {
    hide IsZero;
    var renamed := Renamed(ps, guids);
    forall i | 0 <= i < |renamed| ensures Placed(renamed[i], firstUsable, lastUsable) {
      assert InUsableRange(ps[i], firstUsable, lastUsable);
    }
  }

  // ---------- one more partition ----------

  datatype AddRequest = AddRequest(firstLba: u64, sectorCount: u64, typeGuid: Guid, attributes: u64, name: seq<u16>)

  /** The first entry below `count`, from `index` on, that no partition occupies. */
  function FreeEntry(ps: seq<Partition>, count: nat, index: nat): (free: Option<nat>)
    ensures free.Some? ==> index <= free.value < count && Slot(ps, free.value).None?
    ensures free.Some? ==> forall i :: index <= i < free.value ==> Slot(ps, i).Some?
    ensures free.None? ==> forall i :: index <= i < count ==> Slot(ps, i).Some?
    decreases count - index
  {
    if index >= count then None
    else if Slot(ps, index).None? then Some(index)
    else FreeEntry(ps, count, index + 1)
  }

  const MAXIMUM_ATTEMPTS: nat := 32

  /** The first answer, from call `attempt` on, that is neither zero nor in use already. */
  function FreshGuid(draws: Draws, used: seq<Guid>, attempt: nat): (r: Result<Guid>)
    ensures r.Ok? ==> !IsZero(r.value) && r.value !in used
    decreases MAXIMUM_ATTEMPTS - attempt
  {
    if attempt >= MAXIMUM_ATTEMPTS then Err(InvalidData)
    else
      var guid :- draws(attempt);
      if !IsZero(guid) && guid !in used then Ok(guid) else FreshGuid(draws, used, attempt + 1)
  }

  function UsedGuids(disk: Disk): (used: seq<Guid>) {
    [disk.diskGuid] + seq(|disk.partitions|, i requires 0 <= i < |disk.partitions| => disk.partitions[i].uniqueGuid)
  }

  predicate Overlaps(p: Partition, firstLba: u64, lastLba: u64) {
    firstLba <= p.lastLba && p.firstLba <= lastLba
  }

  /** The checks on the partitions that are there: own entry, own identity, in range, clear of the request. */
  predicate CompatibleWith(disk: Disk, firstLba: u64, lastLba: u64) {
    && Indexed(disk.partitions, disk.entryCount)
    && (forall i :: 0 <= i < |disk.partitions| ==>
          && Placed(disk.partitions[i], disk.firstUsable, disk.lastUsable)
          && disk.partitions[i].uniqueGuid != disk.diskGuid
          && !Overlaps(disk.partitions[i], firstLba, lastLba))
    && (forall i, j :: 0 <= i < j < |disk.partitions| ==>
          disk.partitions[i].uniqueGuid != disk.partitions[j].uniqueGuid)
  }

  function PlanAddedPartition(current: Disk, request: AddRequest, draws: Draws): (r: Result<Disk>) {
    if !SupportedSectorSize(current.sectorSize) || current.sectorCount == 0 || IsZero(current.diskGuid)
       || current.entrySize != ENTRY_SIZE || current.entryCount == 0 || current.entryCount > MAXIMUM_ENTRIES
       || request.sectorCount == 0 || IsZero(request.typeGuid) || |request.name| > NAME_UNITS then
      Err(UnsupportedLayout)
    else
      var lastLba := request.firstLba + request.sectorCount - 1;
      if lastLba >= U64_LIMIT || request.firstLba < current.firstUsable || lastLba > current.lastUsable
         || !CompatibleWith(current, request.firstLba, lastLba) then Err(InvalidData)
      else
        var entry := FreeEntry(current.partitions, current.entryCount, 0);
        if entry.None? then Err(UnsupportedLayout)
        else
          var guid :- FreshGuid(draws, UsedGuids(current), 0);
          var entrySectors := EntrySectors(current.sectorSize, current.entryCount);
          if current.sectorCount <= 2 + entrySectors
             || current.lastUsable >= current.sectorCount - 1 - entrySectors then Err(InvalidData)
          else
            Ok(current.(partitions := current.partitions
              + [Partition(entry.value, request.typeGuid, guid, request.firstLba, lastLba, request.attributes,
                           request.name)]))
  }

  predicate UsableGuid(guid: Guid, used: seq<Guid>) {
    !IsZero(guid) && guid !in used
  }

  /** The first usable answer comes within the allowed attempts, and no answer in front of it is a failure. */
  predicate ComesAt(draws: Draws, used: seq<Guid>, from: nat, k: nat) {
    && from <= k < MAXIMUM_ATTEMPTS
    && draws(k).Ok? && UsableGuid(draws(k).value, used)
    && forall j :: from <= j < k ==> draws(j).Ok? && !UsableGuid(draws(j).value, used)
  }

  lemma {:induction false} FreshGuidExactly(draws: Draws, used: seq<Guid>, from: nat)
    ensures FreshGuid(draws, used, from).Ok? <==> exists k: nat :: ComesAt(draws, used, from, k)
    ensures forall k: nat :: ComesAt(draws, used, from, k) ==> FreshGuid(draws, used, from) == draws(k)
    decreases MAXIMUM_ATTEMPTS - from
  {
    hide IsZero;
    if from < MAXIMUM_ATTEMPTS {
      FreshGuidExactly(draws, used, from + 1);
      if draws(from).Ok? && UsableGuid(draws(from).value, used) {
        assert ComesAt(draws, used, from, from);
      }
      if FreshGuid(draws, used, from).Ok? && !UsableGuid(draws(from).value, used) {
        var k: nat :| ComesAt(draws, used, from + 1, k);
        assert ComesAt(draws, used, from, k);
      }
      forall k: nat | ComesAt(draws, used, from, k) ensures FreshGuid(draws, used, from) == draws(k) {
        assert k > from ==> ComesAt(draws, used, from + 1, k);
      }
    }
  }

  /** The numbers below `count`. */
  function Below(count: nat): (numbers: set<int>)
    ensures forall i :: i in numbers <==> 0 <= i < count
    ensures |numbers| == count
    decreases count
  {
    if count == 0 then {} else Below(count - 1) + {count - 1}
  }

  function Indexes(ps: seq<Partition>): (indexes: set<int>)
    ensures forall i :: i in indexes <==> exists k :: 0 <= k < |ps| && ps[k].entryIndex == i
    ensures |indexes| <= |ps|
    decreases |ps|
  {
    if |ps| == 0 then {} else Indexes(ps[..|ps| - 1]) + {ps[|ps| - 1].entryIndex as int}
  }

  lemma {:induction false} DistinctIndexes(ps: seq<Partition>, count: nat)
    requires Indexed(ps, count)
    ensures |Indexes(ps)| == |ps|
    decreases |ps|
  {
    if |ps| > 0 {
      DistinctIndexes(ps[..|ps| - 1], count);
      assert ps[|ps| - 1].entryIndex as int !in Indexes(ps[..|ps| - 1]);
    }
  }

  lemma SubsetSize(a: set<int>, b: set<int>)
    requires a <= b
    ensures |b - a| == |b| - |a|
  {
    assert a * b == a;
  }

  /** There is a free entry exactly if there are fewer partitions than entries. */
  lemma FreeEntryExactly(ps: seq<Partition>, count: nat)
    requires Indexed(ps, count)
    ensures FreeEntry(ps, count, 0).Some? <==> |ps| < count
  {
    hide Slot;
    DistinctIndexes(ps, count);
    assert Indexes(ps) <= Below(count);
    SubsetSize(Indexes(ps), Below(count));
    var free := FreeEntry(ps, count, 0);
    if free.Some? {
      assert free.value in Below(count) - Indexes(ps);
    } else {
      forall i | i in Below(count) ensures i in Indexes(ps) {
        var p := Slot(ps, i).value;
        var k :| 0 <= k < |ps| && ps[k] == p;
      }
      assert Indexes(ps) == Below(count);
    }
  }

  /** Which requests a table takes: room in the usable sectors, a free entry, a type, a name that fits, an identity. */
  predicate Addable(current: Disk, request: AddRequest) {
    var last := request.firstLba + request.sectorCount - 1;
    && request.sectorCount > 0 && !IsZero(request.typeGuid) && |request.name| <= NAME_UNITS
    && current.firstUsable <= request.firstLba && last <= current.lastUsable
    && |current.partitions| < current.entryCount
    && forall i :: 0 <= i < |current.partitions| ==>
         current.partitions[i].lastLba < request.firstLba || last < current.partitions[i].firstLba
  }

  /** A table that was read takes exactly the requests that fit; no partition may use the identity of the disk. */
  lemma AddedPartitionAccepted(current: Disk, request: AddRequest, draws: Draws)
    requires WellFormed(current)
    ensures PlanAddedPartition(current, request, draws).Ok? <==>
      && Addable(current, request)
      && (forall i :: 0 <= i < |current.partitions| ==> current.partitions[i].uniqueGuid != current.diskGuid)
      && exists k: nat :: ComesAt(draws, UsedGuids(current), 0, k)
  {
    hide IsZero, FreshGuid, FreeEntry, Typed, Nameable, UsedGuids, EntrySectors;
    var ps := current.partitions;
    AscendingDistinct(ps, current.entryCount);
    FreeEntryExactly(ps, current.entryCount);
    FreshGuidExactly(draws, UsedGuids(current), 0);
    forall i | 0 <= i < |ps| ensures Placed(ps[i], current.firstUsable, current.lastUsable) {
    }
    forall i, j | 0 <= i < j < |ps| ensures ps[i].uniqueGuid != ps[j].uniqueGuid {
      assert Apart(ps[i], ps[j]);
    }
    CompatibleExactly(current, request.firstLba, request.firstLba + request.sectorCount - 1);
  }

  lemma CompatibleExactly(current: Disk, firstLba: u64, lastLba: int)
    requires WellFormed(current)
    ensures 0 <= lastLba < U64_LIMIT ==>
      (CompatibleWith(current, firstLba, lastLba) <==>
        forall i :: 0 <= i < |current.partitions| ==>
          && current.partitions[i].uniqueGuid != current.diskGuid
          && (current.partitions[i].lastLba < firstLba || lastLba < current.partitions[i].firstLba))
  {
    hide IsZero, Typed, Nameable, EntrySectors;
    var ps := current.partitions;
    AscendingDistinct(ps, current.entryCount);
    forall i, j | 0 <= i < j < |ps| ensures ps[i].uniqueGuid != ps[j].uniqueGuid {
      assert Apart(ps[i], ps[j]);
    }
  }

  lemma {:induction false} SlotAppended(ps: seq<Partition>, p: Partition, index: nat)
    ensures Slot(ps + [p], index)
         == if Slot(ps, index).Some? then Slot(ps, index) else if p.entryIndex == index then Some(p) else None
    decreases |ps|
  {
    if |ps| > 0 {
      assert (ps + [p])[1..] == ps[1..] + [p];
      SlotAppended(ps[1..], p, index);
    } else {
      assert (ps + [p])[1..] == [];
    }
  }

  lemma AddedTargetStorable(current: Disk, request: AddRequest, draws: Draws)
    requires WellFormed(current) && PlanAddedPartition(current, request, draws).Ok?
    ensures var target := PlanAddedPartition(current, request, draws).value;
      && Storable(target)
      && target == current.(partitions := target.partitions)
      && |target.partitions| == |current.partitions| + 1
      && target.partitions[..|current.partitions|] == current.partitions
      && Slot(current.partitions, target.partitions[|current.partitions|].entryIndex).None?
      && target.partitions[|current.partitions|].entryIndex < current.entryCount
  {
    hide IsZero, FreshGuid, Slot;
    var target := PlanAddedPartition(current, request, draws).value;
    var ps, added := current.partitions, target.partitions[|current.partitions|];
    AscendingDistinct(ps, current.entryCount);
    forall i | 0 <= i < |ps| ensures Apart(ps[i], added) && ps[i].entryIndex != added.entryIndex {
      assert ps[i] in ps;
      assert UsedGuids(current)[i + 1] == ps[i].uniqueGuid;
      assert !Overlaps(ps[i], request.firstLba, added.lastLba);
      assert Placed(ps[i], current.firstUsable, current.lastUsable);
    }
  }
}
