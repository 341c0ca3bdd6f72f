/**
 Reading a table, planning a change and carrying it out: the loops of the
 parser and of the planners, and the disk that is written in place.
 */
module GptRun {
  import opened Bytes
  import opened Gpt
  import opened Results

  // ---------- the parser's loops ----------

  method ReadPartitionName(entry: seq<byte>) returns (name: seq<u16>)
    requires |entry| == ENTRY_SIZE
    ensures name == DecodeName(entry[56..])
  {
    hide FromLittle;
    name := [];
    var offset := 56;
    while offset < 128
      invariant 56 <= offset <= 128 && offset % 2 == 0
      invariant DecodeName(entry[56..]) == name + DecodeName(entry[offset..])
    {
      var unit := U16At(entry, offset);
      U16OfTail(entry, offset);
      if unit == 0 {
        assert DecodeName(entry[offset..]) == [];
        return;
      }
      assert entry[offset..][2..] == entry[offset + 2..];
      name := name + [unit];
      offset := offset + 2;
    }
    assert DecodeName(entry[128..]) == [];
  }

  lemma U16OfTail(s: seq<byte>, offset: nat)
    requires offset + 2 <= |s|
    ensures U16At(s[offset..], 0) == U16At(s, offset)
  {
    assert s[offset..][0..2] == s[offset..offset + 2];
  }

  /** The entries before `k` decide the front of the list. */
  lemma {:induction false} UsedGrows(entries: seq<byte>, k: nat, count: nat)
    requires k <= count <= MAXIMUM_ENTRIES && count * ENTRY_SIZE <= |entries|
    ensures UsedPartitions(entries, k) <= UsedPartitions(entries, count)
    decreases count
  {
    hide DecodeEntry, IsZero, EntryAt;
    if k < count {
      UsedGrows(entries, k, count - 1);
    }
  }

  lemma InconsistentFront(front: seq<Partition>, all: seq<Partition>, firstUsable: u64, lastUsable: u64)
    requires front <= all && !Consistent(front, firstUsable, lastUsable)
    ensures !Consistent(all, firstUsable, lastUsable)
  {
    hide Placed, Apart;
    if Consistent(all, firstUsable, lastUsable) {
      forall i, j | 0 <= i < j < |front| ensures Apart(front[i], front[j]) {
        assert Apart(all[i], all[j]);
      }
      forall i | 0 <= i < |front| ensures Placed(front[i], firstUsable, lastUsable) {
        assert Placed(all[i], firstUsable, lastUsable);
      }
    }
  }

  predicate DistinctIds(ps: seq<Partition>) {
    forall i, j :: 0 <= i < j < |ps| ==> ps[i].uniqueGuid != ps[j].uniqueGuid
  }

  predicate AllPlaced(ps: seq<Partition>, firstUsable: u64, lastUsable: u64) {
    forall i :: 0 <= i < |ps| ==> Placed(ps[i], firstUsable, lastUsable)
  }

  method ParsePartitionEntries(entries: seq<byte>, header: Header) returns (r: Result<seq<Partition>>)
    requires |entries| == header.entryCount * ENTRY_SIZE
    requires header.entryCount <= MAXIMUM_ENTRIES
    ensures r == ParsePartitions(entries, header)
  {
    hide IsZero, EntryAt, FromLittle, Placed, Apart, Consistent, SortByFirst, Staircase;
    var ps: seq<Partition> := [];
    var guids: set<Guid> := {};
    ghost var all := UsedPartitions(entries, header.entryCount);
    for index := 0 to header.entryCount
      invariant ps == UsedPartitions(entries, index)
      invariant guids == set p | p in ps :: p.uniqueGuid
      invariant AllPlaced(ps, header.firstUsable, header.lastUsable) && DistinctIds(ps)
    {
      var entry := EntryAt(entries, index);
      if IsZero(entry[..16]) {
        continue;
      }
      var name := ReadPartitionName(entry);
      var p := Partition(index, entry[..16], entry[16..32], U64At(entry, 32), U64At(entry, 40), U64At(entry, 48), name);
      UsedGrows(entries, index + 1, header.entryCount);
      if IsZero(p.uniqueGuid) || p.uniqueGuid in guids
         || p.firstLba > p.lastLba || p.firstLba < header.firstUsable || p.lastLba > header.lastUsable {
        RejectedEntry(ps, p, header.firstUsable, header.lastUsable);
        InconsistentFront(ps + [p], all, header.firstUsable, header.lastUsable);
        return Err(InvalidData);
      }
      AcceptedEntry(ps, p, header.firstUsable, header.lastUsable);
      guids := guids + {p.uniqueGuid};
      ps := ps + [p];
    }
    var clear := NeighboursClear(SortByFirst(ps));
    ConsistentMeansOrderable(ps, header.firstUsable, header.lastUsable);
    assert ps == all;
    assert clear <==> Consistent(ps, header.firstUsable, header.lastUsable);
    return if clear then Ok(ps) else Err(InvalidData);
  }

  method NeighboursClear(ordered: seq<Partition>) returns (clear: bool)
    ensures clear <==> Staircase(ordered)
  {
    var index := 1;
    while index < |ordered|
      invariant 1 <= index
      invariant forall i :: 0 < i < index && i < |ordered| ==> StepsUp(ordered, i)
    {
      if ordered[index - 1].lastLba >= ordered[index].firstLba {
        assert !StepsUp(ordered, index);
        return false;
      }
      index := index + 1;
    }
    return true;
  }

  lemma RejectedEntry(ps: seq<Partition>, p: Partition, firstUsable: u64, lastUsable: u64)
    requires IsZero(p.uniqueGuid) || p.uniqueGuid in (set q | q in ps :: q.uniqueGuid)
             || p.firstLba > p.lastLba || p.firstLba < firstUsable || p.lastLba > lastUsable
    ensures !Consistent(ps + [p], firstUsable, lastUsable)
  {
    hide IsZero;
    var all := ps + [p];
    if Placed(p, firstUsable, lastUsable) {
      var i :| 0 <= i < |ps| && ps[i].uniqueGuid == p.uniqueGuid;
      assert !Apart(all[i], all[|ps|]);
    } else {
      assert !Placed(all[|ps|], firstUsable, lastUsable);
    }
  }

  lemma AcceptedEntry(ps: seq<Partition>, p: Partition, firstUsable: u64, lastUsable: u64)
    requires AllPlaced(ps, firstUsable, lastUsable) && DistinctIds(ps)
    requires !IsZero(p.uniqueGuid) && firstUsable <= p.firstLba <= p.lastLba <= lastUsable
    requires p.uniqueGuid !in set q | q in ps :: q.uniqueGuid
    ensures AllPlaced(ps + [p], firstUsable, lastUsable) && DistinctIds(ps + [p])
  {
    hide IsZero;
    forall i | 0 <= i < |ps| ensures ps[i].uniqueGuid != p.uniqueGuid {
      assert ps[i] in ps;
    }
  }

  // ---------- overlap by sorting ----------

  predicate Extents(ps: seq<Partition>) {
    forall i :: 0 <= i < |ps| ==> ps[i].firstLba <= ps[i].lastLba
  }

  predicate Clear(p: Partition, q: Partition) {
    p.lastLba < q.firstLba || q.lastLba < p.firstLba
  }

  predicate AllClear(ps: seq<Partition>) {
    forall i, j :: 0 <= i < j < |ps| ==> Clear(ps[i], ps[j])
  }

  predicate ClearOf(p: Partition, ps: seq<Partition>) {
    forall i :: 0 <= i < |ps| ==> Clear(p, ps[i])
  }

  predicate SortedByFirst(ps: seq<Partition>) {
    forall i, j :: 0 <= i < j < |ps| ==> ps[i].firstLba <= ps[j].firstLba
  }

  function InsertByFirst(p: Partition, ps: seq<Partition>): (r: seq<Partition>)
    ensures |r| == |ps| + 1
    decreases |ps|
  {
    if |ps| == 0 || p.firstLba <= ps[0].firstLba then [p] + ps else [ps[0]] + InsertByFirst(p, ps[1..])
  }

  /** The partitions in the order of their first sector; the sort itself is the standard library's. */
  function SortByFirst(ps: seq<Partition>): (r: seq<Partition>)
    ensures |r| == |ps|
    decreases |ps|
  {
    if |ps| == 0 then [] else InsertByFirst(ps[0], SortByFirst(ps[1..]))
  }

  lemma {:induction false} InsertClearOf(p: Partition, ps: seq<Partition>, q: Partition)
    ensures ClearOf(q, InsertByFirst(p, ps)) <==> Clear(q, p) && ClearOf(q, ps)
    decreases |ps|
  {
    hide Clear;
    ConsClear(p, ps);
    if |ps| > 0 && p.firstLba > ps[0].firstLba {
      InsertClearOf(p, ps[1..], q);
      ConsClear(ps[0], ps[1..]);
      ConsClear(ps[0], InsertByFirst(p, ps[1..]));
      assert ps == [ps[0]] + ps[1..];
    }
  }

  lemma {:induction false} InsertAllClear(p: Partition, ps: seq<Partition>)
    ensures AllClear(InsertByFirst(p, ps)) <==> ClearOf(p, ps) && AllClear(ps)
    ensures Extents(InsertByFirst(p, ps)) <==> p.firstLba <= p.lastLba && Extents(ps)
    decreases |ps|
  {
    hide Clear, AllClear, ClearOf, Extents;
    ConsClear(p, ps);
    if |ps| > 0 && p.firstLba > ps[0].firstLba {
      InsertAllClear(p, ps[1..]);
      InsertClearOf(p, ps[1..], ps[0]);
      ConsClear(ps[0], ps[1..]);
      ConsClear(ps[0], InsertByFirst(p, ps[1..]));
      ClearSymmetric();
      assert ps == [ps[0]] + ps[1..];
    }
  }

  predicate NotBefore(lba: u64, ps: seq<Partition>) {
    forall i :: 0 <= i < |ps| ==> lba <= ps[i].firstLba
  }

  lemma {:induction false} InsertSorted(p: Partition, ps: seq<Partition>, lba: u64)
    ensures NotBefore(lba, InsertByFirst(p, ps)) <==> lba <= p.firstLba && NotBefore(lba, ps)
    ensures SortedByFirst(ps) ==> SortedByFirst(InsertByFirst(p, ps))
    decreases |ps|
  {
    hide NotBefore, SortedByFirst;
    ConsSorted(p, ps, lba);
    if |ps| > 0 && p.firstLba > ps[0].firstLba {
      InsertSorted(p, ps[1..], lba);
      InsertSorted(p, ps[1..], ps[0].firstLba);
      ConsSorted(ps[0], ps[1..], lba);
      ConsSorted(ps[0], InsertByFirst(p, ps[1..]), lba);
      assert ps == [ps[0]] + ps[1..];
    } else {
      FirstDecides(ps, p.firstLba);
    }
  }

  lemma FirstDecides(ps: seq<Partition>, lba: u64)
    requires |ps| > 0 ==> lba <= ps[0].firstLba
    ensures SortedByFirst(ps) ==> NotBefore(lba, ps)
  {
  }

  lemma ConsSorted(p: Partition, ps: seq<Partition>, lba: u64)
    ensures SortedByFirst([p] + ps) <==> NotBefore(p.firstLba, ps) && SortedByFirst(ps)
    ensures NotBefore(lba, [p] + ps) <==> lba <= p.firstLba && NotBefore(lba, ps)
  {
    var all := [p] + ps;
    assert all[0] == p && forall i :: 0 <= i < |ps| ==> all[i + 1] == ps[i];
    assert forall i :: 0 < i < |all| ==> all[i] == ps[i - 1];
  }

  lemma ClearSymmetric()
    ensures forall p, q :: Clear(p, q) <==> Clear(q, p)
  {
  }

  lemma ConsClear(p: Partition, ps: seq<Partition>)
    ensures AllClear([p] + ps) <==> ClearOf(p, ps) && AllClear(ps)
    ensures forall q :: ClearOf(q, [p] + ps) <==> Clear(q, p) && ClearOf(q, ps)
    ensures Extents([p] + ps) <==> p.firstLba <= p.lastLba && Extents(ps)
  {
    hide Clear;
    var all := [p] + ps;
    assert all[0] == p && forall i :: 0 <= i < |ps| ==> all[i + 1] == ps[i];
    assert forall i :: 0 < i < |all| ==> all[i] == ps[i - 1];
  }

  lemma {:induction false} SortClearOf(ps: seq<Partition>, q: Partition)
    ensures ClearOf(q, SortByFirst(ps)) <==> ClearOf(q, ps)
    decreases |ps|
  {
    hide Clear, InsertByFirst;
    if |ps| > 0 {
      SortClearOf(ps[1..], q);
      InsertClearOf(ps[0], SortByFirst(ps[1..]), q);
      ConsClear(ps[0], ps[1..]);
      assert ps == [ps[0]] + ps[1..];
    }
  }

  lemma {:induction false} SortedExtents(ps: seq<Partition>)
    ensures SortedByFirst(SortByFirst(ps))
    ensures AllClear(SortByFirst(ps)) <==> AllClear(ps)
    ensures Extents(SortByFirst(ps)) <==> Extents(ps)
    decreases |ps|
  {
    hide Clear, ClearOf, InsertByFirst;
    if |ps| > 0 {
      SortedExtents(ps[1..]);
      SortClearOf(ps[1..], ps[0]);
      InsertAllClear(ps[0], SortByFirst(ps[1..]));
      InsertSorted(ps[0], SortByFirst(ps[1..]), 0);
      ConsClear(ps[0], ps[1..]);
      assert ps == [ps[0]] + ps[1..];
    }
  }

  predicate StepsUp(ps: seq<Partition>, i: nat)
    requires 0 < i < |ps|
  {
    ps[i - 1].lastLba < ps[i].firstLba
  }

  predicate Staircase(ps: seq<Partition>) {
    forall i :: 0 < i < |ps| ==> StepsUp(ps, i)
  }

  /** In sorted order, neighbours decide. */
  lemma NeighboursDecide(ps: seq<Partition>)
    requires SortedByFirst(ps) && Extents(ps)
    ensures AllClear(ps) <==> Staircase(ps)
  {
    if Staircase(ps) {
      forall i, j | 0 <= i < j < |ps| ensures Clear(ps[i], ps[j]) {
        assert StepsUp(ps, i + 1);
      }
    }
    if AllClear(ps) {
      forall i | 0 < i < |ps| ensures StepsUp(ps, i) {
        assert Clear(ps[i - 1], ps[i]);
      }
    }
  }

  lemma PlacedExtents(ps: seq<Partition>, firstUsable: u64, lastUsable: u64)
    requires AllPlaced(ps, firstUsable, lastUsable)
    ensures Extents(ps)
  {
    hide IsZero;
    forall i | 0 <= i < |ps| ensures ps[i].firstLba <= ps[i].lastLba {
      assert Placed(ps[i], firstUsable, lastUsable);
    }
  }

  lemma ConsistentMeansOrderable(ps: seq<Partition>, firstUsable: u64, lastUsable: u64)
    requires AllPlaced(ps, firstUsable, lastUsable) && DistinctIds(ps)
    ensures Consistent(ps, firstUsable, lastUsable) <==> Staircase(SortByFirst(ps))
  {
    hide IsZero, SortByFirst;
    PlacedExtents(ps, firstUsable, lastUsable);
    SortedExtents(ps);
    NeighboursDecide(SortByFirst(ps));
    ConsistentIsClear(ps, firstUsable, lastUsable);
  }

  lemma ConsistentIsClear(ps: seq<Partition>, firstUsable: u64, lastUsable: u64)
    requires AllPlaced(ps, firstUsable, lastUsable) && DistinctIds(ps)
    ensures Consistent(ps, firstUsable, lastUsable) <==> AllClear(ps)
  {
    hide Placed;
    if Consistent(ps, firstUsable, lastUsable) {
      forall i, j | 0 <= i < j < |ps| ensures Clear(ps[i], ps[j]) {
        assert Apart(ps[i], ps[j]);
      }
    }
    if AllClear(ps) {
      forall i, j | 0 <= i < j < |ps| ensures Apart(ps[i], ps[j]) {
        assert Clear(ps[i], ps[j]);
      }
    }
  }

  /** Reads the table of a disk, partitions last. */
  method ReadTable(ss: u32, image: Image) returns (r: Result<Disk>)
    ensures r == ParseGpt(ss, image)
  {
    hide ParseHeader, ReadEntryArray, ParsePartitions, IsZero, EntrySectors, IsProtectiveMbr;
    if !SupportedSectorSize(ss) || !WellSized(ss, image) {
      return Err(UnsupportedLayout);
    }
    if !IsProtectiveMbr(image[..ss]) {
      return Err(InvalidData);
    }
    var sectorCount := WholeSectors(ss, |image|);
    var primary :- ParseHeader(ss, image, 1);
    if !SupportedEntries(primary) {
      return Err(UnsupportedLayout);
    }
    var entrySectors := EntrySectors(ss, primary.entryCount);
    if !PrimaryInPlace(primary, sectorCount, entrySectors) {
      return Err(InvalidData);
    }
    var entries :- ReadEntryArray(ss, image, primary, sectorCount);
    var backup :- ParseHeader(ss, image, primary.backupLba);
    if !BackupMatches(primary, backup, entrySectors) {
      return Err(InvalidData);
    }
    var backupEntries :- ReadEntryArray(ss, image, backup, sectorCount);
    if backupEntries != entries {
      return Err(InvalidData);
    }
    var partitions :- ParsePartitionEntries(entries, primary);
    return Ok(Disk(ss, sectorCount, primary.diskGuid, primary.firstUsable, primary.lastUsable,
                   primary.entryCount, primary.entrySize, partitions));
  }
}

/** Planning with a live GUID generator, and the disk that the writes go to. */
module GptExecute {
  import opened Bytes
  import opened Crc32
  import opened Gpt
  import opened GptBuild
  import opened GptCrash
  import opened GptMethods
  import opened GptPlan
  import opened GptStore
  import opened MachineWord
  import opened Results

  /** A source of GUIDs that may fail; its answers are fixed by the number of the call. */
  class GuidGenerator {
    const draws: Draws
    var calls: nat

    constructor (draws: Draws)
      ensures this.draws == draws && calls == 0
    {
      this.draws := draws;
      calls := 0;
    }

    /** The answers still to come. */
    function Ahead(): (ahead: Draws)
      reads this
    {
      var passed := calls;
      (k: nat) => draws(passed + k)
    }

    method NextGuid() returns (guid: Result<Guid>)
      modifies this
      ensures guid == draws(old(calls)) && calls == old(calls) + 1
    {
      guid := draws(calls);
      calls := calls + 1;
    }
  }

  /** Draws the identities for a fresh table: one for the disk, one for each partition. */
  method DrawIdentities(count: nat, generator: GuidGenerator) returns (r: Result<seq<Guid>>)
    modifies generator
    ensures r == DrawGuids(old(generator.Ahead()), count)
  {
    hide IsZero;
    ghost var ahead := generator.Ahead();
    var guids: seq<Guid> := [];
    for k := 0 to count
      invariant generator.calls == old(generator.calls) + k
      invariant DrawGuids(ahead, k) == Ok(guids)
    {
      var next := generator.NextGuid();
      assert ahead(k) == next;
      if next.Err? || IsZero(next.value) || next.value in guids {
        r := if next.Err? then Err(next.error) else Err(InvalidData);
        DrawStops(ahead, k + 1, count);
        return;
      }
      guids := guids + [next.value];
    }
    return Ok(guids);
  }

  lemma {:induction false} DrawStops(draws: Draws, k: nat, count: nat)
    requires k <= count && DrawGuids(draws, k).Err?
    ensures DrawGuids(draws, count) == Err(DrawGuids(draws, k).error)
    decreases count
  {
    if k < count {
      DrawStops(draws, k, count - 1);
    }
  }

  /** Plans a fresh table and builds its five writes in commit order. */
  method MakeGptWritePlan(source: Disk, targetSize: u64, targetSs: u32, generator: GuidGenerator)
    returns (r: Result<Plan>)
    requires Template(source)
    modifies generator
    ensures r.Err? ==> PlanFreshTable(source, targetSize, targetSs, old(generator.Ahead())) == Err(r.error)
    ensures r.Ok? ==> PlanFreshTable(source, targetSize, targetSs, old(generator.Ahead())) == Ok(r.value.target)
    ensures r.Ok? ==> GoodGeometry(r.value.target) && r.value.writes == FreshWrites(r.value.target)
  {
    hide IsZero, Ascending, Typed, Nameable, DisjointExtents, LbaOffset, WholeSectors, EntrySectors, DrawGuids;
    if !SupportedSectorSize(targetSs) || targetSs != source.sectorSize
       || targetSize != LbaOffset(targetSs, WholeSectors(targetSs, targetSize)) {
      return Err(UnsupportedLayout);
    }
    if LbaOffset(source.sectorSize, source.sectorCount) >= U64_LIMIT
       || targetSize < LbaOffset(source.sectorSize, source.sectorCount) {
      return Err(UnsupportedLayout);
    }
    var sectorCount := WholeSectors(targetSs, targetSize);
    var entrySectors := EntrySectors(targetSs, source.entryCount);
    if sectorCount <= 3 + 2 * entrySectors {
      return Err(InvalidData);
    }
    SectorsFit(targetSs, targetSize);
    var firstUsable := if source.firstUsable < 2 + entrySectors then 2 + entrySectors else source.firstUsable;
    var lastUsable := sectorCount - 1 - entrySectors - 1;
    for i := 0 to |source.partitions|
      invariant forall k :: 0 <= k < i ==> InUsableRange(source.partitions[k], firstUsable, lastUsable)
    {
      if !InUsableRange(source.partitions[i], firstUsable, lastUsable) {
        return Err(InvalidData);
      }
    }
    var identities := DrawIdentities(|source.partitions| + 1, generator);
    if identities.Err? {
      return Err(identities.error);
    }
    var guids := identities.value;
    var target := source.(sectorCount := sectorCount, firstUsable := firstUsable, lastUsable := lastUsable,
      diskGuid := guids[0], partitions := Renamed(source.partitions, guids));
    FreshTargetWellFormed(source, targetSize, targetSs, old(generator.Ahead()), target);
    WellFormedIsCanonical(target);
    var writes := BuildWrites(target, true);
    return Ok(Plan(target, writes));
  }

  lemma SectorsFit(ss: u32, size: u64)
    requires SupportedSectorSize(ss)
    ensures WholeSectors(ss, size) < U64_LIMIT
  {
  }

  /** The bytes of the planned writes, built in buffers of their own. */
  method BuildWrites(disk: Disk, withMbr: bool) returns (writes: seq<Write>)
    requires Storable(disk)
    ensures writes == if withMbr then FreshWrites(disk) else UpdateWrites(disk)
  {
    hide IsZero, Typed, Consistent, LbaOffset, EntrySectors, Entries, HeaderSector, ProtectiveMbr, Splice, Checksum;
    var ss := disk.sectorSize;
    var entrySectors := EntrySectors(ss, disk.entryCount);
    var backupLba := disk.sectorCount - 1 - entrySectors;
    OffsetsFit(disk);
    var entries := BuildEntryArray(disk);
    var crc := ComputeCrc32(entries[..]);
    var entryCrc: u32 := Checksum(Entries(disk.partitions, disk.entryCount));
    assert FromDigits(Word(crc)) == entryCrc;
    var primaryHeader := BuildHeader(disk, 1, disk.sectorCount - 1, 2, FromDigits(Word(crc)));
    var backupHeader := BuildHeader(disk, disk.sectorCount - 1, 1, backupLba, FromDigits(Word(crc)));
    var padded := new byte[LbaOffset(ss, entrySectors)](_ => 0);
    assert padded[..] == [] + Zeros(padded.Length);
    StoreNext(padded, 0, entries[..], []);
    assert [] + entries[..] == entries[..];
    assert padded[..] == PaddedEntries(disk);
    writes := [
      Write(PrimaryEntries, LbaOffset(ss, 2), padded[..]),
      Write(BackupEntries, LbaOffset(ss, backupLba), padded[..]),
      Write(BackupHeaderSector, LbaOffset(ss, disk.sectorCount - 1), backupHeader[..])
    ];
    if withMbr {
      var mbr := BuildProtectiveMbr(disk);
      writes := writes + [Write(ProtectiveMbrSector, 0, mbr[..])];
    }
    writes := writes + [Write(PrimaryHeaderCommit, LbaOffset(ss, 1), primaryHeader[..])];
  }

  lemma OffsetsFit(disk: Disk)
    requires GoodGeometry(disk)
    ensures LbaOffset(disk.sectorSize, 1) < U64_LIMIT && LbaOffset(disk.sectorSize, 2) < U64_LIMIT
    ensures LbaOffset(disk.sectorSize, BackupArrayLba(disk)) < U64_LIMIT
    ensures LbaOffset(disk.sectorSize, disk.sectorCount - 1) < U64_LIMIT
    ensures disk.entryCount * ENTRY_SIZE <= LbaOffset(disk.sectorSize, ArraySectors(disk))
  {
  }

  /** The first usable answer of the generator, within the allowed attempts. */
  method DrawFreshGuid(used: seq<Guid>, generator: GuidGenerator) returns (r: Result<Guid>)
    modifies generator
    ensures r == FreshGuid(old(generator.Ahead()), used, 0)
  {
    hide IsZero;
    ghost var ahead := generator.Ahead();
    for attempt := 0 to MAXIMUM_ATTEMPTS
      invariant generator.calls == old(generator.calls) + attempt
      invariant FreshGuid(ahead, used, 0) == FreshGuid(ahead, used, attempt)
    {
      var generated := generator.NextGuid();
      assert ahead(attempt) == generated;
      if generated.Err? {
        return generated;
      }
      if !IsZero(generated.value) && generated.value !in used {
        return generated;
      }
    }
    return Err(InvalidData);
  }

  /** The first entry that no partition occupies. */
  method FindFreeEntry(ps: seq<Partition>, count: u32) returns (free: Option<nat>)
    ensures free == FreeEntry(ps, count, 0)
  {
    hide Slot;
    var usedEntries := set p | p in ps :: p.entryIndex;
    for index := 0 to count
      invariant FreeEntry(ps, count, 0) == FreeEntry(ps, count, index)
    {
      if index !in usedEntries {
        return Some(index);
      }
      assert exists p :: p in ps && p.entryIndex == index;
    }
    return None;
  }

  /** Plans one more partition and builds the four writes; the protective MBR stays. */
  method MakeGptAddPartitionPlan(current: Disk, request: AddRequest, generator: GuidGenerator)
    returns (r: Result<Plan>)
    requires WellFormed(current)
    modifies generator
    ensures r.Err? ==> PlanAddedPartition(current, request, old(generator.Ahead())) == Err(r.error)
    ensures r.Ok? ==> PlanAddedPartition(current, request, old(generator.Ahead())) == Ok(r.value.target)
    ensures r.Ok? ==> GoodGeometry(r.value.target) && r.value.writes == UpdateWrites(r.value.target)
  {
    hide IsZero, Ascending, Typed, Nameable, Consistent, LbaOffset, EntrySectors, CompatibleWith, FreshGuid, FreeEntry;
    if request.sectorCount == 0 || IsZero(request.typeGuid) || |request.name| > NAME_UNITS {
      return Err(UnsupportedLayout);
    }
    var lastLba := request.firstLba + request.sectorCount - 1;
    if lastLba >= U64_LIMIT || request.firstLba < current.firstUsable || lastLba > current.lastUsable {
      return Err(InvalidData);
    }
    var compatible := CheckExisting(current, request.firstLba, lastLba);
    if !compatible {
      return Err(InvalidData);
    }
    var entry := FindFreeEntry(current.partitions, current.entryCount);
    if entry.None? {
      return Err(UnsupportedLayout);
    }
    var guid := DrawFreshGuid(UsedGuids(current), generator);
    if guid.Err? {
      return Err(guid.error);
    }
    var entrySectors := EntrySectors(current.sectorSize, current.entryCount);
    if current.sectorCount <= 2 + entrySectors || current.lastUsable >= current.sectorCount - 1 - entrySectors {
      return Err(InvalidData);
    }
    var target := current.(partitions := current.partitions
      + [Partition(entry.value, request.typeGuid, guid.value, request.firstLba, lastLba, request.attributes,
                   request.name)]);
    AddedTargetStorable(current, request, old(generator.Ahead()));
    var writes := BuildWrites(target, false);
    return Ok(Plan(target, writes));
  }

  /** Partition `k` agrees with the request and with the partitions before it. */
  predicate Joins(disk: Disk, k: nat, firstLba: u64, lastLba: u64)
    requires k < |disk.partitions|
  {
    var p := disk.partitions[k];
    && p.entryIndex < disk.entryCount
    && Placed(p, disk.firstUsable, disk.lastUsable)
    && p.uniqueGuid != disk.diskGuid
    && !Overlaps(p, firstLba, lastLba)
    && forall i :: 0 <= i < k ==>
         p.entryIndex != disk.partitions[i].entryIndex && p.uniqueGuid != disk.partitions[i].uniqueGuid
  }

  lemma CompatibleOneByOne(disk: Disk, firstLba: u64, lastLba: u64)
    ensures CompatibleWith(disk, firstLba, lastLba)
       <==> forall k :: 0 <= k < |disk.partitions| ==> Joins(disk, k, firstLba, lastLba)
  {
    hide Placed, Overlaps;
    if forall k :: 0 <= k < |disk.partitions| ==> Joins(disk, k, firstLba, lastLba) {
      forall i, j | 0 <= i < j < |disk.partitions|
        ensures disk.partitions[i].entryIndex != disk.partitions[j].entryIndex
        ensures disk.partitions[i].uniqueGuid != disk.partitions[j].uniqueGuid
      {
        assert Joins(disk, j, firstLba, lastLba);
      }
      forall i | 0 <= i < |disk.partitions|
        ensures var p := disk.partitions[i];
          p.entryIndex < disk.entryCount && Placed(p, disk.firstUsable, disk.lastUsable)
          && p.uniqueGuid != disk.diskGuid && !Overlaps(p, firstLba, lastLba)
      {
        assert Joins(disk, i, firstLba, lastLba);
      }
    }
    if CompatibleWith(disk, firstLba, lastLba) {
      forall k | 0 <= k < |disk.partitions| ensures Joins(disk, k, firstLba, lastLba) {
      }
    }
  }

  /** Collects the entries and identities in use and compares every partition with the request. */
  method CheckExisting(disk: Disk, firstLba: u64, lastLba: u64) returns (compatible: bool)
    ensures compatible == CompatibleWith(disk, firstLba, lastLba)
  {
    hide IsZero, Placed, Overlaps, CompatibleWith;
    var ps := disk.partitions;
    var usedEntries: set<u32> := {};
    var usedGuids: set<Guid> := {disk.diskGuid};
    CompatibleOneByOne(disk, firstLba, lastLba);
    for k := 0 to |ps|
      invariant usedEntries == set i | 0 <= i < k :: ps[i].entryIndex
      invariant usedGuids == {disk.diskGuid} + set i | 0 <= i < k :: ps[i].uniqueGuid
      invariant forall i :: 0 <= i < k ==> Joins(disk, i, firstLba, lastLba)
    {
      var p := ps[k];
      var fits := p.entryIndex < disk.entryCount && p.entryIndex !in usedEntries && p.uniqueGuid !in usedGuids
                  && Placed(p, disk.firstUsable, disk.lastUsable) && !Overlaps(p, firstLba, lastLba);
      assert fits <==> Joins(disk, k, firstLba, lastLba);
      if !fits {
        return false;
      }
      usedEntries := usedEntries + {p.entryIndex};
      usedGuids := usedGuids + {p.uniqueGuid};
    }
    return true;
  }

  /** A disk that is written in place. */
  class TargetDisk {
    const image: array<byte>

    constructor (image: array<byte>)
      ensures this.image == image
    {
      this.image := image;
    }

    /** Carries out the first `count` writes, in order; a crash stops between two of them. */
    method Apply(writes: seq<Write>, count: nat)
      requires image.Length < U64_LIMIT && AllFit(writes, image[..]) && count <= |writes|
      modifies image
      ensures image[..] == Applied(old(image[..]), writes[..count])
    {
      hide Splice;
      ghost var before := image[..];
      for k := 0 to count
        invariant image[..] == Applied(before, writes[..k])
      {
        assert writes[k] in writes && Fits(writes[k], before);
        Store(image, writes[k].offset, writes[k].bytes);
        assert writes[..k + 1][..k] == writes[..k];
      }
    }
  }
}
