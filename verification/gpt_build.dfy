/**
 The bytes that the tool writes for a partition table, and the proof that the
 parser reads back what was written.
 */
module GptBuild {
  import opened Bytes
  import opened Crc32
  import opened Gpt
  import opened Results

  // ---------- names ----------

  /** A name as `room` code units, padded with NUL. */
  function NameBytes(name: seq<u16>, room: nat): (field: seq<byte>)
    ensures |field| == 2 * room
    decreases room
  {
    if room == 0 then []
    else if |name| == 0 then Little(0, 2) + NameBytes([], room - 1)
    else Little(name[0], 2) + NameBytes(name[1..], room - 1)
  }

  /** The part of a name that survives storage: `room` code units at most, up to the first NUL. */
  function Visible(name: seq<u16>, room: nat): (shown: seq<u16>)
    ensures |shown| <= room && |shown| <= |name|
    ensures shown == name[..|shown|] && 0 !in shown
    decreases room
  {
    if room == 0 || |name| == 0 || name[0] == 0 then [] else [name[0]] + Visible(name[1..], room - 1)
  }

  lemma {:induction false} VisibleAll(name: seq<u16>, room: nat)
    requires |name| <= room && 0 !in name
    ensures Visible(name, room) == name
    decreases room
  {
    if room > 0 && |name| > 0 {
      VisibleAll(name[1..], room - 1);
      assert name == [name[0]] + name[1..];
    }
  }

  lemma {:induction false} NameRoundTrip(name: seq<u16>, room: nat)
    ensures DecodeName(NameBytes(name, room)) == Visible(name, room)
    decreases room
  {
    if room > 0 {
      var field := NameBytes(name, room);
      var head := if |name| == 0 then 0 else name[0];
      assert field[0..2] == Little(head, 2);
      U16Stored(field, 0, head);
      if head != 0 {
        assert field[2..] == NameBytes(name[1..], room - 1);
        NameRoundTrip(name[1..], room - 1);
      }
    }
  }

  // ---------- entries ----------

  function EncodeEntry(p: Partition): (entry: seq<byte>)
    ensures |entry| == ENTRY_SIZE
  {
    p.typeGuid + p.uniqueGuid + Little(p.firstLba, 8) + Little(p.lastLba, 8) + Little(p.attributes, 8)
    + NameBytes(p.name, NAME_UNITS)
  }

  lemma EntryFields(p: Partition)
    ensures var entry := EncodeEntry(p);
      && entry[..16] == p.typeGuid
      && entry[16..32] == p.uniqueGuid
      && entry[32..40] == Little(p.firstLba, 8)
      && entry[40..48] == Little(p.lastLba, 8)
      && entry[48..56] == Little(p.attributes, 8)
      && entry[56..] == NameBytes(p.name, NAME_UNITS)
  {
    hide Little, NameBytes;
  }

  /** The partition with the part of its name that an entry can hold. */
  function Stored(p: Partition): Partition {
    p.(name := Visible(p.name, NAME_UNITS))
  }

  lemma EntryRoundTrip(p: Partition)
    ensures DecodeEntry(p.entryIndex, EncodeEntry(p)) == Stored(p)
  {
    hide Little, NameBytes, DecodeName, FromLittle, EncodeEntry;
    var entry := EncodeEntry(p);
    EntryFields(p);
    U64Stored(entry, 32, p.firstLba);
    U64Stored(entry, 40, p.lastLba);
    U64Stored(entry, 48, p.attributes);
    NameRoundTrip(p.name, NAME_UNITS);
  }

  /** The partition that occupies the entry, if there is one. */
  function Slot(ps: seq<Partition>, index: nat): (slot: Option<Partition>)
    ensures slot.Some? ==> slot.value in ps && slot.value.entryIndex == index
    ensures slot.None? ==> forall p :: p in ps ==> p.entryIndex != index
    decreases |ps|
  {
    if |ps| == 0 then None
    else if ps[0].entryIndex == index then Some(ps[0])
    else Slot(ps[1..], index)
  }

  function SlotBytes(slot: Option<Partition>): (entry: seq<byte>)
    ensures |entry| == ENTRY_SIZE
  {
    if slot.None? then Zeros(ENTRY_SIZE) else EncodeEntry(slot.value)
  }

  /** The entry array: the entry of every partition at its index, zeros elsewhere. */
  function Entries(ps: seq<Partition>, count: nat): (entries: seq<byte>)
    ensures |entries| == count * ENTRY_SIZE
    decreases count
  {
    if count == 0 then [] else Entries(ps, count - 1) + SlotBytes(Slot(ps, count - 1))
  }

  lemma {:induction false} EntryOf(ps: seq<Partition>, count: nat, index: nat)
    requires index < count
    ensures EntryAt(Entries(ps, count), index) == SlotBytes(Slot(ps, index))
    decreases count
  {
    hide SlotBytes, Slot;
    if index < count - 1 {
      EntryOf(ps, count - 1, index);
      assert EntryAt(Entries(ps, count), index) == EntryAt(Entries(ps, count - 1), index);
    }
  }

  /** The partitions in the order of their entries, as they are stored. */
  function ByIndex(ps: seq<Partition>, count: nat): (ordered: seq<Partition>)
    decreases count
  {
    if count == 0 then []
    else
      var slot := Slot(ps, count - 1);
      ByIndex(ps, count - 1) + (if slot.None? then [] else [Stored(slot.value)])
  }

  lemma {:induction false} UsedPrefix(a: seq<byte>, b: seq<byte>, count: nat)
    requires count * ENTRY_SIZE <= |a| && count <= MAXIMUM_ENTRIES
    ensures UsedPartitions(a + b, count) == UsedPartitions(a, count)
    decreases count
  {
    hide DecodeEntry, IsZero;
    if count > 0 {
      UsedPrefix(a, b, count - 1);
      assert EntryAt(a + b, count - 1) == EntryAt(a, count - 1);
    }
  }

  lemma SlotRoundTrip(slot: Option<Partition>)
    requires slot.Some? ==> !IsZero(slot.value.typeGuid)
    ensures IsZero(SlotBytes(slot)[..16]) <==> slot.None?
    ensures slot.Some? ==> DecodeEntry(slot.value.entryIndex, SlotBytes(slot)) == Stored(slot.value)
  {
    hide EncodeEntry, DecodeEntry, Stored;
    if slot.Some? {
      EntryRoundTrip(slot.value);
      EntryFields(slot.value);
    }
  }

  predicate Typed(ps: seq<Partition>) {
    forall p :: p in ps ==> !IsZero(p.typeGuid)
  }

  /** Reading the entry array back yields the partitions, ordered by entry. */
  lemma {:induction false} EntriesRoundTrip(ps: seq<Partition>, count: nat)
    requires Typed(ps) && count <= MAXIMUM_ENTRIES
    ensures UsedPartitions(Entries(ps, count), count) == ByIndex(ps, count)
    decreases count
  {
    hide DecodeEntry, IsZero, Slot;
    hide SlotBytes, Stored, EntryAt;
    if count > 0 {
      var slot := Slot(ps, count - 1);
      EntriesRoundTrip(ps, count - 1);
      UsedPrefix(Entries(ps, count - 1), SlotBytes(slot), count - 1);
      EntryOf(ps, count, count - 1);
      SlotRoundTrip(slot);
    }
  }

  // ---------- order by entry index ----------

  predicate Indexed(ps: seq<Partition>, count: nat) {
    && (forall i :: 0 <= i < |ps| ==> ps[i].entryIndex < count)
    && (forall i, j :: 0 <= i < j < |ps| ==> ps[i].entryIndex != ps[j].entryIndex)
  }

  predicate Ascending(ps: seq<Partition>, count: nat) {
    && (forall i :: 0 <= i < |ps| ==> ps[i].entryIndex < count)
    && (forall i, j :: 0 <= i < j < |ps| ==> ps[i].entryIndex < ps[j].entryIndex)
  }

  predicate Nameable(ps: seq<Partition>) {
    forall p :: p in ps ==> |p.name| <= NAME_UNITS && 0 !in p.name
  }

  lemma {:induction false} SlotOf(ps: seq<Partition>, k: nat)
    requires k < |ps|
    requires forall i, j :: 0 <= i < j < |ps| ==> ps[i].entryIndex != ps[j].entryIndex
    ensures Slot(ps, ps[k].entryIndex) == Some(ps[k])
    decreases |ps|
  {
    if k > 0 {
      assert ps[0].entryIndex != ps[k].entryIndex;
      SlotOf(ps[1..], k - 1);
    }
  }

  lemma {:induction false} SlotSkipsLast(ps: seq<Partition>, index: nat)
    requires |ps| > 0 && ps[|ps| - 1].entryIndex != index
    ensures Slot(ps, index) == Slot(ps[..|ps| - 1], index)
    decreases |ps|
  {
    if |ps| > 1 {
      SlotSkipsLast(ps[1..], index);
      assert ps[1..][..|ps| - 2] == ps[..|ps| - 1][1..];
    }
  }

  lemma {:induction false} ByIndexSkipsLast(ps: seq<Partition>, count: nat)
    requires |ps| > 0 && ps[|ps| - 1].entryIndex >= count
    ensures ByIndex(ps, count) == ByIndex(ps[..|ps| - 1], count)
    decreases count
  {
    hide Visible, Slot;
    if count > 0 {
      SlotSkipsLast(ps, count - 1);
      ByIndexSkipsLast(ps, count - 1);
    }
  }

  lemma AscendingFront(ps: seq<Partition>, count: nat)
    requires |ps| > 0 && Ascending(ps, count) && Nameable(ps) && ps[|ps| - 1].entryIndex == count - 1
    ensures Ascending(ps[..|ps| - 1], count - 1) && Nameable(ps[..|ps| - 1])
  {
  }

  lemma NothingBelowZero(ps: seq<Partition>)
    requires Ascending(ps, 0)
    ensures ps == []
  {
    assert |ps| > 0 ==> ps[0].entryIndex < 0;
  }

  lemma AscendingDistinct(ps: seq<Partition>, count: nat)
    requires Ascending(ps, count)
    ensures Indexed(ps, count)
  {
  }

  lemma LastStoredWhole(ps: seq<Partition>)
    requires |ps| > 0 && Nameable(ps)
    ensures Stored(ps[|ps| - 1]) == ps[|ps| - 1]
  {
    VisibleAll(ps[|ps| - 1].name, NAME_UNITS);
  }

  lemma NoSlotAbove(ps: seq<Partition>, count: nat)
    requires count > 0 && Ascending(ps, count) && (|ps| > 0 ==> ps[|ps| - 1].entryIndex != count - 1)
    ensures Slot(ps, count - 1).None? && Ascending(ps, count - 1)
  {
    hide Slot;
  }

  /** Partitions that are in entry order already and fit their entries are read back unchanged. */
  lemma {:induction false} ByIndexAscending(ps: seq<Partition>, count: nat)
    requires Ascending(ps, count) && Nameable(ps)
    ensures ByIndex(ps, count) == ps
    decreases count
  {
    hide Visible, Slot, Ascending, Nameable;
    if count > 0 {
      var n := |ps|;
      if n > 0 && ps[n - 1].entryIndex == count - 1 {
        var front := ps[..n - 1];
        AscendingDistinct(ps, count);
        SlotOf(ps, n - 1);
        LastStoredWhole(ps);
        ByIndexSkipsLast(ps, count - 1);
        AscendingFront(ps, count);
        ByIndexAscending(front, count - 1);
        assert ps == front + [ps[n - 1]];
      } else {
        NoSlotAbove(ps, count);
        ByIndexAscending(ps, count - 1);
      }
    } else {
      NothingBelowZero(ps);
    }
  }

  lemma {:induction false} ByIndexMembers(ps: seq<Partition>, count: nat)
    ensures forall q :: q in ByIndex(ps, count) ==> IsStored(ps, count, q)
    ensures forall i, j :: 0 <= i < j < |ByIndex(ps, count)| ==>
      ByIndex(ps, count)[i].entryIndex < ByIndex(ps, count)[j].entryIndex
    decreases count
  {
    hide Visible, Slot;
    if count > 0 {
      ByIndexMembers(ps, count - 1);
      var front := ByIndex(ps, count - 1);
      assert forall i :: 0 <= i < |front| ==> front[i] in front;
    }
  }

  predicate IsStored(ps: seq<Partition>, count: nat, q: Partition) {
    && q.entryIndex < count
    && Slot(ps, q.entryIndex).Some?
    && q == Stored(Slot(ps, q.entryIndex).value)
  }

  /** Every partition with an index below `count` occurs, as stored. */
  lemma {:induction false} ByIndexComplete(ps: seq<Partition>, count: nat, index: nat)
    requires index < count && Slot(ps, index).Some?
    ensures Stored(Slot(ps, index).value) in ByIndex(ps, count)
    decreases count
  {
    hide Slot, Stored;
    if index < count - 1 {
      ByIndexComplete(ps, count - 1, index);
    }
  }

  /** Reordering by entry keeps placement, identities and disjointness. */
  lemma ByIndexConsistent(ps: seq<Partition>, count: nat, firstUsable: u64, lastUsable: u64)
    requires Indexed(ps, count) && Consistent(ps, firstUsable, lastUsable)
    ensures Consistent(ByIndex(ps, count), firstUsable, lastUsable)
  {
    var ordered := ByIndex(ps, count);
    ByIndexMembers(ps, count);
    forall i | 0 <= i < |ordered| ensures Placed(ordered[i], firstUsable, lastUsable) {
      assert ordered[i] in ordered;
    }
    forall i, j | 0 <= i < j < |ordered| ensures Apart(ordered[i], ordered[j]) {
      assert ordered[i] in ordered && ordered[j] in ordered;
      var p, q := Slot(ps, ordered[i].entryIndex).value, Slot(ps, ordered[j].entryIndex).value;
      var a :| 0 <= a < |ps| && ps[a] == p;
      var b :| 0 <= b < |ps| && ps[b] == q;
      assert Apart(ps[a], ps[b]) || Apart(ps[b], ps[a]);
    }
  }

  // ---------- headers ----------

  /** The header up to its checksum field, and from behind it to the end of the header. */
  function HeaderFront(): (s: seq<byte>)
    ensures |s| == 16
  {
    Signature() + Little(0x1_0000, 4) + Little(MINIMUM_HEADER, 4)
  }

  function HeaderBack(disk: Disk, currentLba: u64, backupLba: u64, entryLba: u64, entryCrc: u32): (s: seq<byte>)
    ensures |s| == 72
  {
    Little(0, 4) + Little(currentLba, 8) + Little(backupLba, 8) + Little(disk.firstUsable, 8)
    + Little(disk.lastUsable, 8) + disk.diskGuid + Little(entryLba, 8) + Little(disk.entryCount, 4)
    + Little(disk.entrySize, 4) + Little(entryCrc, 4)
  }

  function HeaderSector(disk: Disk, currentLba: u64, backupLba: u64, entryLba: u64, entryCrc: u32): (s: seq<byte>)
    requires SupportedSectorSize(disk.sectorSize)
    ensures |s| == disk.sectorSize
  {
    var front, back := HeaderFront(), HeaderBack(disk, currentLba, backupLba, entryLba, entryCrc);
    front + Little(Checksum(front + Zeros(4) + back), 4) + back + Zeros(disk.sectorSize - MINIMUM_HEADER)
  }

  lemma FrontFields(s: seq<byte>)
    requires |s| >= 16 && s[..16] == HeaderFront()
    ensures s[..8] == Signature() && U32At(s, 8) == 0x1_0000 && U32At(s, 12) == MINIMUM_HEADER
  {
    assert s[..8] == s[..16][..8];
    assert s[8..12] == s[..16][8..12] == Little(0x1_0000, 4);
    assert s[12..16] == s[..16][12..16] == Little(MINIMUM_HEADER, 4);
    U32Stored(s, 8, 0x1_0000);
    U32Stored(s, 12, MINIMUM_HEADER);
  }

  lemma BackSlices(disk: Disk, currentLba: u64, backupLba: u64, entryLba: u64, entryCrc: u32)
    ensures var s := HeaderBack(disk, currentLba, backupLba, entryLba, entryCrc);
      && s[0..4] == Little(0, 4)
      && s[4..12] == Little(currentLba, 8)
      && s[12..20] == Little(backupLba, 8)
      && s[20..28] == Little(disk.firstUsable, 8)
      && s[28..36] == Little(disk.lastUsable, 8)
      && s[36..52] == disk.diskGuid
      && s[52..60] == Little(entryLba, 8)
      && s[60..64] == Little(disk.entryCount, 4)
      && s[64..68] == Little(disk.entrySize, 4)
      && s[68..72] == Little(entryCrc, 4)
  {
    hide Little;
    var front, back := FieldsBefore(disk, currentLba, backupLba), FieldsBehind(disk, entryLba, entryCrc);
    var s := HeaderBack(disk, currentLba, backupLba, entryLba, entryCrc);
    HeaderBackParts(disk, currentLba, backupLba, entryLba, entryCrc);
    FourParts(Little(0, 4), Little(currentLba, 8), Little(backupLba, 8), Little(disk.firstUsable, 8));
    FourParts(Little(entryLba, 8), Little(disk.entryCount, 4), Little(disk.entrySize, 4), Little(entryCrc, 4));
    FourParts(front, Little(disk.lastUsable, 8), disk.diskGuid, back);
    SubSlice(s, 0, 28, 0, 4);
    SubSlice(s, 0, 28, 4, 12);
    SubSlice(s, 0, 28, 12, 20);
    SubSlice(s, 0, 28, 20, 28);
    SubSlice(s, 52, 72, 0, 8);
    SubSlice(s, 52, 72, 8, 12);
    SubSlice(s, 52, 72, 12, 16);
    SubSlice(s, 52, 72, 16, 20);
  }

  function FieldsBefore(disk: Disk, currentLba: u64, backupLba: u64): (s: seq<byte>)
    ensures |s| == 28
  {
    Little(0, 4) + Little(currentLba, 8) + Little(backupLba, 8) + Little(disk.firstUsable, 8)
  }

  function FieldsBehind(disk: Disk, entryLba: u64, entryCrc: u32): (s: seq<byte>)
    ensures |s| == 20
  {
    Little(entryLba, 8) + Little(disk.entryCount, 4) + Little(disk.entrySize, 4) + Little(entryCrc, 4)
  }

  lemma HeaderBackParts(disk: Disk, currentLba: u64, backupLba: u64, entryLba: u64, entryCrc: u32)
    ensures HeaderBack(disk, currentLba, backupLba, entryLba, entryCrc)
         == FieldsBefore(disk, currentLba, backupLba) + Little(disk.lastUsable, 8) + disk.diskGuid
            + FieldsBehind(disk, entryLba, entryCrc)
  {
    hide Little;
  }

  lemma FourParts(a: seq<byte>, b: seq<byte>, c: seq<byte>, d: seq<byte>)
    ensures var s, i, j := a + b + c + d, |a| + |b|, |a| + |b| + |c|;
      s[..|a|] == s[0..|a|] == a && s[|a|..i] == b && s[i..j] == c && s[j..] == s[j..|s|] == d
  {
  }

  lemma BackFields(s: seq<byte>, disk: Disk, currentLba: u64, backupLba: u64, entryLba: u64, entryCrc: u32)
    requires |s| >= 92 && s[20..92] == HeaderBack(disk, currentLba, backupLba, entryLba, entryCrc)
    ensures U32At(s, 20) == 0
    ensures U64At(s, 24) == currentLba
    ensures U64At(s, 32) == backupLba
    ensures U64At(s, 40) == disk.firstUsable
    ensures U64At(s, 48) == disk.lastUsable
    ensures s[56..72] == disk.diskGuid
    ensures U64At(s, 72) == entryLba
    ensures U32At(s, 80) == disk.entryCount
    ensures U32At(s, 84) == disk.entrySize
    ensures U32At(s, 88) == entryCrc
  {
    hide Little, FromLittle, Capacity, HeaderBack;
    var back := s[20..92];
    SubSlice(s, 20, 92, 0, 4);
    SubSlice(s, 20, 92, 4, 12);
    SubSlice(s, 20, 92, 12, 20);
    SubSlice(s, 20, 92, 20, 28);
    SubSlice(s, 20, 92, 28, 36);
    SubSlice(s, 20, 92, 36, 52);
    SubSlice(s, 20, 92, 52, 60);
    SubSlice(s, 20, 92, 60, 64);
    SubSlice(s, 20, 92, 64, 68);
    SubSlice(s, 20, 92, 68, 72);
    BackSlices(disk, currentLba, backupLba, entryLba, entryCrc);
    U32Stored(s, 20, 0);
    U64Stored(s, 24, currentLba);
    U64Stored(s, 32, backupLba);
    U64Stored(s, 40, disk.firstUsable);
    U64Stored(s, 48, disk.lastUsable);
    U64Stored(s, 72, entryLba);
    U32Stored(s, 80, disk.entryCount);
    U32Stored(s, 84, disk.entrySize);
    U32Stored(s, 88, entryCrc);
  }

  /** The parser accepts a built header and reads every field back. */
  lemma HeaderRoundTrip(disk: Disk, currentLba: u64, backupLba: u64, entryLba: u64, entryCrc: u32)
    requires SupportedSectorSize(disk.sectorSize)
    ensures ParseHeaderSector(HeaderSector(disk, currentLba, backupLba, entryLba, entryCrc))
         == Ok(Header(MINIMUM_HEADER, currentLba, backupLba, disk.firstUsable, disk.lastUsable, disk.diskGuid,
                      entryLba, disk.entryCount, disk.entrySize, entryCrc))
  {
    hide Little, FromLittle, Capacity, Checksum, HeaderFront, HeaderBack, U32At, U64At;
    var s := HeaderSector(disk, currentLba, backupLba, entryLba, entryCrc);
    var front, back := HeaderFront(), HeaderBack(disk, currentLba, backupLba, entryLba, entryCrc);
    var crc := Checksum(front + Zeros(4) + back);
    assert s[..16] == front;
    assert s[16..20] == Little(crc, 4);
    assert s[20..92] == back;
    FrontFields(s);
    U32Stored(s, 16, crc);
    BackFields(s, disk, currentLba, backupLba, entryLba, entryCrc);
    assert CoveredBytes(s, MINIMUM_HEADER) == front + Zeros(4) + back;
  }

  // ---------- the protective MBR ----------

  function ProtectedSectors(sectorCount: u64): (n: u32)
    requires sectorCount > 0
  {
    if sectorCount - 1 < U32_LIMIT then sectorCount - 1 else U32_LIMIT - 1
  }

  function ProtectiveMbr(disk: Disk): (s: seq<byte>)
    requires SupportedSectorSize(disk.sectorSize) && disk.sectorCount > 0
    ensures |s| == disk.sectorSize
  {
    Zeros(450) + [0xEE] + Zeros(3) + Little(1, 4) + Little(ProtectedSectors(disk.sectorCount), 4)
    + Zeros(48) + [0x55, 0xAA] + Zeros(disk.sectorSize - 512)
  }

  lemma MbrRoundTrip(disk: Disk)
    requires SupportedSectorSize(disk.sectorSize) && disk.sectorCount > 1
    ensures IsProtectiveMbr(ProtectiveMbr(disk))
  {
    hide Little, FromLittle;
    MbrProtects(disk);
  }

  /**
   The one record of the protective MBR: it starts at sector 1, ends with the
   disk, and is cut off at the largest number that 32 bits can hold. Everything
   else but the boot signature is zero.
   */
  lemma MbrProtects(disk: Disk)
    requires SupportedSectorSize(disk.sectorSize) && disk.sectorCount > 1
    ensures var s := ProtectiveMbr(disk); var first, sectors := U32At(s, 454), U32At(s, 458);
      && s[450] == 0xEE && s[510] == 0x55 && s[511] == 0xAA && first == 1
      && first + sectors <= disk.sectorCount
      && (first + sectors < disk.sectorCount ==> sectors == U32_LIMIT - 1)
      && forall i :: 0 <= i < |s| && s[i] != 0 ==> i == 450 || 454 <= i < 462 || i == 510 || i == 511
  {
    hide Little, FromLittle;
    var s := ProtectiveMbr(disk);
    var sectors := ProtectedSectors(disk.sectorCount);
    var front, record := Zeros(450) + [0xEE] + Zeros(3), Little(1, 4) + Little(sectors, 4);
    var back := Zeros(48) + [0x55, 0xAA] + Zeros(disk.sectorSize - 512);
    assert s == front + record + back && |front| == 454 && |record| == 8;
    assert s[454..462] == record;
    SubSlice(s, 454, 462, 0, 4);
    SubSlice(s, 454, 462, 4, 8);
    assert record[0..4] == Little(1, 4) && record[4..8] == Little(sectors, 4);
    U32Stored(s, 454, 1);
    U32Stored(s, 458, sectors);
    assert forall i :: 0 <= i < 454 ==> s[i] == front[i];
    assert forall i :: 462 <= i < |s| ==> s[i] == back[i - 462];
  }
}
