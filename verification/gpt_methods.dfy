/**
 The loops of the codec and the planners, over buffers that are written in
 place, proved against the functions that define the format.
 */
module GptMethods {
  import opened Bytes
  import opened Crc32
  import opened Gpt
  import opened GptBuild
  import opened GptPlan
  import opened MachineWord

  // ---------- writing into a buffer ----------

  /** A field that is built up from its front: the finished part, then zeros. */
  lemma FieldGrows(base: seq<byte>, offset: nat, done: seq<byte>, room: nat, patch: seq<byte>)
    requires |patch| <= room && offset + |done| + room <= |base|
    ensures Splice(Splice(base, offset, done + Zeros(room)), offset + |done|, patch)
         == Splice(base, offset, done + patch + Zeros(room - |patch|))
  {
    var a := Splice(Splice(base, offset, done + Zeros(room)), offset + |done|, patch);
    var field := done + patch + Zeros(room - |patch|);
    var b := Splice(base, offset, field);
    forall i | 0 <= i < |base| ensures a[i] == b[i] {
      if offset <= i < offset + |field| {
        assert b[i] == field[i - offset];
        if offset + |done| <= i < offset + |done| + |patch| {
          assert a[i] == patch[i - offset - |done|];
        } else {
          assert a[i] == Splice(base, offset, done + Zeros(room))[i] == (done + Zeros(room))[i - offset];
        }
      }
    }
  }

  lemma ZeroField(base: seq<byte>, offset: nat, room: nat)
    requires offset + room <= |base| && base[offset..offset + room] == Zeros(room)
    ensures Splice(base, offset, [] + Zeros(room)) == base
  {
    assert [] + Zeros(room) == Zeros(room);
  }

  /** The code units of a name, without padding. */
  function Units(name: seq<u16>): (bytes: seq<byte>)
    ensures |bytes| == 2 * |name|
    decreases |name|
  {
    if |name| == 0 then [] else Units(name[..|name| - 1]) + Little(name[|name| - 1], 2)
  }

  lemma {:induction false} UnitsFromFront(name: seq<u16>)
    requires |name| > 0
    ensures Units(name) == Little(name[0], 2) + Units(name[1..])
    decreases |name|
  {
    hide Little;
    if |name| > 1 {
      UnitsFromFront(name[..|name| - 1]);
      assert name[1..][..|name| - 2] == name[..|name| - 1][1..];
    } else {
      assert Units(name[..0]) == [] && Units(name[1..]) == [];
    }
  }

  lemma {:induction false} NameIsPaddedUnits(name: seq<u16>, room: nat)
    ensures NameBytes(name, room)
         == Units(name[..Least(room, |name|)]) + Zeros(2 * room - 2 * Least(room, |name|))
    decreases room
  {
    hide Little;
    if room > 0 {
      if |name| == 0 {
        NameIsPaddedUnits([], room - 1);
        LittleZero();
        assert Zeros(2 * room) == Zeros(2) + Zeros(2 * room - 2);
      } else {
        var shown := name[..Least(room, |name|)];
        NameIsPaddedUnits(name[1..], room - 1);
        UnitsFromFront(shown);
        assert shown[1..] == name[1..][..Least(room - 1, |name| - 1)];
      }
    }
  }

  lemma LittleZero()
    ensures Little(0, 2) == Zeros(2)
  {
    assert Little(0, 1) == [0];
  }

  function Least(a: nat, b: nat): nat {
    if a < b then a else b
  }

  /** Stores the next piece of a field that is being built up inside `base`. */
  method StorePiece(buffer: array<byte>, at: nat, patch: seq<byte>,
                    ghost base: seq<byte>, ghost offset: nat, ghost done: seq<byte>, ghost room: nat)
    requires |patch| <= room && offset + |done| == at && at + room <= buffer.Length == |base|
    requires buffer[..] == Splice(base, offset, done + Zeros(room))
    modifies buffer
    ensures buffer[..] == Splice(base, offset, done + patch + Zeros(room - |patch|))
  {
    hide Splice;
    FieldGrows(base, offset, done, room, patch);
    Store(buffer, at, patch);
  }

  /** Stores the next piece of a buffer that is being filled from its front. */
  method StoreNext(buffer: array<byte>, at: nat, patch: seq<byte>, ghost done: seq<byte>)
    requires |done| == at && at + |patch| <= buffer.Length
    requires buffer[..] == done + Zeros(buffer.Length - |done|)
    modifies buffer
    ensures buffer[..] == done + patch + Zeros(buffer.Length - |done| - |patch|)
  {
    hide Splice;
    SpliceExtends(done, buffer.Length - |done|, patch);
    Store(buffer, at, patch);
  }

  /** Writes one entry over zeros. */
  method WriteEntry(buffer: array<byte>, offset: nat, p: Partition)
    requires offset + ENTRY_SIZE <= buffer.Length
    requires buffer[offset..offset + ENTRY_SIZE] == Zeros(ENTRY_SIZE)
    modifies buffer
    ensures buffer[..] == Splice(old(buffer[..]), offset, EncodeEntry(p))
  {
    hide Little, Splice, NameBytes, EncodeEntry, Units;
    ghost var base := buffer[..];
    SliceOfBuffer(buffer, offset, ENTRY_SIZE);
    ZeroField(base, offset, ENTRY_SIZE);
    WriteNumbers(buffer, offset, p, base);
    WriteName(buffer, offset, p.name, base, EntryNumbers(p));
    EntryComplete(p);
  }

  /** An entry up to its name. */
  function EntryNumbers(p: Partition): (s: seq<byte>)
    ensures |s| == 56
  {
    p.typeGuid + p.uniqueGuid + Little(p.firstLba, 8) + Little(p.lastLba, 8) + Little(p.attributes, 8)
  }

  lemma EntryComplete(p: Partition)
    ensures var n := Least(NAME_UNITS, |p.name|);
      EncodeEntry(p) == EntryNumbers(p) + Units(p.name[..n]) + Zeros(72 - 2 * n)
  {
    hide Little, NameBytes, Units;
    var n := Least(NAME_UNITS, |p.name|);
    NameIsPaddedUnits(p.name, NAME_UNITS);
    assert EntryNumbers(p) + Units(p.name[..n]) + Zeros(72 - 2 * n)
        == EntryNumbers(p) + (Units(p.name[..n]) + Zeros(72 - 2 * n));
  }

  method WriteNumbers(buffer: array<byte>, offset: nat, p: Partition, ghost base: seq<byte>)
    requires offset + ENTRY_SIZE <= buffer.Length == |base|
    requires buffer[..] == Splice(base, offset, [] + Zeros(ENTRY_SIZE))
    modifies buffer
    ensures buffer[..] == Splice(base, offset, EntryNumbers(p) + Zeros(72))
  {
    hide Little, Splice;
    ghost var ids := p.typeGuid + p.uniqueGuid;
    assert [] + p.typeGuid == p.typeGuid;
    StorePiece(buffer, offset, p.typeGuid, base, offset, [], 128);
    StorePiece(buffer, offset + 16, p.uniqueGuid, base, offset, p.typeGuid, 112);
    StorePiece(buffer, offset + 32, Little(p.firstLba, 8), base, offset, ids, 96);
    StorePiece(buffer, offset + 40, Little(p.lastLba, 8), base, offset, ids + Little(p.firstLba, 8), 88);
    StorePiece(buffer, offset + 48, Little(p.attributes, 8), base, offset,
               ids + Little(p.firstLba, 8) + Little(p.lastLba, 8), 80);
  }

  lemma SliceOfBuffer(buffer: array<byte>, offset: nat, length: nat)
    requires offset + length <= buffer.Length
    ensures buffer[offset..offset + length] == buffer[..][offset..offset + length]
  {
  }

  method WriteName(buffer: array<byte>, offset: nat, name: seq<u16>, ghost base: seq<byte>, ghost done: seq<byte>)
    requires offset + ENTRY_SIZE <= buffer.Length == |base| && |done| == 56
    requires buffer[..] == Splice(base, offset, done + Zeros(72))
    modifies buffer
    ensures var n := Least(NAME_UNITS, |name|);
      buffer[..] == Splice(base, offset, done + Units(name[..n]) + Zeros(72 - 2 * n))
  {
    hide Little, Splice, Units;
    var length := Least(NAME_UNITS, |name|);
    UnitsEmpty(name, done);
    for index := 0 to length
      invariant buffer[..] == Splice(base, offset, done + Units(name[..index]) + Zeros(72 - 2 * index))
    {
      StorePiece(buffer, offset + 56 + index * 2, Little(name[index], 2), base, offset,
                 done + Units(name[..index]), 72 - 2 * index);
      UnitsGrow(name, index, done);
    }
  }

  lemma UnitsEmpty(name: seq<u16>, done: seq<byte>)
    ensures done + Units(name[..0]) == done
  {
  }

  lemma UnitsGrow(name: seq<u16>, index: nat, done: seq<byte>)
    requires index < |name|
    ensures done + Units(name[..index]) + Little(name[index], 2) == done + Units(name[..index + 1])
  {
    hide Little;
    assert name[..index + 1][..index] == name[..index];
  }

  // ---------- the entry array ----------

  lemma {:induction false} EntriesEmpty(count: nat)
    ensures Entries([], count) == Zeros(count * ENTRY_SIZE)
    decreases count
  {
    if count > 0 {
      EntriesEmpty(count - 1);
    }
  }

  /** Placing one more partition in a free entry changes that entry only. */
  lemma {:induction false} EntriesAppended(ps: seq<Partition>, p: Partition, count: nat)
    requires Slot(ps, p.entryIndex).None? && p.entryIndex < count
    ensures Entries(ps + [p], count) == Splice(Entries(ps, count), p.entryIndex * ENTRY_SIZE, EncodeEntry(p))
    decreases count
  {
    hide EncodeEntry, Slot, Splice, Zeros;
    SlotAppended(ps, p, count - 1);
    var front, last := Entries(ps, count - 1), SlotBytes(Slot(ps, count - 1));
    if p.entryIndex == count - 1 {
      EntriesBelow(ps, p, count - 1);
      SpliceBack(front, last, EncodeEntry(p));
    } else {
      EntriesAppended(ps, p, count - 1);
      SpliceFront(front, last, p.entryIndex * ENTRY_SIZE, EncodeEntry(p));
    }
  }

  lemma SpliceBack(front: seq<byte>, back: seq<byte>, patch: seq<byte>)
    requires |patch| == |back|
    ensures Splice(front + back, |front|, patch) == front + patch
  {
  }

  lemma SpliceFront(front: seq<byte>, back: seq<byte>, offset: nat, patch: seq<byte>)
    requires offset + |patch| <= |front|
    ensures Splice(front + back, offset, patch) == Splice(front, offset, patch) + back
  {
  }

  lemma {:induction false} EntriesBelow(ps: seq<Partition>, p: Partition, count: nat)
    requires count <= p.entryIndex
    ensures Entries(ps + [p], count) == Entries(ps, count)
    decreases count
  {
    hide SlotBytes, Slot;
    if count > 0 {
      SlotAppended(ps, p, count - 1);
      EntriesBelow(ps, p, count - 1);
    }
  }

  method BuildEntryArray(disk: Disk) returns (entries: array<byte>)
    requires Indexed(disk.partitions, disk.entryCount)
    ensures fresh(entries) && entries[..] == Entries(disk.partitions, disk.entryCount)
  {
    hide Entries, Slot, EncodeEntry, Splice;
    var ps, count := disk.partitions, disk.entryCount;
    entries := new byte[count * ENTRY_SIZE](_ => 0);
    assert entries[..] == Zeros(count * ENTRY_SIZE);
    EntriesEmpty(count);
    assert ps[..0] == [];
    for k := 0 to |ps|
      invariant entries[..] == Entries(ps[..k], count)
    {
      var p := ps[k];
      FreeBefore(ps, k);
      var offset := p.entryIndex * ENTRY_SIZE;
      EntryOf(ps[..k], count, p.entryIndex);
      SliceOfBuffer(entries, offset, ENTRY_SIZE);
      EntriesAppended(ps[..k], p, count);
      assert ps[..k + 1] == ps[..k] + [p];
      WriteEntry(entries, offset, p);
    }
    assert ps[..|ps|] == ps;
  }

  lemma FreeBefore(ps: seq<Partition>, k: nat)
    requires k < |ps|
    requires forall i, j :: 0 <= i < j < |ps| ==> ps[i].entryIndex != ps[j].entryIndex
    ensures Slot(ps[..k], ps[k].entryIndex).None?
  {
    hide Slot;
  }

  // ---------- the header sectors ----------

  method BuildHeader(disk: Disk, currentLba: u64, backupLba: u64, entryLba: u64, entryCrc: u32)
    returns (sector: array<byte>)
    requires SupportedSectorSize(disk.sectorSize)
    ensures fresh(sector) && sector[..] == HeaderSector(disk, currentLba, backupLba, entryLba, entryCrc)
  {
    hide Little, Splice, Checksum;
    var ss := disk.sectorSize;
    sector := new byte[ss](_ => 0);
    assert sector[..] == [] + Zeros(ss);
    WriteHeaderFront(sector);
    WriteHeaderBack(sector, disk, currentLba, backupLba, entryLba, entryCrc);
    ghost var back := HeaderBack(disk, currentLba, backupLba, entryLba, entryCrc);
    assert sector[..92] == HeaderFront() + Zeros(4) + back;
    var crc := ComputeCrc32(sector[..MINIMUM_HEADER]);
    var headerCrc: u32 := Checksum(HeaderFront() + Zeros(4) + HeaderBack(disk, currentLba, backupLba, entryLba, entryCrc));
    Store(sector, 16, Little(FromDigits(Word(crc)), 4));
    SpliceMiddle(HeaderFront(), Zeros(4), back + Zeros(ss - 92), Little(headerCrc, 4));
    assert HeaderFront() + Zeros(4) + (back + Zeros(ss - 92)) == HeaderFront() + Zeros(4) + back + Zeros(ss - 92);
    assert HeaderFront() + Little(headerCrc, 4) + (back + Zeros(ss - 92))
        == HeaderFront() + Little(headerCrc, 4) + back + Zeros(ss - 92);
  }

  lemma FourZeros()
    ensures Little(0, 4) == Zeros(4)
  {
    assert Little(0, 1) == [0] && Little(0, 2) == [0, 0] && Little(0, 3) == [0, 0, 0];
  }

  lemma SpliceMiddle(front: seq<byte>, middle: seq<byte>, back: seq<byte>, patch: seq<byte>)
    requires |patch| == |middle|
    ensures Splice(front + middle + back, |front|, patch) == front + patch + back
  {
  }

  method WriteHeaderFront(sector: array<byte>)
    requires 92 <= sector.Length && sector[..] == [] + Zeros(sector.Length)
    modifies sector
    ensures sector[..] == HeaderFront() + Zeros(4) + Zeros(sector.Length - 20)
  {
    hide Little, Splice;
    ghost var a := Signature();
    ghost var b := a + Little(0x1_0000, 4);
    assert [] + a == a;
    StoreNext(sector, 0, Signature(), []);
    StoreNext(sector, 8, Little(0x1_0000, 4), a);
    StoreNext(sector, 12, Little(MINIMUM_HEADER, 4), b);
    FourZeros();
    StoreNext(sector, 16, Little(0, 4), HeaderFront());
  }

  method WriteHeaderBack(sector: array<byte>, disk: Disk, currentLba: u64, backupLba: u64, entryLba: u64,
                         entryCrc: u32)
    requires 92 <= sector.Length && sector[..] == HeaderFront() + Zeros(4) + Zeros(sector.Length - 20)
    modifies sector
    ensures sector[..]
         == HeaderFront() + Zeros(4) + HeaderBack(disk, currentLba, backupLba, entryLba, entryCrc)
            + Zeros(sector.Length - 92)
  {
    hide Little, Splice, HeaderFront;
    ghost var front := HeaderFront() + Zeros(4);
    ghost var half := Little(0, 4) + Little(currentLba, 8) + Little(backupLba, 8) + Little(disk.firstUsable, 8)
                      + Little(disk.lastUsable, 8);
    WriteLbas(sector, disk, currentLba, backupLba, front);
    WriteArrayFields(sector, disk, entryLba, entryCrc, front + half);
    BackInHalves(disk, currentLba, backupLba, entryLba, entryCrc, front);
  }

  lemma BackInHalves(disk: Disk, currentLba: u64, backupLba: u64, entryLba: u64, entryCrc: u32, front: seq<byte>)
    ensures front
            + (Little(0, 4) + Little(currentLba, 8) + Little(backupLba, 8) + Little(disk.firstUsable, 8)
               + Little(disk.lastUsable, 8))
            + (disk.diskGuid + Little(entryLba, 8) + Little(disk.entryCount, 4) + Little(disk.entrySize, 4)
               + Little(entryCrc, 4))
         == front + HeaderBack(disk, currentLba, backupLba, entryLba, entryCrc)
  {
    hide Little;
  }

  method WriteLbas(sector: array<byte>, disk: Disk, currentLba: u64, backupLba: u64, ghost front: seq<byte>)
    requires |front| == 20 && 92 <= sector.Length && sector[..] == front + Zeros(sector.Length - 20)
    modifies sector
    ensures sector[..]
         == front
            + (Little(0, 4) + Little(currentLba, 8) + Little(backupLba, 8) + Little(disk.firstUsable, 8)
               + Little(disk.lastUsable, 8))
            + Zeros(sector.Length - 56)
  {
    hide Little, Splice;
    ghost var a := front + Little(0, 4);
    ghost var b := a + Little(currentLba, 8);
    ghost var c := b + Little(backupLba, 8);
    ghost var d := c + Little(disk.firstUsable, 8);
    StoreNext(sector, 20, Little(0, 4), front);
    StoreNext(sector, 24, Little(currentLba, 8), a);
    StoreNext(sector, 32, Little(backupLba, 8), b);
    StoreNext(sector, 40, Little(disk.firstUsable, 8), c);
    StoreNext(sector, 48, Little(disk.lastUsable, 8), d);
    Regroup(front, Little(0, 4), Little(currentLba, 8), Little(backupLba, 8), Little(disk.firstUsable, 8),
            Little(disk.lastUsable, 8));
  }

  method WriteArrayFields(sector: array<byte>, disk: Disk, entryLba: u64, entryCrc: u32, ghost front: seq<byte>)
    requires |front| == 56 && 92 <= sector.Length && sector[..] == front + Zeros(sector.Length - 56)
    modifies sector
    ensures sector[..]
         == front
            + (disk.diskGuid + Little(entryLba, 8) + Little(disk.entryCount, 4) + Little(disk.entrySize, 4)
               + Little(entryCrc, 4))
            + Zeros(sector.Length - 92)
  {
    hide Little, Splice;
    ghost var a := front + disk.diskGuid;
    ghost var b := a + Little(entryLba, 8);
    ghost var c := b + Little(disk.entryCount, 4);
    ghost var d := c + Little(disk.entrySize, 4);
    StoreNext(sector, 56, disk.diskGuid, front);
    StoreNext(sector, 72, Little(entryLba, 8), a);
    StoreNext(sector, 80, Little(disk.entryCount, 4), b);
    StoreNext(sector, 84, Little(disk.entrySize, 4), c);
    StoreNext(sector, 88, Little(entryCrc, 4), d);
    Regroup(front, disk.diskGuid, Little(entryLba, 8), Little(disk.entryCount, 4), Little(disk.entrySize, 4),
            Little(entryCrc, 4));
  }

  lemma Regroup(front: seq<byte>, a: seq<byte>, b: seq<byte>, c: seq<byte>, d: seq<byte>, e: seq<byte>)
    ensures front + a + b + c + d + e == front + (a + b + c + d + e)
  {
  }

  method BuildProtectiveMbr(disk: Disk) returns (sector: array<byte>)
    requires SupportedSectorSize(disk.sectorSize) && disk.sectorCount > 0
    ensures fresh(sector) && sector[..] == ProtectiveMbr(disk)
  {
    hide Little, Splice;
    var ss := disk.sectorSize;
    sector := new byte[ss](_ => 0);
    ghost var done := Zeros(450);
    assert sector[..] == done + Zeros(ss - 450);
    SpliceExtends(done, ss - 450, [0xEE]);
    Store(sector, 450, [0xEE]);
    done := done + [0xEE] + Zeros(3);
    assert sector[..] == done + Zeros(ss - 454);
    SpliceExtends(done, ss - 454, Little(1, 4));
    Store(sector, 454, Little(1, 4));
    done := done + Little(1, 4);
    var protectedSectors := if disk.sectorCount - 1 < U32_LIMIT then disk.sectorCount - 1 else U32_LIMIT - 1;
    SpliceExtends(done, ss - 458, Little(protectedSectors, 4));
    Store(sector, 458, Little(protectedSectors, 4));
    done := done + Little(protectedSectors, 4) + Zeros(48);
    assert sector[..] == done + Zeros(ss - 510);
    SpliceExtends(done, ss - 510, [0x55, 0xAA]);
    Store(sector, 510, [0x55, 0xAA]);
    done := done + [0x55, 0xAA];
  }
}
