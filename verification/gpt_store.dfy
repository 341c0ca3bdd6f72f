/**
 What an accepted image holds, and which images are accepted: the two
 directions that the write plans rely on.
 */
module GptStore {
  import opened Bytes
  import opened Crc32
  import opened Gpt
  import opened GptBuild
  import opened Results

  // ---------- well-formed tables ----------

  /** The sectors of one entry array of this disk. */
  function ArraySectors(disk: Disk): nat
    requires SupportedSectorSize(disk.sectorSize)
  {
    EntrySectors(disk.sectorSize, disk.entryCount)
  }

  predicate GoodGeometry(disk: Disk) {
    && SupportedSectorSize(disk.sectorSize)
    && 68 <= disk.sectorCount
    && LbaOffset(disk.sectorSize, disk.sectorCount) < U64_LIMIT
    && !IsZero(disk.diskGuid)
    && 0 < disk.entryCount <= MAXIMUM_ENTRIES
    && disk.entrySize == ENTRY_SIZE
    && 2 + ArraySectors(disk) <= disk.firstUsable <= disk.lastUsable < disk.sectorCount - 1 - ArraySectors(disk)
  }

  /** A table that can be written: every partition has its own entry, identity and sectors. */
  predicate Storable(disk: Disk) {
    && GoodGeometry(disk)
    && Indexed(disk.partitions, disk.entryCount)
    && Typed(disk.partitions)
    && Consistent(disk.partitions, disk.firstUsable, disk.lastUsable)
  }

  /** A table as the parser delivers it: in entry order, with names that fit. */
  predicate WellFormed(disk: Disk) {
    && GoodGeometry(disk)
    && Ascending(disk.partitions, disk.entryCount)
    && Typed(disk.partitions)
    && Nameable(disk.partitions)
    && Consistent(disk.partitions, disk.firstUsable, disk.lastUsable)
  }

  /** What is read back from a stored table. */
  function Canonical(disk: Disk): Disk {
    disk.(partitions := ByIndex(disk.partitions, disk.entryCount))
  }

  lemma WellFormedIsCanonical(disk: Disk)
    requires WellFormed(disk)
    ensures Storable(disk) && Canonical(disk) == disk
  {
    AscendingDistinct(disk.partitions, disk.entryCount);
    ByIndexAscending(disk.partitions, disk.entryCount);
  }

  // ---------- places on the disk ----------

  function PrimaryArray(disk: Disk, image: Image): seq<byte>
    requires GoodGeometry(disk) && |image| == LbaOffset(disk.sectorSize, disk.sectorCount)
  {
    ArrayInside(disk);
    image[LbaOffset(disk.sectorSize, 2)..LbaOffset(disk.sectorSize, 2) + disk.entryCount * ENTRY_SIZE]
  }

  function BackupArrayLba(disk: Disk): (lba: u64)
    requires GoodGeometry(disk)
  {
    disk.sectorCount - 1 - ArraySectors(disk)
  }

  function BackupArray(disk: Disk, image: Image): seq<byte>
    requires GoodGeometry(disk) && |image| == LbaOffset(disk.sectorSize, disk.sectorCount)
  {
    ArrayInside(disk);
    var offset := LbaOffset(disk.sectorSize, BackupArrayLba(disk));
    image[offset..offset + disk.entryCount * ENTRY_SIZE]
  }

  lemma ArrayInside(disk: Disk)
    requires GoodGeometry(disk)
    ensures LbaOffset(disk.sectorSize, 2) + disk.entryCount * ENTRY_SIZE
         <= LbaOffset(disk.sectorSize, disk.firstUsable)
    ensures LbaOffset(disk.sectorSize, BackupArrayLba(disk)) + disk.entryCount * ENTRY_SIZE
         <= LbaOffset(disk.sectorSize, disk.sectorCount - 1)
    ensures LbaOffset(disk.sectorSize, disk.lastUsable + 1) <= LbaOffset(disk.sectorSize, BackupArrayLba(disk))
    ensures LbaOffset(disk.sectorSize, disk.firstUsable) <= LbaOffset(disk.sectorSize, disk.lastUsable)
    ensures LbaOffset(disk.sectorSize, disk.sectorCount - 1) + disk.sectorSize
         == LbaOffset(disk.sectorSize, disk.sectorCount)
  {
  }

  function SectorAt(ss: u32, image: Image, lba: nat): seq<byte>
    requires SupportedSectorSize(ss) && LbaOffset(ss, lba) + ss <= |image|
  {
    image[LbaOffset(ss, lba)..LbaOffset(ss, lba) + ss]
  }

  // ---------- what an accepted image holds ----------

  lemma {:induction false} DecodedName(field: seq<byte>)
    ensures 0 !in DecodeName(field) && 2 * |DecodeName(field)| <= |field|
    decreases |field|
  {
    hide FromLittle;
    if |field| >= 2 && U16At(field, 0) != 0 {
      DecodedName(field[2..]);
    }
  }

  lemma DecodedEntry(index: u32, entry: seq<byte>)
    requires |entry| == ENTRY_SIZE
    ensures DecodeEntry(index, entry).entryIndex == index
    ensures DecodeEntry(index, entry).typeGuid == entry[..16]
    ensures |DecodeEntry(index, entry).name| <= NAME_UNITS && 0 !in DecodeEntry(index, entry).name
  {
    hide FromLittle, DecodeName;
    DecodedName(entry[56..]);
  }

  lemma {:induction false} UsedShape(entries: seq<byte>, count: nat)
    requires count * ENTRY_SIZE <= |entries| && count <= MAXIMUM_ENTRIES
    ensures Ascending(UsedPartitions(entries, count), count)
    ensures Typed(UsedPartitions(entries, count)) && Nameable(UsedPartitions(entries, count))
    decreases count
  {
    hide DecodeEntry, IsZero, EntryAt, Typed, Nameable;
    if count > 0 {
      UsedShape(entries, count - 1);
      DecodedEntry(count - 1, EntryAt(entries, count - 1));
      var p := DecodeEntry(count - 1, EntryAt(entries, count - 1));
      NamedAndTyped(UsedPartitions(entries, count - 1), p);
      assert UsedPartitions(entries, count - 1) + [] == UsedPartitions(entries, count - 1);
    } else {
      NoneNamedOrTyped();
    }
  }

  lemma NoneNamedOrTyped()
    ensures Typed([]) && Nameable([])
  {
  }

  lemma NamedAndTyped(ps: seq<Partition>, p: Partition)
    ensures Typed(ps + [p]) <==> Typed(ps) && !IsZero(p.typeGuid)
    ensures Nameable(ps + [p]) <==> Nameable(ps) && |p.name| <= NAME_UNITS && 0 !in p.name
  {
    hide IsZero;
    var all := ps + [p];
    assert p in all && forall q :: q in ps ==> q in all;
  }

  /** The tables that the header of an accepted image announces are where the geometry says. */
  lemma AcceptedTables(ss: u32, image: Image, primary: Header)
    requires SupportedSectorSize(ss) && WellSized(ss, image)
    requires ParseTables(ss, image, WholeSectors(ss, |image|), primary).Ok?
    ensures var disk := ParseTables(ss, image, WholeSectors(ss, |image|), primary).value;
      && disk.sectorSize == ss
      && |image| == LbaOffset(ss, disk.sectorCount)
      && GoodGeometry(disk)
      && disk.diskGuid == primary.diskGuid
      && disk.firstUsable == primary.firstUsable
      && disk.lastUsable == primary.lastUsable
      && disk.entryCount == primary.entryCount
      && Checksum(PrimaryArray(disk, image)) == primary.entryCrc
      && BackupArray(disk, image) == PrimaryArray(disk, image)
      && disk.partitions == UsedPartitions(PrimaryArray(disk, image), disk.entryCount)
      && Consistent(disk.partitions, disk.firstUsable, disk.lastUsable)
  {
    hide ParseHeaderSector, Checksum, UsedPartitions, Consistent, IsZero;
  }

  /** Everything the parser delivers is well formed and describes the image it was read from. */
  lemma ParsedWellFormed(ss: u32, image: Image)
    requires ParseGpt(ss, image).Ok?
    ensures var disk := ParseGpt(ss, image).value;
      && WellFormed(disk)
      && disk.sectorSize == ss
      && |image| == LbaOffset(ss, disk.sectorCount)
      && BackupArray(disk, image) == PrimaryArray(disk, image)
      && disk.partitions == UsedPartitions(PrimaryArray(disk, image), disk.entryCount)
  {
    hide ParseHeader, ParseTables, UsedPartitions, Consistent, IsZero, IsProtectiveMbr;
    AcceptedTables(ss, image, ParseHeader(ss, image, 1).value);
    var disk := ParseGpt(ss, image).value;
    UsedShape(PrimaryArray(disk, image), disk.entryCount);
  }

  /** Two accepted images with the same primary header differ at most in their entry arrays. */
  lemma SameHeaderSameDisk(ss: u32, a: Image, b: Image)
    requires ParseGpt(ss, a).Ok? && ParseGpt(ss, b).Ok?
    requires |a| == |b| && SectorAt(ss, a, 1) == SectorAt(ss, b, 1)
    ensures ParseGpt(ss, b).value == ParseGpt(ss, a).value.(partitions := ParseGpt(ss, b).value.partitions)
  {
    hide ParseHeaderSector, ParseTables, UsedPartitions, Consistent, IsZero, IsProtectiveMbr, Checksum;
    AcceptedTables(ss, a, ParseHeader(ss, a, 1).value);
    AcceptedTables(ss, b, ParseHeader(ss, b, 1).value);
  }

  // ---------- the accepted images, field by field ----------

  /** A header sector: its signature, revision, size and checksum, and what its fields say about the disk. */
  predicate HeaderSays(sector: seq<byte>, disk: Disk, lba: u64, other: u64, entryLba: u64, entryCrc: u32)
  {
    && |sector| >= 512
    && sector[..8] == ['E' as int, 'F' as int, 'I' as int, ' ' as int, 'P' as int, 'A' as int, 'R' as int, 'T' as int]
    && U32At(sector, 8) == 0x1_0000
    && 92 <= U32At(sector, 12) <= |sector|
    && U32At(sector, 16) == Checksum(CoveredBytes(sector, U32At(sector, 12)))
    && U32At(sector, 20) == 0
    && U64At(sector, 24) == lba && U64At(sector, 32) == other
    && U64At(sector, 40) == disk.firstUsable && U64At(sector, 48) == disk.lastUsable
    && sector[56..72] == disk.diskGuid
    && U64At(sector, 72) == entryLba
    && U32At(sector, 80) == disk.entryCount && U32At(sector, 84) == disk.entrySize
    && U32At(sector, 88) == entryCrc
  }

  /** Every partition has an identity of its own and usable sectors of its own. */
  predicate PlacedApart(disk: Disk) {
    && (forall i :: 0 <= i < |disk.partitions| ==>
          && !IsZero(disk.partitions[i].uniqueGuid)
          && disk.firstUsable <= disk.partitions[i].firstLba <= disk.partitions[i].lastLba <= disk.lastUsable)
    && (forall i, j :: 0 <= i < j < |disk.partitions| ==>
          && disk.partitions[i].uniqueGuid != disk.partitions[j].uniqueGuid
          && (disk.partitions[i].lastLba < disk.partitions[j].firstLba
              || disk.partitions[j].lastLba < disk.partitions[i].firstLba))
  }

  /** The image holds this table: both headers point at each other and at two equal arrays of the right checksum. */
  predicate Describes(image: Image, disk: Disk) {
    && GoodGeometry(disk) && |image| == LbaOffset(disk.sectorSize, disk.sectorCount)
    && var ss, last, entries := disk.sectorSize, disk.sectorCount - 1, PrimaryArray(disk, image);
    && LbaOffset(ss, 1) + ss <= |image| && LbaOffset(ss, last) + ss <= |image|
    && image[510] == 0x55 && image[511] == 0xAA && image[450] == 0xEE && U32At(image, 454) == 1 && U32At(image, 458) != 0
    && HeaderSays(SectorAt(ss, image, 1), disk, 1, last, 2, Checksum(entries))
    && HeaderSays(SectorAt(ss, image, last), disk, last, 1, BackupArrayLba(disk), Checksum(entries))
    && BackupArray(disk, image) == entries
    && disk.partitions == UsedPartitions(entries, disk.entryCount)
    && PlacedApart(disk)
  }

  /** A protective MBR, and partitions that are placed and apart, in terms of their fields. */
  lemma RulesSpelledOut(image: Image, ss: u32, disk: Disk)
    requires SupportedSectorSize(ss) && |image| >= ss
    ensures IsProtectiveMbr(image[..ss]) <==>
      image[510] == 0x55 && image[511] == 0xAA && image[450] == 0xEE && U32At(image, 454) == 1 && U32At(image, 458) != 0
    ensures Consistent(disk.partitions, disk.firstUsable, disk.lastUsable) <==> PlacedApart(disk)
  {
    hide IsZero, FromLittle;
    var ps, f, l := disk.partitions, disk.firstUsable, disk.lastUsable;
    assert image[..ss][454..458] == image[454..458] && image[..ss][458..462] == image[458..462];
    if Consistent(ps, f, l) {
      forall i | 0 <= i < |ps| ensures !IsZero(ps[i].uniqueGuid) && f <= ps[i].firstLba <= ps[i].lastLba <= l {
        assert Placed(ps[i], f, l);
      }
      forall i, j | 0 <= i < j < |ps|
        ensures ps[i].uniqueGuid != ps[j].uniqueGuid
        ensures ps[i].lastLba < ps[j].firstLba || ps[j].lastLba < ps[i].firstLba
      {
        assert Apart(ps[i], ps[j]);
      }
    }
  }

  /** The fields of a sector as a header. */
  function HeaderFor(disk: Disk, headerSize: u32, lba: u64, other: u64, entryLba: u64, entryCrc: u32): Header {
    Header(headerSize, lba, other, disk.firstUsable, disk.lastUsable, disk.diskGuid, entryLba, disk.entryCount,
           disk.entrySize, entryCrc)
  }

  lemma HeaderExactly(sector: seq<byte>, disk: Disk, lba: u64, other: u64, entryLba: u64, entryCrc: u32)
    requires |sector| >= 512
    ensures HeaderSays(sector, disk, lba, other, entryLba, entryCrc) <==>
              ParseHeaderSector(sector) == Ok(HeaderFor(disk, U32At(sector, 12), lba, other, entryLba, entryCrc))
  {
    hide FromLittle, Checksum;
  }

  /** What the parser delivers is exactly what the image holds. */
  lemma AcceptedExactly(ss: u32, image: Image, disk: Disk)
    ensures ParseGpt(ss, image) == Ok(disk) <==> ss == disk.sectorSize && Describes(image, disk)
  {
    hide ParseHeaderSector, HeaderSays, Checksum, UsedPartitions, Consistent, IsZero, IsProtectiveMbr;
    if ParseGpt(ss, image) == Ok(disk) {
      DescribedByParser(ss, image, disk);
    }
    if ss == disk.sectorSize && Describes(image, disk) {
      AcceptedDescription(image, disk);
    }
  }

  /** Both headers of an accepted image, as values. */
  lemma HeadersOfTables(ss: u32, image: Image, primary: Header, disk: Disk)
    requires SupportedSectorSize(ss) && WellSized(ss, image)
    requires ParseTables(ss, image, WholeSectors(ss, |image|), primary) == Ok(disk)
    requires GoodGeometry(disk) && |image| == LbaOffset(disk.sectorSize, disk.sectorCount) && disk.sectorSize == ss
    requires Checksum(PrimaryArray(disk, image)) == primary.entryCrc
    ensures primary == HeaderFor(disk, primary.headerSize, 1, disk.sectorCount - 1, 2, primary.entryCrc)
    ensures ParseHeader(ss, image, disk.sectorCount - 1).Ok?
    ensures var backup := ParseHeader(ss, image, disk.sectorCount - 1).value;
      backup == HeaderFor(disk, backup.headerSize, disk.sectorCount - 1, 1, BackupArrayLba(disk), primary.entryCrc)
  {
    hide ParseHeader, UsedPartitions, Consistent, IsZero, Checksum, PrimaryArray, BackupArray, EntrySectors;
    AcceptedTables(ss, image, primary);
  }

  lemma HeaderInSector(ss: u32, image: Image, lba: u64)
    requires SupportedSectorSize(ss) && LbaOffset(ss, lba) + ss <= |image|
    ensures ParseHeader(ss, image, lba) == ParseHeaderSector(SectorAt(ss, image, lba))
  {
    hide ParseHeaderSector;
  }

  lemma DescribedByParser(ss: u32, image: Image, disk: Disk)
    requires ParseGpt(ss, image) == Ok(disk)
    ensures ss == disk.sectorSize && Describes(image, disk)
  {
    hide ParseHeader, ParseTables, ParseHeaderSector, HeaderSays, Checksum, UsedPartitions, Consistent, IsZero,
         IsProtectiveMbr, GoodGeometry, PrimaryArray, BackupArray, BackupArrayLba, LbaOffset;
    var primary := ParseHeader(ss, image, 1).value;
    AcceptedTables(ss, image, primary);
    HeadersOfTables(ss, image, primary, disk);
    SectorsInside(disk);
    var last, crc := disk.sectorCount - 1, Checksum(PrimaryArray(disk, image));
    HeaderInSector(ss, image, 1);
    HeaderInSector(ss, image, last);
    HeaderExactly(SectorAt(ss, image, 1), disk, 1, last, 2, crc);
    HeaderExactly(SectorAt(ss, image, last), disk, last, 1, BackupArrayLba(disk), crc);
    RulesSpelledOut(image, ss, disk);
    HeaderSize(SectorAt(ss, image, 1));
    HeaderSize(SectorAt(ss, image, last));
  }

  lemma HeaderSize(sector: seq<byte>)
    requires |sector| >= 512 && ParseHeaderSector(sector).Ok?
    ensures ParseHeaderSector(sector).value.headerSize == U32At(sector, 12)
  {
    hide FromLittle, Checksum;
  }

  lemma SectorsInside(disk: Disk)
    requires GoodGeometry(disk)
    ensures LbaOffset(disk.sectorSize, 1) + disk.sectorSize <= LbaOffset(disk.sectorSize, disk.sectorCount)
    ensures LbaOffset(disk.sectorSize, disk.sectorCount - 1) + disk.sectorSize
         == LbaOffset(disk.sectorSize, disk.sectorCount)
  {
    hide IsZero, EntrySectors;
  }

  lemma AcceptedDescription(image: Image, disk: Disk)
    requires Describes(image, disk)
    ensures ParseGpt(disk.sectorSize, image) == Ok(disk)
  {
    hide ParseHeader, ParseTables, ParseHeaderSector, HeaderSays, Checksum, UsedPartitions, Consistent, IsZero,
         IsProtectiveMbr, EntrySectors, PrimaryArray, BackupArray, BackupArrayLba, LbaOffset;
    var ss, last, crc := disk.sectorSize, disk.sectorCount - 1, Checksum(PrimaryArray(disk, image));
    SectorsInside(disk);
    HeaderInSector(ss, image, 1);
    HeaderInSector(ss, image, last);
    HeaderExactly(SectorAt(ss, image, 1), disk, 1, last, 2, crc);
    HeaderExactly(SectorAt(ss, image, last), disk, last, 1, BackupArrayLba(disk), crc);
    WellSizedDisk(image, disk);
    RulesSpelledOut(image, ss, disk);
    TablesOfHeaders(image, disk, ParseHeader(ss, image, 1).value.headerSize, ParseHeader(ss, image, last).value.headerSize);
  }

  lemma WellSizedDisk(image: Image, disk: Disk)
    requires GoodGeometry(disk) && |image| == LbaOffset(disk.sectorSize, disk.sectorCount)
    ensures WellSized(disk.sectorSize, image) && WholeSectors(disk.sectorSize, |image|) == disk.sectorCount
  {
    hide IsZero, EntrySectors;
  }

  lemma TablesOfHeaders(image: Image, disk: Disk, size: u32, backupSize: u32)
    requires GoodGeometry(disk) && |image| == LbaOffset(disk.sectorSize, disk.sectorCount)
    requires BackupArray(disk, image) == PrimaryArray(disk, image)
    requires disk.partitions == UsedPartitions(PrimaryArray(disk, image), disk.entryCount)
    requires Consistent(disk.partitions, disk.firstUsable, disk.lastUsable)
    requires var crc := Checksum(PrimaryArray(disk, image));
      ParseHeader(disk.sectorSize, image, disk.sectorCount - 1)
      == Ok(HeaderFor(disk, backupSize, disk.sectorCount - 1, 1, BackupArrayLba(disk), crc))
    ensures var crc := Checksum(PrimaryArray(disk, image));
      ParseTables(disk.sectorSize, image, disk.sectorCount, HeaderFor(disk, size, 1, disk.sectorCount - 1, 2, crc)) == Ok(disk)
  {
    hide ParseHeader, Checksum, UsedPartitions, Consistent, IsZero, EntrySectors, ReadEntryArray, PrimaryArray, BackupArray,
         LbaOffset;
    var crc := Checksum(PrimaryArray(disk, image));
    ArraysRead(image, disk, HeaderFor(disk, size, 1, disk.sectorCount - 1, 2, crc),
               HeaderFor(disk, backupSize, disk.sectorCount - 1, 1, BackupArrayLba(disk), crc));
  }

  lemma ArraysRead(image: Image, disk: Disk, primary: Header, backup: Header)
    requires GoodGeometry(disk) && |image| == LbaOffset(disk.sectorSize, disk.sectorCount)
    requires BackupArray(disk, image) == PrimaryArray(disk, image)
    requires primary.entryCount == backup.entryCount == disk.entryCount
    requires primary.entrySize == backup.entrySize == ENTRY_SIZE
    requires primary.entryLba == 2 && backup.entryLba == BackupArrayLba(disk)
    requires primary.entryCrc == backup.entryCrc == Checksum(PrimaryArray(disk, image))
    ensures ReadEntryArray(disk.sectorSize, image, primary, disk.sectorCount) == Ok(PrimaryArray(disk, image))
    ensures ReadEntryArray(disk.sectorSize, image, backup, disk.sectorCount) == Ok(PrimaryArray(disk, image))
  {
    hide Checksum, IsZero, EntrySectors;
    ArrayInside(disk);
  }

  // ---------- which images are accepted ----------

  /** The image holds both copies of the table. */
  predicate Stores(disk: Disk, image: Image)
    requires GoodGeometry(disk) && |image| == LbaOffset(disk.sectorSize, disk.sectorCount)
  {
    var entries := Entries(disk.partitions, disk.entryCount);
    var crc := Checksum(entries);
    && IsProtectiveMbr(SectorAt(disk.sectorSize, image, 0))
    && SectorAt(disk.sectorSize, image, 1) == HeaderSector(disk, 1, disk.sectorCount - 1, 2, crc)
    && PrimaryArray(disk, image) == entries
    && BackupArray(disk, image) == entries
    && SectorAt(disk.sectorSize, image, disk.sectorCount - 1)
       == HeaderSector(disk, disk.sectorCount - 1, 1, BackupArrayLba(disk), crc)
  }

  lemma StoredEntries(disk: Disk)
    requires Storable(disk)
    ensures ParsePartitions(Entries(disk.partitions, disk.entryCount), PrimaryHeader(disk))
         == Ok(Canonical(disk).partitions)
  {
    hide UsedPartitions, Consistent, Entries, Checksum, ByIndex, Indexed, Typed;
    EntriesRoundTrip(disk.partitions, disk.entryCount);
    ByIndexConsistent(disk.partitions, disk.entryCount, disk.firstUsable, disk.lastUsable);
  }

  function PrimaryHeader(disk: Disk): Header
    requires GoodGeometry(disk)
  {
    Header(MINIMUM_HEADER, 1, disk.sectorCount - 1, disk.firstUsable, disk.lastUsable, disk.diskGuid, 2,
           disk.entryCount, disk.entrySize, Checksum(Entries(disk.partitions, disk.entryCount)))
  }

  function BackupHeader(disk: Disk): Header
    requires GoodGeometry(disk)
  {
    Header(MINIMUM_HEADER, disk.sectorCount - 1, 1, disk.firstUsable, disk.lastUsable, disk.diskGuid,
           BackupArrayLba(disk), disk.entryCount, disk.entrySize,
           Checksum(Entries(disk.partitions, disk.entryCount)))
  }

  lemma StoredHeaders(disk: Disk, image: Image)
    requires GoodGeometry(disk) && |image| == LbaOffset(disk.sectorSize, disk.sectorCount)
    requires Stores(disk, image)
    ensures ParseHeader(disk.sectorSize, image, 1) == Ok(PrimaryHeader(disk))
    ensures ParseHeader(disk.sectorSize, image, disk.sectorCount - 1) == Ok(BackupHeader(disk))
  {
    hide ParseHeaderSector, IsZero, IsProtectiveMbr, Checksum, HeaderSector, Entries;
    var crc := Checksum(Entries(disk.partitions, disk.entryCount));
    HeaderRoundTrip(disk, 1, disk.sectorCount - 1, 2, crc);
    HeaderRoundTrip(disk, disk.sectorCount - 1, 1, BackupArrayLba(disk), crc);
  }

  lemma StoredArrays(disk: Disk, image: Image)
    requires GoodGeometry(disk) && |image| == LbaOffset(disk.sectorSize, disk.sectorCount)
    requires Stores(disk, image)
    ensures var entries := Ok(Entries(disk.partitions, disk.entryCount));
      && ReadEntryArray(disk.sectorSize, image, PrimaryHeader(disk), disk.sectorCount) == entries
      && ReadEntryArray(disk.sectorSize, image, BackupHeader(disk), disk.sectorCount) == entries
  {
    hide IsZero, IsProtectiveMbr, Checksum, HeaderSector, Entries;
    ArrayInside(disk);
  }

  /** A stored table is accepted and read back. */
  lemma StoredParses(disk: Disk, image: Image)
    requires Storable(disk) && |image| == LbaOffset(disk.sectorSize, disk.sectorCount)
    requires Stores(disk, image)
    ensures ParseGpt(disk.sectorSize, image) == Ok(Canonical(disk))
  {
    hide ParseHeader, UsedPartitions, Consistent, IsZero, IsProtectiveMbr, Checksum, HeaderSector, Entries,
         ByIndex, Indexed, Typed, ParsePartitions, ReadEntryArray;
    StoredHeaders(disk, image);
    StoredArrays(disk, image);
    StoredEntries(disk);
    assert WholeSectors(disk.sectorSize, |image|) == disk.sectorCount;
  }
}
