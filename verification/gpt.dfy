/**
 The GUID partition table as the tool reads it: protective MBR, primary and
 backup header, primary and backup entry array (sections 5.2.3, 5.3.2 and 5.3.3
 of UEFI 2.10).
 */
module Gpt {
  import opened Bytes
  import opened Crc32
  import opened Results

  const ENTRY_SIZE: u32 := 128
  const MAXIMUM_ENTRIES: u32 := 16384
  const MINIMUM_HEADER: u32 := 92
  const NAME_UNITS: nat := 36

  type Guid = g: seq<byte> | |g| == 16 witness seq(16, _ => 0)

  predicate IsZero(g: seq<byte>) {
    forall i :: 0 <= i < |g| ==> g[i] == 0
  }

  datatype Partition = Partition(
    entryIndex: u32,
    typeGuid: Guid,
    uniqueGuid: Guid,
    firstLba: u64,
    lastLba: u64,
    attributes: u64,
    name: seq<u16>)

  datatype Disk = Disk(
    sectorSize: u32,
    sectorCount: u64,
    diskGuid: Guid,
    firstUsable: u64,
    lastUsable: u64,
    entryCount: u32,
    entrySize: u32,
    partitions: seq<Partition>)

  datatype Header = Header(
    headerSize: u32,
    currentLba: u64,
    backupLba: u64,
    firstUsable: u64,
    lastUsable: u64,
    diskGuid: Guid,
    entryLba: u64,
    entryCount: u32,
    entrySize: u32,
    entryCrc: u32)

  /** The bytes of a disk whose size a reader can report. */
  type Image = b: seq<byte> | |b| < U64_LIMIT witness []

  function Read(image: Image, offset: nat, length: nat): (r: Result<seq<byte>>) {
    if offset + length <= |image| then Ok(image[offset..offset + length]) else Err(IoFailed)
  }

  predicate SupportedSectorSize(ss: u32) {
    ss == 512 || ss == 4096
  }

  // Products and quotients by the sector size are written out per size, which keeps them linear.

  /** Where the sector begins on the disk. */
  function LbaOffset(ss: u32, lba: nat): (offset: nat)
    requires SupportedSectorSize(ss)
  {
    if ss == 512 then lba * 512 else lba * 4096
  }

  /** The whole sectors in so many bytes. */
  function WholeSectors(ss: u32, length: nat): (sectors: nat)
    requires SupportedSectorSize(ss)
    ensures LbaOffset(ss, sectors) <= length < LbaOffset(ss, sectors + 1)
  {
    if ss == 512 then length / 512 else length / 4096
  }

  /** The sectors that an array of `entryCount` entries occupies. */
  function EntrySectors(ss: u32, entryCount: u32): (sectors: nat)
    requires SupportedSectorSize(ss)
    ensures entryCount * ENTRY_SIZE <= LbaOffset(ss, sectors)
  {
    WholeSectors(ss, entryCount * ENTRY_SIZE + ss - 1)
  }

  // ---------- headers ----------

  function Signature(): (s: seq<byte>)
    ensures |s| == 8
  {
    // "EFI PART"
    [0x45, 0x46, 0x49, 0x20, 0x50, 0x41, 0x52, 0x54]
  }

  /** The header bytes as the checksum covers them: the checksum field itself counts as zero. */
  function CoveredBytes(sector: seq<byte>, headerSize: nat): seq<byte>
    requires 20 <= headerSize <= |sector|
  {
    sector[..16] + Zeros(4) + sector[20..headerSize]
  }

  function ParseHeaderSector(sector: seq<byte>): (r: Result<Header>)
    requires |sector| >= 512
  {
    if sector[..8] != Signature() then Err(InvalidData)
    else
      var headerSize := U32At(sector, 12);
      if U32At(sector, 8) != 0x1_0000 || headerSize < MINIMUM_HEADER || headerSize > |sector| then Err(InvalidData)
      else if Checksum(CoveredBytes(sector, headerSize)) != U32At(sector, 16) then Err(InvalidData)
      else if U32At(sector, 20) != 0 then Err(InvalidData)
      else Ok(Header(headerSize, U64At(sector, 24), U64At(sector, 32), U64At(sector, 40), U64At(sector, 48),
                     sector[56..72], U64At(sector, 72), U32At(sector, 80), U32At(sector, 84), U32At(sector, 88)))
  }

  function ParseHeader(ss: u32, image: Image, lba: u64): (r: Result<Header>)
    requires SupportedSectorSize(ss)
  {
    if LbaOffset(ss, lba) >= U64_LIMIT then Err(InvalidData)
    else
      var sector :- Read(image, LbaOffset(ss, lba), ss);
      ParseHeaderSector(sector)
  }

  // ---------- entries ----------

  /** The array the header describes, if it lies on the disk and has the right checksum. */
  function ReadEntryArray(ss: u32, image: Image, header: Header, sectorCount: u64): (r: Result<seq<byte>>)
    requires SupportedSectorSize(ss)
    ensures r.Ok? ==> |r.value| == header.entryCount * ENTRY_SIZE
  {
    if header.entryCount == 0 || header.entryCount > MAXIMUM_ENTRIES || header.entrySize != ENTRY_SIZE then
      Err(UnsupportedLayout)
    else
      var length := header.entryCount * ENTRY_SIZE;
      var offset := LbaOffset(ss, header.entryLba);
      if offset >= U64_LIMIT || offset + length >= U64_LIMIT || offset + length > |image|
         || header.entryLba >= sectorCount then Err(InvalidData)
      else
        var entries :- Read(image, offset, length);
        if Checksum(entries) != header.entryCrc then Err(InvalidData) else Ok(entries)
  }

  /** The code units of a name field, up to the first NUL. */
  function DecodeName(field: seq<byte>): (name: seq<u16>)
    decreases |field|
  {
    if |field| < 2 || U16At(field, 0) == 0 then [] else [U16At(field, 0)] + DecodeName(field[2..])
  }

  function DecodeEntry(index: u32, entry: seq<byte>): (p: Partition)
    requires |entry| == ENTRY_SIZE
  {
    Partition(index, entry[..16], entry[16..32], U64At(entry, 32), U64At(entry, 40), U64At(entry, 48),
              DecodeName(entry[56..]))
  }

  function EntryAt(entries: seq<byte>, index: nat): (entry: seq<byte>)
    requires (index + 1) * ENTRY_SIZE <= |entries|
    ensures |entry| == ENTRY_SIZE
  {
    entries[index * ENTRY_SIZE..(index + 1) * ENTRY_SIZE]
  }

  /** The partitions among the first `count` entries: those whose type is not zero, in entry order. */
  function UsedPartitions(entries: seq<byte>, count: nat): (ps: seq<Partition>)
    requires count * ENTRY_SIZE <= |entries|
    requires count <= MAXIMUM_ENTRIES
    decreases count
  {
    if count == 0 then []
    else
      var entry := EntryAt(entries, count - 1);
      UsedPartitions(entries, count - 1) + (if IsZero(entry[..16]) then [] else [DecodeEntry(count - 1, entry)])
  }

  predicate Placed(p: Partition, firstUsable: u64, lastUsable: u64) {
    && !IsZero(p.uniqueGuid)
    && firstUsable <= p.firstLba <= p.lastLba <= lastUsable
  }

  /** Different identities and no common sector. */
  predicate Apart(p: Partition, q: Partition) {
    && p.uniqueGuid != q.uniqueGuid
    && (p.lastLba < q.firstLba || q.lastLba < p.firstLba)
  }

  predicate Consistent(ps: seq<Partition>, firstUsable: u64, lastUsable: u64) {
    && (forall i :: 0 <= i < |ps| ==> Placed(ps[i], firstUsable, lastUsable))
    && (forall i, j :: 0 <= i < j < |ps| ==> Apart(ps[i], ps[j]))
  }

  function ParsePartitions(entries: seq<byte>, header: Header): (r: Result<seq<Partition>>)
    requires |entries| == header.entryCount * ENTRY_SIZE
    requires header.entryCount <= MAXIMUM_ENTRIES
  {
    var ps := UsedPartitions(entries, header.entryCount);
    if Consistent(ps, header.firstUsable, header.lastUsable) then Ok(ps) else Err(InvalidData)
  }

  // ---------- the whole table ----------

  predicate IsProtectiveMbr(sector: seq<byte>)
    requires |sector| >= 512
  {
    && sector[510] == 0x55 && sector[511] == 0xAA
    && sector[450] == 0xEE
    && U32At(sector, 454) == 1
    && U32At(sector, 458) != 0
  }

  predicate SupportedEntries(header: Header) {
    && 0 < header.entryCount <= MAXIMUM_ENTRIES
    && header.entrySize == ENTRY_SIZE
  }

  predicate PrimaryInPlace(header: Header, sectorCount: u64, entrySectors: nat) {
    && header.currentLba == 1
    && header.backupLba == sectorCount - 1
    && header.firstUsable <= header.lastUsable < header.backupLba
    && !IsZero(header.diskGuid)
    && header.entryLba == 2
    && header.entryLba + entrySectors <= header.firstUsable
  }

  predicate BackupMatches(primary: Header, backup: Header, entrySectors: nat) {
    && backup.currentLba == primary.backupLba
    && backup.backupLba == 1
    && backup.firstUsable == primary.firstUsable
    && backup.lastUsable == primary.lastUsable
    && backup.diskGuid == primary.diskGuid
    && backup.entryCount == primary.entryCount
    && backup.entrySize == primary.entrySize
    && backup.entryCrc == primary.entryCrc
    && backup.entryLba == primary.backupLba - entrySectors
    && primary.lastUsable < backup.entryLba
  }

  /** What remains to be checked once the primary header has been read. */
  function ParseTables(ss: u32, image: Image, sectorCount: u64, primary: Header): (r: Result<Disk>)
    requires SupportedSectorSize(ss)
  {
    if !SupportedEntries(primary) then Err(UnsupportedLayout)
    else
      var entrySectors := EntrySectors(ss, primary.entryCount);
      if !PrimaryInPlace(primary, sectorCount, entrySectors) then Err(InvalidData)
      else
        var entries :- ReadEntryArray(ss, image, primary, sectorCount);
        var backup :- ParseHeader(ss, image, primary.backupLba);
        if !BackupMatches(primary, backup, entrySectors) then Err(InvalidData)
        else
          var backupEntries :- ReadEntryArray(ss, image, backup, sectorCount);
          if backupEntries != entries then Err(InvalidData)
          else
            var partitions :- ParsePartitions(entries, primary);
            Ok(Disk(ss, sectorCount, primary.diskGuid, primary.firstUsable, primary.lastUsable,
                    primary.entryCount, primary.entrySize, partitions))
  }

  /** At least 68 sectors, and nothing left over. */
  predicate WellSized(ss: u32, image: Image)
    requires SupportedSectorSize(ss)
  {
    |image| >= LbaOffset(ss, 68) && |image| == LbaOffset(ss, WholeSectors(ss, |image|))
  }

  function ParseGpt(ss: u32, image: Image): (r: Result<Disk>) {
    if !SupportedSectorSize(ss) || !WellSized(ss, image) then Err(UnsupportedLayout)
    else if !IsProtectiveMbr(image[..ss]) then Err(InvalidData)
    else
      var primary :- ParseHeader(ss, image, 1);
      ParseTables(ss, image, WholeSectors(ss, |image|), primary)
  }
}
