/**
 Carrying out the planned writes, completely or up to a crash: the round trip,
 non-interference with partition data, and crash atomicity.
 */
module GptCrash {
  import opened Bytes
  import opened Crc32
  import opened Gpt
  import opened GptBuild
  import opened GptPlan
  import opened GptStore
  import opened Results

  predicate Fits(w: Write, image: Image) {
    w.offset + |w.bytes| <= |image|
  }

  predicate AllFit(ws: seq<Write>, image: Image) {
    forall w :: w in ws ==> Fits(w, image)
  }

  function Applied(image: Image, ws: seq<Write>): (r: Image)
    requires AllFit(ws, image)
    ensures |r| == |image|
    decreases |ws|
  {
    if |ws| == 0 then image
    else
      var last := ws[|ws| - 1];
      assert Fits(last, image);
      Splice(Applied(image, ws[..|ws| - 1]), last.offset, last.bytes)
  }

  predicate Holds(image: Image, w: Write) {
    Fits(w, image) && image[w.offset..w.offset + |w.bytes|] == w.bytes
  }

  // ---------- where the writes go ----------

  predicate WithinMetadata(disk: Disk, w: Write)
    requires GoodGeometry(disk)
  {
    || w.offset + |w.bytes| <= LbaOffset(disk.sectorSize, disk.firstUsable)
    || (LbaOffset(disk.sectorSize, disk.lastUsable + 1) <= w.offset
        && w.offset + |w.bytes| <= LbaOffset(disk.sectorSize, disk.sectorCount))
  }

  predicate Disjoint(v: Write, w: Write) {
    v.offset + |v.bytes| <= w.offset || w.offset + |w.bytes| <= v.offset
  }

  /** The writes are inside the disk, clear of each other and clear of every usable sector. */
  lemma WritesStayApart(disk: Disk, ws: seq<Write>)
    requires GoodGeometry(disk) && (ws == FreshWrites(disk) || ws == UpdateWrites(disk))
    ensures forall w :: w in ws ==> WithinMetadata(disk, w)
    ensures forall i, j :: 0 <= i < j < |ws| ==> Disjoint(ws[i], ws[j])
  {
    hide IsZero, PaddedEntries, HeaderSector, ProtectiveMbr, EntriesCrc, EntrySectors;
    ArraySpan(disk);
  }

  lemma ArraySpan(disk: Disk)
    requires GoodGeometry(disk)
    ensures LbaOffset(disk.sectorSize, 2) + LbaOffset(disk.sectorSize, ArraySectors(disk))
         <= LbaOffset(disk.sectorSize, disk.firstUsable)
    ensures LbaOffset(disk.sectorSize, BackupArrayLba(disk)) + LbaOffset(disk.sectorSize, ArraySectors(disk))
         == LbaOffset(disk.sectorSize, disk.sectorCount - 1)
  {
    hide EntrySectors;
  }

  /** No prefix of the writes changes a byte of any usable sector. */
  lemma {:induction false} UsableSectorsUntouched(disk: Disk, ws: seq<Write>, image: Image)
    requires GoodGeometry(disk) && |image| == LbaOffset(disk.sectorSize, disk.sectorCount)
    requires AllFit(ws, image) && forall w :: w in ws ==> WithinMetadata(disk, w)
    ensures var lo, hi := LbaOffset(disk.sectorSize, disk.firstUsable), LbaOffset(disk.sectorSize, disk.lastUsable + 1);
      lo <= hi <= |image| && Applied(image, ws)[lo..hi] == image[lo..hi]
    decreases |ws|
  {
    hide IsZero, EntrySectors;
    if |ws| > 0 {
      var front, last := ws[..|ws| - 1], ws[|ws| - 1];
      assert Fits(last, image) && WithinMetadata(disk, last) && AllFit(front, image);
      UsableSectorsUntouched(disk, front, image);
      var lo, hi := LbaOffset(disk.sectorSize, disk.firstUsable), LbaOffset(disk.sectorSize, disk.lastUsable + 1);
      SpliceElsewhere(Applied(image, front), last.offset, last.bytes, lo, hi);
    }
  }

  /** A slice that none of the writes touches. */
  lemma {:induction false} AppliedElsewhere(image: Image, ws: seq<Write>, lo: nat, hi: nat)
    requires lo <= hi <= |image|
    requires AllFit(ws, image)
    requires forall i :: 0 <= i < |ws| ==> ws[i].offset + |ws[i].bytes| <= lo || hi <= ws[i].offset
    ensures Applied(image, ws)[lo..hi] == image[lo..hi]
    decreases |ws|
  {
    if |ws| > 0 {
      var front, last := ws[..|ws| - 1], ws[|ws| - 1];
      assert Fits(last, image) && AllFit(front, image);
      AppliedElsewhere(image, front, lo, hi);
      SpliceElsewhere(Applied(image, front), last.offset, last.bytes, lo, hi);
    }
  }

  /** What a write leaves on the disk when no later write overlaps it. */
  lemma {:induction false} AppliedHolds(image: Image, ws: seq<Write>, k: nat)
    requires k < |ws|
    requires AllFit(ws, image)
    requires forall j :: 0 <= j < |ws| && j != k ==> Disjoint(ws[k], ws[j])
    ensures Holds(Applied(image, ws), ws[k])
    decreases |ws|
  {
    var front, last := ws[..|ws| - 1], ws[|ws| - 1];
    assert Fits(last, image) && AllFit(front, image);
    if k < |ws| - 1 {
      AppliedHolds(image, front, k);
      SpliceElsewhere(Applied(image, front), last.offset, last.bytes, ws[k].offset, ws[k].offset + |ws[k].bytes|);
    }
  }

  lemma MetadataFits(disk: Disk, ws: seq<Write>, image: Image)
    requires GoodGeometry(disk) && |image| == LbaOffset(disk.sectorSize, disk.sectorCount)
    requires forall w :: w in ws ==> WithinMetadata(disk, w)
    ensures AllFit(ws, image)
  {
    hide IsZero, EntrySectors;
  }

  // ---------- all writes done ----------

  lemma ArrayWritten(disk: Disk, image: Image, w: Write)
    requires GoodGeometry(disk) && w.bytes == PaddedEntries(disk) && Holds(image, w)
    ensures w.offset + disk.entryCount * ENTRY_SIZE <= |image|
    ensures image[w.offset..w.offset + disk.entryCount * ENTRY_SIZE] == Entries(disk.partitions, disk.entryCount)
  {
    hide IsZero, Entries, LbaOffset, EntrySectors;
    var entries := Entries(disk.partitions, disk.entryCount);
    SubSlice(image, w.offset, w.offset + |w.bytes|, 0, |entries|);
    assert w.bytes[0..|entries|] == entries;
  }

  lemma HeldStores(disk: Disk, image: Image)
    requires GoodGeometry(disk) && |image| == LbaOffset(disk.sectorSize, disk.sectorCount)
    requires Holds(image, PrimaryEntriesWrite(disk)) && Holds(image, BackupEntriesWrite(disk))
    requires Holds(image, PrimaryHeaderWrite(disk)) && Holds(image, BackupHeaderWrite(disk))
    requires IsProtectiveMbr(SectorAt(disk.sectorSize, image, 0))
    ensures Stores(disk, image)
  {
    hide IsZero, IsProtectiveMbr, PaddedEntries, HeaderSector, EntrySectors, Entries, Checksum;
    ArrayWritten(disk, image, PrimaryEntriesWrite(disk));
    ArrayWritten(disk, image, BackupEntriesWrite(disk));
  }

  lemma FreshWritesHeld(disk: Disk, image: Image)
    requires GoodGeometry(disk) && |image| == LbaOffset(disk.sectorSize, disk.sectorCount)
    ensures AllFit(FreshWrites(disk), image)
    ensures Stores(disk, Applied(image, FreshWrites(disk)))
  {
    hide IsZero, IsProtectiveMbr, Applied, Stores, PrimaryEntriesWrite, BackupEntriesWrite, PrimaryHeaderWrite,
         BackupHeaderWrite, ProtectiveMbrWrite, EntrySectors, Holds, WithinMetadata;
    var ws := FreshWrites(disk);
    WritesStayApart(disk, ws);
    MetadataFits(disk, ws, image);
    AppliedHolds(image, ws, 0);
    AppliedHolds(image, ws, 1);
    AppliedHolds(image, ws, 2);
    AppliedHolds(image, ws, 3);
    AppliedHolds(image, ws, 4);
    MbrHeld(disk, Applied(image, ws));
    HeldStores(disk, Applied(image, ws));
  }

  lemma MbrHeld(disk: Disk, image: Image)
    requires GoodGeometry(disk) && |image| == LbaOffset(disk.sectorSize, disk.sectorCount)
    requires Holds(image, ProtectiveMbrWrite(disk))
    ensures IsProtectiveMbr(SectorAt(disk.sectorSize, image, 0))
  {
    hide IsZero, IsProtectiveMbr, ProtectiveMbr, EntrySectors;
    MbrRoundTrip(disk);
  }

  lemma UpdateWritesHeld(disk: Disk, image: Image)
    requires GoodGeometry(disk) && |image| == LbaOffset(disk.sectorSize, disk.sectorCount)
    requires IsProtectiveMbr(SectorAt(disk.sectorSize, image, 0))
    ensures AllFit(UpdateWrites(disk), image)
    ensures Stores(disk, Applied(image, UpdateWrites(disk)))
  {
    hide IsZero, IsProtectiveMbr, Applied, Stores, PrimaryEntriesWrite, BackupEntriesWrite, PrimaryHeaderWrite,
         BackupHeaderWrite, ProtectiveMbrWrite, EntrySectors, Holds, WithinMetadata;
    var ws := UpdateWrites(disk);
    WritesStayApart(disk, ws);
    MetadataFits(disk, ws, image);
    AppliedHolds(image, ws, 0);
    AppliedHolds(image, ws, 1);
    AppliedHolds(image, ws, 2);
    AppliedHolds(image, ws, 3);
    MbrUntouched(disk, image, |ws|);
    assert ws[..|ws|] == ws;
    HeldStores(disk, Applied(image, ws));
  }

  /** The update leaves the protective MBR alone. */
  lemma MbrUntouched(disk: Disk, image: Image, k: nat)
    requires GoodGeometry(disk) && |image| == LbaOffset(disk.sectorSize, disk.sectorCount)
    requires k <= |UpdateWrites(disk)| && AllFit(UpdateWrites(disk)[..k], image)
    ensures SectorAt(disk.sectorSize, Applied(image, UpdateWrites(disk)[..k]), 0) == SectorAt(disk.sectorSize, image, 0)
  {
    hide IsZero, IsProtectiveMbr, Applied, PaddedEntries, HeaderSector, EntrySectors, EntriesCrc;
    var ws := UpdateWrites(disk);
    assert forall i :: 0 <= i < |ws| ==> disk.sectorSize <= ws[i].offset;
    AppliedElsewhere(image, ws[..k], 0, disk.sectorSize);
  }

  /**
   Round trip: the plan made from any parsed source, applied to any disk of the
   target size, yields a disk that parses to exactly the planned table.
   */
  lemma FreshRoundTrip(ss: u32, sourceImage: Image, source: Disk, targetSs: u32, draws: Draws, target: Disk,
                       image: Image)
    requires ParseGpt(ss, sourceImage) == Ok(source)
    requires PlanFreshTable(source, |image|, targetSs, draws) == Ok(target)
    ensures GoodGeometry(target) && AllFit(FreshWrites(target), image)
    ensures ParseGpt(targetSs, Applied(image, FreshWrites(target))) == Ok(target)
  {
    hide ParseGpt, PlanFreshTable, GoodGeometry, Applied, FreshWrites, Template, Consistent, Typed, Nameable,
         Ascending;
    ParsedWellFormed(ss, sourceImage);
    WellFormedIsTemplate(source);
    FreshTargetWellFormed(source, |image|, targetSs, draws, target);
    WellFormedRoundTrip(target, image);
  }

  /** Every well-formed table survives being written as a fresh table. */
  lemma WellFormedRoundTrip(disk: Disk, image: Image)
    requires WellFormed(disk) && |image| == LbaOffset(disk.sectorSize, disk.sectorCount)
    ensures AllFit(FreshWrites(disk), image)
    ensures ParseGpt(disk.sectorSize, Applied(image, FreshWrites(disk))) == Ok(disk)
  {
    hide ParseGpt, Applied, FreshWrites, Canonical, Stores, Consistent, Typed, Nameable, Ascending, Indexed, LbaOffset;
    WellFormedIsCanonical(disk);
    FreshWritesHeld(disk, image);
    StoredParses(disk, Applied(image, FreshWrites(disk)));
  }

  /** Commit last: without an old header in sector 1, no strict prefix of the writes is a valid table. */
  lemma FreshCommitsLast(disk: Disk, image: Image, k: nat)
    requires GoodGeometry(disk) && |image| == LbaOffset(disk.sectorSize, disk.sectorCount)
    requires SectorAt(disk.sectorSize, image, 1)[..8] != Signature()
    requires k < |FreshWrites(disk)|
    ensures AllFit(FreshWrites(disk)[..k], image)
    ensures ParseGpt(disk.sectorSize, Applied(image, FreshWrites(disk)[..k])).Err?
  {
    hide IsZero, IsProtectiveMbr, Applied, PaddedEntries, ProtectiveMbr, HeaderSector, EntrySectors, EntriesCrc,
         ParseTables, U32At, U64At, Checksum;
    var ws := FreshWrites(disk);
    WritesStayApart(disk, ws);
    MetadataFits(disk, ws, image);
    var prefix := ws[..k];
    assert forall i :: 0 <= i < k ==> prefix[i] == ws[i] && Disjoint(ws[i], ws[4]);
    AppliedElsewhere(image, prefix, LbaOffset(disk.sectorSize, 1), LbaOffset(disk.sectorSize, 1) + disk.sectorSize);
  }
}
