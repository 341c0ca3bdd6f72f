/** Damage that the checksums are there to find. */
module GptDamage {
  import opened Bytes
  import opened Crc32
  import opened Gpt
  import opened GptStore

  /** Equal but for the bytes in `[offset, offset + length)`. */
  predicate DiffersWithin(s: seq<byte>, t: seq<byte>, offset: nat, length: nat) {
    && |s| == |t| && s != t
    && offset + length <= |s|
    && s[..offset] == t[..offset]
    && s[offset + length..] == t[offset + length..]
  }

  lemma DifferenceInWindow(s: seq<byte>, t: seq<byte>, offset: nat, length: nat)
    requires DiffersWithin(s, t, offset, length)
    ensures s[offset..offset + length] != t[offset..offset + length]
  {
    var end := offset + length;
    assert s == s[..offset] + s[offset..end] + s[end..];
    assert t == t[..offset] + t[offset..end] + t[end..];
  }

  lemma SameOutside(s: seq<byte>, t: seq<byte>, offset: nat, length: nat, lo: nat, hi: nat)
    requires DiffersWithin(s, t, offset, length)
    requires lo <= hi <= |s| && (hi <= offset || offset + length <= lo)
    ensures s[lo..hi] == t[lo..hi]
  {
    var end := offset + length;
    if hi <= offset {
      assert s[lo..hi] == s[..offset][lo..hi] && t[lo..hi] == t[..offset][lo..hi];
    } else {
      SubSlice(s, end, |s|, lo - end, hi - end);
      SubSlice(t, end, |t|, lo - end, hi - end);
    }
  }

  /** Damage in front of the checksum field. */
  lemma CoveredFrontDiffers(s: seq<byte>, t: seq<byte>, offset: nat, length: nat, headerSize: nat)
    requires DiffersWithin(s, t, offset, length) && length <= 4 && offset + length <= 16
    requires 20 <= headerSize <= |s|
    ensures Checksum(CoveredBytes(s, headerSize)) != Checksum(CoveredBytes(t, headerSize))
  {
    hide Checksum;
    var end := offset + length;
    DifferenceInWindow(s, t, offset, length);
    SameOutside(s, t, offset, length, end, 16);
    SameOutside(s, t, offset, length, 20, headerSize);
    var back := s[end..16] + Zeros(4) + s[20..headerSize];
    BurstDetected(s[..offset], s[offset..end], t[offset..end], back);
    assert CoveredBytes(s, headerSize) == s[..offset] + s[offset..end] + back;
    assert CoveredBytes(t, headerSize) == t[..offset] + t[offset..end] + back;
  }

  lemma CoveredAround(s: seq<byte>, offset: nat, end: nat, headerSize: nat)
    requires 20 <= offset <= end <= headerSize <= |s|
    ensures CoveredBytes(s, headerSize) == s[..16] + Zeros(4) + s[20..offset] + s[offset..end] + s[end..headerSize]
  {
    assert s[20..headerSize] == s[20..offset] + s[offset..end] + s[end..headerSize];
  }

  /** Damage behind the checksum field. */
  lemma CoveredBackDiffers(s: seq<byte>, t: seq<byte>, offset: nat, length: nat, headerSize: nat)
    requires DiffersWithin(s, t, offset, length) && length <= 4
    requires 20 <= offset && offset + length <= headerSize <= |s|
    ensures Checksum(CoveredBytes(s, headerSize)) != Checksum(CoveredBytes(t, headerSize))
  {
    hide Checksum;
    var end := offset + length;
    DifferenceInWindow(s, t, offset, length);
    SameOutside(s, t, offset, length, 0, 16);
    SameOutside(s, t, offset, length, 20, offset);
    SameOutside(s, t, offset, length, end, headerSize);
    var front := s[..16] + Zeros(4) + s[20..offset];
    BurstDetected(front, s[offset..end], t[offset..end], s[end..headerSize]);
    CoveredAround(s, offset, end, headerSize);
    CoveredAround(t, offset, end, headerSize);
    assert s[..16] == s[0..16] == t[0..16] == t[..16];
  }

  lemma FieldsDiffer(s: seq<byte>, t: seq<byte>)
    requires |s| == |t| >= 20 && s[16..20] != t[16..20]
    ensures U32At(s, 16) != U32At(t, 16)
  {
    hide FromLittle;
    FromLittleRoundTrip(s[16..20]);
    FromLittleRoundTrip(t[16..20]);
  }

  /** Which four-byte windows of a header are protected: not the size field, and not both sides of a checksum edge. */
  predicate Protected(headerSize: nat, offset: nat, length: nat) {
    && length <= 4 && offset + length <= headerSize
    && (offset + length <= 16 || 20 <= offset || (16 <= offset && offset + length <= 20))
  }

  /** A header damaged within four bytes, its size field intact, is not accepted. */
  lemma HeaderBurstRejected(s: seq<byte>, t: seq<byte>, offset: nat, length: nat)
    requires |s| >= 512 && ParseHeaderSector(s).Ok?
    requires Protected(U32At(s, 12), offset, length) && DiffersWithin(s, t, offset, length)
    requires t[12..16] == s[12..16]
    ensures ParseHeaderSector(t).Err?
  {
    hide Checksum, FromLittle, U64At, CoveredBytes;
    var headerSize := U32At(s, 12);
    if offset + length <= 16 {
      CoveredFrontDiffers(s, t, offset, length, headerSize);
      SameOutside(s, t, offset, length, 16, 20);
    } else if 20 <= offset {
      CoveredBackDiffers(s, t, offset, length, headerSize);
      SameOutside(s, t, offset, length, 16, 20);
    } else {
      ChecksumFieldDamaged(s, t, offset, length, headerSize);
    }
  }

  lemma ChecksumFieldDamaged(s: seq<byte>, t: seq<byte>, offset: nat, length: nat, headerSize: nat)
    requires 20 <= headerSize <= |s|
    requires 16 <= offset && offset + length <= 20 && DiffersWithin(s, t, offset, length)
    ensures CoveredBytes(s, headerSize) == CoveredBytes(t, headerSize)
    ensures U32At(s, 16) != U32At(t, 16)
  {
    hide FromLittle, U32At;
    SameOutside(s, t, offset, length, 0, 16);
    SameOutside(s, t, offset, length, 20, headerSize);
    DifferenceInWindow(s, t, offset, length);
    SubSlice(s, 16, 20, offset - 16, offset + length - 16);
    SubSlice(t, 16, 20, offset - 16, offset + length - 16);
    FieldsDiffer(s, t);
  }

  /** A disk whose primary header is damaged in this way is not accepted. */
  lemma DamagedPrimaryRejected(ss: u32, image: Image, damaged: Image, offset: nat, length: nat)
    requires ParseGpt(ss, image).Ok? && |damaged| == |image|
    requires SupportedSectorSize(ss) && LbaOffset(ss, 2) <= |image|
    requires var s, t := SectorAt(ss, image, 1), SectorAt(ss, damaged, 1);
      && Protected(U32At(s, 12), offset, length) && DiffersWithin(s, t, offset, length)
      && t[12..16] == s[12..16]
    ensures ParseGpt(ss, damaged).Err?
  {
    hide ParseHeaderSector, ParseTables, IsProtectiveMbr, Protected, DiffersWithin, FromLittle;
    HeaderBurstRejected(SectorAt(ss, image, 1), SectorAt(ss, damaged, 1), offset, length);
  }
}
