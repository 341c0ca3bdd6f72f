/**
 What an accepted hive says about its bytes: an independent description of
 cells, bins, keys and indexes by the bytes at their places, and the proof that
 the parser accepts exactly what is so described.
 */
module HiveBytes {
  import opened Bytes
  import opened RegistryHive
  import opened Results

  // ---------- cells ----------

  /** The size in front of the cell: negated, as a number of 32 bits, exactly while the cell is in use. */
  predicate StoredCell(bytes: seq<byte>, e: Extent) {
    && e.offset + 4 <= |bytes|
    && e.size < 0x8000_0000 && e.size % 8 == 0
    && U32At(bytes, e.offset) == if e.used then U32_LIMIT - e.size else e.size
  }

  predicate AllStored(bytes: seq<byte>, extents: seq<Extent>) {
    forall i :: 0 <= i < |extents| ==> StoredCell(bytes, extents[i])
  }

  lemma ExtentExactly(bytes: seq<byte>, offset: nat, end: nat, e: Extent)
    requires end <= |bytes| && offset < end
    ensures ExtentAt(bytes, offset, end) == Some(e) <==>
              e.offset == offset && 8 <= e.size <= end - offset && StoredCell(bytes, e)
  {
    hide FromLittle;
  }

  /** A scan delivers the one way to tile the range with stored cells, if there is one. */
  lemma {:induction false} CellsExactly(bytes: seq<byte>, offset: nat, end: nat, extents: seq<Extent>)
    requires offset <= end <= |bytes|
    ensures ScanCells(bytes, offset, end) == Some(extents) <==> Tiles(extents, offset, end) && AllStored(bytes, extents)
    decreases end - offset
  {
    hide ExtentAt, StoredCell;
    if offset == end {
      NothingTiles(extents, offset);
      return;
    }
    if extents == [] {
      return;
    }
    var e := extents[0];
    StoredCons(bytes, extents);
    ExtentExactly(bytes, offset, end, e);
    if Tiles(extents, offset, end) {
      TilesEnd(extents[1..], offset + e.size, end);
    }
    if ExtentAt(bytes, offset, end) == Some(e) {
      CellsExactly(bytes, offset + e.size, end, extents[1..]);
      assert extents == [e] + extents[1..];
    } else if ScanCells(bytes, offset, end).Some? {
      assert ScanCells(bytes, offset, end).value[0] == ExtentAt(bytes, offset, end).value;
    }
  }

  lemma StoredCons(bytes: seq<byte>, extents: seq<Extent>)
    requires |extents| > 0
    ensures AllStored(bytes, extents) <==> StoredCell(bytes, extents[0]) && AllStored(bytes, extents[1..])
  {
    hide StoredCell;
    var rest := extents[1..];
    assert forall i :: 0 < i < |extents| ==> extents[i] == rest[i - 1];
  }

  lemma {:induction false} TilesEnd(extents: seq<Extent>, start: nat, end: nat)
    requires Tiles(extents, start, end)
    ensures start <= end
  {
    if |extents| > 0 {
      TilesEnd(extents[1..], start + extents[0].size, end);
    }
  }

  lemma NothingTiles(extents: seq<Extent>, start: nat)
    ensures Tiles(extents, start, start) <==> extents == []
  {
    if |extents| > 0 && Tiles(extents, start, start) {
      TilesEnd(extents[1..], start + extents[0].size, start);
    }
  }

  // ---------- bins ----------

  /** The header of the bin: its signature, its distance from the first bin, and its size. */
  predicate StoredBin(bytes: seq<byte>, bin: Bin) {
    && BLOCK <= bin.offset && bin.offset + BIN_HEADER <= |bytes|
    && bytes[bin.offset..bin.offset + 4] == ['h' as int, 'b' as int, 'i' as int, 'n' as int]
    && U32At(bytes, bin.offset + 4) == bin.offset - BLOCK
    && U32At(bytes, bin.offset + 8) == bin.size
    && bin.size >= BLOCK && bin.size % BLOCK == 0
    && AllStored(bytes, bin.extents)
  }

  predicate AllBinsStored(bytes: seq<byte>, bins: seq<Bin>) {
    forall i :: 0 <= i < |bins| ==> StoredBin(bytes, bins[i])
  }

  lemma BinSizeExactly(bytes: seq<byte>, offset: nat, end: nat, bin: Bin)
    requires BLOCK <= offset < end <= |bytes| && bin.offset == offset && AllStored(bytes, bin.extents)
    ensures BinSize(bytes, offset, end) == Some(bin.size) <==> bin.size <= end - offset && StoredBin(bytes, bin)
  {
    hide FromLittle, StoredCell;
    if bin.offset + 4 <= |bytes| {
      var s := bytes[offset..offset + 4];
      assert forall k :: 0 <= k < 4 ==> s[k] == bytes[offset + k];
    }
  }

  lemma BinsCons(bytes: seq<byte>, bins: seq<Bin>)
    requires |bins| > 0
    ensures AllBinsStored(bytes, bins) <==> StoredBin(bytes, bins[0]) && AllBinsStored(bytes, bins[1..])
  {
    hide StoredBin;
    var rest := bins[1..];
    assert forall i :: 0 < i < |bins| ==> bins[i] == rest[i - 1];
  }

  lemma {:induction false} BinsEnd(bins: seq<Bin>, start: nat, end: nat)
    requires BinsTile(bins, start, end)
    ensures start <= end
  {
    if |bins| > 0 {
      BinsEnd(bins[1..], start + bins[0].size, end);
    }
  }

  /** A scan delivers the one way to tile the region with stored bins and their stored cells, if there is one. */
  lemma {:induction false} BinsExactly(bytes: seq<byte>, offset: nat, end: nat, bins: seq<Bin>)
    requires BLOCK <= offset <= end <= |bytes|
    ensures ScanBins(bytes, offset, end) == Some(bins) <==> BinsTile(bins, offset, end) && AllBinsStored(bytes, bins)
    decreases end - offset
  {
    hide BinSize, StoredBin, ScanCells, Tiles, AllStored;
    if bins == [] {
      return;
    }
    var bin := bins[0];
    BinsCons(bytes, bins);
    if BinsTile(bins, offset, end) {
      BinsEnd(bins[1..], offset + bin.size, end);
    }
    if offset < end {
      BinExactly(bytes, offset, end, bin);
      if BinSize(bytes, offset, end) == Some(bin.size) {
        BinsExactly(bytes, offset + bin.size, end, bins[1..]);
      }
      assert bins == [bin] + bins[1..];
    } else if BinsTile(bins, offset, end) && AllBinsStored(bytes, bins) {
      NoEmptyBin(bytes, bin);
    }
  }

  lemma NoEmptyBin(bytes: seq<byte>, bin: Bin)
    requires StoredBin(bytes, bin)
    ensures bin.size > 0
  {
  }

  /** One bin: its header and its cells. */
  lemma BinExactly(bytes: seq<byte>, offset: nat, end: nat, bin: Bin)
    requires BLOCK <= offset < end <= |bytes|
    ensures bin.offset == offset && BinSize(bytes, offset, end) == Some(bin.size)
            && ScanCells(bytes, offset + BIN_HEADER, offset + bin.size) == Some(bin.extents)
       <==> bin.offset == offset && bin.size <= end - offset && StoredBin(bytes, bin)
            && Tiles(bin.extents, offset + BIN_HEADER, offset + bin.size)
  {
    hide BinSize, ScanCells, Tiles, StoredCell;
    if bin.offset == offset && BLOCK <= bin.size <= end - offset {
      CellsExactly(bytes, offset + BIN_HEADER, offset + bin.size, bin.extents);
      if AllStored(bytes, bin.extents) {
        BinSizeExactly(bytes, offset, end, bin);
      }
    }
  }

  // ---------- records ----------

  /** The record of a cell in use. */
  function RecordOf(e: Extent): CellRecord
    requires Addressable(e)
  {
    CellRecord(e.offset - BLOCK, e.offset, e.size)
  }

  predicate RecordsUse(cells: seq<CellRecord>, extents: seq<Extent>)
    requires AllAddressable(extents)
  {
    && (forall i :: 0 <= i < |extents| && extents[i].used ==> RecordOf(extents[i]) in cells)
    && (forall c :: c in cells ==> exists i :: 0 <= i < |extents| && extents[i].used && RecordOf(extents[i]) == c)
  }

  /** Exactly the cells in use are recorded. */
  lemma {:induction false} UseIsRecorded(extents: seq<Extent>)
    requires AllAddressable(extents)
    ensures RecordsUse(Allocated(extents), extents)
  {
    if |extents| > 0 {
      var rest := extents[1..];
      assert Addressable(extents[0]) && forall i :: 0 <= i < |rest| ==> rest[i] == extents[i + 1];
      UseIsRecorded(rest);
      forall i | 0 <= i < |extents| && extents[i].used ensures RecordOf(extents[i]) in Allocated(extents) {
        if i > 0 {
          assert rest[i - 1] == extents[i];
        }
      }
      forall c | c in Allocated(extents) ensures exists i :: 0 <= i < |extents| && extents[i].used && RecordOf(extents[i]) == c {
        if c in Allocated(rest) {
          var i :| 0 <= i < |rest| && rest[i].used && RecordOf(rest[i]) == c;
          assert extents[i + 1] == rest[i];
        }
      }
    }
  }

  // ---------- keys ----------

  /** The name in the bytes from 80 on: one byte for each character, or two. */
  predicate StoredName(bytes: seq<byte>, length: nat, compressed: bool, name: seq<u16>) {
    && length <= MAXIMUM_KEY_NAME && 80 + length <= |bytes|
    && length == (if compressed then |name| else 2 * |name|)
    && (forall i :: 0 <= i < |name| ==>
          name[i] == if compressed then bytes[80 + i] else 0x100 * (bytes[80 + 2 * i + 1] as int) + bytes[80 + 2 * i])
    && 0 !in name
  }

  /** A key cell, field by field. */
  predicate StoredKey(bytes: seq<byte>, key: KeyNode) {
    && |bytes| >= 80
    && bytes[4] == 'n' as int && bytes[5] == 'k' as int
    && U32At(bytes, 24) == key.subkeyCount <= MAXIMUM_SUBKEYS
    && U32At(bytes, 32) == key.subkeyList
    && U32At(bytes, 40) == key.valueCount <= MAXIMUM_VALUES
    && U32At(bytes, 44) == key.valueList
    && StoredName(bytes, U16At(bytes, 76), U16At(bytes, 6) / 0x20 % 2 == 1, key.name)
  }

  lemma {:induction false} UnitsExactly(bytes: seq<byte>)
    ensures |Units(bytes)| == |bytes| / 2
    ensures forall i :: 0 <= i < |Units(bytes)| ==> Units(bytes)[i] == 0x100 * (bytes[2 * i + 1] as int) + bytes[2 * i]
  {
    if |bytes| >= 2 {
      UnitsExactly(bytes[2..]);
      U16Bytes(bytes, 0);
      forall i | 0 <= i < |Units(bytes)| ensures Units(bytes)[i] == 0x100 * (bytes[2 * i + 1] as int) + bytes[2 * i] {
        if i > 0 {
          assert Units(bytes)[i] == Units(bytes[2..])[i - 1];
        }
      }
    }
  }

  lemma NameExactly(bytes: seq<byte>, length: nat, compressed: bool, name: seq<u16>)
    ensures DecodeName(bytes, 80, length, compressed, MAXIMUM_KEY_NAME) == Some(name)
       <==> StoredName(bytes, length, compressed, name)
  {
    if length <= MAXIMUM_KEY_NAME && HasBytes(bytes, 80, length) {
      var field := bytes[80..80 + length];
      assert forall i :: 0 <= i < length ==> field[i] == bytes[80 + i];
      UnitsExactly(field);
      if !compressed && length % 2 == 0 && StoredName(bytes, length, compressed, name) {
        assert name == Units(field);
      }
      if compressed && StoredName(bytes, length, compressed, name) {
        assert name == Widened(field);
      }
    }
  }

  /** A key is read exactly as it is stored. */
  lemma KeyExactly(hive: Hive, relative: u32, key: KeyNode)
    ensures ParseKey(hive, relative) == Some(key) <==>
              CellAt(hive, relative).Some? && StoredKey(CellAt(hive, relative).value, key)
  {
    hide CellAt, DecodeName, StoredName, FromLittle;
    var cell := CellAt(hive, relative);
    if cell.Some? && |cell.value| >= 80 {
      var bytes := cell.value;
      NameExactly(bytes, U16At(bytes, 76), U16At(bytes, 6) / 0x20 % 2 == 1, key.name);
    }
  }

  // ---------- the base block ----------

  predicate StoredBase(bytes: seq<byte>, root: u32) {
    && |bytes| >= BLOCK
    && bytes[0..4] == ['r' as int, 'e' as int, 'g' as int, 'f' as int]
    && U32At(bytes, 4) == U32At(bytes, 8)
    && U32At(bytes, 0x1C) == 0 && U32At(bytes, 0x20) == 1
    && U32At(bytes, 0x24) == root
    && 0 < U32At(bytes, 0x28) <= |bytes| - BLOCK && U32At(bytes, 0x28) % BLOCK == 0
    && U32At(bytes, 0x1FC) == AdjustedChecksum(XorWords(bytes, 0x1FC))
  }

  lemma BaseExactly(bytes: seq<byte>, root: u32)
    ensures StoredBase(bytes, root) <==>
      ParseBaseBlock(bytes).Some? && ParseBaseBlock(bytes) == Some((root, U32At(bytes, 0x28)))
  {
    hide FromLittle, XorWords;
    if |bytes| >= BLOCK {
      var s := bytes[0..4];
      assert forall k :: 0 <= k < 4 ==> s[k] == bytes[k];
    }
  }

  lemma {:induction false} XorCancels(a: nat, b: nat, c: nat)
    requires Xor(a, b) == Xor(a, c)
    ensures b == c
    decreases a + b + c
  {
    if a + b + c > 0 {
      assert Xor(a, b) % 2 == (if a % 2 != b % 2 then 1 else 0) && Xor(a, b) / 2 == Xor(a / 2, b / 2);
      assert Xor(a, c) % 2 == (if a % 2 != c % 2 then 1 else 0) && Xor(a, c) / 2 == Xor(a / 2, c / 2);
      XorCancels(a / 2, b / 2, c / 2);
    }
  }

  lemma {:induction false} XorSymmetric(a: nat, b: nat)
    ensures Xor(a, b) == Xor(b, a)
    decreases a + b
  {
    if a + b > 0 {
      XorSymmetric(a / 2, b / 2);
    }
  }

  /** Two arrays that differ in one word have different sums. */
  lemma {:induction false} OneWordSum(a: seq<byte>, b: seq<byte>, end: nat, k: nat)
    requires |a| == |b| && end <= |a| && end % 4 == 0 && 4 * k < end
    requires forall i :: 0 <= i < end / 4 ==> (U32At(a, 4 * i) == U32At(b, 4 * i) <==> i != k)
    ensures XorWords(a, end) != XorWords(b, end)
    decreases end
  {
    hide Xor, FromLittle;
    var last := end / 4 - 1;
    assert 4 * last == end - 4;
    if k == last {
      SameWordsSum(a, b, end - 4);
      if XorWords(a, end) == XorWords(b, end) {
        XorCancels(XorWords(a, end - 4), U32At(a, end - 4), U32At(b, end - 4));
      }
    } else {
      OneWordSum(a, b, end - 4, k);
      if XorWords(a, end) == XorWords(b, end) {
        assert U32At(a, 4 * last) == U32At(b, 4 * last);
        XorSymmetric(XorWords(a, end - 4), U32At(a, end - 4));
        XorSymmetric(XorWords(b, end - 4), U32At(b, end - 4));
        XorCancels(U32At(a, end - 4), XorWords(a, end - 4), XorWords(b, end - 4));
      }
    }
  }

  lemma {:induction false} SameWordsSum(a: seq<byte>, b: seq<byte>, end: nat)
    requires |a| == |b| && end <= |a| && end % 4 == 0
    requires forall i :: 0 <= i < end / 4 ==> U32At(a, 4 * i) == U32At(b, 4 * i)
    ensures XorWords(a, end) == XorWords(b, end)
    decreases end
  {
    hide Xor, FromLittle;
    if end > 0 {
      SameWordsSum(a, b, end - 4);
      assert U32At(a, 4 * (end / 4 - 1)) == U32At(b, 4 * (end / 4 - 1));
    }
  }

  /** The sums that the checksum cannot tell apart: zero and one, and the two largest. */
  predicate SharesChecksum(sum: nat) {
    sum <= 1 || sum == U32_LIMIT - 2 || sum == U32_LIMIT - 1
  }

  /** A base block in which one word was altered is refused, but for the sums that share a checksum. */
  lemma AlteredWordRefused(a: seq<byte>, b: seq<byte>, k: nat)
    requires |a| == |b| >= BLOCK && k < 127 && ParseBaseBlock(a).Some?
    requires forall i :: 0 <= i < 127 ==> (U32At(a, 4 * i) == U32At(b, 4 * i) <==> i != k)
    requires U32At(a, 0x1FC) == U32At(b, 0x1FC) && !SharesChecksum(XorWords(a, 0x1FC))
    ensures ParseBaseBlock(b).None?
  {
    hide XorWords, FromLittle;
    OneWordSum(a, b, 0x1FC, k);
  }

  // ---------- the whole hive ----------

  /** The root key is in a cell that is in use. */
  predicate RootAt(bytes: seq<byte>, extents: seq<Extent>, root: u32, i: nat, key: KeyNode) {
    && i < |extents| && extents[i].used && extents[i].offset == BLOCK + root
    && extents[i].offset + extents[i].size <= |bytes|
    && StoredKey(bytes[extents[i].offset..extents[i].offset + extents[i].size], key)
  }

  /** The base block, the tiling of the region with bins and cells, and the root key. */
  ghost predicate SoundHive(bytes: seq<byte>, root: u32, bins: seq<Bin>) {
    && StoredBase(bytes, root)
    && BinsTile(bins, BLOCK, BLOCK + U32At(bytes, 0x28)) && AllBinsStored(bytes, bins)
    && exists i, key :: RootAt(bytes, AllExtents(bins), root, i, key)
  }

  /** What the parser keeps of a hive: the bytes and the record of every cell in use. */
  ghost predicate Keeps(hive: Hive, bytes: seq<byte>, bins: seq<Bin>) {
    && hive.bytes == bytes
    && AllAddressable(AllExtents(bins)) && RecordsUse(hive.cells, AllExtents(bins))
  }

  lemma OneCellThere(cells: seq<CellRecord>, extents: seq<Extent>, bytes: seq<byte>, relative: u32, start: nat, end: nat)
    requires AllAddressable(extents) && Ordered(extents, start, end) && RecordsUse(cells, extents) && end <= |bytes|
    ensures forall i :: 0 <= i < |extents| && extents[i].used && extents[i].offset == BLOCK + relative ==>
              extents[i].offset + extents[i].size <= |bytes|
              && CellAt(Hive(bytes, cells), relative)
                 == Some(bytes[extents[i].offset..extents[i].offset + extents[i].size])
    ensures CellAt(Hive(bytes, cells), relative).Some? ==>
              exists i :: 0 <= i < |extents| && extents[i].used && extents[i].offset == BLOCK + relative
  {
    var found := FindCell(cells, relative);
    if found.Some? {
      var k :| 0 <= k < |extents| && extents[k].used && RecordOf(extents[k]) == found.value;
    }
    forall i | 0 <= i < |extents| && extents[i].used && extents[i].offset == BLOCK + relative
      ensures found == Some(RecordOf(extents[i]))
    {
      assert RecordOf(extents[i]) in cells;
    }
  }

  lemma RootExactly(hive: Hive, bytes: seq<byte>, bins: seq<Bin>, root: u32, start: nat, end: nat)
    requires Keeps(hive, bytes, bins) && Ordered(AllExtents(bins), start, end) && end <= |bytes|
    ensures ParseKey(hive, root).Some? <==> exists i, key :: RootAt(bytes, AllExtents(bins), root, i, key)
  {
    hide CellAt, ParseKey, StoredKey, RecordsUse, AllExtents, Ordered;
    var extents := AllExtents(bins);
    OneCellThere(hive.cells, extents, bytes, root, start, end);
    if ParseKey(hive, root).Some? {
      var key := ParseKey(hive, root).value;
      KeyExactly(hive, root, key);
      var i :| 0 <= i < |extents| && extents[i].used && extents[i].offset == BLOCK + root;
      assert RootAt(bytes, extents, root, i, key);
    }
    if i, key :| RootAt(bytes, extents, root, i, key) {
      KeyExactly(hive, root, key);
    }
  }

  /** Stored and tiled bins in the declared region: the parser finds them and keeps their cells. */
  lemma BinsKept(bytes: seq<byte>, root: u32, bins: seq<Bin>)
    requires StoredBase(bytes, root) && ScanBins(bytes, BLOCK, BLOCK + U32At(bytes, 0x28)) == Some(bins)
    ensures AllAddressable(AllExtents(bins))
    ensures var hive := Hive(bytes, Allocated(AllExtents(bins)));
      && Keeps(hive, bytes, bins)
      && (ParseKey(hive, root).Some? <==> exists i, key :: RootAt(bytes, AllExtents(bins), root, i, key))
      && ParseHive(bytes) == (if |hive.cells| == 0 || ParseKey(hive, root).None? then None else Some((hive, root)))
      && (hive.cells == [] ==> ParseKey(hive, root).None?)
  {
    hide ScanBins, AllExtents, Allocated, ParseBaseBlock, ParseKey, StoredBase, RootAt, RecordsUse, BinsTile, Ordered;
    BaseWhole(bytes);
    var end := BLOCK + U32At(bytes, 0x28);
    BaseExactly(bytes, root);
    ScannedBinsTile(bytes, BLOCK, end);
    BinsOrdered(bins, BLOCK, end);
    OrderedAddressable(AllExtents(bins), BLOCK, end);
    UseIsRecorded(AllExtents(bins));
    var hive := Hive(bytes, Allocated(AllExtents(bins)));
    RootExactly(hive, bytes, bins, root, BLOCK, end);
    NoCellsNoKey(hive, root);
  }

  lemma NoCellsNoKey(hive: Hive, relative: u32)
    ensures hive.cells == [] ==> ParseKey(hive, relative).None?
  {
  }

  /** The hives that are accepted are the sound ones, and then exactly their cells in use are recorded. */
  lemma HiveExactly(bytes: seq<byte>)
    ensures ParseHive(bytes).Some? <==> exists root: u32, bins :: SoundHive(bytes, root, bins)
    ensures ParseHive(bytes).Some? ==>
      exists bins :: SoundHive(bytes, ParseHive(bytes).value.1, bins) && Keeps(ParseHive(bytes).value.0, bytes, bins)
  {
    hide ScanBins, AllExtents, Allocated, ParseBaseBlock, ParseKey, StoredBase, RootAt, Keeps, BinsTile, AllBinsStored;
    if ParseHive(bytes).Some? {
      var (root, binsBytes) := ParseBaseBlock(bytes).value;
      BaseWhole(bytes);
      var bins := ScanBins(bytes, BLOCK, BLOCK + binsBytes).value;
      BinsExactly(bytes, BLOCK, BLOCK + binsBytes, bins);
      BinsKept(bytes, root, bins);
      assert SoundHive(bytes, root, bins);
    }
    if root: u32, bins :| SoundHive(bytes, root, bins) {
      BaseWhole(bytes);
      BaseExactly(bytes, root);
      BinsExactly(bytes, BLOCK, BLOCK + U32At(bytes, 0x28), bins);
      BinsKept(bytes, root, bins);
    }
  }

  lemma BaseWhole(bytes: seq<byte>)
    ensures ParseBaseBlock(bytes).Some? ==>
      && |bytes| >= BLOCK && StoredBase(bytes, ParseBaseBlock(bytes).value.0)
      && ParseBaseBlock(bytes).value.1 == U32At(bytes, 0x28)
    ensures forall root: u32 :: StoredBase(bytes, root) ==> |bytes| >= BLOCK + U32At(bytes, 0x28)
  {
    hide FromLittle, XorWords;
    if ParseBaseBlock(bytes).Some? {
      BaseExactly(bytes, ParseBaseBlock(bytes).value.0);
    }
  }

  /** What a record says is in the bytes: the cell is in use, and its size is the negated one that is stored. */
  lemma RecordsFromBytes(bytes: seq<byte>, c: CellRecord)
    requires ParseHive(bytes).Some? && c in ParseHive(bytes).value.0.cells
    ensures c.offset == BLOCK + c.relative && c.offset + 4 <= |bytes|
    ensures U32At(bytes, c.offset) >= 0x8000_0000 && c.size == U32_LIMIT - U32At(bytes, c.offset)
  {
    hide AllExtents, StoredBase, RootAt, BinsTile, AllBinsStored, ParseHive;
    HiveExactly(bytes);
    var (hive, root) := ParseHive(bytes).value;
    var bins :| SoundHive(bytes, root, bins) && Keeps(hive, bytes, bins);
    var extents := AllExtents(bins);
    var i :| 0 <= i < |extents| && extents[i].used && RecordOf(extents[i]) == c;
    ExtentsStored(bytes, bins);
    assert StoredCell(bytes, extents[i]);
  }

  lemma {:induction false} ExtentsStored(bytes: seq<byte>, bins: seq<Bin>)
    requires AllBinsStored(bytes, bins)
    ensures AllStored(bytes, AllExtents(bins))
  {
    hide StoredCell;
    if |bins| > 0 {
      BinsCons(bytes, bins);
      ExtentsStored(bytes, bins[1..]);
    }
  }

  // ---------- indexes ----------

  /** An index cell: its kind, the number of its entries, and the entries 4 or 8 bytes apart. */
  predicate StoredIndex(bytes: seq<byte>, index: Index, expected: nat) {
    && |bytes| >= 8
    && U16At(bytes, 6) == |index.entries| <= expected
    && var kind := (bytes[4] as char, bytes[5] as char);
       var stride := if kind == ('l', 'f') || kind == ('l', 'h') then 8 else 4;
    && kind in {('l', 'i'), ('l', 'f'), ('l', 'h'), ('r', 'i')}
    && (index.indirect <==> kind == ('r', 'i'))
    && 8 + stride * |index.entries| <= |bytes|
    && forall i :: 0 <= i < |index.entries| ==>
         index.entries[i] == (if stride == 8 then U32At(bytes, 8 + 8 * i) else U32At(bytes, 8 + 4 * i))
  }

  /** An index is read exactly as it is stored; no list at all is none. */
  lemma IndexExactly(hive: Hive, list: u32, expected: nat, index: Index)
    ensures IndexAt(hive, list, expected) == Some(index) <==>
              list != NO_CELL && CellAt(hive, list).Some? && StoredIndex(CellAt(hive, list).value, index, expected)
  {
    hide CellAt, FromLittle;
    var cell := CellAt(hive, list);
    if list != NO_CELL && cell.Some? && |cell.value| >= 8 {
      var bytes, count := cell.value, U16At(cell.value, 6);
      if 8 + 4 * count <= |bytes| && StoredIndex(bytes, index, expected) {
        assert index.entries == EntriesAt(bytes, if bytes[4] == 'l' as int && bytes[5] != 'i' as int then 8 else 4, count);
      }
    }
  }
}
