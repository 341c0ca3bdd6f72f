/** The hive parser at work: validation in two nested loops, and lookups in what it recorded. */
module HiveParsing {
  import opened Bytes
  import opened HiveBytes
  import opened RegistryHive
  import opened Results
  import opened Texts

  lemma AllocatedNext(extents: seq<Extent>, e: Extent)
    requires AllAddressable(extents) && Addressable(e)
    ensures AllAddressable(extents + [e])
    ensures Allocated(extents + [e])
         == Allocated(extents) + (if e.used then [CellRecord(e.offset - BLOCK, e.offset, e.size)] else [])
    decreases |extents|
  {
    if |extents| > 0 {
      assert (extents + [e])[1..] == extents[1..] + [e];
      AllocatedNext(extents[1..], e);
    } else {
      assert extents + [e] == [e] && [e][1..] == [];
    }
  }

  lemma {:induction false} AllocatedSplits(a: seq<Extent>, b: seq<Extent>)
    requires AllAddressable(a) && AllAddressable(b)
    ensures AllAddressable(a + b) && Allocated(a + b) == Allocated(a) + Allocated(b)
  {
    if |a| > 0 {
      assert (a + b)[1..] == a[1..] + b;
      AllocatedSplits(a[1..], b);
    } else {
      assert a + b == b;
    }
  }

  lemma {:induction false} ExtentsNext(bins: seq<Bin>, bin: Bin)
    ensures AllExtents(bins + [bin]) == AllExtents(bins) + bin.extents
  {
    if |bins| > 0 {
      assert (bins + [bin])[1..] == bins[1..] + [bin];
      ExtentsNext(bins[1..], bin);
    } else {
      assert bins + [bin] == [bin] && [bin][1..] == [];
    }
  }

  /** The rest of a scan decides about the whole. */
  ghost predicate Continues<T>(whole: Option<seq<T>>, done: seq<T>, rest: Option<seq<T>>) {
    whole == if rest.None? then None else Some(done + rest.value)
  }

  lemma ContinuesStart<T>(whole: Option<seq<T>>)
    ensures Continues(whole, [], whole)
  {
    if whole.Some? {
      assert [] + whole.value == whole.value;
    }
  }

  lemma ContinuesNext<T>(whole: Option<seq<T>>, done: seq<T>, x: T, rest: Option<seq<T>>)
    requires Continues(whole, done, if rest.None? then None else Some([x] + rest.value))
    ensures Continues(whole, done + [x], rest)
  {
    if rest.Some? {
      assert done + ([x] + rest.value) == (done + [x]) + rest.value;
    }
  }

  class HiveParser {
    const bytes: seq<byte>
    var cells: seq<CellRecord>
    var declaredEnd: nat
    var rootCell: u32

    constructor (bytes: seq<byte>)
      ensures this.bytes == bytes && cells == []
    {
      this.bytes := bytes;
      cells := [];
      declaredEnd := 0;
      rootCell := NO_CELL;
    }

    function View(): Hive
      reads this
    {
      Hive(bytes, cells)
    }

    /** The recorded cells are in order inside the declared region. */
    predicate Valid()
      reads this
    {
      && CellsOrdered(cells, BLOCK, declaredEnd)
      && declaredEnd <= |bytes|
      && declaredEnd < BLOCK + U32_LIMIT
    }

    // ---------- validation ----------

    /** The exclusive or of the words in front of the checksum field. */
    method ComputeChecksum() returns (sum: nat)
      requires |bytes| >= BLOCK
      ensures sum == XorWords(bytes, 0x1FC)
    {
      hide Xor, FromLittle;
      sum := 0;
      var offset := 0;
      while offset < 0x1FC
        invariant 0 <= offset <= 0x1FC && offset % 4 == 0
        invariant sum == XorWords(bytes, offset)
      {
        sum := Xor(sum, U32At(bytes, offset));
        offset := offset + 4;
      }
    }

    method CheckBaseBlock() returns (block: Option<(u32, nat)>)
      ensures block == ParseBaseBlock(bytes)
    {
      hide XorWords;
      if !HasBytes(bytes, 0, BLOCK) || !HasSignature(bytes, 0, 'r', 'e') || !HasSignature(bytes, 2, 'g', 'f') {
        return None;
      }
      if U32At(bytes, 4) != U32At(bytes, 8) || U32At(bytes, 0x1C) != 0 || U32At(bytes, 0x20) != 1 {
        return None;
      }
      var checksum := ComputeChecksum();
      if AdjustedChecksum(checksum) != U32At(bytes, 0x1FC) {
        return None;
      }
      var binsBytes := U32At(bytes, 0x28);
      if binsBytes == 0 || binsBytes % BLOCK != 0 || binsBytes > |bytes| - BLOCK {
        return None;
      }
      return Some((U32At(bytes, 0x24), binsBytes));
    }

    /** Walks the cells of one bin and records those in use. */
    method RecordCells(start: nat, end: nat) returns (ok: bool, ghost extents: seq<Extent>)
      requires BLOCK <= start <= end <= |bytes| && end < BLOCK + U32_LIMIT
      modifies this`cells
      ensures ok <==> ScanCells(bytes, start, end).Some?
      ensures ok ==> ScanCells(bytes, start, end) == Some(extents) && AllAddressable(extents)
      ensures ok ==> cells == old(cells) + Allocated(extents)
    {
      hide ExtentAt;
      extents := [];
      ContinuesStart(ScanCells(bytes, start, end));
      var offset := start;
      while offset < end
        invariant start <= offset <= end
        invariant Continues(ScanCells(bytes, start, end), extents, ScanCells(bytes, offset, end))
        invariant AllAddressable(extents) && cells == old(cells) + Allocated(extents)
        decreases end - offset
      {
        var cell := ExtentAt(bytes, offset, end);
        if cell.None? {
          return false, extents;
        }
        var e := cell.value;
        ContinuesNext(ScanCells(bytes, start, end), extents, e, ScanCells(bytes, offset + e.size, end));
        AllocatedNext(extents, e);
        if e.used {
          cells := cells + [CellRecord(offset - BLOCK, offset, e.size)];
        }
        extents := extents + [e];
        offset := offset + e.size;
      }
      assert extents + [] == extents;
      return true, extents;
    }

    /** Walks the bins of the declared region. */
    method RecordBins(end: nat) returns (ok: bool)
      requires BLOCK <= end <= |bytes| && end < BLOCK + U32_LIMIT && cells == []
      modifies this`cells
      ensures ok <==> ScanBins(bytes, BLOCK, end).Some?
      ensures ok ==> var extents := AllExtents(ScanBins(bytes, BLOCK, end).value);
        AllAddressable(extents) && cells == Allocated(extents)
    {
      hide BinSize, ScanCells;
      ghost var bins: seq<Bin> := [];
      ContinuesStart(ScanBins(bytes, BLOCK, end));
      var offset := BLOCK;
      while offset < end
        invariant BLOCK <= offset <= end
        invariant Continues(ScanBins(bytes, BLOCK, end), bins, ScanBins(bytes, offset, end))
        invariant AllAddressable(AllExtents(bins)) && cells == Allocated(AllExtents(bins))
        decreases end - offset
      {
        var size := BinSize(bytes, offset, end);
        if size.None? {
          return false;
        }
        var recorded, extents := RecordCells(offset + BIN_HEADER, offset + size.value);
        if !recorded {
          return false;
        }
        ghost var bin := Bin(offset, size.value, extents);
        ContinuesNext(ScanBins(bytes, BLOCK, end), bins, bin, ScanBins(bytes, offset + size.value, end));
        ExtentsNext(bins, bin);
        AllocatedSplits(AllExtents(bins), extents);
        bins := bins + [bin];
        offset := offset + size.value;
      }
      assert bins + [] == bins;
      return true;
    }

    /** Accepts exactly the sound hives, and then has recorded their cells in order. */
    method Validate() returns (ok: bool)
      requires cells == []
      modifies this
      ensures ok <==> ParseHive(bytes).Some?
      ensures ok ==> Valid() && (View(), rootCell) == ParseHive(bytes).value
      ensures ok <==> exists root: u32, bins :: SoundHive(bytes, root, bins)
      ensures ok ==> exists bins :: SoundHive(bytes, rootCell, bins) && Keeps(View(), bytes, bins)
    {
      hide SoundHive, Keeps;
      HiveExactly(bytes);
      hide ParseBaseBlock, ScanBins, ParseKey, CellsOrdered, AllExtents, Allocated;
      var block := CheckBaseBlock();
      if block.None? {
        return false;
      }
      var (root, binsBytes) := block.value;
      declaredEnd := BLOCK + binsBytes;
      rootCell := root;
      var recorded := RecordBins(declaredEnd);
      if !recorded {
        return false;
      }
      RecordedInOrder(bytes, binsBytes);
      if |cells| == 0 {
        return false;
      }
      var key := ReadKey(rootCell);
      return key.Some?;
    }

    // ---------- lookups ----------

    /** The first record that is not in front of the offset, by halving the range. */
    method LowerBound(relative: u32) returns (index: nat)
      requires Valid()
      ensures index <= |cells|
      ensures forall i :: 0 <= i < index ==> cells[i].relative < relative
      ensures forall i :: index <= i < |cells| ==> relative <= cells[i].relative
    {
      index := 0;
      var count := |cells|;
      while count > 0
        invariant 0 <= count && index + count <= |cells|
        invariant forall i :: 0 <= i < index ==> cells[i].relative < relative
        invariant forall i :: index + count <= i < |cells| ==> relative <= cells[i].relative
      {
        var half := count / 2;
        var middle := index + half;
        if cells[middle].relative < relative {
          assert forall i :: 0 <= i < middle ==> cells[i].offset + cells[i].size <= cells[middle].offset;
          index := middle + 1;
          count := count - half - 1;
        } else {
          assert forall i :: middle < i < |cells| ==> cells[middle].offset + cells[middle].size <= cells[i].offset;
          count := half;
        }
      }
    }

    /** The binary search finds the same cell as a search from the front. */
    method Cell(relative: u32) returns (cell: Option<seq<byte>>)
      requires Valid()
      ensures cell == CellAt(View(), relative)
    {
      var index := LowerBound(relative);
      if index == |cells| || cells[index].relative != relative {
        NoRecord(cells, index, relative);
        return None;
      }
      OneRecord(cells, index, declaredEnd);
      var record := cells[index];
      if !HasBytes(bytes, record.offset, record.size) {
        return None;
      }
      return Some(bytes[record.offset..record.offset + record.size]);
    }

    method ReadKey(relative: u32) returns (key: Option<KeyNode>)
      requires Valid()
      ensures key == ParseKey(View(), relative)
    {
      var found := Cell(relative);
      if found.None? || |found.value| < 80 || !HasSignature(found.value, 4, 'n', 'k') {
        return None;
      }
      var cell := found.value;
      var subkeyCount, valueCount := U32At(cell, 24), U32At(cell, 40);
      if subkeyCount > MAXIMUM_SUBKEYS || valueCount > MAXIMUM_VALUES {
        return None;
      }
      var name := DecodeName(cell, 80, U16At(cell, 76), U16At(cell, 6) / 0x20 % 2 == 1, MAXIMUM_KEY_NAME);
      if name.None? {
        return None;
      }
      return Some(KeyNode(subkeyCount, U32At(cell, 32), valueCount, U32At(cell, 44), name.value));
    }

    /** The one subkey of that name, if the key's index is sound and the name occurs exactly once. */
    method FindSubkey(parent: u32, name: seq<u16>, fold: Fold) returns (r: Option<u32>)
      requires Valid()
      ensures forall key: u32 :: r == Some(key) <==> NamedSubkey(View(), parent, name, fold, key)
    {
      hide Unfold, CellsOrdered, ParseKey, CellAt, SameText, HasName, Distinct;
      var node := ReadKey(parent);
      if node.None? || node.value.subkeyCount == 0 || node.value.subkeyList == NO_CELL {
        return None;
      }
      NothingDistinct();
      var count := node.value.subkeyCount;
      var collected, visited, keys := CollectSubkeys(View(), node.value.subkeyList, 0, [], [], count);
      if !collected {
        return None;
      }
      ghost var listed := Unfold(View(), node.value.subkeyList, 0, count).value.keys;
      assert keys == listed by {
        assert [] + listed == listed;
      }
      if |keys| != count {
        return None;
      }
      assert Distinct(keys) && SubkeysOf(View(), parent) == Some(keys);
      r := PickByName(keys, name, fold);
    }

    /** Reads every key and looks for the name; a second match or an unreadable key spoils it. */
    method PickByName(keys: seq<u32>, name: seq<u16>, fold: Fold) returns (r: Option<u32>)
      requires Valid() && Distinct(keys)
      ensures forall key: u32 :: r == Some(key) <==> OnlyMatch(View(), keys, name, fold, key)
    {
      hide CellsOrdered, ParseKey, SameText;
      var found := NO_CELL;
      for k := 0 to |keys|
        invariant forall i :: 0 <= i < k ==> ParseKey(View(), keys[i]).Some?
        invariant found == NO_CELL ==> forall i :: 0 <= i < k ==> !HasName(View(), keys[i], name, fold)
        invariant found != NO_CELL ==> found in keys[..k] && HasName(View(), found, name, fold)
        invariant found != NO_CELL ==>
          forall i :: 0 <= i < k && keys[i] != found ==> !HasName(View(), keys[i], name, fold)
      {
        var key := ReadKey(keys[k]);
        if key.None? {
          assert keys[k] in keys;
          return None;
        }
        NotTheSentinel(keys[k]);
        if SameText(key.value.name, name, fold) {
          if found != NO_CELL {
            assert found != keys[k] && found in keys && keys[k] in keys;
            return None;
          }
          found := keys[k];
        }
      }
      return if found == NO_CELL then None else Some(found);
    }

    /** No key lives where the sentinel points. */
    lemma NotTheSentinel(relative: u32)
      requires Valid() && ParseKey(View(), relative).Some?
      ensures relative != NO_CELL
    {
      var record := FindCell(cells, relative).value;
      var i :| 0 <= i < |cells| && cells[i] == record;
    }
  }

  lemma RecordedInOrder(bytes: seq<byte>, binsBytes: nat)
    requires BLOCK + binsBytes <= |bytes| && binsBytes < U32_LIMIT && ScanBins(bytes, BLOCK, BLOCK + binsBytes).Some?
    ensures var extents := AllExtents(ScanBins(bytes, BLOCK, BLOCK + binsBytes).value);
      AllAddressable(extents) && CellsOrdered(Allocated(extents), BLOCK, BLOCK + binsBytes)
  {
    hide ScanBins, Ordered, BinsTile, AllExtents, Allocated, CellsOrdered;
    var bins := ScanBins(bytes, BLOCK, BLOCK + binsBytes).value;
    ScannedBinsTile(bytes, BLOCK, BLOCK + binsBytes);
    BinsOrdered(bins, BLOCK, BLOCK + binsBytes);
    OrderedAddressable(AllExtents(bins), BLOCK, BLOCK + binsBytes);
    AllocatedOrdered(AllExtents(bins), BLOCK, BLOCK + binsBytes);
  }

  lemma NoRecord(cells: seq<CellRecord>, index: nat, relative: u32)
    requires index <= |cells|
    requires forall i :: 0 <= i < index ==> cells[i].relative < relative
    requires forall i :: index <= i < |cells| ==> relative <= cells[i].relative
    requires forall i, j :: 0 <= i < j < |cells| ==> cells[i].relative < cells[j].relative
    requires index < |cells| ==> cells[index].relative != relative
    ensures FindCell(cells, relative).None?
  {
    forall i | 0 <= i < |cells| ensures cells[i].relative != relative {
    }
  }

  lemma OneRecord(cells: seq<CellRecord>, index: nat, end: nat)
    requires index < |cells| && CellsOrdered(cells, BLOCK, end)
    ensures FindCell(cells, cells[index].relative) == Some(cells[index])
  {
    var found := FindCell(cells, cells[index].relative).value;
    var i :| 0 <= i < |cells| && cells[i] == found;
  }

  // ---------- subkeys by name ----------

  predicate HasName(hive: Hive, key: u32, name: seq<u16>, fold: Fold) {
    ParseKey(hive, key).Some? && SameText(ParseKey(hive, key).value.name, name, fold)
  }

  /** The keys that the index of the parent lists, if it is sound. */
  function SubkeysOf(hive: Hive, parent: u32): Option<seq<u32>> {
    var node := ParseKey(hive, parent);
    if node.None? || node.value.subkeyCount == 0 || node.value.subkeyList == NO_CELL then None
    else
      var count := node.value.subkeyCount;
      if !Collects(hive, node.value.subkeyList, 0, [], [], count) then None
      else
        var keys := Unfold(hive, node.value.subkeyList, 0, count).value.keys;
        if |keys| != count then None else Some(keys)
  }

  /** All these keys can be read, and this is the only one with the name. */
  predicate OnlyMatch(hive: Hive, keys: seq<u32>, name: seq<u16>, fold: Fold, key: u32) {
    && key in keys
    && (forall k :: k in keys ==> ParseKey(hive, k).Some?)
    && (forall k :: k in keys ==> (HasName(hive, k, name, fold) <==> k == key))
  }

  predicate NamedSubkey(hive: Hive, parent: u32, name: seq<u16>, fold: Fold, key: u32) {
    SubkeysOf(hive, parent).Some? && OnlyMatch(hive, SubkeysOf(hive, parent).value, name, fold, key)
  }

  lemma NothingDistinct()
    ensures Distinct([])
  {
  }
}
