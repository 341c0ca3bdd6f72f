/**
 Registry hives as the tool reads them: a base block, bins tiled by cells, keys
 in some of the cells, and index cells that list the subkeys of a key. Every
 defect is the same error, so a parse either has a result or has none.
 */
module RegistryHive {
  import opened Bytes
  import opened Results

  const BLOCK: nat := 4096
  const BIN_HEADER: nat := 32
  const NO_CELL: u32 := U32_LIMIT - 1
  const MAXIMUM_SUBKEYS: nat := 1024 * 1024
  const MAXIMUM_VALUES: nat := 4096
  const MAXIMUM_KEY_NAME: nat := 512
  const MAXIMUM_DEPTH: nat := 8

  datatype CellRecord = CellRecord(relative: u32, offset: nat, size: nat)

  /** A cell in a bin, in use or free. */
  datatype Extent = Extent(offset: nat, size: nat, used: bool)

  datatype Bin = Bin(offset: nat, size: nat, extents: seq<Extent>)

  datatype Hive = Hive(bytes: seq<byte>, cells: seq<CellRecord>)

  predicate HasBytes(bytes: seq<byte>, offset: nat, count: nat) {
    offset + count <= |bytes|
  }

  predicate HasSignature(bytes: seq<byte>, offset: nat, first: char, second: char) {
    HasBytes(bytes, offset, 2) && bytes[offset] == first as int && bytes[offset + 1] == second as int
  }

  // ---------- the base block ----------

  /** Bitwise exclusive or. */
  function Xor(a: nat, b: nat): (r: nat)
    decreases a + b
  {
    if a == 0 && b == 0 then 0 else 2 * Xor(a / 2, b / 2) + (if a % 2 != b % 2 then 1 else 0)
  }

  /** The exclusive or of the words in front of `end`. */
  function XorWords(bytes: seq<byte>, end: nat): nat
    requires end <= |bytes|
    decreases end
  {
    if end < 4 then 0 else Xor(XorWords(bytes, end - 4), U32At(bytes, end - 4))
  }

  function AdjustedChecksum(sum: nat): nat {
    if sum == U32_LIMIT - 1 then U32_LIMIT - 2 else if sum == 0 then 1 else sum
  }

  /** The root cell and the length of the bins, if the base block is sound. */
  function ParseBaseBlock(bytes: seq<byte>): (r: Option<(u32, nat)>)
    ensures r.Some? ==> r.value.1 % BLOCK == 0 && 0 < r.value.1 <= |bytes| - BLOCK && r.value.1 < U32_LIMIT
  {
    if !HasBytes(bytes, 0, BLOCK) || !HasSignature(bytes, 0, 'r', 'e') || !HasSignature(bytes, 2, 'g', 'f') then None
    else if U32At(bytes, 4) != U32At(bytes, 8) || U32At(bytes, 0x1C) != 0 || U32At(bytes, 0x20) != 1 then None
    else if AdjustedChecksum(XorWords(bytes, 0x1FC)) != U32At(bytes, 0x1FC) then None
    else
      var binsBytes := U32At(bytes, 0x28);
      if binsBytes == 0 || binsBytes % BLOCK != 0 || binsBytes > |bytes| - BLOCK then None
      else Some((U32At(bytes, 0x24), binsBytes))
  }

  // ---------- bins and cells ----------

  /** The cell at `offset`: its size is stored negated while it is in use. */
  function ExtentAt(bytes: seq<byte>, offset: nat, end: nat): (r: Option<Extent>)
    requires end <= |bytes| && offset < end
    ensures r.Some? ==> r.value.offset == offset && 8 <= r.value.size <= end - offset && r.value.size % 8 == 0
  {
    if offset + 4 > |bytes| then None
    else
      var raw := U32At(bytes, offset);
      var used := raw >= 0x8000_0000;
      var size := if used then U32_LIMIT - raw else raw;
      if raw == 0 || raw == 0x8000_0000 || size < 8 || size % 8 != 0 || size > end - offset then None
      else Some(Extent(offset, size, used))
  }

  function ScanCells(bytes: seq<byte>, offset: nat, end: nat): (r: Option<seq<Extent>>)
    requires offset <= end <= |bytes|
    decreases end - offset
  {
    if offset == end then Some([])
    else
      var first := ExtentAt(bytes, offset, end);
      if first.None? then None
      else
        var rest := ScanCells(bytes, offset + first.value.size, end);
        if rest.None? then None else Some([first.value] + rest.value)
  }

  function BinSize(bytes: seq<byte>, offset: nat, end: nat): (r: Option<nat>)
    requires BLOCK <= offset < end <= |bytes|
    ensures r.Some? ==> BLOCK <= r.value <= end - offset && r.value % BLOCK == 0
  {
    if !HasBytes(bytes, offset, BIN_HEADER) || !HasSignature(bytes, offset, 'h', 'b')
       || !HasSignature(bytes, offset + 2, 'i', 'n') then None
    else
      var size := U32At(bytes, offset + 8);
      if U32At(bytes, offset + 4) != offset - BLOCK || size < BLOCK || size % BLOCK != 0 || size > end - offset then None
      else Some(size)
  }

  function ScanBins(bytes: seq<byte>, offset: nat, end: nat): (r: Option<seq<Bin>>)
    requires BLOCK <= offset <= end <= |bytes|
    decreases end - offset
  {
    if offset == end then Some([])
    else
      var size := BinSize(bytes, offset, end);
      if size.None? then None
      else
        var extents := ScanCells(bytes, offset + BIN_HEADER, offset + size.value);
        if extents.None? then None
        else
          var rest := ScanBins(bytes, offset + size.value, end);
          if rest.None? then None else Some([Bin(offset, size.value, extents.value)] + rest.value)
  }

  predicate Addressable(e: Extent) {
    BLOCK <= e.offset < BLOCK + U32_LIMIT
  }

  predicate AllAddressable(extents: seq<Extent>) {
    forall i :: 0 <= i < |extents| ==> Addressable(extents[i])
  }

  /** The records of the cells in use. */
  function Allocated(extents: seq<Extent>): (cells: seq<CellRecord>)
    requires AllAddressable(extents)
  {
    if |extents| == 0 then []
    else
      assert Addressable(extents[0]);
      var first := extents[0];
      (if first.used then [CellRecord(first.offset - BLOCK, first.offset, first.size)] else [])
      + Allocated(extents[1..])
  }

  /** All cells of all bins, in the order of the file. */
  function AllExtents(bins: seq<Bin>): (extents: seq<Extent>) {
    if |bins| == 0 then [] else bins[0].extents + AllExtents(bins[1..])
  }

  // ---------- tiling ----------

  /** One behind the other, without gaps, from `start` to `end`. */
  predicate Tiles(extents: seq<Extent>, start: nat, end: nat) {
    if |extents| == 0 then start == end
    else extents[0].offset == start && extents[0].size >= 8 && Tiles(extents[1..], start + extents[0].size, end)
  }

  /** The bins follow each other from `start` to `end`, each filled with cells behind its header. */
  predicate BinsTile(bins: seq<Bin>, start: nat, end: nat) {
    if |bins| == 0 then start == end
    else
      && bins[0].offset == start
      && Tiles(bins[0].extents, start + BIN_HEADER, start + bins[0].size)
      && BinsTile(bins[1..], start + bins[0].size, end)
  }

  lemma {:induction false} ScannedCellsTile(bytes: seq<byte>, offset: nat, end: nat)
    requires offset <= end <= |bytes| && ScanCells(bytes, offset, end).Some?
    ensures Tiles(ScanCells(bytes, offset, end).value, offset, end)
    decreases end - offset
  {
    hide ExtentAt;
    if offset < end {
      ScannedCellsTile(bytes, offset + ExtentAt(bytes, offset, end).value.size, end);
    }
  }

  /** The free and the used cells of an accepted hive tile every bin, and the bins tile the declared region. */
  lemma {:induction false} ScannedBinsTile(bytes: seq<byte>, offset: nat, end: nat)
    requires BLOCK <= offset <= end <= |bytes| && ScanBins(bytes, offset, end).Some?
    ensures BinsTile(ScanBins(bytes, offset, end).value, offset, end)
    decreases end - offset
  {
    hide BinSize, ScanCells, Tiles;
    if offset < end {
      var size := BinSize(bytes, offset, end).value;
      ScannedCellsTile(bytes, offset + BIN_HEADER, offset + size);
      ScannedBinsTile(bytes, offset + size, end);
    }
  }

  /** Inside `[start, end)`, in order, and apart. */
  predicate Ordered(extents: seq<Extent>, start: nat, end: nat) {
    && start <= end
    && (forall i :: 0 <= i < |extents| ==>
          start <= extents[i].offset && extents[i].offset + extents[i].size <= end && extents[i].size >= 8)
    && (forall i, j :: 0 <= i < j < |extents| ==> extents[i].offset + extents[i].size <= extents[j].offset)
  }

  lemma OrderedCons(e: Extent, rest: seq<Extent>, start: nat, middle: nat, end: nat)
    requires start <= e.offset && e.size >= 8 && e.offset + e.size <= middle && Ordered(rest, middle, end)
    ensures Ordered([e] + rest, start, end)
  {
    var all := [e] + rest;
    assert forall i :: 0 < i < |all| ==> all[i] == rest[i - 1];
  }

  lemma {:induction false} TilesOrdered(extents: seq<Extent>, start: nat, end: nat)
    requires Tiles(extents, start, end)
    ensures Ordered(extents, start, end)
  {
    hide Ordered;
    if |extents| > 0 {
      TilesOrdered(extents[1..], start + extents[0].size, end);
      OrderedCons(extents[0], extents[1..], start, start + extents[0].size, end);
      assert extents == [extents[0]] + extents[1..];
    } else {
      NoneOrdered(start);
    }
  }

  lemma NoneOrdered(start: nat)
    ensures Ordered([], start, start)
  {
  }

  lemma OrderedJoin(a: seq<Extent>, b: seq<Extent>, start: nat, from: nat, to: nat, end: nat)
    requires start <= from && Ordered(a, from, to) && Ordered(b, to, end)
    ensures Ordered(a + b, start, end)
  {
  }

  lemma {:induction false} BinsOrdered(bins: seq<Bin>, start: nat, end: nat)
    requires BinsTile(bins, start, end)
    ensures Ordered(AllExtents(bins), start, end)
  {
    hide Ordered;
    if |bins| > 0 {
      var first := bins[0];
      BinsOrdered(bins[1..], start + first.size, end);
      TilesOrdered(first.extents, start + BIN_HEADER, start + first.size);
      OrderedJoin(first.extents, AllExtents(bins[1..]), start, start + BIN_HEADER, start + first.size, end);
    } else {
      NoneOrdered(start);
    }
  }

  lemma OrderedAddressable(extents: seq<Extent>, start: nat, end: nat)
    requires Ordered(extents, start, end) && BLOCK <= start && end <= BLOCK + U32_LIMIT
    ensures AllAddressable(extents)
  {
  }

  /** The recorded cells: ascending, apart, and inside the region. */
  predicate CellsOrdered(cells: seq<CellRecord>, start: nat, end: nat) {
    && (forall i :: 0 <= i < |cells| ==>
          && cells[i].offset == BLOCK + cells[i].relative && cells[i].size >= 8
          && start <= cells[i].offset && cells[i].offset + cells[i].size <= end)
    && (forall i, j :: 0 <= i < j < |cells| ==> cells[i].offset + cells[i].size <= cells[j].offset)
  }

  lemma {:induction false} AllocatedOrdered(extents: seq<Extent>, start: nat, end: nat)
    requires Ordered(extents, start, end) && AllAddressable(extents)
    ensures CellsOrdered(Allocated(extents), start, end)
  {
    hide CellsOrdered;
    if |extents| > 0 {
      var first := extents[0];
      OrderedTail(extents, start, end);
      AllocatedOrdered(extents[1..], first.offset + first.size, end);
      CellsCons(first, Allocated(extents[1..]), start, end);
      assert [] + Allocated(extents[1..]) == Allocated(extents[1..]);
    } else {
      NoCells(start, end);
    }
  }

  lemma NoCells(start: nat, end: nat)
    ensures CellsOrdered([], start, end)
  {
  }

  lemma OrderedTail(extents: seq<Extent>, start: nat, end: nat)
    requires |extents| > 0 && Ordered(extents, start, end) && AllAddressable(extents)
    ensures Ordered(extents[1..], extents[0].offset + extents[0].size, end) && AllAddressable(extents[1..])
    ensures start <= extents[0].offset && extents[0].size >= 8 && Addressable(extents[0])
  {
  }

  lemma CellsCons(e: Extent, cells: seq<CellRecord>, start: nat, end: nat)
    requires Addressable(e) && start <= e.offset && e.size >= 8 && e.offset + e.size <= end
    requires CellsOrdered(cells, e.offset + e.size, end)
    ensures CellsOrdered(cells, start, end)
    ensures CellsOrdered([CellRecord(e.offset - BLOCK, e.offset, e.size)] + cells, start, end)
  {
    var all := [CellRecord(e.offset - BLOCK, e.offset, e.size)] + cells;
    assert forall i :: 0 < i < |all| ==> all[i] == cells[i - 1];
  }

  // ---------- lookup ----------

  /** The record with that relative offset, by looking at each from the front. */
  function FindCell(cells: seq<CellRecord>, relative: u32): (found: Option<CellRecord>)
    ensures found.Some? ==> found.value in cells && found.value.relative == relative
    ensures found.None? ==> forall c :: c in cells ==> c.relative != relative
  {
    if |cells| == 0 then None
    else if cells[0].relative == relative then Some(cells[0])
    else FindCell(cells[1..], relative)
  }

  function CellAt(hive: Hive, relative: u32): (cell: Option<seq<byte>>) {
    var found := FindCell(hive.cells, relative);
    if found.None? || !HasBytes(hive.bytes, found.value.offset, found.value.size) then None
    else Some(hive.bytes[found.value.offset..found.value.offset + found.value.size])
  }

  // ---------- keys ----------

  datatype KeyNode = KeyNode(subkeyCount: nat, subkeyList: u32, valueCount: nat, valueList: u32, name: seq<u16>)

  /** A name of 16-bit characters, or compressed to one byte each; never with a NUL. */
  function DecodeName(bytes: seq<byte>, offset: nat, length: nat, compressed: bool, maximum: nat): Option<seq<u16>> {
    if length > maximum || !HasBytes(bytes, offset, length) then None
    else if !compressed && length % 2 != 0 then None
    else
      var name := if compressed then Widened(bytes[offset..offset + length]) else Units(bytes[offset..offset + length]);
      if 0 in name then None else Some(name)
  }

  function Widened(bytes: seq<byte>): (name: seq<u16>)
    ensures |name| == |bytes| && forall i :: 0 <= i < |name| ==> name[i] == bytes[i]
  {
    seq(|bytes|, i requires 0 <= i < |bytes| => bytes[i])
  }

  function Units(bytes: seq<byte>): (name: seq<u16>) {
    if |bytes| < 2 then [] else [U16At(bytes, 0)] + Units(bytes[2..])
  }

  function ParseKey(hive: Hive, relative: u32): (key: Option<KeyNode>) {
    var cell := CellAt(hive, relative);
    if cell.None? || |cell.value| < 80 || !HasSignature(cell.value, 4, 'n', 'k') then None
    else
      var bytes := cell.value;
      var subkeyCount, valueCount := U32At(bytes, 24), U32At(bytes, 40);
      if subkeyCount > MAXIMUM_SUBKEYS || valueCount > MAXIMUM_VALUES then None
      else
        var compressed := U16At(bytes, 6) / 0x20 % 2 == 1;
        var name := DecodeName(bytes, 80, U16At(bytes, 76), compressed, MAXIMUM_KEY_NAME);
        if name.None? then None
        else Some(KeyNode(subkeyCount, U32At(bytes, 32), valueCount, U32At(bytes, 44), name.value))
  }

  /** The parsed hive and its root key, if everything is in order. */
  function ParseHive(bytes: seq<byte>): (r: Option<(Hive, u32)>) {
    var block := ParseBaseBlock(bytes);
    if block.None? then None
    else
      var (root, binsBytes) := block.value;
      var bins := ScanBins(bytes, BLOCK, BLOCK + binsBytes);
      if bins.None? then None
      else
        ScannedBinsTile(bytes, BLOCK, BLOCK + binsBytes);
        BinsOrdered(bins.value, BLOCK, BLOCK + binsBytes);
        OrderedAddressable(AllExtents(bins.value), BLOCK, BLOCK + binsBytes);
        var hive := Hive(bytes, Allocated(AllExtents(bins.value)));
        if |hive.cells| == 0 || ParseKey(hive, root).None? then None else Some((hive, root))
  }

  // ---------- subkey lists ----------

  /** An index cell: the subkeys themselves, or further index cells. */
  datatype Index = Index(indirect: bool, entries: seq<u32>)

  function EntriesAt(bytes: seq<byte>, stride: nat, count: nat): (entries: seq<u32>)
    requires stride == 4 || stride == 8
    requires 8 + count * stride <= |bytes|
    ensures |entries| == count
  {
    seq(count, i requires 0 <= i < count => EntryAt(bytes, stride, count, i))
  }

  function EntryAt(bytes: seq<byte>, stride: nat, count: nat, i: nat): u32
    requires stride == 4 || stride == 8
    requires 8 + count * stride <= |bytes| && i < count
  {
    U32At(bytes, 8 + i * stride)
  }

  function IndexAt(hive: Hive, list: u32, expected: nat): (index: Option<Index>)
    ensures index.Some? ==> |index.value.entries| <= expected
  {
    if list == NO_CELL then None
    else
      var cell := CellAt(hive, list);
      if cell.None? || |cell.value| < 8 then None
      else
        var bytes := cell.value;
        var direct := HasSignature(bytes, 4, 'l', 'i');
        var hashed := HasSignature(bytes, 4, 'l', 'f') || HasSignature(bytes, 4, 'l', 'h');
        var indirect := HasSignature(bytes, 4, 'r', 'i');
        var stride := if hashed then 8 else 4;
        var count := U16At(bytes, 6);
        if (!direct && !hashed && !indirect) || count > expected || count > (|bytes| - 8) / stride then None
        else Some(Index(indirect, EntriesAt(bytes, stride, count)))
  }

  /** What the index at a list unfolds to: the index cells in the order of the visit, and the subkeys in index order. */
  datatype Unfolded = Unfolded(lists: seq<u32>, keys: seq<u32>)

  /** The index without regard to cycles or repetitions; it is never deeper than the maximum. */
  function Unfold(hive: Hive, list: u32, depth: nat, expected: nat): (u: Option<Unfolded>)
    ensures u.Some? ==> |u.value.lists| >= 1 && u.value.lists[0] == list
    decreases MAXIMUM_DEPTH + 1 - depth, 0
  {
    if depth > MAXIMUM_DEPTH then None
    else
      var index := IndexAt(hive, list, expected);
      if index.None? then None
      else if !index.value.indirect then Some(Unfolded([list], index.value.entries))
      else
        var below := UnfoldAll(hive, index.value.entries, depth + 1, expected);
        if below.None? then None else Some(Unfolded([list] + below.value.lists, below.value.keys))
  }

  function UnfoldAll(hive: Hive, entries: seq<u32>, depth: nat, expected: nat): (u: Option<Unfolded>)
    requires depth <= MAXIMUM_DEPTH + 1
    decreases MAXIMUM_DEPTH + 1 - depth, |entries| + 1
  {
    if |entries| == 0 then Some(Unfolded([], []))
    else
      var front := UnfoldAll(hive, entries[..|entries| - 1], depth, expected);
      var last := Unfold(hive, entries[|entries| - 1], depth, expected);
      if front.None? || last.None? then None
      else Some(Unfolded(front.value.lists + last.value.lists, front.value.keys + last.value.keys))
  }

  predicate Distinct(s: seq<u32>) {
    forall i, j :: 0 <= i < j < |s| ==> s[i] != s[j]
  }

  /** What was collected so far can be continued with this: no list twice, no key twice, not too many keys. */
  predicate Collectable(visited: seq<u32>, keys: seq<u32>, u: Unfolded, expected: nat) {
    && Distinct(visited + u.lists)
    && Distinct(keys + u.keys)
    && |keys + u.keys| <= expected
  }

  /** The collection succeeds. */
  predicate Collects(hive: Hive, list: u32, depth: nat, visited: seq<u32>, keys: seq<u32>, expected: nat) {
    var u := Unfold(hive, list, depth, expected);
    u.Some? && Collectable(visited, keys, u.value, expected)
  }

  lemma DistinctPrefix(a: seq<u32>, b: seq<u32>)
    requires Distinct(a + b)
    ensures Distinct(a)
  {
    forall i, j | 0 <= i < j < |a| ensures a[i] != a[j] {
      assert (a + b)[i] == a[i] && (a + b)[j] == a[j];
    }
  }

  lemma DistinctNext(s: seq<u32>, x: u32)
    requires Distinct(s)
    ensures Distinct(s + [x]) <==> x !in s
  {
    var t := s + [x];
    assert t[|s|] == x;
    if x in s {
      var i :| 0 <= i < |s| && s[i] == x;
      assert t[i] == t[|s|];
    }
  }

  lemma {:induction false} UnfoldAllPrefix(hive: Hive, entries: seq<u32>, k: nat, depth: nat, expected: nat)
    requires k <= |entries| && depth <= MAXIMUM_DEPTH + 1
    ensures UnfoldAll(hive, entries, depth, expected).Some? ==>
              && UnfoldAll(hive, entries[..k], depth, expected).Some?
              && UnfoldAll(hive, entries[..k], depth, expected).value.lists
                 <= UnfoldAll(hive, entries, depth, expected).value.lists
              && UnfoldAll(hive, entries[..k], depth, expected).value.keys
                 <= UnfoldAll(hive, entries, depth, expected).value.keys
    decreases |entries|
  {
    hide Unfold;
    if k < |entries| {
      UnfoldAllPrefix(hive, entries[..|entries| - 1], k, depth, expected);
      assert entries[..|entries| - 1][..k] == entries[..k];
    } else {
      assert entries[..k] == entries;
    }
  }

  /** If the front of an index cannot be collected, neither can the whole. */
  lemma PrefixFails(hive: Hive, entries: seq<u32>, k: nat, depth: nat, expected: nat, visited: seq<u32>, keys: seq<u32>)
    requires k <= |entries| && depth <= MAXIMUM_DEPTH + 1
    requires var front := UnfoldAll(hive, entries[..k], depth, expected);
      front.None? || !Collectable(visited, keys, front.value, expected)
    ensures var all := UnfoldAll(hive, entries, depth, expected);
      all.None? || !Collectable(visited, keys, all.value, expected)
  {
    hide UnfoldAll, Distinct;
    UnfoldAllPrefix(hive, entries, k, depth, expected);
    var front, all := UnfoldAll(hive, entries[..k], depth, expected), UnfoldAll(hive, entries, depth, expected);
    if all.Some? && Collectable(visited, keys, all.value, expected) {
      PrefixJoin(visited, front.value.lists, all.value.lists);
      PrefixJoin(keys, front.value.keys, all.value.keys);
    }
  }

  lemma PrefixJoin(a: seq<u32>, front: seq<u32>, all: seq<u32>)
    requires front <= all && Distinct(a + all)
    ensures Distinct(a + front) && |a + front| <= |a + all|
  {
    assert all == front + all[|front|..];
    assert a + all == (a + front) + all[|front|..];
    DistinctPrefix(a + front, all[|front|..]);
  }

  /** An index that is too deep, missing or already visited is not collected. */
  lemma NotCollected(hive: Hive, list: u32, depth: nat, visited: seq<u32>, keys: seq<u32>, expected: nat)
    requires depth > MAXIMUM_DEPTH || list == NO_CELL || list in visited
    ensures !Collects(hive, list, depth, visited, keys, expected)
  {
    hide Unfold, CellAt;
    UnfoldStep(hive, list, depth, expected);
    var u := Unfold(hive, list, depth, expected);
    if u.Some? && list in visited {
      var i :| 0 <= i < |visited| && visited[i] == list;
      assert (visited + u.value.lists)[i] == (visited + u.value.lists)[|visited|];
    }
  }

  lemma UnfoldStep(hive: Hive, list: u32, depth: nat, expected: nat)
    ensures Unfold(hive, list, depth, expected) ==
      if depth > MAXIMUM_DEPTH || IndexAt(hive, list, expected).None? then None
      else
        var index := IndexAt(hive, list, expected).value;
        if !index.indirect then Some(Unfolded([list], index.entries))
        else
          var below := UnfoldAll(hive, index.entries, depth + 1, expected);
          if below.None? then None else Some(Unfolded([list] + below.value.lists, below.value.keys))
  {
    hide IndexAt, UnfoldAll;
  }

  lemma ListFirst(visited: seq<u32>, list: u32, keys: seq<u32>, below: Unfolded, expected: nat)
    ensures Collectable(visited, keys, Unfolded([list] + below.lists, below.keys), expected)
       <==> Collectable(visited + [list], keys, below, expected)
    ensures visited + ([list] + below.lists) == visited + [list] + below.lists
  {
    hide Distinct;
    assert visited + ([list] + below.lists) == visited + [list] + below.lists;
  }

  /**
   Collects the subkeys of an index. It always terminates, visits no index cell
   twice, and succeeds exactly when the unfolded index is sound, bounded and
   free of repetitions; then it delivers the unfolded index, in order.
   */
  method CollectSubkeys(hive: Hive, list: u32, depth: nat, visited: seq<u32>, keys: seq<u32>, expected: nat)
    returns (ok: bool, nowVisited: seq<u32>, nowKeys: seq<u32>)
    requires Distinct(visited) && Distinct(keys) && |keys| <= expected
    ensures ok <==> Collects(hive, list, depth, visited, keys, expected)
    ensures ok ==> nowVisited == visited + Unfold(hive, list, depth, expected).value.lists
    ensures ok ==> nowKeys == keys + Unfold(hive, list, depth, expected).value.keys
    decreases MAXIMUM_DEPTH + 1 - depth, 0
  {
    hide IndexAt, Unfold, UnfoldAll, Distinct;
    if depth > MAXIMUM_DEPTH || list == NO_CELL || list in visited {
      NotCollected(hive, list, depth, visited, keys, expected);
      return false, visited, keys;
    }
    DistinctNext(visited, list);
    nowVisited := visited + [list];
    UnfoldStep(hive, list, depth, expected);
    var index := IndexAt(hive, list, expected);
    if index.None? {
      return false, nowVisited, keys;
    }
    var entries := index.value.entries;
    if index.value.indirect {
      ghost var below := UnfoldAll(hive, entries, depth + 1, expected);
      if below.Some? {
        ListFirst(visited, list, keys, below.value, expected);
      }
      ok, nowVisited, nowKeys := CollectLists(hive, entries, depth + 1, nowVisited, keys, expected);
    } else {
      ok, nowKeys := CollectKeys(entries, keys, expected);
    }
  }

  method CollectKeys(entries: seq<u32>, keys: seq<u32>, expected: nat) returns (ok: bool, nowKeys: seq<u32>)
    requires Distinct(keys) && |keys| <= expected
    ensures ok <==> Distinct(keys + entries) && |keys + entries| <= expected
    ensures ok ==> nowKeys == keys + entries
  {
    hide Distinct;
    nowKeys := keys;
    assert entries[..0] == [] && keys + [] == keys;
    for k := 0 to |entries|
      invariant nowKeys == keys + entries[..k] && Distinct(nowKeys) && |nowKeys| <= expected
    {
      assert keys + entries[..k + 1] == nowKeys + [entries[k]];
      DistinctNext(nowKeys, entries[k]);
      if |nowKeys| >= expected || entries[k] in nowKeys {
        assert keys + entries == (keys + entries[..k + 1]) + entries[k + 1..];
        if Distinct(keys + entries) {
          DistinctPrefix(keys + entries[..k + 1], entries[k + 1..]);
        }
        return false, nowKeys;
      }
      nowKeys := nowKeys + [entries[k]];
    }
    assert entries[..|entries|] == entries;
    return true, nowKeys;
  }

  method CollectLists(hive: Hive, entries: seq<u32>, depth: nat, visited: seq<u32>, keys: seq<u32>, expected: nat)
    returns (ok: bool, nowVisited: seq<u32>, nowKeys: seq<u32>)
    requires depth <= MAXIMUM_DEPTH + 1
    requires Distinct(visited) && Distinct(keys) && |keys| <= expected
    ensures var u := UnfoldAll(hive, entries, depth, expected);
      && (ok <==> u.Some? && Collectable(visited, keys, u.value, expected))
      && (ok ==> nowVisited == visited + u.value.lists && nowKeys == keys + u.value.keys)
    decreases MAXIMUM_DEPTH + 1 - depth, 1
  {
    hide Unfold, UnfoldAll, Distinct;
    nowVisited, nowKeys := visited, keys;
    NothingUnfolded(hive, entries, depth, expected);
    assert visited + [] == visited && keys + [] == keys;
    for k := 0 to |entries|
      invariant var u := UnfoldAll(hive, entries[..k], depth, expected);
        u.Some? && Collectable(visited, keys, u.value, expected)
        && nowVisited == visited + u.value.lists && nowKeys == keys + u.value.keys
    {
      UnfoldAllStep(hive, entries, k, depth, expected, visited, keys);
      ok, nowVisited, nowKeys := CollectSubkeys(hive, entries[k], depth, nowVisited, nowKeys, expected);
      if !ok {
        PrefixFails(hive, entries, k + 1, depth, expected, visited, keys);
        return;
      }
    }
    assert entries[..|entries|] == entries;
    ok := true;
  }

  lemma NothingUnfolded(hive: Hive, entries: seq<u32>, depth: nat, expected: nat)
    requires depth <= MAXIMUM_DEPTH + 1
    ensures UnfoldAll(hive, entries[..0], depth, expected) == Some(Unfolded([], []))
  {
  }

  /** One more entry: the front followed by the index at the entry. */
  lemma UnfoldAllStep(hive: Hive, entries: seq<u32>, k: nat, depth: nat, expected: nat, visited: seq<u32>,
                      keys: seq<u32>)
    requires k < |entries| && depth <= MAXIMUM_DEPTH + 1 && UnfoldAll(hive, entries[..k], depth, expected).Some?
    ensures var front := UnfoldAll(hive, entries[..k], depth, expected).value;
      var next := Unfold(hive, entries[k], depth, expected);
      var longer := UnfoldAll(hive, entries[..k + 1], depth, expected);
      if next.None? then longer.None?
      else
        && longer == Some(Unfolded(front.lists + next.value.lists, front.keys + next.value.keys))
        && (Collectable(visited, keys, longer.value, expected)
            <==> Collectable(visited + front.lists, keys + front.keys, next.value, expected))
        && visited + longer.value.lists == (visited + front.lists) + next.value.lists
        && keys + longer.value.keys == (keys + front.keys) + next.value.keys
  {
    hide Unfold, Distinct;
    assert entries[..k + 1][..k] == entries[..k];
    var front, next := UnfoldAll(hive, entries[..k], depth, expected).value, Unfold(hive, entries[k], depth, expected);
    if next.Some? {
      assert visited + (front.lists + next.value.lists) == (visited + front.lists) + next.value.lists;
      assert keys + (front.keys + next.value.keys) == (keys + front.keys) + next.value.keys;
    }
  }
}
