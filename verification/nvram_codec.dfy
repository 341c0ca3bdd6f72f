/**
 The two firmware variable formats the NVRAM repair reads and writes: BootOrder
 and the load option of the Windows Boot Manager (sections 3.1.3, 10.3.5.1 and
 10.3.5.4 of UEFI 2.10).
 */
module NvramCodec {
  import opened Bytes
  import opened Gpt
  import opened GptBuild
  import opened Results
  import opened Texts

  const ORDINARY: u32 := 7
  const MAXIMUM_VARIABLE: nat := 128 * 1024
  const MAXIMUM_ORDER: nat := 4096

  /** A firmware variable: its bytes and its attributes. */
  datatype Value = Value(bytes: seq<byte>, attributes: u32)

  /** The reviewed EFI system partition; no GUID means that its identifier could not be parsed. */
  datatype Esp = Esp(gpt: bool, espType: bool, number: u32, offset: u64, size: u64, guid: Option<Guid>)

  // ---------- BootOrder ----------

  function OrderBytes(order: seq<u16>): (bytes: seq<byte>)
    ensures |bytes| == 2 * |order|
  {
    if |order| == 0 then [] else Little(order[0], 2) + OrderBytes(order[1..])
  }

  function EncodeOrder(order: seq<u16>): Value {
    Value(OrderBytes(order), ORDINARY)
  }

  function DecodeOrder(bytes: seq<byte>): (order: seq<u16>)
    requires |bytes| % 2 == 0
    ensures 2 * |order| == |bytes|
  {
    if |bytes| == 0 then [] else [U16At(bytes, 0)] + DecodeOrder(bytes[2..])
  }

  predicate Distinct(order: seq<u16>) {
    forall i, j :: 0 <= i < j < |order| ==> order[i] != order[j]
  }

  /** An absent variable is an empty order; anything but a plain bounded list without repetition is refused. */
  function ParseOrder(value: Option<Value>): (r: Result<seq<u16>>) {
    if value.None? then Ok([])
    else
      var bytes := value.value.bytes;
      if value.value.attributes != ORDINARY || |bytes| == 0 || |bytes| % 2 != 0 || |bytes| / 2 > MAXIMUM_ORDER then
        Err(InvalidData)
      else if !Distinct(DecodeOrder(bytes)) then Err(InvalidData)
      else Ok(DecodeOrder(bytes))
  }

  lemma {:induction false} OrderRoundTrip(order: seq<u16>)
    ensures DecodeOrder(OrderBytes(order)) == order
  {
    if |order| > 0 {
      var bytes := OrderBytes(order);
      assert bytes[0..2] == Little(order[0], 2);
      U16Stored(bytes, 0, order[0]);
      assert bytes[2..] == OrderBytes(order[1..]);
      OrderRoundTrip(order[1..]);
    }
  }

  /** Encoding and parsing are inverse exactly on non-empty lists without repetition, up to the maximum. */
  lemma OrderParsesBack(order: seq<u16>)
    ensures ParseOrder(Some(EncodeOrder(order))) == Ok(order) <==> 0 < |order| <= MAXIMUM_ORDER && Distinct(order)
    ensures ParseOrder(Some(EncodeOrder(order))).Err? <==> !(0 < |order| <= MAXIMUM_ORDER && Distinct(order))
  {
    OrderRoundTrip(order);
  }

  /** The order is stored number by number, two bytes each, as an ordinary variable. */
  lemma {:induction false} OrderElements(order: seq<u16>, i: nat)
    requires i < |order|
    ensures |EncodeOrder(order).bytes| == 2 * |order| && EncodeOrder(order).attributes == 7
    ensures U16At(EncodeOrder(order).bytes, 2 * i) == order[i]
    decreases |order|
  {
    hide FromLittle, Little;
    var bytes := OrderBytes(order);
    if i == 0 {
      assert bytes[0..2] == Little(order[0], 2);
      U16Stored(bytes, 0, order[0]);
    } else {
      OrderElements(order[1..], i - 1);
      assert bytes[2 * i..2 * i + 2] == bytes[2..][2 * (i - 1)..2 * (i - 1) + 2];
    }
  }

  lemma {:induction false} BytesRoundTrip(bytes: seq<byte>)
    requires |bytes| % 2 == 0
    ensures OrderBytes(DecodeOrder(bytes)) == bytes
  {
    if |bytes| > 0 {
      FromLittleRoundTrip(bytes[0..2]);
      BytesRoundTrip(bytes[2..]);
      assert DecodeOrder(bytes)[1..] == DecodeOrder(bytes[2..]);
      assert bytes == bytes[0..2] + bytes[2..];
    }
  }

  /** Every accepted variable is the encoding of what was read from it. */
  lemma ParsedOrderEncodes(value: Value)
    requires ParseOrder(Some(value)).Ok?
    ensures EncodeOrder(ParseOrder(Some(value)).value) == value
  {
    BytesRoundTrip(value.bytes);
  }

  lemma DecodeStep(bytes: seq<byte>, offset: nat)
    requires offset + 2 <= |bytes| && |bytes| % 2 == 0 && offset % 2 == 0
    ensures DecodeOrder(bytes[offset..]) == [U16At(bytes, offset)] + DecodeOrder(bytes[offset + 2..])
  {
    assert bytes[offset..][0..2] == bytes[offset..offset + 2];
    assert bytes[offset..][2..] == bytes[offset + 2..];
  }

  lemma RepeatedNumber(order: seq<u16>, number: u16, rest: seq<u16>)
    requires number in order
    ensures !Distinct(order + [number] + rest)
  {
    var i :| 0 <= i < |order| && order[i] == number;
    var all := order + [number] + rest;
    assert all[i] == all[|order|];
  }

  /** The loop that reads BootOrder entry by entry. */
  method ParseBootOrder(value: Option<Value>) returns (r: Result<seq<u16>>)
    ensures r == ParseOrder(value)
  {
    hide FromLittle, U16At, DecodeOrder;
    if value.None? {
      return Ok([]);
    }
    var bytes := value.value.bytes;
    if value.value.attributes != ORDINARY || |bytes| == 0 || |bytes| % 2 != 0 || |bytes| / 2 > MAXIMUM_ORDER {
      return Err(InvalidData);
    }
    var order: seq<u16> := [];
    var offset := 0;
    while offset < |bytes|
      invariant 0 <= offset <= |bytes| && offset % 2 == 0
      invariant DecodeOrder(bytes) == order + DecodeOrder(bytes[offset..])
      invariant Distinct(order)
    {
      var number := U16At(bytes, offset);
      DecodeStep(bytes, offset);
      if number in order {
        RepeatedNumber(order, number, DecodeOrder(bytes[offset + 2..]));
        assert DecodeOrder(bytes) == order + [number] + DecodeOrder(bytes[offset + 2..]);
        return Err(InvalidData);
      }
      order := order + [number];
      offset := offset + 2;
    }
    assert DecodeOrder(bytes) == order;
    return Ok(order);
  }

  // ---------- the load option ----------

  /** "\EFI\Microsoft\Boot\bootmgfw.efi" */
  function ManagerPath(): (path: seq<u16>)
    ensures |path| == 32 && 0 !in path
  {
    [0x5C, 0x45, 0x46, 0x49, 0x5C, 0x4D, 0x69, 0x63, 0x72, 0x6F, 0x73, 0x6F, 0x66, 0x74, 0x5C, 0x42,
     0x6F, 0x6F, 0x74, 0x5C, 0x62, 0x6F, 0x6F, 0x74, 0x6D, 0x67, 0x66, 0x77, 0x2E, 0x65, 0x66, 0x69]
  }

  /** "Windows Boot Manager" */
  function Description(): (text: seq<u16>)
    ensures |text| == 20 && 0 !in text
  {
    [0x57, 0x69, 0x6E, 0x64, 0x6F, 0x77, 0x73, 0x20, 0x42, 0x6F,
     0x6F, 0x74, 0x20, 0x4D, 0x61, 0x6E, 0x61, 0x67, 0x65, 0x72]
  }

  function HardDriveNode(number: u32, start: u64, length: u64, guid: Guid): (node: seq<byte>)
    ensures |node| == 42
  {
    [0x04, 0x01] + Little(42, 2) + Little(number, 4) + Little(start, 8) + Little(length, 8) + guid + [0x02, 0x02]
  }

  function FileNode(): (node: seq<byte>)
    ensures |node| == 70
  {
    [0x04, 0x04] + Little(70, 2) + NameBytes(ManagerPath(), 33)
  }

  function EndNode(): (node: seq<byte>)
    ensures |node| == 4
  {
    [0x7F, 0xFF, 0x04, 0x00]
  }

  function DevicePath(number: u32, start: u64, length: u64, guid: Guid): (path: seq<byte>)
    ensures |path| == 116
  {
    HardDriveNode(number, start, length, guid) + FileNode() + EndNode()
  }

  function LoadOption(number: u32, start: u64, length: u64, guid: Guid): (option: seq<byte>)
    ensures |option| == 164
  {
    Little(1, 4) + Little(116, 2) + NameBytes(Description(), 21) + DevicePath(number, start, length, guid)
  }

  predicate Expressible(esp: Esp, sectorSize: u32) {
    && esp.gpt && esp.number != 0 && esp.offset != 0 && esp.size != 0
    && sectorSize == 512 && esp.offset % 512 == 0 && esp.size % 512 == 0
  }

  function BuildLoadOption(esp: Esp, sectorSize: u32): (r: Result<seq<byte>>)
    ensures r.Ok? ==> |r.value| == 164
  {
    if !Expressible(esp, sectorSize) then Err(UnsupportedLayout)
    else if esp.guid.None? then Err(InvalidData)
    else Ok(LoadOption(esp.number, esp.offset / 512, esp.size / 512, esp.guid.value))
  }

  /** Where the description, which starts at `from`, ends; none if it is longer than 256 characters. */
  function DescriptionEnd(option: seq<byte>, from: nat, characters: nat): (end: Option<nat>)
    requires from <= |option|
    ensures end.Some? ==> from <= end.value <= |option|
    decreases |option| - from
  {
    if from + 2 > |option| then Some(from)
    else if U16At(option, from) == 0 then Some(from + 2)
    else if characters + 1 > 256 then None
    else DescriptionEnd(option, from + 2, characters + 1)
  }

  /** The hard drive node names this partition. */
  predicate NamesPartition(path: seq<byte>, esp: Esp, guid: Guid, sectorSize: u32)
    requires |path| >= 50
  {
    && path[24..40] == guid
    && sectorSize == 512
    && U32At(path, 4) == esp.number
    && U64At(path, 8) == esp.offset / 512
    && U64At(path, 16) == esp.size / 512
  }

  function PathMatches(path: seq<byte>, esp: Esp, sectorSize: u32, fold: Fold): (r: Result<bool>)
    requires |path| >= 4
  {
    if path[0] != 0x04 || path[1] != 0x01 then Ok(false)
    else if |path| < 50 then Err(InvalidData)
    else if U16At(path, 2) != 42 || path[40] != 0x02 || path[41] != 0x02 then Ok(false)
    else if esp.guid.None? then Err(InvalidData)
    else if !NamesPartition(path, esp, esp.guid.value, sectorSize) then Ok(false)
    else if path[42] != 0x04 || path[43] != 0x04 then Ok(false)
    else
      var nodeLength := U16At(path, 44);
      if nodeLength < 6 || 42 + nodeLength + 4 != |path| then Err(InvalidData)
      else if path[42 + nodeLength..] != EndNode() then Ok(false)
      else Ok(SameText(DecodeName(path[46..42 + nodeLength]), ManagerPath(), fold))
  }

  function Matches(option: seq<byte>, esp: Esp, sectorSize: u32, fold: Fold): (r: Result<bool>)
    ensures r == Ok(true) ==> |option| >= 6
  {
    if |option| < 6 || |option| > MAXIMUM_VARIABLE then Err(InvalidData)
    else
      var pathLength := U16At(option, 4);
      var end := DescriptionEnd(option, 6, 0);
      if end.None? || pathLength > |option| - end.value || pathLength < 4 then Err(InvalidData)
      else PathMatches(option[end.value..end.value + pathLength], esp, sectorSize, fold)
  }

  // ---------- built options ----------

  lemma {:induction false} DescriptionEndsAtNul(option: seq<byte>, from: nat, text: seq<u16>, room: nat, characters: nat)
    requires from + 2 * room <= |option| && option[from..from + 2 * room] == NameBytes(text, room)
    requires 0 !in text && |text| + 1 == room && characters + |text| <= 256
    ensures DescriptionEnd(option, from, characters) == Some(from + 2 * room)
    decreases |text|
  {
    hide Little, FromLittle;
    var field := NameBytes(text, room);
    var head := if |text| == 0 then 0 else text[0];
    assert option[from..from + 2] == option[from..from + 2 * room][..2] == field[..2] == Little(head, 2);
    U16Stored(option, from, head);
    if |text| > 0 {
      assert option[from + 2..from + 2 * room] == option[from..from + 2 * room][2..] == field[2..]
          == NameBytes(text[1..], room - 1);
      DescriptionEndsAtNul(option, from + 2, text[1..], room - 1, characters + 1);
    }
  }

  lemma HardDriveFields(node: seq<byte>, number: u32, start: u64, length: u64, guid: Guid)
    requires |node| >= 42 && node[..42] == HardDriveNode(number, start, length, guid)
    ensures node[0] == 0x04 && node[1] == 0x01 && node[40] == 0x02 && node[41] == 0x02
    ensures U16At(node, 2) == 42 && U32At(node, 4) == number && U64At(node, 8) == start && U64At(node, 16) == length
    ensures node[24..40] == guid
  {
    hide Little, FromLittle;
    var expected := HardDriveNode(number, start, length, guid);
    HardDriveSlices(number, start, length, guid);
    assert node[2..4] == node[..42][2..4] && node[4..8] == node[..42][4..8] && node[8..16] == node[..42][8..16];
    assert node[16..24] == node[..42][16..24] && node[24..40] == node[..42][24..40];
    assert node[0] == expected[0] && node[1] == expected[1] && node[40] == expected[40] && node[41] == expected[41];
    U16Stored(node, 2, 42);
    U32Stored(node, 4, number);
    U64Stored(node, 8, start);
    U64Stored(node, 16, length);
  }

  lemma HardDriveSlices(number: u32, start: u64, length: u64, guid: Guid)
    ensures var s := HardDriveNode(number, start, length, guid);
      && s[2..4] == Little(42, 2) && s[4..8] == Little(number, 4) && s[8..16] == Little(start, 8)
      && s[16..24] == Little(length, 8) && s[24..40] == guid && s[0] == 0x04 && s[1] == 0x01
      && s[40] == 0x02 && s[41] == 0x02
  {
    hide Little;
  }

  lemma FileNodeFields(path: seq<byte>)
    requires |path| == 116 && path[42..112] == FileNode() && path[112..] == EndNode()
    ensures path[42] == 0x04 && path[43] == 0x04 && U16At(path, 44) == 70
    ensures path[46..112] == NameBytes(ManagerPath(), 33)
  {
    hide Little, FromLittle, NameBytes;
    var node := FileNode();
    assert node[2..4] == Little(70, 2) && node[4..] == NameBytes(ManagerPath(), 33);
    SubSlice(path, 42, 112, 2, 4);
    SubSlice(path, 42, 112, 4, 70);
    assert path[42] == node[0] && path[43] == node[1];
    U16Stored(path, 44, 70);
  }

  lemma BuiltPathMatches(number: u32, start: u64, length: u64, guid: Guid, esp: Esp, fold: Fold)
    requires esp.guid.Some?
    ensures PathMatches(DevicePath(number, start, length, guid), esp, 512, fold)
         == Ok(number == esp.number && start == esp.offset / 512 && length == esp.size / 512 && guid == esp.guid.value)
  {
    hide Little, U16At, U32At, U64At, NameBytes, DecodeName, HardDriveNode, FileNode, Visible, ManagerPath, EndNode;
    var path := DevicePath(number, start, length, guid);
    assert path[..42] == HardDriveNode(number, start, length, guid);
    assert path[42..112] == FileNode() && path[112..] == EndNode();
    HardDriveFields(path, number, start, length, guid);
    FileNodeFields(path);
    NameRoundTrip(ManagerPath(), 33);
    VisibleAll(ManagerPath(), 33);
  }

  lemma BuiltOptionParts(number: u32, start: u64, length: u64, guid: Guid)
    ensures var option := LoadOption(number, start, length, guid);
      && U16At(option, 4) == 116
      && DescriptionEnd(option, 6, 0) == Some(48)
      && option[48..164] == DevicePath(number, start, length, guid)
  {
    hide Little, FromLittle, NameBytes, DevicePath, DescriptionEnd;
    var option := LoadOption(number, start, length, guid);
    assert option[4..6] == Little(116, 2);
    assert option[6..48] == NameBytes(Description(), 21);
    U16Stored(option, 4, 116);
    DescriptionEndsAtNul(option, 6, Description(), 21, 0);
  }

  // ---------- the built option, field by field ----------

  lemma {:induction false} NameElements(name: seq<u16>, room: nat, i: nat)
    requires i < room
    ensures U16At(NameBytes(name, room), 2 * i) == if i < |name| then name[i] else 0
    decreases room
  {
    hide FromLittle, Little;
    var field, head := NameBytes(name, room), if |name| == 0 then 0 else name[0];
    var rest := if |name| == 0 then [] else name[1..];
    assert field[2..] == NameBytes(rest, room - 1);
    if i == 0 {
      assert field[0..2] == Little(head, 2);
      U16Stored(field, 0, head);
    } else {
      NameElements(rest, room - 1, i - 1);
      assert field[2 * i..2 * i + 2] == field[2..][2 * (i - 1)..2 * (i - 1) + 2];
    }
  }

  /** The text from `offset` on, as 16-bit characters with a NUL behind it. */
  predicate HasText(option: seq<byte>, offset: nat, text: string) {
    && offset + 2 * |text| + 2 <= |option|
    && (forall i :: 0 <= i < |text| ==> U16At(option, offset + 2 * i) == text[i] as int)
    && U16At(option, offset + 2 * |text|) == 0
  }

  lemma TextAt(option: seq<byte>, offset: nat, name: seq<u16>, text: string)
    requires offset + 2 * |name| + 2 <= |option|
    requires option[offset..offset + 2 * |name| + 2] == NameBytes(name, |name| + 1)
    requires |name| == |text| && forall i :: 0 <= i < |text| ==> name[i] == text[i] as int
    ensures HasText(option, offset, text)
  {
    hide FromLittle, NameBytes;
    var field := NameBytes(name, |name| + 1);
    forall i | 0 <= i <= |text| ensures U16At(option, offset + 2 * i) == U16At(field, 2 * i) {
      SubSlice(option, offset, offset + 2 * |name| + 2, 2 * i, 2 * i + 2);
    }
    forall i | 0 <= i <= |text| ensures U16At(field, 2 * i) == if i < |name| then name[i] else 0 {
      NameElements(name, |name| + 1, i);
    }
    assert U16At(option, offset + 2 * |text|) == U16At(field, 2 * |text|);
  }

  /** An option is built for exactly the partitions it can express, and this is what stands in its 164 bytes. */
  lemma BuiltOptionLayout(esp: Esp, sectorSize: u32)
    ensures BuildLoadOption(esp, sectorSize).Ok? <==> Expressible(esp, sectorSize) && esp.guid.Some?
    ensures BuildLoadOption(esp, sectorSize).Ok? ==>
      var o := BuildLoadOption(esp, sectorSize).value;
      && |o| == 164
      && U32At(o, 0) == 1 && U16At(o, 4) == 116
      && HasText(o, 6, "Windows Boot Manager")
      && o[48] == 4 && o[49] == 1 && U16At(o, 50) == 42
      && U32At(o, 52) == esp.number
      && U64At(o, 56) * 512 == esp.offset && U64At(o, 64) * 512 == esp.size
      && o[72..88] == esp.guid.value && o[88] == 2 && o[89] == 2
      && o[90] == 4 && o[91] == 4 && U16At(o, 92) == 70
      && HasText(o, 94, "\\EFI\\Microsoft\\Boot\\bootmgfw.efi")
      && o[160..164] == [0x7F, 0xFF, 4, 0]
  {
    hide LoadOption, HasText;
    if BuildLoadOption(esp, sectorSize).Ok? {
      LoadOptionLayout(esp.number, esp.offset / 512, esp.size / 512, esp.guid.value);
    }
  }

  lemma LoadOptionLayout(number: u32, start: u64, length: u64, guid: Guid)
    ensures var o := LoadOption(number, start, length, guid);
      && U32At(o, 0) == 1 && U16At(o, 4) == 116
      && HasText(o, 6, "Windows Boot Manager")
      && o[48] == 4 && o[49] == 1 && U16At(o, 50) == 42
      && U32At(o, 52) == number && U64At(o, 56) == start && U64At(o, 64) == length
      && o[72..88] == guid && o[88] == 2 && o[89] == 2
      && o[90] == 4 && o[91] == 4 && U16At(o, 92) == 70
      && HasText(o, 94, "\\EFI\\Microsoft\\Boot\\bootmgfw.efi")
      && o[160..164] == [0x7F, 0xFF, 4, 0]
  {
    hide Little, FromLittle, NameBytes, LoadOption, DevicePath, HasText, HardDriveNode, FileNode, DescriptionEnd, Description,
         ManagerPath;
    var o, path := LoadOption(number, start, length, guid), DevicePath(number, start, length, guid);
    BuiltOptionParts(number, start, length, guid);
    OptionHead(number, start, length, guid);
    U32Stored(o, 0, 1);
    DescriptionText();
    TextAt(o, 6, Description(), "Windows Boot Manager");
    PathParts(number, start, length, guid);
    HardDriveFields(path, number, start, length, guid);
    FileNodeFields(path);
    FieldOfPart(o, 48, 164, 2);
    FieldOfPart(o, 48, 164, 4);
    FieldOfPart(o, 48, 164, 8);
    FieldOfPart(o, 48, 164, 16);
    FieldOfPart(o, 48, 164, 44);
    SubSlice(o, 48, 164, 46, 112);
    TextAt(o, 94, ManagerPath(), "\\EFI\\Microsoft\\Boot\\bootmgfw.efi");
    SubSlice(o, 48, 164, 24, 40);
    SubSlice(o, 48, 164, 112, 116);
    assert forall k :: 0 <= k < 116 ==> path[k] == o[48 + k];
    assert path[112..116] == path[112..];
  }

  lemma OptionHead(number: u32, start: u64, length: u64, guid: Guid)
    ensures var o := LoadOption(number, start, length, guid);
      o[0..4] == Little(1, 4) && o[6..48] == NameBytes(Description(), 21)
  {
    hide Little, NameBytes, DevicePath, Description;
  }

  lemma PathParts(number: u32, start: u64, length: u64, guid: Guid)
    ensures var path := DevicePath(number, start, length, guid);
      path[..42] == HardDriveNode(number, start, length, guid) && path[42..112] == FileNode() && path[112..] == EndNode()
  {
    hide HardDriveNode, FileNode, EndNode;
  }

  lemma DescriptionText()
    ensures forall i :: 0 <= i < 20 ==> Description()[i] == "Windows Boot Manager"[i] as int
    ensures forall i :: 0 <= i < 32 ==> ManagerPath()[i] == "\\EFI\\Microsoft\\Boot\\bootmgfw.efi"[i] as int
  {
  }

  /** A field of a part is a field of the whole. */
  lemma FieldOfPart(o: seq<byte>, from: nat, to: nat, k: nat)
    requires from <= to <= |o|
    ensures k + 2 <= to - from ==> U16At(o[from..to], k) == U16At(o, from + k)
    ensures k + 4 <= to - from ==> U32At(o[from..to], k) == U32At(o, from + k)
    ensures k + 8 <= to - from ==> U64At(o[from..to], k) == U64At(o, from + k)
  {
    hide FromLittle;
    if k + 2 <= to - from {
      SubSlice(o, from, to, k, k + 2);
    }
    if k + 4 <= to - from {
      SubSlice(o, from, to, k, k + 4);
    }
    if k + 8 <= to - from {
      SubSlice(o, from, to, k, k + 8);
    }
  }

  // ---------- the matching options, field by field ----------

  /** The description has `n` characters, and `end` is behind them and their NUL, if the option goes on that far. */
  predicate DescribedUntil(option: seq<byte>, from: nat, n: nat, end: nat) {
    && (forall i :: 0 <= i < n ==> from + 2 * i + 2 <= |option| && U16At(option, from + 2 * i) != 0)
    && (if from + 2 * n + 2 > |option| then end == from + 2 * n
        else U16At(option, from + 2 * n) == 0 && end == from + 2 * n + 2)
  }

  lemma {:induction false} DescriptionExactly(option: seq<byte>, from: nat, characters: nat, end: nat)
    requires from <= |option| && characters <= 256
    ensures DescriptionEnd(option, from, characters) == Some(end) <==>
              exists n: nat :: characters + n <= 256 && DescribedUntil(option, from, n, end)
    decreases |option| - from
  {
    hide FromLittle, DescribedUntil;
    var whole := DescriptionEnd(option, from, characters);
    if from + 2 > |option| || U16At(option, from) == 0 {
      EmptyDescription(option, from, end);
      if whole == Some(end) {
        assert characters + 0 <= 256 && DescribedUntil(option, from, 0, end);
      }
    } else {
      if characters < 256 {
        DescriptionExactly(option, from + 2, characters + 1, end);
      }
      if n: nat :| characters + n <= 256 && DescribedUntil(option, from, n, end) {
        ShorterDescription(option, from, n, end);
        assert characters + 1 + (n - 1) <= 256;
      }
      if whole == Some(end) {
        var n: nat :| characters + 1 + n <= 256 && DescribedUntil(option, from + 2, n, end);
        LongerDescription(option, from, n, end);
        assert characters + (n + 1) <= 256;
      }
    }
  }

  lemma EmptyDescription(option: seq<byte>, from: nat, end: nat)
    requires from <= |option| && (from + 2 > |option| || U16At(option, from) == 0)
    ensures forall n: nat :: DescribedUntil(option, from, n, end) ==> n == 0
    ensures DescribedUntil(option, from, 0, end) <==> end == if from + 2 > |option| then from else from + 2
  {
    hide FromLittle;
    forall n: nat | DescribedUntil(option, from, n, end) ensures n == 0 {
      FirstCharacter(option, from, n, end);
    }
  }

  lemma FirstCharacter(option: seq<byte>, from: nat, n: nat, end: nat)
    requires DescribedUntil(option, from, n, end)
    ensures n > 0 ==> from + 2 <= |option| && U16At(option, from) != 0
  {
    hide FromLittle;
    assert from + 2 * 0 == from;
  }

  lemma ShorterDescription(option: seq<byte>, from: nat, n: nat, end: nat)
    requires from + 2 <= |option| && U16At(option, from) != 0 && DescribedUntil(option, from, n, end)
    ensures n > 0 && DescribedUntil(option, from + 2, n - 1, end)
  {
    hide FromLittle;
    assert from + 2 * 0 == from;
    forall i | 0 <= i < n - 1 ensures from + 2 + 2 * i + 2 <= |option| && U16At(option, from + 2 + 2 * i) != 0 {
      assert from + 2 * (i + 1) + 2 <= |option| && U16At(option, from + 2 * (i + 1)) != 0;
    }
  }

  lemma LongerDescription(option: seq<byte>, from: nat, n: nat, end: nat)
    requires from + 2 <= |option| && U16At(option, from) != 0 && DescribedUntil(option, from + 2, n, end)
    ensures DescribedUntil(option, from, n + 1, end)
  {
    hide FromLittle;
    forall i | 0 <= i < n + 1 ensures from + 2 * i + 2 <= |option| && U16At(option, from + 2 * i) != 0 {
      if i > 0 {
        assert from + 2 + 2 * (i - 1) + 2 <= |option| && U16At(option, from + 2 + 2 * (i - 1)) != 0;
      }
    }
  }

  /** The device path: the hard drive node of the partition, the file of the boot manager, the end. */
  predicate BootsPartition(path: seq<byte>, esp: Esp, sectorSize: u32, fold: Fold) {
    && |path| >= 50
    && path[0] == 4 && path[1] == 1 && U16At(path, 2) == 42
    && sectorSize == 512 && esp.guid.Some?
    && U32At(path, 4) == esp.number
    && U64At(path, 8) == esp.offset / 512 && U64At(path, 16) == esp.size / 512
    && path[24..40] == esp.guid.value && path[40] == 2 && path[41] == 2
    && path[42] == 4 && path[43] == 4
    && var node: nat := U16At(path, 44);
    && node >= 6 && 42 + node + 4 == |path|
    && path[42 + node..] == [0x7F, 0xFF, 4, 0]
    && SameText(DecodeName(path[46..42 + node]), ManagerPath(), fold)
  }

  lemma PathExactly(path: seq<byte>, esp: Esp, sectorSize: u32, fold: Fold)
    requires 4 <= |path|
    ensures PathMatches(path, esp, sectorSize, fold) == Ok(true) <==> BootsPartition(path, esp, sectorSize, fold)
  {
    hide FromLittle, DecodeName, ManagerPath, SameText;
  }

  /** Exactly these options boot the partition: a description of at most 256 characters, and then the device path. */
  lemma MatchExactly(option: seq<byte>, esp: Esp, sectorSize: u32, fold: Fold)
    ensures Matches(option, esp, sectorSize, fold) == Ok(true) <==>
      && 6 <= |option| <= 131072
      && exists n: nat, end: nat ::
           && n <= 256 && DescribedUntil(option, 6, n, end) && end + U16At(option, 4) <= |option|
           && BootsPartition(option[end..end + U16At(option, 4)], esp, sectorSize, fold)
  {
    hide FromLittle, PathMatches, BootsPartition, DescribedUntil, DescriptionEnd;
    if 6 <= |option| <= 131072 {
      var found, length := DescriptionEnd(option, 6, 0), U16At(option, 4);
      if found.Some? {
        DescriptionExactly(option, 6, 0, found.value);
        if found.value + length <= |option| {
          AtLeastFifty(option[found.value..found.value + length], esp, sectorSize, fold);
          if length >= 4 {
            PathExactly(option[found.value..found.value + length], esp, sectorSize, fold);
          }
        }
      }
      forall n: nat, end: nat | n <= 256 && DescribedUntil(option, 6, n, end) ensures found == Some(end) {
        DescriptionExactly(option, 6, 0, end);
        assert 0 + n <= 256;
      }
    }
  }

  lemma AtLeastFifty(path: seq<byte>, esp: Esp, sectorSize: u32, fold: Fold)
    ensures BootsPartition(path, esp, sectorSize, fold) ==> |path| >= 50
  {
  }

  /** A built option matches exactly the partitions with the same number, sectors and GUID. */
  lemma BuiltOptionMatches(a: Esp, b: Esp, fold: Fold)
    requires BuildLoadOption(a, 512).Ok? && b.guid.Some?
    ensures Matches(BuildLoadOption(a, 512).value, b, 512, fold)
         == Ok(a.number == b.number && a.offset / 512 == b.offset / 512 && a.size / 512 == b.size / 512
               && a.guid == b.guid)
  {
    hide LoadOption, PathMatches, FromLittle, DescriptionEnd, DevicePath;
    BuiltOptionParts(a.number, a.offset / 512, a.size / 512, a.guid.value);
    BuiltPathMatches(a.number, a.offset / 512, a.size / 512, a.guid.value, b, fold);
  }

  /** For sector-aligned partitions that is: number, offset, size and GUID agree. */
  lemma AlignedOptionMatches(a: Esp, b: Esp, fold: Fold)
    requires BuildLoadOption(a, 512).Ok? && b.guid.Some? && b.offset % 512 == 0 && b.size % 512 == 0
    ensures Matches(BuildLoadOption(a, 512).value, b, 512, fold)
         == Ok(a.number == b.number && a.offset == b.offset && a.size == b.size && a.guid == b.guid)
  {
    hide Matches, LoadOption;
    BuiltOptionMatches(a, b, fold);
  }

  /** Unaligned partitions are told apart only by whole sectors: any start within the same sector matches. */
  lemma UnalignedOptionsCollide(a: Esp, b: Esp, fold: Fold)
    requires BuildLoadOption(a, 512).Ok? && b == a.(offset := b.offset) && b.offset / 512 == a.offset / 512
    ensures Matches(BuildLoadOption(a, 512).value, b, 512, fold) == Ok(true)
  {
    hide Matches, LoadOption;
    BuiltOptionMatches(a, b, fold);
  }

  // ---------- the active bit ----------

  predicate IsActive(option: seq<byte>)
    requires |option| >= 4
  {
    U32At(option, 0) % 2 == 1
  }

  lemma BuiltIsActive(number: u32, start: u64, length: u64, guid: Guid)
    ensures IsActive(LoadOption(number, start, length, guid))
  {
    hide Little, FromLittle, NameBytes, DevicePath;
    var option := LoadOption(number, start, length, guid);
    assert option[0..4] == Little(1, 4);
    U32Stored(option, 0, 1);
  }

  /** The option with the active bit set, as its attribute field is rewritten. */
  function Activated(option: seq<byte>): (r: seq<byte>)
    requires |option| >= 4
    ensures |r| == |option| && r[4..] == option[4..]
  {
    var attributes := U32At(option, 0);
    Little(if attributes % 2 == 1 then attributes else attributes + 1, 4) + option[4..]
  }

  lemma ActivatedIsActive(option: seq<byte>)
    requires |option| >= 4
    ensures IsActive(Activated(option))
    ensures IsActive(option) ==> Activated(option) == option
  {
    hide Little, FromLittle;
    var attributes := U32At(option, 0);
    var raised: u32 := if attributes % 2 == 1 then attributes else attributes + 1;
    assert Activated(option)[0..4] == Little(raised, 4);
    U32Stored(Activated(option), 0, raised);
    if IsActive(option) {
      FromLittleRoundTrip(option[0..4]);
      assert option == option[0..4] + option[4..];
    }
  }

  lemma {:induction false} SameDescriptionEnd(a: seq<byte>, b: seq<byte>, from: nat, characters: nat)
    requires |a| == |b| && 4 <= from <= |a| && a[4..] == b[4..]
    ensures DescriptionEnd(a, from, characters) == DescriptionEnd(b, from, characters)
    decreases |a| - from
  {
    hide FromLittle;
    if from + 2 <= |a| {
      assert a[from..from + 2] == a[4..][from - 4..from - 2] == b[from..from + 2];
      SameDescriptionEnd(a, b, from + 2, characters);
      SameDescriptionEnd(a, b, from + 2, characters + 1);
    }
  }

  /** Setting the active bit does not change what an option matches. */
  lemma ActivatedMatches(option: seq<byte>, esp: Esp, sectorSize: u32, fold: Fold)
    requires |option| >= 6
    ensures Matches(Activated(option), esp, sectorSize, fold) == Matches(option, esp, sectorSize, fold)
  {
    hide FromLittle, PathMatches, DescriptionEnd, Activated;
    var raised := Activated(option);
    SameDescriptionEnd(option, raised, 6, 0);
    assert option[4..6] == option[4..][0..2] == raised[4..][0..2] == raised[4..6];
    var end := DescriptionEnd(option, 6, 0);
    if end.Some? {
      var n := U16At(option, 4);
      if n <= |option| - end.value {
        SubSlice(option, 4, |option|, end.value - 4, end.value + n - 4);
        SubSlice(raised, 4, |raised|, end.value - 4, end.value + n - 4);
        assert option[4..] == option[4..|option|] && raised[4..] == raised[4..|raised|];
      }
    }
  }

  // ---------- the loops ----------

  /** Appends a text as code units with a final NUL. */
  method AppendText(bytes: seq<byte>, text: seq<u16>) returns (longer: seq<byte>)
    ensures longer == bytes + NameBytes(text, |text| + 1)
  {
    hide Little;
    longer := bytes;
    for k := 0 to |text|
      invariant longer + NameBytes(text[k..], |text| - k + 1) == bytes + NameBytes(text, |text| + 1)
    {
      assert text[k..][1..] == text[k + 1..];
      longer := longer + Little(text[k], 2);
    }
    longer := longer + Little(0, 2);
  }

  /** Appends the header, the description and the device path of the boot manager's option. */
  method BuildWindowsBootManagerLoadOption(esp: Esp, sectorSize: u32) returns (r: Result<seq<byte>>)
    ensures r == BuildLoadOption(esp, sectorSize)
  {
    hide Little, NameBytes, ManagerPath, Description;
    if !esp.gpt || esp.number == 0 || esp.offset == 0 || esp.size == 0 || sectorSize != 512
       || esp.offset % 512 != 0 || esp.size % 512 != 0 {
      return Err(UnsupportedLayout);
    }
    if esp.guid.None? {
      return Err(InvalidData);
    }
    var devicePath := [0x04, 0x01] + Little(42, 2) + Little(esp.number, 4) + Little(esp.offset / 512, 8)
                      + Little(esp.size / 512, 8) + esp.guid.value + [0x02, 0x02];
    devicePath := devicePath + [0x04, 0x04] + Little(4 + (|ManagerPath()| + 1) * 2, 2);
    devicePath := AppendText(devicePath, ManagerPath());
    devicePath := devicePath + EndNode();
    DevicePathParts(devicePath, esp);
    var option := Little(1, 4) + Little(|devicePath|, 2);
    option := AppendText(option, Description());
    return Ok(option + devicePath);
  }

  lemma DevicePathParts(devicePath: seq<byte>, esp: Esp)
    requires esp.guid.Some? && esp.offset < U64_LIMIT && esp.size < U64_LIMIT
    requires devicePath == HardDriveNode(esp.number, esp.offset / 512, esp.size / 512, esp.guid.value)
                           + [0x04, 0x04] + Little(70, 2) + NameBytes(ManagerPath(), 33) + EndNode()
    ensures devicePath == DevicePath(esp.number, esp.offset / 512, esp.size / 512, esp.guid.value)
  {
    hide Little, NameBytes, ManagerPath, HardDriveNode;
  }

  /** Compares a load option with the reviewed partition. */
  method LoadOptionMatches(option: seq<byte>, esp: Esp, sectorSize: u32, fold: Fold) returns (r: Result<bool>)
    ensures r == Matches(option, esp, sectorSize, fold)
  {
    hide FromLittle, PathMatches;
    if |option| < 6 || |option| > MAXIMUM_VARIABLE {
      return Err(InvalidData);
    }
    var pathLength := U16At(option, 4);
    var end, characters := 6, 0;
    while end + 2 <= |option|
      invariant 6 <= end <= |option|
      invariant DescriptionEnd(option, 6, 0) == DescriptionEnd(option, end, characters)
      decreases |option| - end
    {
      var character := U16At(option, end);
      end := end + 2;
      if character == 0 {
        break;
      }
      characters := characters + 1;
      if characters > 256 {
        return Err(InvalidData);
      }
    }
    assert DescriptionEnd(option, 6, 0) == Some(end);
    if pathLength > |option| - end || pathLength < 4 {
      return Err(InvalidData);
    }
    r := DevicePathMatches(option[end..end + pathLength], esp, sectorSize, fold);
  }

  method DevicePathMatches(path: seq<byte>, esp: Esp, sectorSize: u32, fold: Fold) returns (r: Result<bool>)
    requires |path| >= 4
    ensures r == PathMatches(path, esp, sectorSize, fold)
  {
    hide FromLittle, ManagerPath;
    if path[0] != 0x04 || path[1] != 0x01 {
      return Ok(false);
    }
    if |path| < 50 {
      return Err(InvalidData);
    }
    if U16At(path, 2) != 42 || path[40] != 0x02 || path[41] != 0x02 {
      return Ok(false);
    }
    if esp.guid.None? {
      return Err(InvalidData);
    }
    if esp.guid.value != path[24..40] || sectorSize != 512 || U32At(path, 4) != esp.number
       || U64At(path, 8) != esp.offset / 512 || U64At(path, 16) != esp.size / 512 {
      return Ok(false);
    }
    if path[42] != 0x04 || path[43] != 0x04 {
      return Ok(false);
    }
    var nodeLength: nat := U16At(path, 44);
    if nodeLength < 6 || 42 + nodeLength + 4 != |path| {
      return Err(InvalidData);
    }
    var end := 42 + nodeLength;
    var filePath := ReadText(path[46..end]);
    if path[end..] != EndNode() {
      return Ok(false);
    }
    return Ok(SameText(filePath, ManagerPath(), fold));
  }

  /** The code units up to the first NUL; an odd byte at the end is ignored. */
  method ReadText(field: seq<byte>) returns (text: seq<u16>)
    ensures text == DecodeName(field)
  {
    hide FromLittle;
    text := [];
    var offset := 0;
    while offset + 2 <= |field|
      invariant 0 <= offset <= |field|
      invariant DecodeName(field) == text + DecodeName(field[offset..])
      decreases |field| - offset
    {
      var unit := U16At(field, offset);
      assert field[offset..][0..2] == field[offset..offset + 2];
      assert field[offset..][2..] == field[offset + 2..];
      if unit == 0 {
        return;
      }
      text := text + [unit];
      offset := offset + 2;
    }
  }
}
