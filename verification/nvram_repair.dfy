/**
 Repairing the boot entry of this PC: a transaction over the firmware variables,
 where every write replaces a variable only if it still has the expected value.
 */
module NvramRepair {
  import opened Bytes
  import opened NvramCodec
  import opened Results
  import opened Texts

  const PROBES: u16 := 4096

  /** The variables concerned: BootOrder, and Boot0000 to BootFFFF by number. */
  datatype Name = BootOrder | BootOption(number: u16)

  type Variables = map<Name, Value>

  function Lookup(variables: Variables, name: Name): Option<Value> {
    if name in variables then Some(variables[name]) else None
  }

  function Assigned(variables: Variables, name: Name, value: Option<Value>): Variables {
    if value.Some? then variables[name := value.value] else variables - {name}
  }

  /** The firmware takes ordinary variables of bounded size only. */
  predicate Writable(value: Option<Value>) {
    value.Some? ==> value.value.attributes == ORDINARY && 1 <= |value.value.bytes| <= MAXIMUM_VARIABLE
  }

  // ---------- the platform ----------

  /** A call may work, may fail, and a write that reports success may have stored something else. */
  datatype Fault = NoFault | Fails | Garbles(stored: Option<Value>)

  class Firmware {
    const faults: nat -> Fault
    var calls: nat
    var variables: Variables
    /** The variables whose last write stored something else than it was told to. */
    ghost var garbled: set<Name>
    ghost var writes: nat

    constructor (variables: Variables, faults: nat -> Fault)
      ensures this.variables == variables && this.faults == faults && garbled == {} && calls == 0 && writes == 0
    {
      this.variables := variables;
      this.faults := faults;
      calls := 0;
      garbled := {};
      writes := 0;
    }

    /** From here on, nothing goes wrong. */
    ghost predicate Reliable()
      reads this
    {
      forall k :: calls <= k ==> faults(k) == NoFault
    }

    /** From here on, one call may fail, and no write is garbled. */
    ghost predicate FailsOnce()
      reads this
    {
      forall k :: calls <= k ==>
        !faults(k).Garbles? && (faults(k) == Fails ==> forall m :: k < m ==> faults(m) == NoFault)
    }

    /** Re-enumerates the reviewed disk and partition. */
    method RevalidateTarget() returns (ok: bool)
      modifies this`calls
      ensures calls == old(calls) + 1
      ensures old(Reliable()) ==> ok && Reliable()
      ensures old(FailsOnce()) ==> FailsOnce() && (!ok ==> Reliable())
    {
      ok := faults(calls) != Fails;
      calls := calls + 1;
    }

    method Read(name: Name) returns (r: Result<Option<Value>>)
      modifies this`calls
      ensures calls == old(calls) + 1
      ensures r.Ok? ==> r.value == Lookup(variables, name)
      ensures old(Reliable()) ==> r.Ok? && Reliable()
      ensures old(FailsOnce()) ==> FailsOnce() && (r.Err? ==> Reliable())
    {
      r := if faults(calls) == Fails then Err(IoFailed) else Ok(Lookup(variables, name));
      calls := calls + 1;
    }

    /** The variable has the expected value, and both values are ones that may be written. */
    predicate Accepts(name: Name, expected: Option<Value>, replacement: Option<Value>)
      reads this
    {
      && (expected.Some? || replacement.Some?)
      && Writable(expected) && Writable(replacement)
      && Lookup(variables, name) == expected
    }

    method ReplaceIfExact(name: Name, expected: Option<Value>, replacement: Option<Value>) returns (ok: bool)
      modifies this
      ensures ok == (old(Accepts(name, expected, replacement)) && faults(old(calls)) != Fails)
      ensures !ok ==> variables == old(variables) && garbled == old(garbled)
      ensures !faults(old(calls)).Garbles? && ok ==> name !in garbled
      ensures old(Reliable()) ==> Reliable()
      ensures old(FailsOnce()) ==> FailsOnce() && (old(Accepts(name, expected, replacement)) && !ok ==> Reliable())
      ensures ok && name !in garbled ==>
        variables == Assigned(old(variables), name, replacement) && garbled == old(garbled) - {name}
      ensures forall other :: other != name ==> (other in garbled <==> other in old(garbled))
      ensures forall other :: other != name ==> Lookup(variables, other) == Lookup(old(variables), other)
      ensures calls == old(calls) + 1 && writes == old(writes) + 1
    {
      var fault := faults(calls);
      calls := calls + 1;
      writes := writes + 1;
      if fault == Fails || !Accepts(name, expected, replacement) {
        return false;
      }
      SameOrAssigned(variables, name, expected);
      if expected == replacement {
        garbled := garbled - {name};
        return true;
      }
      var stored := if fault.Garbles? then fault.stored else replacement;
      variables := Assigned(variables, name, stored);
      garbled := if stored == replacement then garbled - {name} else garbled + {name};
      return true;
    }
  }

  lemma SameOrAssigned(variables: Variables, name: Name, value: Option<Value>)
    requires Lookup(variables, name) == value
    ensures Assigned(variables, name, value) == variables
  {
  }

  // ---------- the request ----------

  datatype Request = Request(
    explicitlyForThisPc: bool,
    acknowledged: bool,
    token: string,
    diskNumber: u32,
    modelKnown: bool,
    diskSize: u64,
    diskSectorSize: u32,
    sectorSize: u32,
    esp: Esp)

  function RequestFault(request: Request): Option<ErrorKind> {
    if !request.explicitlyForThisPc || !request.acknowledged || request.token != "OK" then Some(ConfirmationRequired)
    else if request.diskNumber == U32_LIMIT - 1 || !request.modelKnown || request.diskSize == 0
         || request.diskSectorSize != request.sectorSize
         || !Expressible(request.esp, request.sectorSize) || !request.esp.espType
         || request.esp.offset + request.esp.size > request.diskSize then
      Some(UnsupportedLayout)
    else if request.esp.guid.None? then Some(InvalidData)
    else None
  }

  /**
   Exactly these requests are valid: both confirmations and the token, and an
   EFI system partition with a GUID, aligned to sectors of 512 bytes, on an
   identified disk that it does not leave.
   */
  lemma ValidRequests(request: Request)
    ensures RequestFault(request).None? <==>
      && request.explicitlyForThisPc && request.acknowledged && request.token == "OK"
      && request.diskNumber != 0xFFFF_FFFF && request.modelKnown && request.diskSize != 0
      && request.sectorSize == 512 && request.diskSectorSize == 512
      && request.esp.gpt && request.esp.espType && request.esp.guid.Some?
      && request.esp.number != 0 && request.esp.offset != 0 && request.esp.size != 0
      && request.esp.offset % 512 == 0 && request.esp.size % 512 == 0
      && request.esp.offset + request.esp.size <= request.diskSize
    ensures RequestFault(request) == Some(ConfirmationRequired) <==>
      !(request.explicitlyForThisPc && request.acknowledged && request.token == "OK")
  {
  }

  // ---------- what the scan looks for ----------

  /** The judgement of an option: does it boot the reviewed partition? */
  function Judged(value: Value, request: Request, fold: Fold): Result<bool> {
    Matches(value.bytes, request.esp, request.sectorSize, fold)
  }

  /** An option that BootOrder lists is there, is ordinary, can be read, and boots the partition or does not. */
  predicate ListedOption(variables: Variables, n: u16, boots: bool, request: Request, fold: Fold) {
    var value := Lookup(variables, BootOption(n));
    value.Some? && value.value.attributes == ORDINARY && Judged(value.value, request, fold) == Ok(boots)
  }

  /** An unlisted option is absent, unfamiliar, or can be read and does not boot the partition. */
  predicate UnlistedOther(variables: Variables, n: u16, request: Request, fold: Fold) {
    var value := Lookup(variables, BootOption(n));
    value.Some? && value.value.attributes == ORDINARY ==> Judged(value.value, request, fold) == Ok(false)
  }

  /** Every listed option but the one found does not boot the partition. */
  predicate ListedScanned(variables: Variables, order: seq<u16>, count: nat, found: Option<u16>, request: Request,
                          fold: Fold)
    requires count <= |order|
  {
    && (forall i :: 0 <= i < count ==> ListedOption(variables, order[i], found == Some(order[i]), request, fold))
    && (found.Some? ==> found.value in order[..count])
  }

  /** Every probed option outside the order but the one found does not boot the partition. */
  predicate UnlistedScanned(variables: Variables, order: seq<u16>, probes: nat, found: Option<u16>, request: Request,
                            fold: Fold) {
    && (forall n: u16 :: n < probes && n !in order && found != Some(n) ==> UnlistedOther(variables, n, request, fold))
    && (found.Some? && found.value !in order ==>
          found.value < probes && ListedOption(variables, found.value, true, request, fold))
  }

  /** One option boots the partition, it is listed, and it is active. */
  predicate Healthy(variables: Variables, request: Request, fold: Fold) {
    exists n: u16 :: HealthyAt(variables, n, request, fold)
  }

  predicate HealthyAt(variables: Variables, n: u16, request: Request, fold: Fold) {
    var order := ParseOrder(Lookup(variables, BootOrder));
    && order.Ok? && n in order.value
    && ListedScanned(variables, order.value, |order.value|, Some(n), request, fold)
    && UnlistedScanned(variables, order.value, PROBES, Some(n), request, fold)
    && IsActive(Lookup(variables, BootOption(n)).value.bytes)
  }

  // ---------- the scan ----------

  /** Reads every listed option and finds the one that boots the partition. */
  method ScanListed(order: seq<u16>, request: Request, fold: Fold, firmware: Firmware)
    returns (r: Result<Option<u16>>, value: Option<Value>)
    requires Distinct(order)
    modifies firmware`calls
    ensures r.Ok? && r.value.Some? ==> value == Lookup(firmware.variables, BootOption(r.value.value))
    ensures r.Ok? ==> ListedScanned(firmware.variables, order, |order|, r.value, request, fold)
    ensures old(firmware.Reliable()) ==> firmware.Reliable()
    ensures old(firmware.FailsOnce()) ==> firmware.FailsOnce()
    ensures old(firmware.Reliable()) ==>
      forall found :: ListedScanned(firmware.variables, order, |order|, found, request, fold) ==> r == Ok(found)
  {
    hide Matches;
    var found: Option<u16> := None;
    value := None;
    for i := 0 to |order|
      invariant old(firmware.Reliable()) ==> firmware.Reliable()
      invariant old(firmware.FailsOnce()) ==> firmware.FailsOnce()
      invariant ListedScanned(firmware.variables, order, i, found, request, fold)
      invariant found.Some? ==> value == Lookup(firmware.variables, BootOption(found.value))
    {
      var current := firmware.Read(BootOption(order[i]));
      if current.Err? {
        return Err(current.error), None;
      }
      if current.value.None? || current.value.value.attributes != ORDINARY {
        assert forall boots :: !ListedOption(firmware.variables, order[i], boots, request, fold);
        return Err(InvalidData), None;
      }
      var boots := LoadOptionMatches(current.value.value.bytes, request.esp, request.sectorSize, fold);
      if boots.Err? {
        assert forall b :: !ListedOption(firmware.variables, order[i], b, request, fold);
        return Err(boots.error), None;
      }
      assert ListedOption(firmware.variables, order[i], boots.value, request, fold);
      assert order[i] !in order[..i];
      if boots.value {
        if found.Some? {
          TwoBoot(firmware.variables, order, i, found.value, request, fold);
          return Err(InvalidData), None;
        }
        found, value := Some(order[i]), current.value;
      }
    }
    assert order[..|order|] == order;
    forall other | ListedScanned(firmware.variables, order, |order|, other, request, fold) ensures found == other {
      OneListed(firmware.variables, order, found, other, request, fold);
    }
    return Ok(found), value;
  }

  lemma OneListed(variables: Variables, order: seq<u16>, a: Option<u16>, b: Option<u16>, request: Request, fold: Fold)
    requires ListedScanned(variables, order, |order|, a, request, fold)
    requires ListedScanned(variables, order, |order|, b, request, fold)
    ensures a == b
  {
    hide Judged;
    assert order[..|order|] == order;
    if a.Some? {
      var i :| 0 <= i < |order| && order[i] == a.value;
      assert ListedOption(variables, order[i], b == Some(order[i]), request, fold);
    }
    if b.Some? {
      var i :| 0 <= i < |order| && order[i] == b.value;
      assert ListedOption(variables, order[i], a == Some(order[i]), request, fold);
    }
  }

  /** Two options that boot the partition: the order is ambiguous. */
  lemma TwoBoot(variables: Variables, order: seq<u16>, i: nat, m: u16, request: Request, fold: Fold)
    requires i < |order| && Distinct(order) && m in order[..i]
    requires ListedOption(variables, m, true, request, fold) && ListedOption(variables, order[i], true, request, fold)
    ensures forall found :: !ListedScanned(variables, order, |order|, found, request, fold)
  {
    hide Matches;
    var j :| 0 <= j < i && order[j] == m;
    assert !ListedOption(variables, order[i], false, request, fold);
    assert !ListedOption(variables, order[j], false, request, fold);
    forall found ensures !ListedScanned(variables, order, |order|, found, request, fold) {
      assert found != Some(order[i]) || found != Some(order[j]);
    }
  }

  /** What was found in the order stays; otherwise something outside the order may be found. */
  predicate Continues(order: seq<u16>, listed: Option<u16>, found: Option<u16>) {
    if listed.Some? then found == listed else found.Some? ==> found.value !in order
  }

  /** A number that a new option may take. */
  predicate Free(variables: Variables, order: seq<u16>, probes: nat, n: u16) {
    n < probes && n !in order && Lookup(variables, BootOption(n)).None?
  }

  /** The smallest number that a new option may take. */
  ghost predicate FirstFree(variables: Variables, order: seq<u16>, probes: nat, n: u16) {
    Free(variables, order, probes, n) && forall m: u16 :: Free(variables, order, probes, m) ==> n <= m
  }

  /** A second option that boots the partition leaves nothing that could be found. */
  lemma Ambiguous(variables: Variables, order: seq<u16>, m: u16, n: u16, listed: Option<u16>, request: Request,
                  fold: Fold)
    requires m != n && n < PROBES && n !in order && ListedOption(variables, n, true, request, fold)
    requires listed == Some(m) || (listed.None? && m < PROBES && m !in order
                                   && ListedOption(variables, m, true, request, fold))
    ensures forall found :: Continues(order, listed, found) ==>
              !UnlistedScanned(variables, order, PROBES, found, request, fold)
  {
    hide Judged;
    forall found | Continues(order, listed, found)
      ensures !UnlistedScanned(variables, order, PROBES, found, request, fold)
    {
      assert !UnlistedOther(variables, n, request, fold);
      if listed.None? {
        assert !UnlistedOther(variables, m, request, fold);
      }
      assert found != Some(n) || found != Some(m);
    }
  }

  lemma OneUnlisted(variables: Variables, order: seq<u16>, listed: Option<u16>, a: Option<u16>, b: Option<u16>,
                    request: Request, fold: Fold)
    requires UnlistedScanned(variables, order, PROBES, a, request, fold) && Continues(order, listed, a)
    requires UnlistedScanned(variables, order, PROBES, b, request, fold) && Continues(order, listed, b)
    ensures a == b
  {
    hide ListedOption, UnlistedOther;
    if listed.None? {
      if a.Some? {
        OnlyUnlisted(variables, order, a.value, b, request, fold);
      }
      if b.Some? {
        OnlyUnlisted(variables, order, b.value, a, request, fold);
      }
    }
  }

  lemma OnlyUnlisted(variables: Variables, order: seq<u16>, n: u16, found: Option<u16>, request: Request, fold: Fold)
    requires n < PROBES && n !in order && ListedOption(variables, n, true, request, fold)
    requires UnlistedScanned(variables, order, PROBES, found, request, fold)
    ensures found == Some(n)
  {
    hide Judged;
    assert !UnlistedOther(variables, n, request, fold);
  }

  lemma FreeNext(variables: Variables, order: seq<u16>, probe: u16, next: nat)
    requires next == probe + 1
    ensures forall n: u16 :: Free(variables, order, next, n) <==>
              Free(variables, order, probe, n)
              || (n == probe && probe !in order && Lookup(variables, BootOption(probe)).None?)
    ensures forall n: u16 :: !Free(variables, order, 0, n)
    ensures forall n: u16 :: Free(variables, order, next, n) ==> n < next
  {
  }

  /** One more number was probed: it boots the partition, and then it is what was found, or it does not. */
  lemma ScannedNext(variables: Variables, order: seq<u16>, probe: u16, found: Option<u16>, next: Option<u16>,
                    request: Request, fold: Fold)
    requires UnlistedScanned(variables, order, probe, found, request, fold)
    requires if next == found then probe in order || UnlistedOther(variables, probe, request, fold)
             else found.None? && next == Some(probe) && ListedOption(variables, probe, true, request, fold)
    ensures UnlistedScanned(variables, order, probe + 1, next, request, fold)
  {
    hide ListedOption, UnlistedOther;
  }

  /** Reads an option and tells whether it boots the partition. */
  method ProbeNumber(number: u16, request: Request, fold: Fold, firmware: Firmware)
    returns (r: Result<Option<Value>>, boots: bool)
    modifies firmware`calls
    ensures r.Ok? ==>
      && r.value == Lookup(firmware.variables, BootOption(number))
      && (if boots then ListedOption(firmware.variables, number, true, request, fold)
          else UnlistedOther(firmware.variables, number, request, fold))
    ensures old(firmware.Reliable()) ==> firmware.Reliable()
    ensures old(firmware.FailsOnce()) ==> firmware.FailsOnce()
    ensures old(firmware.Reliable()) && r.Err? ==>
      !UnlistedOther(firmware.variables, number, request, fold)
      && !ListedOption(firmware.variables, number, true, request, fold)
  {
    hide Matches;
    var current := firmware.Read(BootOption(number));
    if current.Err? || current.value.None? || current.value.value.attributes != ORDINARY {
      return current, false;
    }
    var judged := LoadOptionMatches(current.value.value.bytes, request.esp, request.sectorSize, fold);
    if judged.Err? {
      return Err(judged.error), false;
    }
    return current, judged.value;
  }

  /** A number whose option cannot be judged leaves nothing that could be found. */
  lemma Unreadable(variables: Variables, order: seq<u16>, n: u16, request: Request, fold: Fold)
    requires n < PROBES && n !in order
    requires !UnlistedOther(variables, n, request, fold) && !ListedOption(variables, n, true, request, fold)
    ensures forall found :: !UnlistedScanned(variables, order, PROBES, found, request, fold)
  {
    hide ListedOption, UnlistedOther;
  }

  /** Probes the first numbers outside the order: for a forgotten option, and for a free number. */
  method ScanUnlisted(order: seq<u16>, listed: Option<u16>, listedValue: Option<Value>, request: Request,
                      fold: Fold, firmware: Firmware)
    returns (r: Result<(Option<u16>, Option<u16>)>, value: Option<Value>)
    requires listed.Some? ==> listed.value in order && listedValue == Lookup(firmware.variables, BootOption(listed.value))
    modifies firmware`calls
    ensures r.Ok? && r.value.0.Some? ==> value == Lookup(firmware.variables, BootOption(r.value.0.value))
    ensures old(firmware.Reliable()) ==> firmware.Reliable()
    ensures r.Ok? ==>
      && UnlistedScanned(firmware.variables, order, PROBES, r.value.0, request, fold)
      && (listed.Some? ==> r.value.0 == listed)
      && (listed.None? && r.value.0.Some? ==> r.value.0.value !in order)
      && (r.value.1.Some? ==> r.value.1.value !in order && Lookup(firmware.variables, BootOption(r.value.1.value)).None?)
    ensures old(firmware.FailsOnce()) ==> firmware.FailsOnce()
    ensures old(firmware.Reliable()) ==>
      forall found :: Continues(order, listed, found) ==>
        UnlistedScanned(firmware.variables, order, PROBES, found, request, fold) ==> r.Ok? && r.value.0 == found
    ensures r.Ok? ==> (r.value.1.Some? <==> exists n: u16 :: Free(firmware.variables, order, PROBES, n))
    ensures r.Ok? && r.value.1.Some? ==> FirstFree(firmware.variables, order, PROBES, r.value.1.value)
  {
    hide ListedOption, UnlistedOther, UnlistedScanned, Free;
    ghost var variables := firmware.variables;
    var found := listed;
    value := listedValue;
    var absent: Option<u16> := None;
    FreeNext(variables, order, 0, 1);
    NothingScanned(variables, order, found, request, fold);
    for probe := 0 to PROBES
      invariant old(firmware.Reliable()) ==> firmware.Reliable()
      invariant old(firmware.FailsOnce()) ==> firmware.FailsOnce()
      invariant UnlistedScanned(variables, order, probe, found, request, fold)
      invariant listed.Some? ==> found == listed
      invariant found.Some? ==> value == Lookup(variables, BootOption(found.value))
      invariant listed.None? && found.Some? ==> found.value !in order && found.value < probe
                                                && ListedOption(variables, found.value, true, request, fold)
      invariant absent.Some? ==> FirstFree(variables, order, probe, absent.value)
      invariant forall n: u16 :: Free(variables, order, probe, n) ==> n < probe
      invariant absent.None? ==> forall n: u16 :: !Free(variables, order, probe, n)
    {
      var number: u16 := probe;
      FreeNext(variables, order, number, probe + 1);
      if number in order {
        ScannedNext(variables, order, number, found, found, request, fold);
        continue;
      }
      var current, boots := ProbeNumber(number, request, fold, firmware);
      if current.Err? {
        if old(firmware.Reliable()) {
          Unreadable(variables, order, number, request, fold);
        }
        return Err(current.error), None;
      }
      if current.value.None? {
        absent := if absent.None? then Some(number) else absent;
      }
      if boots {
        if found.Some? {
          Ambiguous(variables, order, found.value, number, listed, request, fold);
          return Err(InvalidData), None;
        }
        ScannedNext(variables, order, number, found, Some(number), request, fold);
        found, value := Some(number), current.value;
      } else {
        ScannedNext(variables, order, number, found, found, request, fold);
      }
    }
    ContinuesWhen(order, listed, found);
    forall other | UnlistedScanned(variables, order, PROBES, other, request, fold) && Continues(order, listed, other)
      ensures found == other
    {
      OneUnlisted(variables, order, listed, found, other, request, fold);
    }
    FreeMeans(variables, order);
    return Ok((found, absent)), value;
  }

  lemma NothingScanned(variables: Variables, order: seq<u16>, listed: Option<u16>, request: Request, fold: Fold)
    requires listed.Some? ==> listed.value in order
    ensures UnlistedScanned(variables, order, 0, listed, request, fold)
  {
  }

  lemma FreeMeans(variables: Variables, order: seq<u16>)
    ensures forall n: u16 :: Free(variables, order, PROBES, n) ==>
              n !in order && Lookup(variables, BootOption(n)).None?
  {
  }

  // ---------- the transaction ----------

  datatype Report = Report(
    number: u16,
    alreadyValid: bool,
    optionWritten: bool,
    orderWritten: bool,
    priorOrderPreserved: bool,
    exactTargetVerified: bool,
    rollbackAttempted: bool,
    rollbackSucceeded: bool)

  datatype Outcome = Repaired(report: Report) | Failed(error: ErrorKind, report: Report)

  function NewReport(number: u16): Report {
    Report(number, false, false, false, false, false, false, false)
  }

  /** What the transaction intends: the option and, if it is not listed yet, the order with its number added. */
  datatype Plan = Plan(
    number: u16,
    originalOption: Option<Value>,
    desiredOption: Value,
    originalOrder: Option<Value>,
    order: seq<u16>)

  predicate Listed(plan: Plan) {
    plan.number in plan.order
  }

  function DesiredOrder(plan: Plan): Option<Value> {
    if Listed(plan) then plan.originalOrder else Some(EncodeOrder(plan.order + [plan.number]))
  }

  /** The plan was made from these variables. */
  predicate PlannedFrom(plan: Plan, variables: Variables, request: Request, fold: Fold) {
    && Lookup(variables, BootOption(plan.number)) == plan.originalOption
    && Lookup(variables, BootOrder) == plan.originalOrder
    && ParseOrder(plan.originalOrder) == Ok(plan.order)
    && |plan.desiredOption.bytes| >= 6
    && IsActive(plan.desiredOption.bytes)
    && plan.desiredOption.attributes == ORDINARY
    && Judged(plan.desiredOption, request, fold) == Ok(true)
    && (forall n: u16 :: n in plan.order && n != plan.number ==> ListedOption(variables, n, false, request, fold))
    && (forall n: u16 :: n < PROBES && n !in plan.order && n != plan.number ==>
          UnlistedOther(variables, n, request, fold))
  }

  /** The variables while the transaction is under way, as far as its writes stored what they were told to. */
  ghost predicate Underway(firmware: Firmware, before: Variables, option: Option<Value>, order: Option<Value>, n: u16)
    reads firmware
  {
    && firmware.garbled <= {BootOption(n), BootOrder}
    && (forall other :: other != BootOption(n) && other != BootOrder ==>
          Lookup(firmware.variables, other) == Lookup(before, other))
    && (BootOption(n) !in firmware.garbled ==> Lookup(firmware.variables, BootOption(n)) == option)
    && (BootOrder !in firmware.garbled ==> Lookup(firmware.variables, BootOrder) == order)
  }

  lemma SameLookups(a: Variables, b: Variables)
    requires forall name :: Lookup(a, name) == Lookup(b, name)
    ensures a == b
  {
    forall name ensures name in a <==> name in b {
      assert Lookup(a, name) == Lookup(b, name);
    }
    forall name | name in a ensures a[name] == b[name] {
      assert Lookup(a, name) == Lookup(b, name);
    }
  }

  /** What is written can be written back: the old and the new values are ones that the firmware takes. */
  predicate Restorable(plan: Plan) {
    && Writable(plan.originalOption) && Writable(Some(plan.desiredOption))
    && (!Listed(plan) ==> Writable(plan.originalOrder) && Writable(DesiredOrder(plan)))
  }

  /** The order has room for the number. */
  predicate Fits(plan: Plan) {
    Listed(plan) || |plan.order| < MAXIMUM_ORDER
  }

  /** Nothing is garbled, and the variables are as they were. */
  ghost predicate AsBefore(firmware: Firmware, before: Variables)
    reads firmware
  {
    firmware.variables == before && firmware.garbled == {}
  }

  /** Puts one variable back, if it still has the value that was written. */
  method RestoreVariable(firmware: Firmware, name: Name, current: Option<Value>, original: Option<Value>)
    returns (ok: bool)
    modifies firmware
    ensures !ok ==> firmware.variables == old(firmware.variables) && firmware.garbled == old(firmware.garbled)
    ensures forall other :: other != name ==> Lookup(firmware.variables, other) == Lookup(old(firmware.variables), other)
    ensures forall other :: other != name ==> (other in firmware.garbled <==> other in old(firmware.garbled))
    ensures ok && name !in firmware.garbled ==> Lookup(firmware.variables, name) == original
    ensures ok == (old(firmware.Accepts(name, current, original)) && firmware.faults(old(firmware.calls)) != Fails)
    ensures old(firmware.Reliable()) ==> firmware.Reliable() && (ok ==> name !in firmware.garbled)
  {
    ok := firmware.ReplaceIfExact(name, current, original);
  }

  /** Undoes the writes so far: the order first, then the option. */
  method RollbackAll(firmware: Firmware, plan: Plan, optionWritten: bool, orderWritten: bool, ghost before: Variables)
    returns (ok: bool)
    requires Underway(firmware, before,
                      if optionWritten then Some(plan.desiredOption) else plan.originalOption,
                      if orderWritten then DesiredOrder(plan) else plan.originalOrder, plan.number)
    requires Lookup(before, BootOption(plan.number)) == plan.originalOption
    requires Lookup(before, BootOrder) == plan.originalOrder
    modifies firmware
    ensures ok && firmware.garbled == {} ==> firmware.variables == before
    ensures !optionWritten && !orderWritten ==> ok && firmware.variables == old(firmware.variables)
    ensures old(firmware.Reliable()) ==> firmware.Reliable()
    ensures old(firmware.Reliable()) && old(firmware.garbled) == {} ==>
      Restorable(plan) && (orderWritten ==> !Listed(plan)) ==> ok && AsBefore(firmware, before)
  {
    var orderOk, optionOk := true, true;
    ghost var option := BootOption(plan.number);
    if orderWritten {
      orderOk := RestoreVariable(firmware, BootOrder, DesiredOrder(plan), plan.originalOrder);
    }
    ghost var between, garbledBetween := firmware.variables, firmware.garbled;
    assert orderOk && BootOrder !in garbledBetween ==> Lookup(between, BootOrder) == plan.originalOrder;
    if optionWritten {
      optionOk := RestoreVariable(firmware, BootOption(plan.number), Some(plan.desiredOption), plan.originalOption);
    }
    ok := orderOk && optionOk;
    if ok && firmware.garbled == {} {
      assert BootOrder !in garbledBetween;
      assert Lookup(firmware.variables, BootOrder) == Lookup(between, BootOrder);
      assert Lookup(firmware.variables, option) == plan.originalOption;
      SameLookups(firmware.variables, before);
    }
  }

  /** A failure that reports no write, or a successful rollback of its writes, leaves the variables as they were. */
  ghost predicate Undone(outcome: Outcome, firmware: Firmware, before: Variables)
    reads firmware
  {
    && outcome.Failed?
    && (outcome.report.rollbackAttempted <==> outcome.report.optionWritten || outcome.report.orderWritten)
    && ((!outcome.report.rollbackAttempted || outcome.report.rollbackSucceeded) && firmware.garbled == {} ==>
          firmware.variables == before)
  }

  predicate NeedsWrite(plan: Plan) {
    plan.originalOption != Some(plan.desiredOption)
  }

  /** Writes the option, if it changes, and reads it back. */
  method WriteOption(firmware: Firmware, plan: Plan, ghost before: Variables) returns (failure: Option<Outcome>)
    requires firmware.variables == before && firmware.garbled == {}
    requires Lookup(before, BootOption(plan.number)) == plan.originalOption
    requires Lookup(before, BootOrder) == plan.originalOrder
    requires Restorable(plan)
    modifies firmware
    ensures failure.Some? ==> Undone(failure.value, firmware, before)
    ensures failure.None? ==>
      Underway(firmware, before, Some(plan.desiredOption), plan.originalOrder, plan.number)
    ensures old(firmware.Reliable()) ==> failure.None? && firmware.Reliable() && firmware.garbled == {}
    ensures old(firmware.FailsOnce()) ==> firmware.FailsOnce() && firmware.garbled == {}
    ensures old(firmware.FailsOnce()) && failure.Some? ==> AsBefore(firmware, before)
  {
    if !NeedsWrite(plan) {
      return None;
    }
    var report := NewReport(plan.number);
    var written := firmware.ReplaceIfExact(BootOption(plan.number), plan.originalOption, Some(plan.desiredOption));
    if !written {
      return Some(Failed(IoFailed, report));
    }
    var verified := firmware.Read(BootOption(plan.number));
    if verified.Err? || verified.value != Some(plan.desiredOption) {
      var restored := RollbackAll(firmware, plan, true, false, before);
      var error := if verified.Err? then verified.error else VerificationFailed;
      return Some(Failed(error, report.(optionWritten := true, rollbackAttempted := true, rollbackSucceeded := restored)));
    }
    return None;
  }

  /** Adds the number to the order, if it is missing, and reads the order back. */
  method WriteOrder(firmware: Firmware, plan: Plan, ghost before: Variables) returns (failure: Option<Outcome>)
    requires Underway(firmware, before, Some(plan.desiredOption), plan.originalOrder, plan.number)
    requires Lookup(before, BootOption(plan.number)) == plan.originalOption
    requires Lookup(before, BootOrder) == plan.originalOrder
    requires Restorable(plan)
    modifies firmware
    ensures failure.Some? ==> Undone(failure.value, firmware, before)
    ensures failure.None? ==> Underway(firmware, before, Some(plan.desiredOption), DesiredOrder(plan), plan.number)
    ensures old(firmware.Reliable()) && old(firmware.garbled) == {} ==>
      failure.None? && firmware.Reliable() && firmware.garbled == {}
    ensures old(firmware.FailsOnce()) && old(firmware.garbled) == {} ==>
      firmware.FailsOnce() && firmware.garbled == {} && (failure.Some? ==> AsBefore(firmware, before))
  {
    if Listed(plan) {
      return None;
    }
    var report := NewReport(plan.number).(optionWritten := NeedsWrite(plan));
    var valid := firmware.RevalidateTarget();
    if !valid {
      failure := FailWithRollback(firmware, plan, report, false, IdentityMismatch, before);
      return;
    }
    var written := firmware.ReplaceIfExact(BootOrder, plan.originalOrder, DesiredOrder(plan));
    if !written {
      failure := FailWithRollback(firmware, plan, report, false, IoFailed, before);
      return;
    }
    var verified := firmware.Read(BootOrder);
    if verified.Err? || verified.value != DesiredOrder(plan) {
      var error := if verified.Err? then verified.error else VerificationFailed;
      failure := FailWithRollback(firmware, plan, report, true, error, before);
      return;
    }
    return None;
  }

  method FailWithRollback(firmware: Firmware, plan: Plan, report: Report, orderWritten: bool, error: ErrorKind,
                          ghost before: Variables)
    returns (failure: Option<Outcome>)
    requires Underway(firmware, before, Some(plan.desiredOption),
                      if orderWritten then DesiredOrder(plan) else plan.originalOrder, plan.number)
    requires Lookup(before, BootOption(plan.number)) == plan.originalOption
    requires Lookup(before, BootOrder) == plan.originalOrder
    requires report.optionWritten == NeedsWrite(plan)
    modifies firmware
    ensures failure.Some? && Undone(failure.value, firmware, before)
    ensures old(firmware.Reliable()) && old(firmware.garbled) == {} ==>
      Restorable(plan) && (orderWritten ==> !Listed(plan)) ==> firmware.Reliable() && AsBefore(firmware, before)
  {
    var restored := RollbackAll(firmware, plan, NeedsWrite(plan), orderWritten, before);
    return Some(Failed(error, report.(orderWritten := orderWritten,
                                      rollbackAttempted := orderWritten || NeedsWrite(plan),
                                      rollbackSucceeded := restored)));
  }

  /** Reads both variables once more and accepts only the intended result. */
  method Confirm(firmware: Firmware, plan: Plan, request: Request, fold: Fold, ghost before: Variables)
    returns (problem: Option<ErrorKind>)
    requires Underway(firmware, before, Some(plan.desiredOption), DesiredOrder(plan), plan.number)
    requires PlannedFrom(plan, before, request, fold)
    modifies firmware`calls
    ensures problem.None? ==> Achieved(firmware.variables, before, plan, request, fold)
    ensures old(firmware.Reliable()) ==> firmware.Reliable()
    ensures old(firmware.Reliable()) && firmware.garbled == {} && Fits(plan) ==> problem.None?
    ensures old(firmware.FailsOnce()) && firmware.garbled == {} && Fits(plan) && problem.Some? ==> firmware.Reliable()
  {
    hide Matches, ListedOption, UnlistedOther, ParseOrder, EncodeOrder;
    var finalOption := firmware.Read(BootOption(plan.number));
    var finalOrder := firmware.Read(BootOrder);
    if finalOption.Err? || finalOrder.Err? || finalOption.value.None? || finalOrder.value.None? {
      IntendedOrder(plan, before, request, fold);
      return Some(VerificationFailed);
    }
    var exact := LoadOptionMatches(finalOption.value.value.bytes, request.esp, request.sectorSize, fold);
    var finalNumbers := ParseBootOrder(finalOrder.value);
    IntendedOrder(plan, before, request, fold);
    if exact != Ok(true) || finalNumbers.Err? || finalOption.value != Some(plan.desiredOption)
       || finalOrder.value != DesiredOrder(plan) || plan.number !in finalNumbers.value
       || |finalNumbers.value| != |plan.order| + (if Listed(plan) then 0 else 1)
       || plan.order != finalNumbers.value[..|plan.order|] {
      return Some(VerificationFailed);
    }
    var valid := firmware.RevalidateTarget();
    if !valid {
      return Some(IdentityMismatch);
    }
    return None;
  }

  /** The order with the number added is one that can be read again, exactly if there was room. */
  lemma IntendedOrder(plan: Plan, before: Variables, request: Request, fold: Fold)
    requires PlannedFrom(plan, before, request, fold)
    ensures Listed(plan) || Fits(plan) ==>
              DesiredOrder(plan).Some?
              && ParseOrder(DesiredOrder(plan)) == Ok(if Listed(plan) then plan.order else plan.order + [plan.number])
    ensures !Fits(plan) ==> ParseOrder(DesiredOrder(plan)).Err?
  {
    hide Matches, ListedOption, UnlistedOther, EncodeOrder, DecodeOrder;
    OrderDistinct(plan.originalOrder);
    if !Listed(plan) {
      OrderParsesBack(plan.order + [plan.number]);
    }
  }

  /** Confirms the result, or undoes the writes. */
  method FinalCheck(firmware: Firmware, plan: Plan, request: Request, fold: Fold, ghost before: Variables)
    returns (outcome: Outcome)
    requires Underway(firmware, before, Some(plan.desiredOption), DesiredOrder(plan), plan.number)
    requires PlannedFrom(plan, before, request, fold) && Restorable(plan)
    modifies firmware
    ensures outcome.Failed? ==> Undone(outcome, firmware, before)
    ensures outcome.Repaired? ==>
      && outcome.report == NewReport(plan.number).(optionWritten := NeedsWrite(plan), orderWritten := !Listed(plan),
                                                   priorOrderPreserved := true, exactTargetVerified := true)
      && Achieved(firmware.variables, before, plan, request, fold) && Fits(plan)
    ensures old(firmware.Reliable()) && old(firmware.garbled) == {} ==>
      (outcome.Repaired? <==> Fits(plan)) && (outcome.Failed? ==> AsBefore(firmware, before))
    ensures old(firmware.FailsOnce()) && old(firmware.garbled) == {} ==>
      Fits(plan) && outcome.Failed? ==> AsBefore(firmware, before)
  {
    hide ListedOption, UnlistedOther, ParseOrder, Restorable;
    var report := NewReport(plan.number).(optionWritten := NeedsWrite(plan), orderWritten := !Listed(plan));
    var problem := Confirm(firmware, plan, request, fold, before);
    if problem.Some? {
      var failure := FailWithRollback(firmware, plan, report, !Listed(plan), problem.value, before);
      return failure.value;
    }
    IntendedOrder(plan, before, request, fold);
    assert Achieved(firmware.variables, before, plan, request, fold);
    return Repaired(report.(priorOrderPreserved := true, exactTargetVerified := true));
  }

  /** The repaired variables: the order keeps its front, the option boots the partition, the rest is untouched. */
  ghost predicate Achieved(after: Variables, before: Variables, plan: Plan, request: Request, fold: Fold) {
    && (forall other :: other != BootOption(plan.number) && other != BootOrder ==>
          Lookup(after, other) == Lookup(before, other))
    && Lookup(after, BootOption(plan.number)) == Some(plan.desiredOption)
    && Judged(plan.desiredOption, request, fold) == Ok(true)
    && Lookup(after, BootOrder) == DesiredOrder(plan)
    && ParseOrder(DesiredOrder(plan)) == Ok(if Listed(plan) then plan.order else plan.order + [plan.number])
  }

  /** The number the report names is the one option that boots the partition, and it is listed and active. */
  lemma AchievedIsHealthy(after: Variables, before: Variables, plan: Plan, request: Request, fold: Fold)
    requires PlannedFrom(plan, before, request, fold) && Achieved(after, before, plan, request, fold)
    ensures HealthyAt(after, plan.number, request, fold)
    ensures Listed(plan) <==> Lookup(after, BootOrder) == Lookup(before, BootOrder)
  {
    hide Matches, ParseOrder, EncodeOrder;
    var order := if Listed(plan) then plan.order else plan.order + [plan.number];
    assert ParseOrder(Lookup(after, BootOrder)) == Ok(order);
    assert plan.number in order && order[..|order|] == order;
    forall i | 0 <= i < |order|
      ensures ListedOption(after, order[i], Some(plan.number) == Some(order[i]), request, fold)
    {
      if order[i] != plan.number {
        assert order[i] in plan.order;
        assert ListedOption(before, order[i], false, request, fold);
        assert Lookup(after, BootOption(order[i])) == Lookup(before, BootOption(order[i]));
      }
    }
    forall n: u16 | n < PROBES && n !in order && n != plan.number ensures UnlistedOther(after, n, request, fold) {
      assert UnlistedOther(before, n, request, fold);
      assert Lookup(after, BootOption(n)) == Lookup(before, BootOption(n));
    }
  }

  /** The result of a repair in terms of the variables before and after. */
  ghost predicate Result(outcome: Outcome, firmware: Firmware, before: Variables, request: Request, fold: Fold)
    reads firmware
  {
    match outcome
    case Failed(_, _) => Undone(outcome, firmware, before)
    case Repaired(report) =>
      && HealthyAt(firmware.variables, report.number, request, fold)
      && OnlyRepaired(firmware.variables, before, report.number)
      && (report.alreadyValid ==> firmware.variables == before)
      && (report.optionWritten <==>
            Lookup(firmware.variables, BootOption(report.number)) != Lookup(before, BootOption(report.number)))
      && (report.orderWritten <==> Lookup(firmware.variables, BootOrder) != Lookup(before, BootOrder))
      && report.priorOrderPreserved && report.exactTargetVerified && !report.rollbackAttempted
  }

  /**
   The option that the repair leaves: the one that was found, made active and
   otherwise untouched, or a new one under the first free number.
   */
  ghost predicate Settles(after: Variables, before: Variables, number: u16, request: Request, fold: Fold) {
    var was, now := Lookup(before, BootOption(number)), Lookup(after, BootOption(number));
    exists order, found ::
      && Scanned(before, order, found, request, fold)
      && (if found.Some? then
            && number == found.value && was.Some? && |was.value.bytes| >= 4
            && now == Some(Value(Activated(was.value.bytes), ORDINARY))
          else
            && FirstFree(before, order, PROBES, number)
            && BuildLoadOption(request.esp, request.sectorSize).Ok?
            && now == Some(Value(BuildLoadOption(request.esp, request.sectorSize).value, ORDINARY)))
  }

  /** BootOrder is as it was or has the number added at the end; every variable but the two is as it was. */
  ghost predicate OnlyRepaired(after: Variables, before: Variables, number: u16) {
    && (forall other :: other != BootOption(number) && other != BootOrder ==> Lookup(after, other) == Lookup(before, other))
    && var was, now := ParseOrder(Lookup(before, BootOrder)), ParseOrder(Lookup(after, BootOrder));
       was.Ok? && now.Ok? && (now == was || now.value == was.value + [number])
  }

  /** What the scan settles: the option that boots the partition, or a free number. */
  ghost predicate Scanned(variables: Variables, order: seq<u16>, found: Option<u16>, request: Request, fold: Fold) {
    && ParseOrder(Lookup(variables, BootOrder)) == Ok(order)
    && UnlistedScanned(variables, order, PROBES, found, request, fold)
    && (forall n: u16 :: n in order ==> ListedOption(variables, n, found == Some(n), request, fold))
  }

  lemma ScannedBoth(variables: Variables, order: seq<u16>, listed: Option<u16>, found: Option<u16>, request: Request,
                    fold: Fold)
    requires ParseOrder(Lookup(variables, BootOrder)) == Ok(order)
    requires ListedScanned(variables, order, |order|, listed, request, fold)
    requires UnlistedScanned(variables, order, PROBES, found, request, fold)
    requires Continues(order, listed, found)
    ensures Scanned(variables, order, found, request, fold)
    ensures found.Some? ==> ListedOption(variables, found.value, true, request, fold)
  {
    hide ListedOption, UnlistedOther, ParseOrder;
    assert order[..|order|] == order;
    forall n: u16 | n in order ensures ListedOption(variables, n, found == Some(n), request, fold) {
      var i :| 0 <= i < |order| && order[i] == n;
      assert ListedOption(variables, order[i], listed == Some(order[i]), request, fold);
    }
    if found.Some? && found.value in order {
      assert ListedOption(variables, found.value, found == Some(found.value), request, fold);
    }
  }

  lemma ScannedIsHealthy(variables: Variables, order: seq<u16>, n: u16, request: Request, fold: Fold)
    requires Scanned(variables, order, Some(n), request, fold) && n in order
    requires ListedOption(variables, n, true, request, fold) && |Lookup(variables, BootOption(n)).value.bytes| >= 4
    requires IsActive(Lookup(variables, BootOption(n)).value.bytes)
    ensures HealthyAt(variables, n, request, fold)
  {
    hide ListedOption, UnlistedOther, ParseOrder, IsActive;
    assert order[..|order|] == order;
    forall i | 0 <= i < |order| ensures ListedOption(variables, order[i], Some(n) == Some(order[i]), request, fold) {
      assert order[i] in order;
    }
  }

  lemma HealthyIsScanned(variables: Variables, n: u16, request: Request, fold: Fold)
    requires HealthyAt(variables, n, request, fold)
    ensures ParseOrder(Lookup(variables, BootOrder)).Ok?
    ensures Scanned(variables, ParseOrder(Lookup(variables, BootOrder)).value, Some(n), request, fold)
  {
    hide ListedOption, UnlistedOther, IsActive, ParseOrder;
    var order := ParseOrder(Lookup(variables, BootOrder)).value;
    assert order[..|order|] == order;
    forall m: u16 | m in order ensures ListedOption(variables, m, Some(n) == Some(m), request, fold) {
      var i :| 0 <= i < |order| && order[i] == m;
      assert ListedOption(variables, order[i], Some(n) == Some(order[i]), request, fold);
    }
  }

  /** Finds the option to repair, or the number to use; no write happens here. */
  method Scan(request: Request, fold: Fold, firmware: Firmware)
    returns (r: Result<(seq<u16>, Option<u16>, Option<u16>)>, originalOrder: Option<Value>, value: Option<Value>)
    modifies firmware`calls
    ensures old(firmware.Reliable()) ==> firmware.Reliable()
    ensures r.Ok? ==>
      var (order, found, absent) := r.value;
      && Scanned(firmware.variables, order, found, request, fold)
      && originalOrder == Lookup(firmware.variables, BootOrder)
      && (found.Some? ==> ListedOption(firmware.variables, found.value, true, request, fold)
                          && value == Lookup(firmware.variables, BootOption(found.value)))
      && (absent.Some? ==> absent.value !in order && Lookup(firmware.variables, BootOption(absent.value)).None?)
    ensures old(firmware.FailsOnce()) ==> firmware.FailsOnce()
    ensures old(firmware.Reliable()) ==>
      forall order, found :: Scanned(firmware.variables, order, found, request, fold) ==>
        r.Ok? && r.value.0 == order && r.value.1 == found
    ensures r.Ok? ==>
      (r.value.2.Some? <==> exists n: u16 :: Free(firmware.variables, r.value.0, PROBES, n))
    ensures r.Ok? && r.value.2.Some? ==> FirstFree(firmware.variables, r.value.0, PROBES, r.value.2.value)
  {
    hide Matches, ListedOption, UnlistedOther, DecodeOrder, Free, Scanned, ListedScanned, UnlistedScanned, Continues;
    value := None;
    var current := firmware.Read(BootOrder);
    if current.Err? {
      return Err(current.error), None, None;
    }
    originalOrder := current.value;
    var parsed := ParseBootOrder(originalOrder);
    ghost var variables := firmware.variables;
    ScannedOrder(variables, request, fold);
    if parsed.Err? {
      return Err(parsed.error), None, None;
    }
    var order := parsed.value;
    forall found | Scanned(variables, order, found, request, fold)
      ensures ListedScanned(variables, order, |order|, ListedPart(order, found), request, fold)
      ensures UnlistedScanned(variables, order, PROBES, found, request, fold)
      ensures Continues(order, ListedPart(order, found), found)
    {
      ScannedParts(variables, order, found, request, fold);
    }
    OrderDistinct(originalOrder);
    var listed, listedValue := ScanListed(order, request, fold, firmware);
    if listed.Err? {
      return Err(listed.error), None, None;
    }
    FoundIsListed(variables, order, listed.value, request, fold);
    var unlisted, foundValue := ScanUnlisted(order, listed.value, listedValue, request, fold, firmware);
    if unlisted.Err? {
      return Err(unlisted.error), None, None;
    }
    ContinuesWhen(order, listed.value, unlisted.value.0);
    ScannedBoth(variables, order, listed.value, unlisted.value.0, request, fold);
    return Ok((order, unlisted.value.0, unlisted.value.1)), originalOrder, foundValue;
  }

  /** What a scan of the order alone finds. */
  function ListedPart(order: seq<u16>, found: Option<u16>): Option<u16> {
    if found.Some? && found.value in order then found else None
  }

  lemma ScannedOrder(variables: Variables, request: Request, fold: Fold)
    ensures forall order, found :: Scanned(variables, order, found, request, fold) ==>
              ParseOrder(Lookup(variables, BootOrder)) == Ok(order)
  {
    hide ParseOrder, UnlistedScanned, ListedOption;
  }

  lemma ContinuesWhen(order: seq<u16>, listed: Option<u16>, found: Option<u16>)
    requires listed.Some? ==> found == listed
    requires listed.None? && found.Some? ==> found.value !in order
    ensures Continues(order, listed, found)
  {
  }

  lemma ScannedParts(variables: Variables, order: seq<u16>, found: Option<u16>, request: Request, fold: Fold)
    requires Scanned(variables, order, found, request, fold)
    ensures ListedScanned(variables, order, |order|, ListedPart(order, found), request, fold)
    ensures UnlistedScanned(variables, order, PROBES, found, request, fold)
    ensures Continues(order, ListedPart(order, found), found)
  {
    hide ListedOption, UnlistedOther, ParseOrder;
    assert order[..|order|] == order;
    forall i | 0 <= i < |order|
      ensures ListedOption(variables, order[i], ListedPart(order, found) == Some(order[i]), request, fold)
    {
      assert order[i] in order;
    }
  }

  lemma FoundIsListed(variables: Variables, order: seq<u16>, found: Option<u16>, request: Request, fold: Fold)
    requires ListedScanned(variables, order, |order|, found, request, fold)
    ensures found.Some? ==> found.value in order
  {
    assert order[..|order|] == order;
  }

  lemma OrderDistinct(value: Option<Value>)
    requires ParseOrder(value).Ok?
    ensures Distinct(ParseOrder(value).value)
  {
    hide DecodeOrder;
  }

  /** The option to be written: the one that was found, made active, or a new one. */
  method DesiredOption(request: Request, found: Option<Value>, fold: Fold) returns (desired: Value)
    requires RequestFault(request).None?
    requires found.Some? ==> found.value.attributes == ORDINARY && Judged(found.value, request, fold) == Ok(true)
    ensures desired.attributes == ORDINARY && |desired.bytes| >= 6 && IsActive(desired.bytes)
    ensures Judged(desired, request, fold) == Ok(true) && Writable(found) && Writable(Some(desired))
    ensures found.Some? ==> desired.bytes == Activated(found.value.bytes)
    ensures found.None? ==> BuildLoadOption(request.esp, request.sectorSize) == Ok(desired.bytes)
  {
    hide Activated, LoadOption, DescriptionEnd, PathMatches;
    if found.Some? {
      ActivatedIsActive(found.value.bytes);
      ActivatedMatches(found.value.bytes, request.esp, request.sectorSize, fold);
      return Value(Activated(found.value.bytes), ORDINARY);
    }
    var built := BuildWindowsBootManagerLoadOption(request.esp, request.sectorSize);
    AlignedOptionMatches(request.esp, request.esp, fold);
    BuiltIsActive(request.esp.number, request.esp.offset / 512, request.esp.size / 512, request.esp.guid.value);
    return Value(built.value, ORDINARY);
  }

  /**
   The variables can be repaired: the order can be read, its options and the
   probed ones can be judged, no two of them boot the partition, there is an
   option to repair or a free number, and a number to be added has room.
   */
  ghost predicate Repairable(variables: Variables, request: Request, fold: Fold) {
    exists order, found :: RepairableAs(variables, order, found, request, fold)
  }

  ghost predicate RepairableAs(variables: Variables, order: seq<u16>, found: Option<u16>, request: Request, fold: Fold) {
    && Scanned(variables, order, found, request, fold) && Room(order, found)
    && (found.Some? || exists n: u16 :: Free(variables, order, PROBES, n))
  }

  /** Whatever the scan settles, a number that has to be added to the order has room there. */
  ghost predicate HasRoom(variables: Variables, request: Request, fold: Fold) {
    forall order, found :: Scanned(variables, order, found, request, fold) ==> Room(order, found)
  }

  /**
   Repairs the boot entry. Success: the reviewed partition is booted by exactly
   one option, listed and active; BootOrder kept its entries, at most one number
   was added, and nothing else changed. Failure: if no rollback was needed, or
   the rollback succeeded, the variables are as they were. With a firmware that
   works, exactly the repairable variables are repaired, and a failure leaves
   them as they were. One call that fails is undone as well. On variables that
   are healthy already, nothing is written.
   */
  method RepairCurrentPc(request: Request, fold: Fold, firmware: Firmware) returns (outcome: Outcome)
    requires firmware.garbled == {}
    modifies firmware
    ensures Result(outcome, firmware, old(firmware.variables), request, fold)
    ensures outcome.Repaired? ==> RequestFault(request).None? && Repairable(old(firmware.variables), request, fold)
    ensures outcome.Repaired? ==> Settles(firmware.variables, old(firmware.variables), outcome.report.number, request, fold)
    ensures old(firmware.Reliable()) ==>
      (outcome.Repaired? <==> RequestFault(request).None? && Repairable(old(firmware.variables), request, fold))
    ensures old(firmware.Reliable()) && outcome.Failed? ==> AsBefore(firmware, old(firmware.variables))
    ensures old(firmware.FailsOnce()) && HasRoom(old(firmware.variables), request, fold) && outcome.Failed? ==>
      AsBefore(firmware, old(firmware.variables))
    ensures !(request.explicitlyForThisPc && request.acknowledged && request.token == "OK") ==>
      && outcome == Failed(ConfirmationRequired, NewReport(0))
      && firmware.writes == old(firmware.writes) && firmware.calls == old(firmware.calls)
    ensures old(firmware.Reliable()) && RequestFault(request).None? && Healthy(old(firmware.variables), request, fold) ==>
      && outcome.Repaired? && outcome.report.alreadyValid
      && firmware.writes == old(firmware.writes) && firmware.variables == old(firmware.variables)
  {
    hide Matches, ListedOption, UnlistedOther, HealthyAt, ParseOrder, IsActive, Healthy, Scanned, Repairable, Room,
      Settles, Activated, FirstFree, BuildLoadOption;
    var none := NewReport(0);
    var fault := RequestFault(request);
    if fault.Some? {
      return Failed(fault.value, none);
    }
    var valid := firmware.RevalidateTarget();
    if !valid {
      return Failed(IdentityMismatch, none);
    }
    ghost var before := firmware.variables;
    RepairableIsScanned(before, request, fold);
    var scanned, originalOrder, value := Scan(request, fold, firmware);
    if scanned.Err? {
      return Failed(scanned.error, none);
    }
    var (order, found, absent) := scanned.value;
    ScannedOnce(before, order, found, request, fold);
    if found.Some? {
      BootingOption(before, found.value, request, fold);
    }
    if found.Some? && found.value in order && IsActive(value.value.bytes) {
      ScannedIsHealthy(before, order, found.value, request, fold);
      UnchangedOnlyRepaired(before, order, found.value, request, fold);
      ActivatedIsActive(value.value.bytes);
      SettledOption(before, before, order, found, found.value, request, fold);
      valid := firmware.RevalidateTarget();
      if !valid {
        return Failed(IdentityMismatch, none);
      }
      return Repaired(NewReport(found.value).(alreadyValid := true, priorOrderPreserved := true,
                                              exactTargetVerified := true));
    }
    assert !Healthy(before, request, fold) by {
      HealthyIsFound(before, order, found, request, fold);
      if Healthy(before, request, fold) {
        HealthyOption(before, found.value, request, fold);
      }
    }
    if found.None? && absent.None? {
      return Failed(UnsupportedLayout, none);
    }
    outcome := RepairFound(request, fold, firmware, order, found, absent, originalOrder, value);
  }

  /** A scan has at most one result, and that decides whether the variables can be repaired. */
  lemma ScannedOnce(variables: Variables, order: seq<u16>, found: Option<u16>, request: Request, fold: Fold)
    requires Scanned(variables, order, found, request, fold)
    ensures forall o, f :: Scanned(variables, o, f, request, fold) ==> o == order && f == found
    ensures Repairable(variables, request, fold) <==>
              Room(order, found) && (found.Some? || exists n: u16 :: Free(variables, order, PROBES, n))
    ensures HasRoom(variables, request, fold) <==> Room(order, found)
  {
    hide ListedScanned, UnlistedScanned, Scanned, Continues, ListedPart, Room, Free;
    ScannedOrder(variables, request, fold);
    ScannedParts(variables, order, found, request, fold);
    forall o, f | Scanned(variables, o, f, request, fold) ensures o == order && f == found {
      ScannedParts(variables, o, f, request, fold);
      OneListed(variables, order, ListedPart(order, found), ListedPart(order, f), request, fold);
      OneUnlisted(variables, order, ListedPart(order, found), found, f, request, fold);
    }
    var repairable := Room(order, found) && (found.Some? || exists n: u16 :: Free(variables, order, PROBES, n));
    assert RepairableAs(variables, order, found, request, fold) <==> repairable;
  }

  lemma RepairableIsScanned(variables: Variables, request: Request, fold: Fold)
    ensures Repairable(variables, request, fold) || Healthy(variables, request, fold) ==>
              exists order, found :: Scanned(variables, order, found, request, fold)
  {
    hide Scanned, HealthyAt;
    if Healthy(variables, request, fold) {
      var n: u16 :| HealthyAt(variables, n, request, fold);
      HealthyIsScanned(variables, n, request, fold);
    }
  }

  /** Healthy variables: the scan finds the option, in the order and active. */
  lemma HealthyIsFound(variables: Variables, order: seq<u16>, found: Option<u16>, request: Request, fold: Fold)
    requires Scanned(variables, order, found, request, fold)
    ensures Healthy(variables, request, fold) ==>
      found.Some? && found.value in order && HealthyAt(variables, found.value, request, fold)
  {
    hide Scanned, ParseOrder, HealthyAt, ListedOption;
    if Healthy(variables, request, fold) {
      var n: u16 :| HealthyAt(variables, n, request, fold);
      HealthyIsScanned(variables, n, request, fold);
      ScannedOnce(variables, order, found, request, fold);
      ScannedOrder(variables, request, fold);
      HealthyOption(variables, n, request, fold);
    }
  }

  lemma HealthyOption(variables: Variables, n: u16, request: Request, fold: Fold)
    requires HealthyAt(variables, n, request, fold)
    ensures ListedOption(variables, n, true, request, fold)
    ensures Lookup(variables, BootOption(n)).Some? && |Lookup(variables, BootOption(n)).value.bytes| >= 6
    ensures n in ParseOrder(Lookup(variables, BootOrder)).value && IsActive(Lookup(variables, BootOption(n)).value.bytes)
  {
    hide Matches, IsActive, ParseOrder;
    var order := ParseOrder(Lookup(variables, BootOrder)).value;
    var i :| 0 <= i < |order| && order[i] == n;
    assert ListedOption(variables, order[i], Some(n) == Some(order[i]), request, fold);
    BootingOption(variables, n, request, fold);
  }

  lemma BootingOption(variables: Variables, n: u16, request: Request, fold: Fold)
    requires ListedOption(variables, n, true, request, fold)
    ensures var value := Lookup(variables, BootOption(n));
      value.Some? && |value.value.bytes| >= 6 && value.value.attributes == ORDINARY
      && Judged(value.value, request, fold) == Ok(true)
  {
    hide DescriptionEnd, PathMatches;
  }

  lemma UnchangedOnlyRepaired(variables: Variables, order: seq<u16>, n: u16, request: Request, fold: Fold)
    requires Scanned(variables, order, Some(n), request, fold) && n in order
    ensures OnlyRepaired(variables, variables, n) && Room(order, Some(n))
  {
    hide ParseOrder, UnlistedScanned, ListedOption;
  }

  /** The option that was found is listed already, or the order has room for one more number. */
  predicate Room(order: seq<u16>, found: Option<u16>) {
    (found.Some? && found.value in order) || |order| < MAXIMUM_ORDER
  }

  /** Writes the option and the order, in this order, and verifies them. */
  method RepairFound(request: Request, fold: Fold, firmware: Firmware, order: seq<u16>, found: Option<u16>,
                     absent: Option<u16>, originalOrder: Option<Value>, value: Option<Value>)
    returns (outcome: Outcome)
    requires RequestFault(request).None? && firmware.garbled == {}
    requires Scanned(firmware.variables, order, found, request, fold)
    requires originalOrder == Lookup(firmware.variables, BootOrder)
    requires found.Some? || absent.Some?
    requires found.Some? ==>
      ListedOption(firmware.variables, found.value, true, request, fold)
      && value == Lookup(firmware.variables, BootOption(found.value))
    requires absent.Some? ==> absent.value !in order && Lookup(firmware.variables, BootOption(absent.value)).None?
    requires absent.Some? ==> FirstFree(firmware.variables, order, PROBES, absent.value)
    modifies firmware
    ensures Result(outcome, firmware, old(firmware.variables), request, fold)
    ensures outcome.Repaired? ==> Room(order, found)
    ensures outcome.Repaired? ==> Settles(firmware.variables, old(firmware.variables), outcome.report.number, request, fold)
    ensures old(firmware.Reliable()) ==> (outcome.Repaired? <==> Room(order, found))
    ensures old(firmware.Reliable()) && outcome.Failed? ==> AsBefore(firmware, old(firmware.variables))
    ensures old(firmware.FailsOnce()) && Room(order, found) && outcome.Failed? ==>
      AsBefore(firmware, old(firmware.variables))
  {
    hide Matches, ListedOption, UnlistedOther, ParseOrder, IsActive, HealthyAt, Scanned, Result, PlannedFrom, Restorable,
      Judged, BuildLoadOption, Activated, RequestFault, Writable, EncodeOrder, FirstFree, Settles;
    var number := if found.Some? then found.value else absent.value;
    var originalOption := if found.Some? then value else None;
    if found.Some? {
      BootingOption(firmware.variables, found.value, request, fold);
    }
    var desired := DesiredOption(request, originalOption, fold);
    var plan := Plan(number, originalOption, desired, originalOrder, order);
    PlanHolds(plan, firmware.variables, found, request, fold);
    ScannedOrder(firmware.variables, request, fold);
    OrderRestorable(plan);
    ghost var before := firmware.variables;
    outcome := CarryOut(plan, request, fold, firmware);
    if outcome.Repaired? {
      SettledOption(firmware.variables, before, order, found, number, request, fold);
    }
  }

  lemma SettledOption(after: Variables, before: Variables, order: seq<u16>, found: Option<u16>, number: u16, request: Request,
                      fold: Fold)
    requires Scanned(before, order, found, request, fold)
    requires var was, now := Lookup(before, BootOption(number)), Lookup(after, BootOption(number));
      if found.Some? then
        number == found.value && was.Some? && |was.value.bytes| >= 4
        && now == Some(Value(Activated(was.value.bytes), ORDINARY))
      else
        FirstFree(before, order, PROBES, number) && BuildLoadOption(request.esp, request.sectorSize).Ok?
        && now == Some(Value(BuildLoadOption(request.esp, request.sectorSize).value, ORDINARY))
    ensures Settles(after, before, number, request, fold)
  {
    hide Scanned, Activated, BuildLoadOption, FirstFree;
  }

  method CarryOut(plan: Plan, request: Request, fold: Fold, firmware: Firmware) returns (outcome: Outcome)
    requires firmware.garbled == {} && PlannedFrom(plan, firmware.variables, request, fold) && Restorable(plan)
    modifies firmware
    ensures Result(outcome, firmware, old(firmware.variables), request, fold)
    ensures outcome.Repaired? ==>
      && Fits(plan) && outcome.report.number == plan.number
      && Lookup(firmware.variables, BootOption(plan.number)) == Some(plan.desiredOption)
    ensures old(firmware.Reliable()) ==> (outcome.Repaired? <==> Fits(plan))
    ensures old(firmware.Reliable()) && outcome.Failed? ==> AsBefore(firmware, old(firmware.variables))
    ensures old(firmware.FailsOnce()) && Fits(plan) && outcome.Failed? ==> AsBefore(firmware, old(firmware.variables))
  {
    hide Matches, ListedOption, UnlistedOther, ParseOrder, IsActive, EncodeOrder, HealthyAt, Restorable, Fits;
    ghost var before := firmware.variables;
    var currentOrder := firmware.Read(BootOrder);
    var currentOption := firmware.Read(BootOption(plan.number));
    if currentOrder.Err? || currentOption.Err? {
      return Failed(IoFailed, NewReport(plan.number));
    }
    // Nobody else writes the variables in this model, so they are as they were scanned.
    assert currentOrder.value == plan.originalOrder && currentOption.value == plan.originalOption;
    var valid := firmware.RevalidateTarget();
    if !valid {
      return Failed(IdentityMismatch, NewReport(plan.number));
    }
    var failure := WriteOption(firmware, plan, before);
    if failure.Some? {
      return failure.value;
    }
    failure := WriteOrder(firmware, plan, before);
    if failure.Some? {
      return failure.value;
    }
    outcome := FinalCheck(firmware, plan, request, fold, before);
    if outcome.Repaired? {
      AchievedIsHealthy(firmware.variables, before, plan, request, fold);
    }
  }

  lemma PlanHolds(plan: Plan, variables: Variables, found: Option<u16>, request: Request, fold: Fold)
    requires Scanned(variables, plan.order, found, request, fold)
    requires Lookup(variables, BootOption(plan.number)) == plan.originalOption
    requires Lookup(variables, BootOrder) == plan.originalOrder
    requires |plan.desiredOption.bytes| >= 6 && IsActive(plan.desiredOption.bytes)
    requires plan.desiredOption.attributes == ORDINARY
    requires Judged(plan.desiredOption, request, fold) == Ok(true)
    requires found.Some? ==> found.value == plan.number
    ensures PlannedFrom(plan, variables, request, fold)
  {
    hide Matches, ListedOption, UnlistedOther, ParseOrder, IsActive;
    forall n: u16 | n in plan.order && n != plan.number ensures ListedOption(variables, n, false, request, fold) {
      assert ListedOption(variables, n, found == Some(n), request, fold);
    }
  }

  /** Whatever order was read, the firmware takes it back, and takes it with one more number. */
  lemma OrderRestorable(plan: Plan)
    requires ParseOrder(plan.originalOrder) == Ok(plan.order)
    requires Writable(plan.originalOption) && Writable(Some(plan.desiredOption))
    ensures Restorable(plan)
  {
    hide OrderBytes, DecodeOrder;
  }

  // ---------- an order without room ----------

  /** 4096 numbers, each of an option for another partition; option 0 is free. */
  function FullOrder(): (order: seq<u16>)
    ensures |order| == MAXIMUM_ORDER && Distinct(order)
    ensures forall n: u16 :: n in order ==> 1 <= n <= PROBES
  {
    seq(MAXIMUM_ORDER, i requires 0 <= i < MAXIMUM_ORDER => i + 1)
  }

  function OtherOption(request: Request): Value
    requires RequestFault(request).None?
  {
    var other := request.esp.(number := if request.esp.number == 1 then 2 else 1);
    Value(BuildLoadOption(other, request.sectorSize).value, ORDINARY)
  }

  function FullVariables(request: Request): Variables
    requires RequestFault(request).None?
  {
    (map n: u16 | 1 <= n <= PROBES :: BootOption(n) := OtherOption(request))[BootOrder := EncodeOrder(FullOrder())]
  }

  /** The scan settles a free number here, and still nothing can be repaired: one more entry cannot be read again. */
  lemma FullOrderNotRepairable(request: Request, fold: Fold)
    requires RequestFault(request).None?
    ensures Scanned(FullVariables(request), FullOrder(), None, request, fold)
    ensures Free(FullVariables(request), FullOrder(), PROBES, 0)
    ensures !Repairable(FullVariables(request), request, fold)
  {
    hide Matches, ParseOrder, EncodeOrder, FullOrder, BuildLoadOption;
    var variables, order := FullVariables(request), FullOrder();
    var other := request.esp.(number := if request.esp.number == 1 then 2 else 1);
    OrderParsesBack(order);
    assert Judged(OtherOption(request), request, fold) == Ok(false) by {
      BuildsOther(other, request);
      BuiltOptionMatches(other, request.esp, fold);
    }
    forall n: u16 | n in order ensures ListedOption(variables, n, false, request, fold) {
      assert BootOption(n) in variables && variables[BootOption(n)] == OtherOption(request);
    }
    assert Scanned(variables, order, None, request, fold);
    ScannedOnce(variables, order, None, request, fold);
  }

  lemma BuildsOther(other: Esp, request: Request)
    requires RequestFault(request).None? && other == request.esp.(number := other.number) && other.number != 0
    ensures BuildLoadOption(other, 512).Ok? && request.sectorSize == 512
  {
    hide LoadOption;
  }

  /** Only one option can be the healthy one. */
  lemma OneHealthy(variables: Variables, m: u16, n: u16, request: Request, fold: Fold)
    requires HealthyAt(variables, m, request, fold) && HealthyAt(variables, n, request, fold)
    ensures m == n
  {
    hide Matches, ParseOrder, Judged;
    var order := ParseOrder(Lookup(variables, BootOrder)).value;
    var i :| 0 <= i < |order| && order[i] == m;
    assert ListedOption(variables, order[i], true, request, fold);
    assert ListedOption(variables, order[i], Some(n) == Some(order[i]), request, fold);
  }

  /** A second run after a success, with nothing failing this time, finds everything in order and writes nothing. */
  method RepairTwice(request: Request, fold: Fold, firmware: Firmware)
    returns (first: Outcome, second: Outcome, again: Firmware)
    requires firmware.garbled == {}
    modifies firmware
    ensures first.Repaired? ==>
      && second.Repaired? && second.report.alreadyValid && second.report.number == first.report.number
      && again.writes == 0 && again.variables == firmware.variables
  {
    first := RepairCurrentPc(request, fold, firmware);
    again := new Firmware(firmware.variables, _ => NoFault);
    if first.Repaired? {
      assert HealthyAt(again.variables, first.report.number, request, fold);
    }
    second := RepairCurrentPc(request, fold, again);
    if first.Repaired? {
      OneHealthy(firmware.variables, first.report.number, second.report.number, request, fold);
    }
  }
}
