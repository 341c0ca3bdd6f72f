/**
 Creating a missing system partition: the end of the Windows partition is freed
 and becomes the new partition. Labels stand for texts up to letter case, and
 for evidence that is only ever compared as a whole.
 */
module SystemPartition {
  import opened Bytes
  import opened Results

  const MIB: nat := 1024 * 1024
  const ESP_SIZE: nat := 260 * MIB
  const BIOS_SIZE: nat := 100 * MIB
  const MARGIN: nat := 256 * MIB
  const MINIMUM_WINDOWS: nat := 4 * 1024 * MIB

  type Label = nat

  datatype Style = Gpt | Mbr | OtherStyle

  datatype Kind = BasicData | EspKind | Ifs | ExtendedKind | OtherKind(id: Label)

  datatype Partition = Partition(
    number: u32,
    offset: u64,
    size: u64,
    style: Style,
    kind: Kind,
    identifier: Option<Label>,
    name: Label,
    bootable: bool)

  datatype Disk = Disk(
    systemDisk: bool,
    offline: Option<bool>,
    readOnly: Option<bool>,
    removable: Option<bool>,
    size: u64,
    sectorSize: u32,
    style: Style,
    rest: Label,
    partitions: seq<Partition>)

  datatype FileSystem = Ntfs | Fat32 | OtherFileSystem

  /** A Windows installation: its partition, its volume, and everything else that was found out about it. */
  datatype Windows = Windows(
    partition: Partition,
    volume: Option<Label>,
    volumeOffset: u64,
    volumeLength: u64,
    fileSystem: FileSystem,
    rest: Label)

  datatype Role = EfiSystem | BiosActive

  datatype Ownership = MicrosoftOnlyOrEmpty | NotApplicable | OtherOwnership

  datatype Candidate = Candidate(
    role: Role,
    partition: Partition,
    volume: Option<Label>,
    volumeOffset: u64,
    volumeLength: u64,
    fileSystem: FileSystem,
    ownership: Ownership)

  datatype Plan = Plan(
    identity: Label,
    disk: Disk,
    style: Style,
    uefi: bool,
    requiredRole: Role,
    storePolicy: Label,
    windows: seq<Windows>,
    windowsNotFound: bool,
    windowsPolicyNeeded: bool,
    unsupportedPolicyNeeded: bool,
    createNeeded: bool,
    systemPolicyNeeded: bool,
    candidates: seq<Candidate>)

  datatype Observation = Observation(
    plan: Plan,
    maxReclaimable: u64,
    volumeFound: bool,
    simpleNtfs: bool,
    online: bool,
    stable: bool,
    healthy: bool,
    forbidden: bool)

  datatype Reviewed = Reviewed(
    discovery: Plan,
    windows: Windows,
    systemSize: u64,
    reclaim: u64,
    systemOffset: u64,
    shrunkenSize: u64)

  // ---------- layouts ----------

  function End(p: Partition): nat {
    p.offset + p.size
  }

  predicate Apart(p: Partition, q: Partition) {
    End(p) <= q.offset || End(q) <= p.offset
  }

  predicate DistinctNumbers(ps: seq<Partition>) {
    forall i, j :: 0 <= i < j < |ps| ==> ps[i].number != ps[j].number
  }

  /** The check that every disk has passed before it is planned for. */
  predicate SoundLayout(disk: Disk) {
    && (forall i :: 0 <= i < |disk.partitions| ==>
          disk.partitions[i].number != 0 && disk.partitions[i].size != 0 && End(disk.partitions[i]) <= disk.size)
    && DistinctNumbers(disk.partitions)
    && (forall i, j :: 0 <= i < j < |disk.partitions| ==> Apart(disk.partitions[i], disk.partitions[j]))
  }

  function FindWindows(windows: seq<Windows>, number: u32): (found: Option<Windows>)
    ensures found.Some? ==> found.value in windows && found.value.partition.number == number
  {
    if |windows| == 0 then None
    else if windows[0].partition.number == number then Some(windows[0])
    else FindWindows(windows[1..], number)
  }

  function FindPartition(ps: seq<Partition>, number: u32): (found: Option<Partition>)
    ensures found.Some? ==> found.value in ps && found.value.number == number
    ensures found.None? ==> forall p :: p in ps ==> p.number != number
  {
    if |ps| == 0 then None
    else if ps[0].number == number then Some(ps[0])
    else FindPartition(ps[1..], number)
  }

  // ---------- review ----------

  predicate EligibleDisk(plan: Plan) {
    && !plan.disk.systemDisk
    && plan.disk.offline == Some(false) && plan.disk.readOnly == Some(false) && plan.disk.removable == Some(false)
    && plan.style != OtherStyle
    && plan.disk.sectorSize != 0 && plan.disk.size != 0
  }

  predicate MissingSystemPartition(plan: Plan) {
    && plan.createNeeded && plan.candidates == [] && !plan.systemPolicyNeeded
    && !plan.windowsNotFound && plan.windows != []
  }

  function AttributesFault(plan: Plan): Option<ErrorKind> {
    if !EligibleDisk(plan) then Some(UnsupportedLayout)
    else if !MissingSystemPartition(plan) then Some(InvalidData)
    else if !(plan.style == Gpt && plan.uefi && plan.requiredRole == EfiSystem)
         && !(plan.style == Mbr && !plan.uefi && plan.requiredRole == BiosActive) then Some(InvalidData)
    else if |plan.disk.partitions| >= (if plan.style == Gpt then 128 else 4) then Some(UnsupportedLayout)
    else None
  }

  predicate SafeVolume(o: Observation) {
    o.volumeFound && o.simpleNtfs && o.online && o.stable && o.healthy && !o.forbidden
  }

  predicate PrimaryOnly(plan: Plan, windows: Windows) {
    plan.style == Gpt
    || (&& 1 <= windows.partition.number <= 4
        && forall p :: p in plan.disk.partitions ==> 1 <= p.number <= 4 && p.kind != ExtendedKind)
  }

  function SystemSize(plan: Plan): nat {
    if plan.style == Gpt then ESP_SIZE else BIOS_SIZE
  }

  predicate ShrinkableWindows(plan: Plan, windows: Windows, o: Observation) {
    && windows.partition.kind == (if plan.style == Gpt then BasicData else Ifs)
    && PrimaryOnly(plan, windows)
    && windows.partition.offset % MIB == 0 && windows.partition.size % MIB == 0
    && windows.partition.size > SystemSize(plan) + MINIMUM_WINDOWS
    && o.maxReclaimable >= SystemSize(plan) + MARGIN
  }

  function Review(discovery: Plan, number: u32, o: Observation): (r: Result<Reviewed>) {
    if AttributesFault(discovery).Some? then Err(AttributesFault(discovery).value)
    else if discovery.identity != o.plan.identity
         || discovery.disk.(partitions := []) != o.plan.disk.(partitions := []) then Err(IdentityMismatch)
    else
      var found, observed := FindWindows(discovery.windows, number), FindWindows(o.plan.windows, number);
      if found.None? || observed != found || found.value.volume.None? || found.value.fileSystem != Ntfs
         || !SafeVolume(o) then Err(UnsupportedLayout)
      else
        var windows := found.value;
        if !ShrinkableWindows(discovery, windows, o) then Err(UnsupportedLayout)
        else
          var size := SystemSize(discovery);
          var shrunken := windows.partition.size - size;
          var offset := windows.partition.offset + shrunken;
          if offset >= U64_LIMIT || offset % MIB != 0 || offset + size > discovery.disk.size then Err(InvalidData)
          else Ok(Reviewed(discovery, windows, size, size, offset, shrunken))
  }

  /** The new partition is the freed end of Windows, aligned and inside the disk; enough of Windows remains. */
  lemma ReviewedGeometry(discovery: Plan, number: u32, o: Observation)
    requires Review(discovery, number, o).Ok?
    ensures var r := Review(discovery, number, o).value; var w := r.windows.partition;
      && r.systemOffset == w.offset + r.shrunkenSize
      && r.systemOffset + r.systemSize == End(w) <= discovery.disk.size
      && r.systemOffset % MIB == 0 && r.shrunkenSize % MIB == 0
      && r.shrunkenSize > MINIMUM_WINDOWS
      && r.systemSize == r.reclaim == (if discovery.style == Gpt then 260 * 1024 * 1024 else 100 * 1024 * 1024)
      && r.windows in discovery.windows && r.discovery == discovery
  {
    Multiples(FindWindows(discovery.windows, number).value.partition.size, SystemSize(discovery));
  }

  lemma Multiples(a: nat, b: nat)
    requires a % MIB == 0 && b <= a && (b == ESP_SIZE || b == BIOS_SIZE)
    ensures (a - b) % MIB == 0
  {
  }

  /** On a sound disk that holds the Windows partition, the last two checks of the review never fail. */
  lemma ReviewBoundsHold(discovery: Plan, number: u32, o: Observation)
    requires SoundLayout(discovery.disk) && FindWindows(discovery.windows, number).Some?
    requires FindWindows(discovery.windows, number).value.partition in discovery.disk.partitions
    ensures Review(discovery, number, o) != Err(InvalidData) || AttributesFault(discovery) == Some(InvalidData)
  {
    hide AttributesFault, SafeVolume, PrimaryOnly, DistinctNumbers, Apart, FindWindows;
    var w := FindWindows(discovery.windows, number).value.partition;
    var i :| 0 <= i < |discovery.disk.partitions| && discovery.disk.partitions[i] == w;
    assert End(discovery.disk.partitions[i]) <= discovery.disk.size;
    if w.offset % MIB == 0 && w.size % MIB == 0 && SystemSize(discovery) <= w.size {
      Multiples(w.size, SystemSize(discovery));
    }
  }

  /** The disk may get a system partition: an attached, writable, fixed disk that has Windows and none so far. */
  predicate LacksSystem(plan: Plan) {
    && !plan.disk.systemDisk
    && plan.disk.offline == Some(false) && plan.disk.readOnly == Some(false) && plan.disk.removable == Some(false)
    && plan.disk.sectorSize != 0 && plan.disk.size != 0
    && plan.createNeeded && !plan.systemPolicyNeeded && !plan.windowsNotFound
    && plan.candidates == [] && plan.windows != []
    && (|| (plan.style == Gpt && plan.uefi && plan.requiredRole == EfiSystem && |plan.disk.partitions| < 128)
        || (plan.style == Mbr && !plan.uefi && plan.requiredRole == BiosActive && |plan.disk.partitions| < 4))
  }

  /** Windows is unchanged since it was found, on a healthy volume, aligned, and large enough to give up its end. */
  predicate CanGiveEnd(plan: Plan, w: Windows, o: Observation) {
    var size := if plan.style == Gpt then 260 * 1024 * 1024 else 100 * 1024 * 1024;
    && FindWindows(o.plan.windows, w.partition.number) == Some(w)
    && w.volume.Some? && w.fileSystem == Ntfs
    && o.volumeFound && o.simpleNtfs && o.online && o.stable && o.healthy && !o.forbidden
    && w.partition.offset % (1024 * 1024) == 0 && w.partition.size % (1024 * 1024) == 0
    && w.partition.size > size + 4 * 1024 * 1024 * 1024
    && o.maxReclaimable >= size + 256 * 1024 * 1024
    && (if plan.style == Gpt then w.partition.kind == BasicData
        else
          && w.partition.kind == Ifs && 1 <= w.partition.number <= 4
          && forall p :: p in plan.disk.partitions ==> 1 <= p.number <= 4 && p.kind != ExtendedKind)
  }

  /** On a sound disk, exactly these requests pass the review: its arithmetic never refuses one of them. */
  lemma ReviewAccepts(discovery: Plan, number: u32, o: Observation)
    requires SoundLayout(discovery.disk)
    requires forall w :: w in discovery.windows ==> w.partition in discovery.disk.partitions
    ensures Review(discovery, number, o).Ok? <==>
      && LacksSystem(discovery)
      && discovery.identity == o.plan.identity
      && discovery.disk.(partitions := []) == o.plan.disk.(partitions := [])
      && FindWindows(discovery.windows, number).Some?
      && CanGiveEnd(discovery, FindWindows(discovery.windows, number).value, o)
  {
    hide SoundLayout;
    if FindWindows(discovery.windows, number).Some? {
      ReviewBoundsHold(discovery, number, o);
    }
  }

  // ---------- what has to be observed ----------

  /** Everything is as it was reviewed, and Windows can still give as much. */
  predicate ExactBefore(reviewed: Reviewed, o: Observation) {
    var was, now := reviewed.discovery, o.plan;
    && now == was.(candidates := [])
    && SafeVolume(o)
    && o.maxReclaimable >= reviewed.reclaim
  }

  /** An exact match leaves nothing open: the partitions, the installations and the volume are as they were reviewed. */
  lemma ExactMeansUnchanged(reviewed: Reviewed, o: Observation)
    requires ExactBefore(reviewed, o)
    ensures o.plan.identity == reviewed.discovery.identity && o.plan.disk == reviewed.discovery.disk
    ensures o.plan.windows == reviewed.discovery.windows && o.plan.candidates == []
    ensures o.plan.createNeeded == reviewed.discovery.createNeeded
    ensures o.volumeFound && o.online && o.stable && o.healthy && !o.forbidden && o.maxReclaimable >= reviewed.reclaim
  {
  }

  /** The partition as it has to look once Windows is shrunk. */
  function Adjusted(p: Partition, reviewed: Reviewed): Partition {
    if p.number == reviewed.windows.partition.number then p.(size := reviewed.shrunkenSize) else p
  }

  function AdjustedWindows(w: Windows, reviewed: Reviewed): Windows {
    if w.partition.number == reviewed.windows.partition.number then
      w.(partition := w.partition.(size := reviewed.shrunkenSize), volumeLength := reviewed.shrunkenSize)
    else w
  }

  predicate SameRest(was: Plan, now: Plan) {
    && now.identity == was.identity
    && now.disk.(partitions := []) == was.disk.(partitions := [])
    && now.style == was.style && now.uefi == was.uefi && now.requiredRole == was.requiredRole
    && now.storePolicy == was.storePolicy
    && now.windowsNotFound == was.windowsNotFound
    && now.windowsPolicyNeeded == was.windowsPolicyNeeded
    && now.unsupportedPolicyNeeded == was.unsupportedPolicyNeeded
    && !now.systemPolicyNeeded
  }

  predicate ShrunkenPartitions(reviewed: Reviewed, ps: seq<Partition>) {
    forall i :: 0 <= i < |reviewed.discovery.disk.partitions| ==>
      var expected := reviewed.discovery.disk.partitions[i];
      FindPartition(ps, expected.number) == Some(Adjusted(expected, reviewed))
  }

  predicate ShrunkenWindows(reviewed: Reviewed, windows: seq<Windows>) {
    forall i :: 0 <= i < |reviewed.discovery.windows| ==>
      var expected := reviewed.discovery.windows[i];
      FindWindows(windows, expected.partition.number) == Some(AdjustedWindows(expected, reviewed))
  }

  predicate NumbersInUse(ps: seq<Partition>) {
    (forall i :: 0 <= i < |ps| ==> ps[i].number != 0) && DistinctNumbers(ps)
  }

  /** Only Windows changed, and only in size; there may be one partition more. */
  predicate ShrunkenBase(reviewed: Reviewed, now: Plan, systemPresent: bool) {
    var was := reviewed.discovery;
    && SameRest(was, now)
    && |now.disk.partitions| == |was.disk.partitions| + (if systemPresent then 1 else 0)
    && |now.windows| == |was.windows|
    && NumbersInUse(now.disk.partitions)
    && ShrunkenPartitions(reviewed, now.disk.partitions)
    && ShrunkenWindows(reviewed, now.windows)
    && var selected := FindWindows(now.windows, reviewed.windows.partition.number);
       && selected.Some?
       && selected.value.partition.size == reviewed.shrunkenSize
       && selected.value.partition.offset == reviewed.windows.partition.offset
       && selected.value.volumeLength == reviewed.shrunkenSize
       && selected.value.volume == reviewed.windows.volume
  }

  predicate AfterShrink(reviewed: Reviewed, now: Plan) {
    now.candidates == [] && now.createNeeded && !now.systemPolicyNeeded && ShrunkenBase(reviewed, now, false)
  }

  predicate SystemAsReviewed(reviewed: Reviewed, system: Candidate) {
    && system.role == reviewed.discovery.requiredRole
    && system.partition.offset == system.volumeOffset == reviewed.systemOffset
    && system.partition.size == system.volumeLength == reviewed.systemSize
    && system.partition.number != 0
    && system.volume.Some?
    && (if reviewed.discovery.requiredRole == EfiSystem then
          && system.partition.style == Gpt && system.partition.kind == EspKind
          && system.fileSystem == Fat32 && system.ownership == MicrosoftOnlyOrEmpty
        else
          && system.partition.style == Mbr && system.partition.number <= 4 && system.partition.kind == Ifs
          && system.partition.bootable && system.fileSystem == Ntfs && system.ownership == NotApplicable)
  }

  predicate Completed(reviewed: Reviewed, now: Plan) {
    && ShrunkenBase(reviewed, now, true)
    && !now.createNeeded && !now.systemPolicyNeeded
    && |now.candidates| == 1
    && SystemAsReviewed(reviewed, now.candidates[0])
    && FindPartition(now.disk.partitions, now.candidates[0].partition.number) == Some(now.candidates[0].partition)
  }

  // ---------- the result that is expected ----------

  /** What a creation that works leaves: Windows shrunk, everything else as it was, and the new partition if there is one. */
  function Expected(reviewed: Reviewed, systems: seq<Candidate>): Plan {
    var was := reviewed.discovery;
    var ps := seq(|was.disk.partitions|, i requires 0 <= i < |was.disk.partitions| => Adjusted(was.disk.partitions[i], reviewed));
    var added := seq(|systems|, i requires 0 <= i < |systems| => systems[i].partition);
    var windows := seq(|was.windows|, i requires 0 <= i < |was.windows| => AdjustedWindows(was.windows[i], reviewed));
    was.(disk := was.disk.(partitions := ps + added), windows := windows, candidates := systems,
         createNeeded := systems == [], systemPolicyNeeded := false)
  }

  predicate OneInstallationEach(windows: seq<Windows>) {
    forall i, j :: 0 <= i < j < |windows| ==> windows[i].partition.number != windows[j].partition.number
  }

  lemma FoundAt(ps: seq<Partition>, k: nat)
    requires k < |ps| && DistinctNumbers(ps)
    ensures FindPartition(ps, ps[k].number) == Some(ps[k])
  {
    assert ps[k] in ps;
    var found := FindPartition(ps, ps[k].number).value;
    var i :| 0 <= i < |ps| && ps[i] == found;
  }

  lemma {:induction false} WindowsFoundAt(windows: seq<Windows>, k: nat)
    requires k < |windows| && OneInstallationEach(windows)
    ensures FindWindows(windows, windows[k].partition.number) == Some(windows[k])
    decreases |windows|
  {
    if k > 0 {
      assert windows[0].partition.number != windows[k].partition.number;
      WindowsFoundAt(windows[1..], k - 1);
    }
  }

  lemma NumbersAreDistinct(ps: seq<Partition>)
    requires NumbersInUse(ps)
    ensures DistinctNumbers(ps)
  {
  }

  lemma ExpectedPartitions(reviewed: Reviewed, systems: seq<Candidate>)
    requires SoundLayout(reviewed.discovery.disk) && |systems| <= 1
    requires forall i :: 0 <= i < |systems| ==>
      && systems[i].partition.number != 0
      && forall p :: p in reviewed.discovery.disk.partitions ==> p.number != systems[i].partition.number
    ensures var ps, qs := reviewed.discovery.disk.partitions, Expected(reviewed, systems).disk.partitions;
      && |qs| == |ps| + |systems|
      && (forall i :: 0 <= i < |ps| ==> qs[i] == Adjusted(ps[i], reviewed) && qs[i].number == ps[i].number)
      && NumbersInUse(qs)
  {
    hide Apart;
    var ps, qs := reviewed.discovery.disk.partitions, Expected(reviewed, systems).disk.partitions;
    forall i | 0 <= i < |ps| ensures qs[i].number == ps[i].number != 0 && ps[i] in ps {
    }
  }

  lemma ExpectedBase(reviewed: Reviewed, systems: seq<Candidate>)
    requires SoundLayout(reviewed.discovery.disk) && OneInstallationEach(reviewed.discovery.windows)
    requires reviewed.windows in reviewed.discovery.windows && |systems| <= 1
    requires forall i :: 0 <= i < |systems| ==>
      && systems[i].partition.number != 0
      && forall p :: p in reviewed.discovery.disk.partitions ==> p.number != systems[i].partition.number
    ensures ShrunkenBase(reviewed, Expected(reviewed, systems), systems != [])
  {
    hide SoundLayout, NumbersInUse, FindPartition, FindWindows, Adjusted;
    var was, now := reviewed.discovery, Expected(reviewed, systems);
    var ps, qs := was.disk.partitions, now.disk.partitions;
    ExpectedPartitions(reviewed, systems);
    forall i | 0 <= i < |ps| ensures FindPartition(qs, ps[i].number) == Some(Adjusted(ps[i], reviewed)) {
      NumbersAreDistinct(qs);
      FoundAt(qs, i);
    }
    forall i | 0 <= i < |was.windows|
      ensures FindWindows(now.windows, was.windows[i].partition.number) == Some(AdjustedWindows(was.windows[i], reviewed))
    {
      WindowsFoundAt(now.windows, i);
    }
    var k :| 0 <= k < |was.windows| && was.windows[k] == reviewed.windows;
  }

  /** The checks accept just what is expected: the shrunken layout, and the complete one with a proper new partition. */
  lemma ExpectedIsAccepted(reviewed: Reviewed, system: Candidate)
    requires SoundLayout(reviewed.discovery.disk) && OneInstallationEach(reviewed.discovery.windows)
    requires reviewed.windows in reviewed.discovery.windows
    ensures AfterShrink(reviewed, Expected(reviewed, []))
    ensures SystemAsReviewed(reviewed, system)
            && (forall p :: p in reviewed.discovery.disk.partitions ==> p.number != system.partition.number) ==>
              Completed(reviewed, Expected(reviewed, [system]))
  {
    hide SoundLayout, ShrunkenBase, Adjusted, AdjustedWindows, FindPartition, OneInstallationEach;
    ExpectedBase(reviewed, []);
    if SystemAsReviewed(reviewed, system)
       && (forall p :: p in reviewed.discovery.disk.partitions ==> p.number != system.partition.number) {
      ExpectedBase(reviewed, [system]);
      ExpectedNumbers(reviewed, system);
    }
  }

  lemma ExpectedNumbers(reviewed: Reviewed, system: Candidate)
    requires ShrunkenBase(reviewed, Expected(reviewed, [system]), true)
    ensures FindPartition(Expected(reviewed, [system]).disk.partitions, system.partition.number) == Some(system.partition)
  {
    hide FindPartition, FindWindows, ShrunkenPartitions, ShrunkenWindows;
    var qs := Expected(reviewed, [system]).disk.partitions;
    assert qs[|qs| - 1] == system.partition;
    FoundAt(qs, |qs| - 1);
  }

  /** What the new partition of a complete layout is: an EFI system partition on FAT32, or an active NTFS partition. */
  lemma CompletedSystem(reviewed: Reviewed, now: Plan)
    requires Completed(reviewed, now)
    ensures |now.candidates| == 1 && !now.createNeeded && !now.systemPolicyNeeded
    ensures var c := now.candidates[0];
      && c.partition in now.disk.partitions && c.partition.number != 0 && c.volume.Some?
      && c.role == reviewed.discovery.requiredRole
      && c.partition.offset == c.volumeOffset == reviewed.systemOffset
      && c.partition.size == c.volumeLength == reviewed.systemSize
      && (c.role == EfiSystem ==>
            && c.partition.style == Gpt && c.partition.kind == EspKind && c.fileSystem == Fat32
            && c.ownership == MicrosoftOnlyOrEmpty)
      && (c.role == BiosActive ==>
            && c.partition.style == Mbr && c.partition.kind == Ifs && c.partition.number <= 4 && c.partition.bootable
            && c.fileSystem == Ntfs && c.ownership == NotApplicable)
  {
    hide ShrunkenBase;
  }

  // ---------- the new layout ----------

  function Numbers(ps: seq<Partition>): set<u32> {
    set i | 0 <= i < |ps| :: ps[i].number
  }

  lemma {:induction false} NumbersCount(ps: seq<Partition>)
    requires DistinctNumbers(ps)
    ensures |Numbers(ps)| == |ps|
  {
    if |ps| > 0 {
      var front, last := ps[..|ps| - 1], ps[|ps| - 1];
      NumbersCount(front);
      assert last.number !in Numbers(front);
      assert Numbers(ps) == Numbers(front) + {last.number};
    }
  }

  lemma SameNumberSamePartition(ps: seq<Partition>, p: Partition)
    requires DistinctNumbers(ps) && p in ps
    ensures FindPartition(ps, p.number) == Some(p)
  {
    var found := FindPartition(ps, p.number).value;
    var i :| 0 <= i < |ps| && ps[i] == p;
    var j :| 0 <= j < |ps| && ps[j] == found;
  }

  /** In a completed layout there is one number that was not there before. */
  lemma OneNumberMore(reviewed: Reviewed, now: Plan)
    requires DistinctNumbers(reviewed.discovery.disk.partitions) && ShrunkenBase(reviewed, now, true)
    ensures var was := Numbers(reviewed.discovery.disk.partitions);
      was <= Numbers(now.disk.partitions) && |Numbers(now.disk.partitions) - was| == 1
  {
    hide ShrunkenWindows, SameRest, FindWindows;
    var ps, qs := reviewed.discovery.disk.partitions, now.disk.partitions;
    NumbersCount(ps);
    NumbersCount(qs);
    forall n | n in Numbers(ps) ensures n in Numbers(qs) {
      var i :| 0 <= i < |ps| && ps[i].number == n;
      var found := FindPartition(qs, ps[i].number).value;
      var j :| 0 <= j < |qs| && qs[j] == found;
    }
  }

  /** A number in a set of one element is that element. */
  lemma OnlyElement(s: set<u32>, a: u32, b: u32)
    requires |s| == 1 && a in s && b in s
    ensures a == b
  {
    assert |s - {a}| == 0;
  }

  /** The system partition of a completed layout is not one of the partitions that were there before. */
  lemma SystemIsNew(reviewed: Reviewed, now: Plan, number: u32, o: Observation)
    requires Review(reviewed.discovery, number, o) == Ok(reviewed) && SoundLayout(reviewed.discovery.disk)
    requires reviewed.windows.partition in reviewed.discovery.disk.partitions
    requires Completed(reviewed, now)
    ensures now.candidates[0].partition.number !in Numbers(reviewed.discovery.disk.partitions)
  {
    hide Review, ShrunkenWindows, SameRest, FindWindows;
    ReviewedGeometry(reviewed.discovery, number, o);
    var ps, system := reviewed.discovery.disk.partitions, now.candidates[0].partition;
    forall i | 0 <= i < |ps| ensures ps[i].number != system.number {
      OldOnesStartElsewhere(reviewed, ps[i]);
      assert FindPartition(now.disk.partitions, ps[i].number) == Some(Adjusted(ps[i], reviewed));
    }
  }

  /** No partition of the reviewed layout starts where the new one will. */
  lemma OldOnesStartElsewhere(reviewed: Reviewed, p: Partition)
    requires SoundLayout(reviewed.discovery.disk) && p in reviewed.discovery.disk.partitions
    requires reviewed.windows.partition in reviewed.discovery.disk.partitions
    requires 0 < reviewed.shrunkenSize < reviewed.windows.partition.size
    requires reviewed.systemOffset == reviewed.windows.partition.offset + reviewed.shrunkenSize
    ensures Adjusted(p, reviewed).offset != reviewed.systemOffset
  {
    if p.number == reviewed.windows.partition.number {
      WindowsByNumber(reviewed, p);
    } else {
      SoundApart(reviewed.discovery.disk, p, reviewed.windows.partition);
      var i :| 0 <= i < |reviewed.discovery.disk.partitions| && reviewed.discovery.disk.partitions[i] == p;
    }
  }

  /** The layout is the reviewed one with a shorter Windows, and one new partition in the freed end. */
  predicate IsFreedTail(reviewed: Reviewed, ps: seq<Partition>, system: Partition) {
    var was, w := reviewed.discovery.disk.partitions, reviewed.windows.partition;
    && system in ps
    && system.number !in Numbers(was)
    && system.offset == w.offset + reviewed.shrunkenSize
    && End(system) == End(w)
    && |ps| == |was| + 1
    && (forall p :: p in was ==> Adjusted(p, reviewed) in ps)
    && (forall q :: q in ps ==> q == system || exists p :: p in was && q == Adjusted(p, reviewed))
  }

  lemma CompletedIsFreedTail(reviewed: Reviewed, now: Plan, number: u32, o: Observation)
    requires Review(reviewed.discovery, number, o) == Ok(reviewed) && SoundLayout(reviewed.discovery.disk)
    requires reviewed.windows.partition in reviewed.discovery.disk.partitions
    requires Completed(reviewed, now)
    ensures IsFreedTail(reviewed, now.disk.partitions, now.candidates[0].partition)
    ensures DistinctNumbers(now.disk.partitions) && reviewed.shrunkenSize <= reviewed.windows.partition.size
  {
    hide Review, ShrunkenWindows, SameRest, FindWindows, ShrunkenPartitions, SoundLayout, DistinctNumbers;
    ReviewedGeometry(reviewed.discovery, number, o);
    SystemIsNew(reviewed, now, number, o);
    SoundNumbers(reviewed.discovery.disk);
    OneNumberMore(reviewed, now);
    var was, ps, system := reviewed.discovery.disk.partitions, now.disk.partitions, now.candidates[0].partition;
    AllAdjustedPresent(reviewed, ps);
    forall q | q in ps ensures q == system || exists p :: p in was && q == Adjusted(p, reviewed) {
      NewOrAdjusted(reviewed, ps, system, q);
    }
  }

  lemma SoundNumbers(disk: Disk)
    requires SoundLayout(disk)
    ensures DistinctNumbers(disk.partitions)
  {
  }

  lemma AllAdjustedPresent(reviewed: Reviewed, ps: seq<Partition>)
    requires ShrunkenPartitions(reviewed, ps)
    ensures forall p :: p in reviewed.discovery.disk.partitions ==> Adjusted(p, reviewed) in ps
  {
    var was := reviewed.discovery.disk.partitions;
    forall p | p in was ensures Adjusted(p, reviewed) in ps {
      var i :| 0 <= i < |was| && was[i] == p;
      assert FindPartition(ps, was[i].number) == Some(Adjusted(p, reviewed));
    }
  }

  lemma NewOrAdjusted(reviewed: Reviewed, ps: seq<Partition>, system: Partition, q: Partition)
    requires DistinctNumbers(ps) && ShrunkenPartitions(reviewed, ps) && q in ps && system in ps
    requires system.number !in Numbers(reviewed.discovery.disk.partitions)
    requires |Numbers(ps) - Numbers(reviewed.discovery.disk.partitions)| == 1
    ensures q == system || exists p :: p in reviewed.discovery.disk.partitions && q == Adjusted(p, reviewed)
  {
    hide ShrunkenPartitions, DistinctNumbers;
    var was := reviewed.discovery.disk.partitions;
    SameNumberSamePartition(ps, q);
    SameNumberSamePartition(ps, system);
    NumberIn(ps, q);
    NumberIn(ps, system);
    if q.number in Numbers(was) {
      var i :| 0 <= i < |was| && was[i].number == q.number;
      ShrunkenAt(reviewed, ps, i);
      assert was[i] in was;
    } else {
      OnlyElement(Numbers(ps) - Numbers(was), q.number, system.number);
    }
  }

  lemma NumberIn(ps: seq<Partition>, p: Partition)
    requires p in ps
    ensures p.number in Numbers(ps)
  {
    var i :| 0 <= i < |ps| && ps[i] == p;
  }

  lemma ShrunkenAt(reviewed: Reviewed, ps: seq<Partition>, i: nat)
    requires ShrunkenPartitions(reviewed, ps) && i < |reviewed.discovery.disk.partitions|
    ensures var p := reviewed.discovery.disk.partitions[i];
      FindPartition(ps, p.number) == Some(Adjusted(p, reviewed))
  {
  }

  predicate NothingOverlaps(ps: seq<Partition>) {
    forall i, j :: 0 <= i < j < |ps| ==> Apart(ps[i], ps[j])
  }

  /** Nothing overlaps in the new layout. */
  lemma FreedTailIsApart(reviewed: Reviewed, ps: seq<Partition>, system: Partition)
    requires SoundLayout(reviewed.discovery.disk)
    requires reviewed.windows.partition in reviewed.discovery.disk.partitions
    requires reviewed.shrunkenSize <= reviewed.windows.partition.size
    requires DistinctNumbers(ps) && IsFreedTail(reviewed, ps, system)
    ensures NothingOverlaps(ps)
  {
    var was := reviewed.discovery.disk.partitions;
    forall i, j | 0 <= i < j < |ps| ensures Apart(ps[i], ps[j]) {
      assert ps[i] in ps && ps[j] in ps && ps[i].number != ps[j].number;
      if ps[i] == system {
        TailClear(reviewed, ps, system, ps[j]);
      } else if ps[j] == system {
        TailClear(reviewed, ps, system, ps[i]);
      } else {
        var p :| p in was && ps[i] == Adjusted(p, reviewed);
        var q :| q in was && ps[j] == Adjusted(q, reviewed);
        ShorterStaysApart(reviewed, p, q);
      }
    }
  }

  lemma SoundApart(disk: Disk, p: Partition, q: Partition)
    requires SoundLayout(disk) && p in disk.partitions && q in disk.partitions && p.number != q.number
    ensures Apart(p, q)
  {
    var i :| 0 <= i < |disk.partitions| && disk.partitions[i] == p;
    var j :| 0 <= j < |disk.partitions| && disk.partitions[j] == q;
    assert Apart(disk.partitions[i], disk.partitions[j]) || Apart(disk.partitions[j], disk.partitions[i]);
  }

  lemma WindowsByNumber(reviewed: Reviewed, p: Partition)
    requires SoundLayout(reviewed.discovery.disk)
    requires p in reviewed.discovery.disk.partitions
    requires reviewed.windows.partition in reviewed.discovery.disk.partitions
    requires p.number == reviewed.windows.partition.number
    ensures p == reviewed.windows.partition
  {
    SameNumberSamePartition(reviewed.discovery.disk.partitions, p);
    SameNumberSamePartition(reviewed.discovery.disk.partitions, reviewed.windows.partition);
  }

  lemma ShorterStaysApart(reviewed: Reviewed, p: Partition, q: Partition)
    requires SoundLayout(reviewed.discovery.disk)
    requires reviewed.windows.partition in reviewed.discovery.disk.partitions
    requires reviewed.shrunkenSize <= reviewed.windows.partition.size
    requires p in reviewed.discovery.disk.partitions && q in reviewed.discovery.disk.partitions
    requires p.number != q.number
    ensures Apart(Adjusted(p, reviewed), Adjusted(q, reviewed))
  {
    hide SoundLayout;
    SoundApart(reviewed.discovery.disk, p, q);
    if p.number == reviewed.windows.partition.number {
      WindowsByNumber(reviewed, p);
    }
    if q.number == reviewed.windows.partition.number {
      WindowsByNumber(reviewed, q);
    }
  }

  lemma TailClear(reviewed: Reviewed, ps: seq<Partition>, system: Partition, other: Partition)
    requires SoundLayout(reviewed.discovery.disk)
    requires reviewed.windows.partition in reviewed.discovery.disk.partitions
    requires reviewed.shrunkenSize <= reviewed.windows.partition.size
    requires IsFreedTail(reviewed, ps, system) && other in ps && other.number != system.number
    ensures Apart(system, other) && Apart(other, system)
  {
    hide SoundLayout;
    var was, w := reviewed.discovery.disk.partitions, reviewed.windows.partition;
    var p :| p in was && other == Adjusted(p, reviewed);
    if p.number == w.number {
      WindowsByNumber(reviewed, p);
    } else {
      SoundApart(reviewed.discovery.disk, p, w);
    }
  }
}
