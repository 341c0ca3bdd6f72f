/**
 What an MBR disk has to look like before it may be rebuilt as a GPT disk: the
 request, and the check that sorts and judges its source partitions.
 */
module Mbr2GptSource {
  import opened Bytes
  import opened Results

  const MIB: nat := 1024 * 1024
  const MINIMUM_DISK: nat := 4 * 1024 * MIB

  datatype SourceRole = SystemReserved | Windows | Recovery | Data | Unsupported

  datatype FileSystem = Ntfs | Fat32 | UnknownFileSystem | UnsupportedFileSystem

  datatype WinReState = RegisteredPartition | ImageAvailable | Missing | Unknown

  datatype SourcePartition = SourcePartition(
    number: u32,
    offset: u64,
    size: u64,
    role: SourceRole,
    fileSystem: FileSystem,
    primary: bool,
    active: bool)

  datatype Request = Request(
    sourceSize: u64,
    targetSize: u64,
    sectorSize: u32,
    sources: seq<SourcePartition>,
    winReState: WinReState,
    registeredWinReNumber: u32,
    winReImageSize: u64,
    uefi: bool,
    amd64: bool,
    decrypted: bool,
    requireRecovery: bool)

  predicate WholeSectorSize(ss: u32, length: u64) {
    if ss == 512 then length % 512 == 0 else length % 4096 == 0
  }

  predicate SupportedMedia(request: Request) {
    && (request.sectorSize == 512 || request.sectorSize == 4096)
    && request.sourceSize >= MINIMUM_DISK
    && request.targetSize >= MINIMUM_DISK
    && WholeSectorSize(request.sectorSize, request.sourceSize)
    && WholeSectorSize(request.sectorSize, request.targetSize)
    && 1 <= |request.sources| <= 128
  }

  predicate SupportedPlatform(request: Request) {
    request.uefi && request.amd64 && request.decrypted
  }

  function End(p: SourcePartition): nat {
    p.offset + p.size
  }

  // ---------- sorting by offset ----------

  function InsertByOffset(p: SourcePartition, ps: seq<SourcePartition>): (r: seq<SourcePartition>)
    ensures |r| == |ps| + 1
    ensures multiset(r) == multiset(ps) + multiset{p}
    decreases |ps|
  {
    if |ps| == 0 || p.offset <= ps[0].offset then [p] + ps
    else
      assert ps == [ps[0]] + ps[1..];
      [ps[0]] + InsertByOffset(p, ps[1..])
  }

  /** Insertion sort stands in for the library's sort. */
  function SortByOffset(ps: seq<SourcePartition>): (r: seq<SourcePartition>)
    ensures |r| == |ps|
    ensures multiset(r) == multiset(ps)
    decreases |ps|
  {
    if |ps| == 0 then []
    else
      assert ps == [ps[0]] + ps[1..];
      InsertByOffset(ps[0], SortByOffset(ps[1..]))
  }

  // ---------- the checks ----------

  predicate InRange(p: SourcePartition, request: Request) {
    && p.number != 0
    && p.size != 0
    && WholeSectorSize(request.sectorSize, p.offset)
    && WholeSectorSize(request.sectorSize, p.size)
    && End(p) <= request.sourceSize
  }

  predicate NeedsNtfs(role: SourceRole) {
    role == Windows || role == Recovery || role == Data
  }

  predicate Rebuildable(p: SourcePartition) {
    && p.role != Unsupported
    && p.primary
    && (NeedsNtfs(p.role) ==> p.fileSystem == Ntfs)
    && (p.role == SystemReserved ==> p.fileSystem == Ntfs || p.fileSystem == Fat32)
  }

  function EndBefore(ps: seq<SourcePartition>, k: nat): nat
    requires k <= |ps|
  {
    if k == 0 then 0 else End(ps[k - 1])
  }

  function NumbersBefore(ps: seq<SourcePartition>, k: nat): set<u32>
    requires k <= |ps|
  {
    set i | 0 <= i < k :: ps[i].number
  }

  /** What is wrong with partition `k` of the sorted list, given the ones before it. */
  function FaultAt(ps: seq<SourcePartition>, k: nat, request: Request): Option<ErrorKind>
    requires k < |ps|
  {
    if !InRange(ps[k], request) || ps[k].offset < EndBefore(ps, k) || ps[k].number in NumbersBefore(ps, k) then
      Some(InvalidData)
    else if !Rebuildable(ps[k]) then Some(UnsupportedPlatform)
    else None
  }

  function FirstFault(ps: seq<SourcePartition>, k: nat, request: Request): (fault: Option<ErrorKind>)
    requires k <= |ps|
    ensures fault.None? <==> forall i :: k <= i < |ps| ==> FaultAt(ps, i, request).None?
    decreases |ps| - k
  {
    if k == |ps| then None
    else if FaultAt(ps, k, request).Some? then FaultAt(ps, k, request)
    else FirstFault(ps, k + 1, request)
  }

  function Count(ps: seq<SourcePartition>, role: SourceRole): (count: nat)
    ensures count <= |ps|
    decreases |ps|
  {
    if |ps| == 0 then 0 else Count(ps[..|ps| - 1], role) + (if ps[|ps| - 1].role == role then 1 else 0)
  }

  predicate RoleCounts(ps: seq<SourcePartition>) {
    Count(ps, Windows) == 1 && Count(ps, Recovery) <= 1 && Count(ps, SystemReserved) <= 1
  }

  function ValidateAndSort(request: Request): (r: Result<seq<SourcePartition>>) {
    if !SupportedMedia(request) then Err(InvalidArgument)
    else if !SupportedPlatform(request) then Err(UnsupportedPlatform)
    else
      var ps := SortByOffset(request.sources);
      var fault := FirstFault(ps, 0, request);
      if fault.Some? then Err(fault.value)
      else if !RoleCounts(ps) then Err(InvalidData)
      else Ok(ps)
  }

  // ---------- what acceptance means ----------

  /** No two partitions share a byte or a number. */
  predicate Separate(p: SourcePartition, q: SourcePartition) {
    && p.number != q.number
    && (End(p) <= q.offset || End(q) <= p.offset)
  }

  predicate AllSeparate(ps: seq<SourcePartition>) {
    forall i, j :: 0 <= i < j < |ps| ==> Separate(ps[i], ps[j])
  }

  predicate AllFit(ps: seq<SourcePartition>, request: Request) {
    forall i :: 0 <= i < |ps| ==> InRange(ps[i], request) && Rebuildable(ps[i])
  }

  predicate SeparateFrom(p: SourcePartition, ps: seq<SourcePartition>) {
    forall i :: 0 <= i < |ps| ==> Separate(p, ps[i])
  }

  predicate SortedByOffset(ps: seq<SourcePartition>) {
    forall i, j :: 0 <= i < j < |ps| ==> ps[i].offset <= ps[j].offset
  }

  predicate NotBefore(offset: u64, ps: seq<SourcePartition>) {
    forall i :: 0 <= i < |ps| ==> offset <= ps[i].offset
  }

  lemma ConsSeparate(p: SourcePartition, ps: seq<SourcePartition>, q: SourcePartition)
    ensures AllSeparate([p] + ps) <==> SeparateFrom(p, ps) && AllSeparate(ps)
    ensures SeparateFrom(q, [p] + ps) <==> Separate(q, p) && SeparateFrom(q, ps)
  {
    hide Separate;
    var all := [p] + ps;
    assert all[0] == p && forall i :: 0 <= i < |ps| ==> all[i + 1] == ps[i];
    if AllSeparate(all) {
      forall i | 0 <= i < |ps| ensures Separate(p, ps[i]) {
        assert Separate(all[0], all[i + 1]);
      }
      forall i, j | 0 <= i < j < |ps| ensures Separate(ps[i], ps[j]) {
        assert Separate(all[i + 1], all[j + 1]);
      }
    }
    if SeparateFrom(q, all) {
      forall i | 0 <= i < |ps| ensures Separate(q, ps[i]) {
        assert Separate(q, all[i + 1]);
      }
    }
  }

  lemma ConsOrder(p: SourcePartition, ps: seq<SourcePartition>, offset: u64)
    ensures SortedByOffset([p] + ps) <==> NotBefore(p.offset, ps) && SortedByOffset(ps)
    ensures NotBefore(offset, [p] + ps) <==> offset <= p.offset && NotBefore(offset, ps)
  {
    var all := [p] + ps;
    assert all[0] == p && forall i :: 0 <= i < |ps| ==> all[i + 1] == ps[i];
    assert forall i :: 0 < i < |all| ==> all[i] == ps[i - 1];
  }

  lemma ConsFits(p: SourcePartition, ps: seq<SourcePartition>, request: Request)
    ensures AllFit([p] + ps, request) <==> InRange(p, request) && Rebuildable(p) && AllFit(ps, request)
  {
    hide InRange, Rebuildable;
    var all := [p] + ps;
    assert all[0] == p && forall i :: 0 <= i < |ps| ==> all[i + 1] == ps[i];
  }

  lemma Cons(p: SourcePartition, ps: seq<SourcePartition>, q: SourcePartition, offset: u64, request: Request)
    ensures AllSeparate([p] + ps) <==> SeparateFrom(p, ps) && AllSeparate(ps)
    ensures SeparateFrom(q, [p] + ps) <==> Separate(q, p) && SeparateFrom(q, ps)
    ensures SortedByOffset([p] + ps) <==> NotBefore(p.offset, ps) && SortedByOffset(ps)
    ensures NotBefore(offset, [p] + ps) <==> offset <= p.offset && NotBefore(offset, ps)
    ensures AllFit([p] + ps, request) <==> InRange(p, request) && Rebuildable(p) && AllFit(ps, request)
  {
    hide *;
    ConsSeparate(p, ps, q);
    ConsOrder(p, ps, offset);
    ConsFits(p, ps, request);
  }

  lemma SeparateSymmetric(p: SourcePartition, q: SourcePartition)
    ensures Separate(p, q) <==> Separate(q, p)
  {
  }

  lemma {:induction false} InsertKeeps(p: SourcePartition, ps: seq<SourcePartition>, q: SourcePartition, offset: u64,
                                       request: Request)
    ensures SeparateFrom(q, InsertByOffset(p, ps)) <==> Separate(q, p) && SeparateFrom(q, ps)
    ensures NotBefore(offset, InsertByOffset(p, ps)) <==> offset <= p.offset && NotBefore(offset, ps)
    ensures AllFit(InsertByOffset(p, ps), request) <==> InRange(p, request) && Rebuildable(p) && AllFit(ps, request)
    decreases |ps|
  {
    hide Separate, InRange, Rebuildable, SeparateFrom, NotBefore, AllFit;
    Cons(p, ps, q, offset, request);
    if |ps| > 0 && p.offset > ps[0].offset {
      InsertKeeps(p, ps[1..], q, offset, request);
      Cons(ps[0], ps[1..], q, offset, request);
      Cons(ps[0], InsertByOffset(p, ps[1..]), q, offset, request);
      assert ps == [ps[0]] + ps[1..];
    }
  }

  lemma FirstDecides(ps: seq<SourcePartition>, offset: u64)
    requires |ps| > 0 ==> offset <= ps[0].offset
    ensures SortedByOffset(ps) ==> NotBefore(offset, ps)
  {
  }

  lemma {:induction false} InsertSorts(p: SourcePartition, ps: seq<SourcePartition>, request: Request)
    requires SortedByOffset(ps)
    ensures SortedByOffset(InsertByOffset(p, ps))
    ensures AllSeparate(InsertByOffset(p, ps)) <==> SeparateFrom(p, ps) && AllSeparate(ps)
    decreases |ps|
  {
    hide Separate, SeparateFrom, NotBefore, AllFit, AllSeparate, SortedByOffset;
    Cons(p, ps, p, p.offset, request);
    if |ps| > 0 && p.offset > ps[0].offset {
      assert ps == [ps[0]] + ps[1..];
      Cons(ps[0], ps[1..], p, p.offset, request);
      InsertSorts(p, ps[1..], request);
      InsertKeeps(p, ps[1..], ps[0], ps[0].offset, request);
      Cons(ps[0], InsertByOffset(p, ps[1..]), p, p.offset, request);
      SeparateSymmetric(p, ps[0]);
    } else {
      FirstDecides(ps, p.offset);
    }
  }

  lemma {:induction false} SortKeeps(ps: seq<SourcePartition>, q: SourcePartition, request: Request)
    ensures SeparateFrom(q, SortByOffset(ps)) <==> SeparateFrom(q, ps)
    ensures AllFit(SortByOffset(ps), request) <==> AllFit(ps, request)
    decreases |ps|
  {
    hide Separate, SeparateFrom, AllFit, NotBefore;
    if |ps| > 0 {
      SortKeeps(ps[1..], q, request);
      InsertKeeps(ps[0], SortByOffset(ps[1..]), q, 0, request);
      Cons(ps[0], ps[1..], q, 0, request);
      assert ps == [ps[0]] + ps[1..];
    } else {
      assert SortByOffset(ps) == ps;
    }
  }

  lemma {:induction false} SortSorts(ps: seq<SourcePartition>, request: Request)
    ensures SortedByOffset(SortByOffset(ps))
    ensures AllSeparate(SortByOffset(ps)) <==> AllSeparate(ps)
    decreases |ps|
  {
    hide Separate, SeparateFrom, AllFit, NotBefore, AllSeparate, SortedByOffset, InsertByOffset;
    if |ps| > 0 {
      SortSorts(ps[1..], request);
      SortKeeps(ps[1..], ps[0], request);
      InsertSorts(ps[0], SortByOffset(ps[1..]), request);
      Cons(ps[0], ps[1..], ps[0], 0, request);
      assert ps == [ps[0]] + ps[1..];
    } else {
      assert SortByOffset(ps) == ps;
      NothingToSort();
    }
  }

  lemma NothingToSort()
    ensures SortedByOffset([])
  {
  }

  lemma {:induction false} CountSplits(a: seq<SourcePartition>, b: seq<SourcePartition>, role: SourceRole)
    ensures Count(a + b, role) == Count(a, role) + Count(b, role)
    decreases |b|
  {
    if |b| > 0 {
      assert (a + b)[..|a + b| - 1] == a + b[..|b| - 1];
      CountSplits(a, b[..|b| - 1], role);
    } else {
      assert a + b == a;
    }
  }

  lemma {:induction false} InsertCounts(p: SourcePartition, ps: seq<SourcePartition>, role: SourceRole)
    ensures Count(InsertByOffset(p, ps), role) == Count([p], role) + Count(ps, role)
    decreases |ps|
  {
    CountSplits([p], ps, role);
    if |ps| > 0 && p.offset > ps[0].offset {
      InsertCounts(p, ps[1..], role);
      CountSplits([ps[0]], ps[1..], role);
      CountSplits([ps[0]], InsertByOffset(p, ps[1..]), role);
      assert ps == [ps[0]] + ps[1..];
    }
  }

  lemma {:induction false} SortCounts(ps: seq<SourcePartition>, role: SourceRole)
    ensures Count(SortByOffset(ps), role) == Count(ps, role)
    decreases |ps|
  {
    if |ps| > 0 {
      SortCounts(ps[1..], role);
      InsertCounts(ps[0], SortByOffset(ps[1..]), role);
      CountSplits([ps[0]], ps[1..], role);
      assert ps == [ps[0]] + ps[1..];
    }
  }

  /** In offset order the neighbour check decides about every pair. */
  lemma NeighboursDecide(ps: seq<SourcePartition>, request: Request)
    requires SortedByOffset(ps)
    ensures FirstFault(ps, 0, request).None? <==> AllFit(ps, request) && AllSeparate(ps)
  {
    hide InRange, Rebuildable;
    if FirstFault(ps, 0, request).None? {
      forall i | 0 <= i < |ps| ensures InRange(ps[i], request) && Rebuildable(ps[i]) {
        assert FaultAt(ps, i, request).None?;
      }
      forall i, j | 0 <= i < j < |ps| ensures Separate(ps[i], ps[j]) {
        assert FaultAt(ps, i + 1, request).None? && FaultAt(ps, j, request).None?;
        assert ps[i].number in NumbersBefore(ps, j);
      }
    }
    if AllFit(ps, request) && AllSeparate(ps) {
      forall k | 0 <= k < |ps| ensures FaultAt(ps, k, request).None? {
        NotFaulty(ps, k, request);
      }
    }
  }

  lemma NotFaulty(ps: seq<SourcePartition>, k: nat, request: Request)
    requires SortedByOffset(ps) && AllFit(ps, request) && AllSeparate(ps) && k < |ps|
    ensures FaultAt(ps, k, request).None?
  {
    hide Rebuildable;
    if k > 0 {
      assert Separate(ps[k - 1], ps[k]) && InRange(ps[k], request);
    }
    forall i | 0 <= i < k ensures ps[i].number != ps[k].number {
      assert Separate(ps[i], ps[k]);
    }
  }

  lemma SameRoleCounts(ps: seq<SourcePartition>)
    ensures RoleCounts(SortByOffset(ps)) <==> RoleCounts(ps)
  {
    hide SortByOffset, Count;
    SortCounts(ps, Windows);
    SortCounts(ps, Recovery);
    SortCounts(ps, SystemReserved);
  }

  /** A source is accepted exactly when its partitions fit, are all known, and are apart, in whatever order listed. */
  lemma AcceptedSources(request: Request)
    ensures ValidateAndSort(request).Ok? <==>
              && SupportedMedia(request) && SupportedPlatform(request)
              && AllFit(request.sources, request)
              && AllSeparate(request.sources)
              && RoleCounts(request.sources)
    ensures ValidateAndSort(request).Ok? ==>
              var ps := ValidateAndSort(request).value;
              && multiset(ps) == multiset(request.sources)
              && SortedByOffset(ps) && AllFit(ps, request) && AllSeparate(ps) && RoleCounts(ps)
  {
    hide AllFit, AllSeparate, SortedByOffset, RoleCounts, SortByOffset;
    var ps := SortByOffset(request.sources);
    SortSorts(request.sources, request);
    SameRoleCounts(request.sources);
    if |ps| > 0 {
      SortKeeps(request.sources, ps[0], request);
      NeighboursDecide(ps, request);
    }
  }

  /**
   The rules of an accepted source, number by number: whole sectors on media of
   at least 4 GiB, a supported platform, and primary partitions of a known role
   and file system that lie inside the disk.
   */
  lemma SourceRules(request: Request)
    ensures SupportedMedia(request) && SupportedPlatform(request) && AllFit(request.sources, request) <==>
      && (request.sectorSize == 512 || request.sectorSize == 4096)
      && request.sourceSize >= 4294967296 && request.targetSize >= 4294967296
      && request.sourceSize % request.sectorSize == 0 && request.targetSize % request.sectorSize == 0
      && 1 <= |request.sources| <= 128
      && request.uefi && request.amd64 && request.decrypted
      && forall i :: 0 <= i < |request.sources| ==>
           var p := request.sources[i];
           && p.number != 0 && p.size != 0
           && p.offset % request.sectorSize == 0 && p.size % request.sectorSize == 0
           && p.offset + p.size <= request.sourceSize
           && p.primary
           && (|| (p.role == SystemReserved && (p.fileSystem == Ntfs || p.fileSystem == Fat32))
               || (p.role == Windows && p.fileSystem == Ntfs)
               || (p.role == Recovery && p.fileSystem == Ntfs)
               || (p.role == Data && p.fileSystem == Ntfs))
  {
    if request.sectorSize == 512 || request.sectorSize == 4096 {
      forall p: SourcePartition
        ensures InRange(p, request) <==>
          && p.number != 0 && p.size != 0
          && p.offset % request.sectorSize == 0 && p.size % request.sectorSize == 0
          && p.offset + p.size <= request.sourceSize
      {
      }
    }
  }

  // ---------- the loop ----------

  method ValidateAndSortSource(request: Request) returns (r: Result<seq<SourcePartition>>)
    ensures r == ValidateAndSort(request)
  {
    hide Rebuildable;
    if !SupportedMedia(request) {
      return Err(InvalidArgument);
    }
    if !SupportedPlatform(request) {
      return Err(UnsupportedPlatform);
    }
    var ps := SortByOffset(request.sources);
    var previousEnd: nat := 0;
    var numbers: set<u32> := {};
    var windowsCount, recoveryCount, reservedCount := 0, 0, 0;
    for k := 0 to |ps|
      invariant previousEnd == EndBefore(ps, k) && numbers == NumbersBefore(ps, k)
      invariant FirstFault(ps, 0, request) == FirstFault(ps, k, request)
      invariant windowsCount == Count(ps[..k], Windows)
      invariant recoveryCount == Count(ps[..k], Recovery)
      invariant reservedCount == Count(ps[..k], SystemReserved)
    {
      var p := ps[k];
      if p.number == 0 || p.size == 0
         || !WholeSectorSize(request.sectorSize, p.offset) || !WholeSectorSize(request.sectorSize, p.size)
         || p.offset < previousEnd || p.offset > request.sourceSize
         || p.size > request.sourceSize - p.offset || p.number in numbers {
        return Err(InvalidData);
      }
      numbers := numbers + {p.number};
      previousEnd := p.offset + p.size;
      if !Rebuildable(p) {
        return Err(UnsupportedPlatform);
      }
      assert ps[..k + 1][..k] == ps[..k];
      windowsCount := windowsCount + (if p.role == Windows then 1 else 0);
      recoveryCount := recoveryCount + (if p.role == Recovery then 1 else 0);
      reservedCount := reservedCount + (if p.role == SystemReserved then 1 else 0);
    }
    assert ps[..|ps|] == ps;
    if windowsCount != 1 || recoveryCount > 1 || reservedCount > 1 {
      return Err(InvalidData);
    }
    return Ok(ps);
  }
}
