/**
 The rebuild planner at work, and what every layout it accepts looks like.
 */
module Mbr2GptPlanner {
  import opened Bytes
  import opened Mbr2GptLayout
  import opened Mbr2GptSource
  import opened Results

  // ---------- placed drafts ----------

  /** The partition is the draft, under its number and behind everything before it. */
  predicate PlacedAt(drafts: seq<Draft>, start: nat, placed: seq<PlannedPartition>, k: nat)
    requires |drafts| == |placed| && k < |drafts|
  {
    && placed[k].number == k + 1
    && placed[k].role == drafts[k].role
    && placed[k].action == drafts[k].action
    && placed[k].sourceNumber == drafts[k].sourceNumber
    && placed[k].size == drafts[k].size
    && placed[k].offset == start + TotalSize(drafts[..k])
  }

  lemma {:induction false} PlaceElements(drafts: seq<Draft>, start: nat, k: nat)
    requires start + TotalSize(drafts) < U64_LIMIT && |drafts| < U32_LIMIT && k < |drafts|
    ensures PlacedAt(drafts, start, Place(drafts, start), k)
    decreases |drafts|
  {
    var n := |drafts| - 1;
    if k < n {
      PlaceElements(drafts[..n], start, k);
      assert drafts[..n][..k] == drafts[..k];
    }
  }

  function EndOf(p: PlannedPartition): nat {
    p.offset + p.size
  }

  lemma PlacedEnd(drafts: seq<Draft>, start: nat, k: nat)
    requires start + TotalSize(drafts) < U64_LIMIT && |drafts| < U32_LIMIT && k < |drafts|
    ensures EndOf(Place(drafts, start)[k]) == start + TotalSize(drafts[..k + 1])
  {
    PlaceElements(drafts, start, k);
    assert drafts[..k + 1][..k] == drafts[..k];
  }

  predicate WholeMiBs(drafts: seq<Draft>) {
    forall i :: 0 <= i < |drafts| ==> drafts[i].size % MIB == 0 && drafts[i].size > 0
  }

  lemma {:induction false} TotalWhole(drafts: seq<Draft>)
    requires WholeMiBs(drafts)
    ensures TotalSize(drafts) % MIB == 0
    decreases |drafts|
  {
    if |drafts| > 0 {
      TotalWhole(drafts[..|drafts| - 1]);
    }
  }

  // ---------- the drafts of a request ----------

  /** The drafts of the data partitions, together with the source partition of each. */
  function DataSources(ps: seq<SourcePartition>): (sources: seq<SourcePartition>)
    ensures |sources| == |DataDrafts(ps)|
    ensures forall i :: 0 <= i < |sources| ==>
      && DataDrafts(ps)[i] == Draft(DataTarget, CopyContents, sources[i].number, RoundUp(sources[i].size))
      && sources[i].role == Data && sources[i] in ps
    decreases |ps|
  {
    if |ps| == 0 then []
    else
      var last := ps[|ps| - 1];
      DataSources(ps[..|ps| - 1]) + (if last.role == Data then [last] else [])
  }

  /** A copy goes to at least as much room as its source takes. */
  predicate CopiesWhole(p: PlannedPartition, ps: seq<SourcePartition>) {
    p.action == CopyContents ==> exists i :: 0 <= i < |ps| && IsCopyOf(p, ps[i])
  }

  predicate IsCopyOf(p: PlannedPartition, s: SourcePartition) {
    && p.sourceNumber == s.number != 0
    && s.size <= p.size
    && (p.role == DataTarget ==> s.role == Data && p.size == RoundUp(s.size))
    && (p.role == WindowsTarget ==> s.role == Windows)
    && (p.role == RecoveryTools ==> s.role == Recovery)
  }

  predicate ActionFits(role: TargetRole, action: Action, sourceNumber: u32) {
    match role
    case EfiSystem => action == CreateFat32 && sourceNumber == 0
    case MicrosoftReserved => action == CreateReserved && sourceNumber == 0
    case WindowsTarget => action == CopyContents && sourceNumber != 0
    case DataTarget => action == CopyContents && sourceNumber != 0
    case RecoveryTools =>
      || (action == CopyContents && sourceNumber != 0)
      || (action == CreateAndStageWinRe && sourceNumber == 0)
  }

  /** The deployment order: ESP, MSR, Windows, recovery tools if wanted, and then nothing but data. */
  function RequiredRole(k: nat, withRecovery: bool): TargetRole {
    if k == 0 then EfiSystem
    else if k == 1 then MicrosoftReserved
    else if k == 2 then WindowsTarget
    else if k == 3 && withRecovery then RecoveryTools
    else DataTarget
  }

  predicate Contiguous(ps: seq<PlannedPartition>, start: nat, end: nat) {
    && |ps| > 0
    && ps[0].offset == start
    && (forall k :: 0 < k < |ps| ==> ps[k].offset == EndOf(ps[k - 1]))
    && EndOf(ps[|ps| - 1]) == end
  }

  predicate AlignedPartition(p: PlannedPartition) {
    p.offset % MIB == 0 && p.size % MIB == 0 && p.size > 0
  }

  /** What every accepted layout looks like. */
  predicate SoundLayout(plan: RebuildPlan, request: Request) {
    var ps := plan.partitions;
    && MIB <= request.targetSize
    && Contiguous(ps, MIB, RoundDown(request.targetSize - MIB))
    && plan.tail == request.targetSize - RoundDown(request.targetSize - MIB)
    && MIB <= plan.tail < 2 * MIB
    && (forall k :: 0 <= k < |ps| ==>
          && ps[k].number == k + 1
          && AlignedPartition(ps[k])
          && ps[k].role == RequiredRole(k, request.requireRecovery)
          && ActionFits(ps[k].role, ps[k].action, ps[k].sourceNumber)
          && CopiesWhole(ps[k], request.sources))
  }

  predicate DraftFits(d: Draft, k: nat, ps: seq<SourcePartition>, withRecovery: bool) {
    && d.size % MIB == 0 && d.size > 0
    && d.role == RequiredRole(k, withRecovery)
    && ActionFits(d.role, d.action, d.sourceNumber)
    && (d.action == CopyContents ==> exists s :: s in ps && DraftCopies(d, s))
  }

  predicate DraftCopies(d: Draft, s: SourcePartition) {
    && d.sourceNumber == s.number != 0
    && s.size <= d.size
    && (d.role == DataTarget ==> s.role == Data && d.size == RoundUp(s.size))
    && (d.role == WindowsTarget ==> s.role == Windows)
    && (d.role == RecoveryTools ==> s.role == Recovery)
  }

  lemma DataDraftFits(ps: seq<SourcePartition>, request: Request, i: nat, k: nat)
    requires AllFit(ps, request) && i < |DataDrafts(ps)|
    requires k >= 3 && (request.requireRecovery ==> k >= 4)
    ensures DraftFits(DataDrafts(ps)[i], k, ps, request.requireRecovery)
  {
    var s := DataSources(ps)[i];
    assert InRange(s, request);
    assert DraftCopies(DataDrafts(ps)[i], s);
  }

  lemma DraftsFit(request: Request, ps: seq<SourcePartition>, extra: nat, k: nat)
    requires AllFit(ps, request) && Count(ps, Windows) == 1 && extra % MIB == 0
    requires Find(ps, Windows, 0) < |ps|
    requires k < |Drafts(request, ps, ps[Find(ps, Windows, 0)], FindPartition(ps, Recovery), extra)|
    ensures DraftFits(Drafts(request, ps, ps[Find(ps, Windows, 0)], FindPartition(ps, Recovery), extra)[k], k, ps,
                      request.requireRecovery)
  {
    hide InRange, Rebuildable, DraftFits, DataDrafts;
    var windows, recovery := ps[Find(ps, Windows, 0)], FindPartition(ps, Recovery);
    var ds := Drafts(request, ps, windows, recovery, extra);
    if k < 3 {
      FrontDraftFits(request, ps, windows, extra, k);
    } else if k == 3 && request.requireRecovery {
      RecoveryDraftFits(request, ps, recovery);
    } else {
      var first := if request.requireRecovery then 4 else 3;
      assert ds[k] == DataDrafts(ps)[k - first];
      DataDraftFits(ps, request, k - first, k);
    }
  }

  lemma FrontDraftFits(request: Request, ps: seq<SourcePartition>, windows: SourcePartition, extra: nat, k: nat)
    requires AllFit(ps, request) && windows in ps && windows.role == Windows && extra % MIB == 0 && k < 3
    ensures DraftFits(
              [ Draft(EfiSystem, CreateFat32, 0, EspSize(request)),
                Draft(MicrosoftReserved, CreateReserved, 0, MSR),
                Draft(WindowsTarget, CopyContents, windows.number, RoundUp(windows.size) + extra) ][k],
              k, ps, request.requireRecovery)
  {
    hide RoundUp;
    assert InRange(windows, request);
    var d := Draft(WindowsTarget, CopyContents, windows.number, RoundUp(windows.size) + extra);
    assert DraftCopies(d, windows);
  }

  lemma RecoveryDraftFits(request: Request, ps: seq<SourcePartition>, recovery: Option<SourcePartition>)
    requires AllFit(ps, request) && request.requireRecovery
    requires recovery.Some? ==> recovery.value in ps && recovery.value.role == Recovery
    ensures |RecoveryDrafts(request, recovery)| == 1
    ensures DraftFits(RecoveryDrafts(request, recovery)[0], 3, ps, true)
  {
    hide RoundUp;
    if Reuses(request, recovery) {
      assert InRange(recovery.value, request);
      assert DraftCopies(RecoveryDrafts(request, recovery)[0], recovery.value);
    }
  }

  // ---------- the theorem ----------

  lemma PlaceIsSound(drafts: seq<Draft>, request: Request, ps: seq<SourcePartition>)
    requires MIB + TotalSize(drafts) < U64_LIMIT && 0 < |drafts| < U32_LIMIT
    requires forall k :: 0 <= k < |drafts| ==> DraftFits(drafts[k], k, ps, request.requireRecovery)
    requires multiset(ps) == multiset(request.sources)
    ensures var placed := Place(drafts, MIB);
      && Contiguous(placed, MIB, MIB + TotalSize(drafts))
      && (forall k :: 0 <= k < |placed| ==>
            && placed[k].number == k + 1
            && AlignedPartition(placed[k])
            && placed[k].role == RequiredRole(k, request.requireRecovery)
            && ActionFits(placed[k].role, placed[k].action, placed[k].sourceNumber)
            && CopiesWhole(placed[k], request.sources))
  {
    hide TotalSize, Place;
    var placed := Place(drafts, MIB);
    forall k | 0 <= k < |placed|
      ensures PlacedAt(drafts, MIB, placed, k) && EndOf(placed[k]) == MIB + TotalSize(drafts[..k + 1])
      ensures AlignedPartition(placed[k]) && CopiesWhole(placed[k], request.sources)
    {
      PlaceElements(drafts, MIB, k);
      PlacedEnd(drafts, MIB, k);
      assert DraftFits(drafts[k], k, ps, request.requireRecovery);
      TotalWhole(drafts[..k]);
      if placed[k].action == CopyContents {
        var s :| s in ps && DraftCopies(drafts[k], s);
        assert s in multiset(request.sources);
        var i :| 0 <= i < |request.sources| && request.sources[i] == s;
        assert IsCopyOf(placed[k], request.sources[i]);
      }
    }
    assert drafts[..0] == [] && TotalSize([]) == 0 by { NoSize(); }
    assert drafts[..|drafts|] == drafts;
    forall k | 0 < k < |placed| ensures placed[k].offset == EndOf(placed[k - 1]) {
      assert PlacedAt(drafts, MIB, placed, k);
    }
  }

  lemma NoSize()
    ensures TotalSize([]) == 0
  {
  }

  /** Where an accepted plan comes from. */
  lemma PlanParts(request: Request) returns (ps: seq<SourcePartition>, windows: SourcePartition,
                                             recovery: Option<SourcePartition>, extra: nat)
    requires PlanRebuild(request).Ok?
    ensures ValidateAndSort(request) == Ok(ps) && |ps| <= 128
    ensures Count(ps, Windows) == 1 && Find(ps, Windows, 0) < |ps| && windows == ps[Find(ps, Windows, 0)]
    ensures recovery == FindPartition(ps, Recovery)
    ensures TotalSize(Drafts(request, ps, windows, recovery, 0)) + extra == Available(request)
    ensures TotalSize(Drafts(request, ps, windows, recovery, extra)) == Available(request)
    ensures MINIMUM_DISK <= request.targetSize
    ensures PlanRebuild(request).value == PlanFor(request, ps, windows, recovery, extra)
  {
    hide AllFit, AllSeparate, SortedByOffset, PlanFor, TotalSize, Drafts, RecoveryFault, NeededRecovery, Count,
         FindPartition, SortByOffset, FirstFault;
    ps := ValidateAndSort(request).value;
    AcceptedSources(request);
    WindowsPresent(ps);
    windows, recovery := ps[Find(ps, Windows, 0)], FindPartition(ps, Recovery);
    extra := Available(request) - TotalSize(Drafts(request, ps, windows, recovery, 0));
    ExpandedTotal(request, ps, windows, recovery, extra);
  }

  lemma DraftCount(request: Request, ps: seq<SourcePartition>, windows: SourcePartition,
                   recovery: Option<SourcePartition>, extra: nat)
    ensures |Drafts(request, ps, windows, recovery, extra)|
         == 3 + (if request.requireRecovery then 1 else 0) + Count(ps, Data)
  {
    hide DataDrafts, Count, RoundUp;
  }

  lemma PlanForSound(request: Request, ps: seq<SourcePartition>, windows: SourcePartition,
                     recovery: Option<SourcePartition>, extra: nat)
    requires |ps| <= 128 && MINIMUM_DISK <= request.targetSize
    requires AllFit(ps, request) && multiset(ps) == multiset(request.sources)
    requires Count(ps, Windows) == 1 && Find(ps, Windows, 0) < |ps|
    requires windows == ps[Find(ps, Windows, 0)] && recovery == FindPartition(ps, Recovery)
    requires TotalSize(Drafts(request, ps, windows, recovery, 0)) + extra == Available(request)
    requires TotalSize(Drafts(request, ps, windows, recovery, extra)) == Available(request)
    ensures SoundLayout(PlanFor(request, ps, windows, recovery, extra), request)
  {
    hide AllFit, DraftFits, Place, TotalSize, ActionFits, CopiesWhole, InPlaceCandidate, Contiguous, Drafts,
         Reuses, AlignedPartition, DataDrafts, RecoveryDrafts, Count, Find, FindPartition, RequiredRole;
    RequiredWhole(request, ps);
    DraftCount(request, ps, windows, recovery, extra);
    var ds := Drafts(request, ps, windows, recovery, extra);
    forall k | 0 <= k < |ds| ensures DraftFits(ds[k], k, ps, request.requireRecovery) {
      DraftsFit(request, ps, extra, k);
    }
    PlaceIsSound(ds, request, ps);
  }

  /**
   Every accepted layout is contiguous from 1 MiB to the last aligned offset
   that leaves at least 1 MiB, aligned throughout, in deployment order, and no
   copy is smaller than its source.
   */
  lemma AcceptedLayoutSound(request: Request)
    requires PlanRebuild(request).Ok?
    ensures SoundLayout(PlanRebuild(request).value, request)
    ensures var plan := PlanRebuild(request).value;
      && |plan.partitions| == 3 + (if request.requireRecovery then 1 else 0) + Count(request.sources, Data)
      && plan.winReRegistration == request.requireRecovery
      && plan.alignment == MIB && plan.validateStillRequired && plan.sourceUnchanged && plan.bcdbootRequired
  {
    hide PlanRebuild, SoundLayout, AllFit, AllSeparate, SortedByOffset, Place, TotalSize, InPlaceCandidate, Reuses,
         DataDrafts, SortByOffset, FirstFault, Find, FindPartition;
    var ps, windows, recovery, extra := PlanParts(request);
    AcceptedSources(request);
    PlanForSound(request, ps, windows, recovery, extra);
    DraftCount(request, ps, windows, recovery, extra);
    SortCounts(request.sources, Data);
  }

  lemma RequiredWhole(request: Request, ps: seq<SourcePartition>)
    requires AllFit(ps, request) && Count(ps, Windows) == 1 && Find(ps, Windows, 0) < |ps|
    ensures TotalSize(Drafts(request, ps, ps[Find(ps, Windows, 0)], FindPartition(ps, Recovery), 0)) % MIB == 0
  {
    hide AllFit, ActionFits, TotalSize, Drafts;
    var ds := Drafts(request, ps, ps[Find(ps, Windows, 0)], FindPartition(ps, Recovery), 0);
    forall k | 0 <= k < |ds| ensures ds[k].size % MIB == 0 && ds[k].size > 0 {
      DraftsFit(request, ps, 0, k);
    }
    TotalWhole(ds);
  }

  // ---------- no partition is copied twice ----------

  predicate DistinctNumbers(drafts: seq<Draft>) {
    forall i, j :: 0 <= i < j < |drafts| ==> drafts[i].sourceNumber != drafts[j].sourceNumber
  }

  lemma {:induction false} DataNumbersDistinct(ps: seq<SourcePartition>)
    requires AllSeparate(ps)
    ensures DistinctNumbers(DataDrafts(ps))
    decreases |ps|
  {
    if |ps| > 0 {
      var front, last := ps[..|ps| - 1], ps[|ps| - 1];
      DataNumbersDistinct(front);
      forall i | 0 <= i < |DataDrafts(front)| ensures DataDrafts(front)[i].sourceNumber != last.number {
        var s := DataSources(front)[i];
        var k :| 0 <= k < |front| && front[k] == s;
        assert Separate(ps[k], ps[|ps| - 1]);
      }
    }
  }

  lemma SameNumberSamePartition(ps: seq<SourcePartition>, s: SourcePartition, t: SourcePartition)
    requires AllSeparate(ps) && s in ps && t in ps && s.number == t.number
    ensures s == t
  {
    forall i, j | 0 <= i < j < |ps| ensures ps[i].number != ps[j].number {
      assert Separate(ps[i], ps[j]);
    }
  }

  /** Each source partition is copied to one place at most. */
  lemma CopiesAreDistinct(request: Request, i: nat, j: nat)
    requires PlanRebuild(request).Ok?
    requires i < j < |PlanRebuild(request).value.partitions|
    requires PlanRebuild(request).value.partitions[i].action == CopyContents
    requires PlanRebuild(request).value.partitions[j].action == CopyContents
    ensures PlanRebuild(request).value.partitions[i].sourceNumber
         != PlanRebuild(request).value.partitions[j].sourceNumber
  {
    hide PlanRebuild, AllFit, AllSeparate, SortedByOffset, Place, TotalSize, InPlaceCandidate, Reuses,
         DataDrafts, SortByOffset, FirstFault, Find, FindPartition, DraftFits, RecoveryDrafts, SoundLayout;
    AcceptedLayoutSound(request);
    var ps, windows, recovery, extra := PlanParts(request);
    AcceptedSources(request);
    var ds := Drafts(request, ps, windows, recovery, extra);
    PlaceElements(ds, MIB, i);
    PlaceElements(ds, MIB, j);
    RequiredWhole(request, ps);
    DraftsFit(request, ps, extra, i);
    DraftsFit(request, ps, extra, j);
    DraftCount(request, ps, windows, recovery, extra);
    DraftNumbersDiffer(request, ps, windows, recovery, extra, i, j);
  }

  lemma DraftNumbersDiffer(request: Request, ps: seq<SourcePartition>, windows: SourcePartition,
                           recovery: Option<SourcePartition>, extra: nat, i: nat, j: nat)
    requires AllSeparate(ps)
    requires i < j < |Drafts(request, ps, windows, recovery, extra)|
    requires var ds := Drafts(request, ps, windows, recovery, extra);
      && ds[i].action == CopyContents && DraftFits(ds[i], i, ps, request.requireRecovery)
      && ds[j].action == CopyContents && DraftFits(ds[j], j, ps, request.requireRecovery)
    ensures Drafts(request, ps, windows, recovery, extra)[i].sourceNumber
         != Drafts(request, ps, windows, recovery, extra)[j].sourceNumber
  {
    hide AllSeparate, Reuses, DataDrafts, RoundUp, Drafts;
    var ds := Drafts(request, ps, windows, recovery, extra);
    if ds[i].role == DataTarget {
      DataTail(request, ps, windows, recovery, extra, i);
      DataTail(request, ps, windows, recovery, extra, j);
      DataNumbersDistinct(ps);
    } else if ds[i].sourceNumber == ds[j].sourceNumber {
      var s :| s in ps && DraftCopies(ds[i], s);
      var t :| t in ps && DraftCopies(ds[j], t);
      SameNumberSamePartition(ps, s, t);
    }
  }

  /** Behind the fixed partitions come the data partitions, in order. */
  lemma DataTail(request: Request, ps: seq<SourcePartition>, windows: SourcePartition,
                 recovery: Option<SourcePartition>, extra: nat, k: nat)
    requires k < |Drafts(request, ps, windows, recovery, extra)|
    requires k >= 3 && (request.requireRecovery ==> k >= 4)
    ensures var first := if request.requireRecovery then 4 else 3;
      && k - first < |DataDrafts(ps)|
      && Drafts(request, ps, windows, recovery, extra)[k] == DataDrafts(ps)[k - first]
  {
    hide DataDrafts, RoundUp, Reuses;
  }

  // ---------- the planner ----------

  /** Microsoft's in-place conversion might be possible: a preview only. */
  method CheckInPlace(request: Request, ps: seq<SourcePartition>) returns (candidate: bool)
    ensures candidate == InPlaceCandidate(request, ps)
  {
    if !request.uefi || !request.amd64 || !request.decrypted || |ps| == 0 || |ps| > 3 {
      return false;
    }
    var activeCount := 0;
    for k := 0 to |ps|
      invariant forall i :: 0 <= i < k ==>
        && ps[i].primary && ps[i].role != Unsupported
        && (ps[i].active ==> ps[i].role == SystemReserved || ps[i].role == Windows)
      invariant activeCount == 0 <==> forall i :: 0 <= i < k ==> !ps[i].active
      invariant activeCount <= 1 <==> forall i, j :: 0 <= i < j < k ==> !(ps[i].active && ps[j].active)
      invariant activeCount >= 0
    {
      var p := ps[k];
      if !p.primary || p.role == Unsupported {
        return false;
      }
      if p.active {
        activeCount := activeCount + 1;
        if p.role != SystemReserved && p.role != Windows {
          return false;
        }
      }
    }
    if activeCount != 1 {
      return false;
    }
    var first, last := ps[0], ps[|ps| - 1];
    if first.offset < 16 * 1024 + 2 * request.sectorSize
       || last.offset > request.sourceSize || last.size > request.sourceSize - last.offset {
      return false;
    }
    return request.sourceSize - (last.offset + last.size) >= 16 * 1024 + request.sectorSize;
  }

  /** The size of the recovery partition, and whether the source's own is copied into it. */
  method SizeRecovery(request: Request, recovery: Option<SourcePartition>) returns (r: Result<(u64, bool)>)
    ensures NeededRecovery(request) >= U64_LIMIT ==> r == Err(InvalidData)
    ensures TotalSize(RecoveryDrafts(request, recovery)) >= U64_LIMIT ==> r == Err(InvalidData)
    ensures NeededRecovery(request) < U64_LIMIT && TotalSize(RecoveryDrafts(request, recovery)) < U64_LIMIT ==>
      r == Ok((TotalSize(RecoveryDrafts(request, recovery)), Reuses(request, recovery)))
  {
    hide RoundUp;
    OneDraft(RecoveryDrafts(request, recovery));
    var content :- CheckedAdd(request.winReImageSize, RECOVERY_FREE);
    var aligned :- AlignUp(Max(MINIMUM_RECOVERY, content));
    var reuse := request.requireRecovery && request.winReState == RegisteredPartition
                 && recovery.Some? && recovery.value.size >= aligned;
    var size: u64 := if request.requireRecovery then aligned else 0;
    if reuse {
      var existing :- AlignUp(recovery.value.size);
      size := Max(size, existing);
    }
    return Ok((size, reuse));
  }

  lemma OneDraft(drafts: seq<Draft>)
    requires |drafts| <= 1
    ensures TotalSize(drafts) == if |drafts| == 0 then 0 else drafts[0].size
  {
    NoSize();
    if |drafts| == 1 {
      assert drafts[..0] == [];
    }
  }

  lemma {:induction false} DataTotalGrows(ps: seq<SourcePartition>, k: nat)
    requires k <= |ps|
    ensures TotalSize(DataDrafts(ps[..k])) <= TotalSize(DataDrafts(ps))
    decreases |ps|
  {
    if k < |ps| {
      var front := ps[..|ps| - 1];
      DataTotalGrows(front, k);
      assert front[..k] == ps[..k];
      DataTotalStep(ps, |ps| - 1);
      assert ps[..|ps|] == ps;
    } else {
      assert ps[..k] == ps;
    }
  }

  lemma DataTotalStep(ps: seq<SourcePartition>, k: nat)
    requires k < |ps|
    ensures DataDrafts(ps[..k + 1])
         == DataDrafts(ps[..k])
            + (if ps[k].role == Data then [Draft(DataTarget, CopyContents, ps[k].number, RoundUp(ps[k].size))] else [])
    ensures TotalSize(DataDrafts(ps[..k + 1]))
         == TotalSize(DataDrafts(ps[..k])) + (if ps[k].role == Data then RoundUp(ps[k].size) else 0)
    ensures DataSources(ps[..k + 1]) == DataSources(ps[..k]) + (if ps[k].role == Data then [ps[k]] else [])
  {
    hide RoundUp, TotalSize;
    assert ps[..k + 1][..k] == ps[..k];
    var added := if ps[k].role == Data then [Draft(DataTarget, CopyContents, ps[k].number, RoundUp(ps[k].size))] else [];
    OneDraft(added);
    TotalSplits(DataDrafts(ps[..k]), added);
  }

  /** Adds up the aligned sizes with checked arithmetic and collects the data partitions. */
  method SumRequired(request: Request, ps: seq<SourcePartition>, windows: SourcePartition,
                     recovery: Option<SourcePartition>, recoverySize: u64)
    returns (r: Result<(u64, seq<SourcePartition>)>)
    requires recoverySize == TotalSize(RecoveryDrafts(request, recovery))
    ensures var required := TotalSize(Drafts(request, ps, windows, recovery, 0));
      r == if required >= U64_LIMIT then Err(InvalidData) else Ok((required, DataSources(ps)))
  {
    hide RoundUp, Drafts, RecoveryDrafts, DataDrafts, DataSources, TotalSize;
    ExpandedTotal(request, ps, windows, recovery, 0);
    var windowsSize :- AlignUp(windows.size);
    var required :- CheckedAdd(EspSize(request), MSR);
    required :- CheckedAdd(required, windowsSize);
    required :- CheckedAdd(required, recoverySize);
    var data: seq<SourcePartition> := [];
    ghost var fixedSize := required;
    NoData(ps);
    for k := 0 to |ps|
      invariant required == fixedSize + TotalSize(DataDrafts(ps[..k]))
      invariant data == DataSources(ps[..k])
    {
      DataTotalStep(ps, k);
      DataTotalGrows(ps, k + 1);
      if ps[k].role != Data {
        continue;
      }
      var size :- AlignUp(ps[k].size);
      required :- CheckedAdd(required, size);
      data := data + [ps[k]];
    }
    assert ps[..|ps|] == ps;
    return Ok((required, data));
  }

  lemma NoData(ps: seq<SourcePartition>)
    ensures DataDrafts(ps[..0]) == [] && TotalSize(DataDrafts(ps[..0])) == 0 && DataSources(ps[..0]) == []
  {
  }

  lemma {:induction false} TotalGrows(drafts: seq<Draft>, k: nat)
    requires k <= |drafts|
    ensures TotalSize(drafts[..k]) <= TotalSize(drafts)
    decreases |drafts|
  {
    if k < |drafts| {
      TotalGrows(drafts[..|drafts| - 1], k);
      assert drafts[..|drafts| - 1][..k] == drafts[..k];
    } else {
      assert drafts[..k] == drafts;
    }
  }

  lemma PlaceStep(drafts: seq<Draft>, k: nat, start: nat)
    requires k < |drafts| < U32_LIMIT && start + TotalSize(drafts) < U64_LIMIT
    ensures start + TotalSize(drafts[..k + 1]) < U64_LIMIT
    ensures TotalSize(drafts[..k + 1]) == TotalSize(drafts[..k]) + drafts[k].size
    ensures Place(drafts[..k + 1], start)
         == Place(drafts[..k], start)
            + [PlannedPartition(k + 1, drafts[k].role, drafts[k].action, drafts[k].sourceNumber,
                                start + TotalSize(drafts[..k]), drafts[k].size)]
  {
    TotalGrows(drafts, k + 1);
    assert drafts[..k + 1][..k] == drafts[..k];
  }

  /** The partitions planned so far are the first drafts, and the cursor stands behind them. */
  ghost predicate Laid(partitions: seq<PlannedPartition>, cursor: u64, drafts: seq<Draft>, k: nat) {
    && k <= |drafts| < U32_LIMIT
    && MIB + TotalSize(drafts) < U64_LIMIT
    && cursor == MIB + TotalSize(drafts[..k]) <= MIB + TotalSize(drafts)
    && partitions == Place(drafts[..k], MIB)
  }

  /** Appends one partition at the cursor and moves the cursor behind it. */
  method AppendPartition(partitions: seq<PlannedPartition>, cursor: u64, role: TargetRole, action: Action,
                         sourceNumber: u32, size: u64, ghost drafts: seq<Draft>)
    returns (longer: seq<PlannedPartition>, next: u64)
    requires Laid(partitions, cursor, drafts, |partitions|) && |partitions| < |drafts|
    requires drafts[|partitions|] == Draft(role, action, sourceNumber, size)
    ensures Laid(longer, next, drafts, |longer|) && |longer| == |partitions| + 1
  {
    hide TotalSize;
    PlaceStep(drafts, |partitions|, MIB);
    TotalGrows(drafts, |partitions| + 1);
    longer := partitions + [PlannedPartition(|partitions| + 1, role, action, sourceNumber, cursor, size)];
    next := cursor + size;
  }

  /** Lays the partitions out one behind the other. */
  method LayOut(request: Request, ghost ps: seq<SourcePartition>, windows: SourcePartition,
                recovery: Option<SourcePartition>, reuse: bool, recoverySize: u64, windowsSize: u64,
                data: seq<SourcePartition>, ghost extra: nat)
    returns (partitions: seq<PlannedPartition>, cursor: u64)
    requires MIB + TotalSize(Drafts(request, ps, windows, recovery, extra)) < U64_LIMIT
    requires |Drafts(request, ps, windows, recovery, extra)| < U32_LIMIT
    requires reuse == Reuses(request, recovery) && recoverySize == TotalSize(RecoveryDrafts(request, recovery))
    requires windowsSize == RoundUp(windows.size) + extra && data == DataSources(ps)
    ensures Laid(partitions, cursor, Drafts(request, ps, windows, recovery, extra), |partitions|)
    ensures |partitions| == |Drafts(request, ps, windows, recovery, extra)|
  {
    hide TotalSize, Laid, RoundUp, DataSources, Drafts, DataDrafts;
    ghost var drafts := Drafts(request, ps, windows, recovery, extra);
    FrontDrafts(request, ps, windows, recovery, extra);
    partitions, cursor := [], MIB;
    NothingLaid(drafts);
    partitions, cursor := AppendPartition(partitions, cursor, EfiSystem, CreateFat32, 0, EspSize(request), drafts);
    partitions, cursor := AppendPartition(partitions, cursor, MicrosoftReserved, CreateReserved, 0, MSR, drafts);
    partitions, cursor := AppendPartition(partitions, cursor, WindowsTarget, CopyContents, windows.number, windowsSize,
                                          drafts);
    if request.requireRecovery {
      OneDraft(RecoveryDrafts(request, recovery));
      partitions, cursor := AppendPartition(
        partitions, cursor, RecoveryTools, if reuse then CopyContents else CreateAndStageWinRe,
        if reuse then recovery.value.number else 0, recoverySize, drafts);
    }
    ghost var first := |partitions|;
    for k := 0 to |data|
      invariant |partitions| == first + k
      invariant Laid(partitions, cursor, drafts, |partitions|)
    {
      DataTail(request, ps, windows, recovery, extra, first + k);
      DraftBound(drafts, first + k);
      var size := AlignUp(data[k].size);
      if size.Err? {
        assert false;
      }
      partitions, cursor := AppendPartition(partitions, cursor, DataTarget, CopyContents, data[k].number, size.value,
                                            drafts);
    }
  }

  lemma NothingLaid(drafts: seq<Draft>)
    requires MIB + TotalSize(drafts) < U64_LIMIT && |drafts| < U32_LIMIT
    ensures Laid([], MIB, drafts, 0)
  {
  }

  lemma DraftBound(drafts: seq<Draft>, k: nat)
    requires k < |drafts| && TotalSize(drafts) < U64_LIMIT
    ensures drafts[k].size < U64_LIMIT
  {
    TotalGrows(drafts, k + 1);
    assert drafts[..k + 1][..k] == drafts[..k];
  }

  lemma FrontDrafts(request: Request, ps: seq<SourcePartition>, windows: SourcePartition,
                    recovery: Option<SourcePartition>, extra: nat)
    ensures var ds := Drafts(request, ps, windows, recovery, extra);
      && |ds| == 3 + (if request.requireRecovery then 1 else 0) + |DataDrafts(ps)|
      && ds[0] == Draft(EfiSystem, CreateFat32, 0, EspSize(request))
      && ds[1] == Draft(MicrosoftReserved, CreateReserved, 0, MSR)
      && ds[2] == Draft(WindowsTarget, CopyContents, windows.number, RoundUp(windows.size) + extra)
      && (request.requireRecovery ==> ds[3] == RecoveryDrafts(request, recovery)[0])
  {
    hide DataDrafts, RoundUp, Reuses;
  }

  /** What the planner has found out about the source before it looks at the space of the target. */
  ghost predicate Measured(request: Request, ps: seq<SourcePartition>, windows: SourcePartition,
                           recovery: Option<SourcePartition>, reuse: bool, recoverySize: u64, required: u64,
                           data: seq<SourcePartition>) {
    && |ps| <= 128 && MINIMUM_DISK <= request.targetSize && AllFit(ps, request)
    && Count(ps, Windows) == 1 && Find(ps, Windows, 0) < |ps|
    && windows == ps[Find(ps, Windows, 0)] && recovery == FindPartition(ps, Recovery)
    && required == TotalSize(Drafts(request, ps, windows, recovery, 0))
    && reuse == Reuses(request, recovery) && recoverySize == TotalSize(RecoveryDrafts(request, recovery))
    && data == DataSources(ps)
  }

  /** With `extra` bytes more for Windows the partitions fill the available space exactly. */
  ghost predicate FillsTarget(request: Request, ps: seq<SourcePartition>, windows: SourcePartition,
                              recovery: Option<SourcePartition>, extra: nat) {
    |ps| <= 128 && MINIMUM_DISK <= request.targetSize
    && TotalSize(Drafts(request, ps, windows, recovery, extra)) == Available(request)
  }

  /** The remainder is a whole number of MiB, and Windows together with it neither overflows nor leaves the target. */
  lemma RemainderFits(request: Request, ps: seq<SourcePartition>, windows: SourcePartition,
                      recovery: Option<SourcePartition>, reuse: bool, recoverySize: u64, required: u64,
                      data: seq<SourcePartition>)
    requires Measured(request, ps, windows, recovery, reuse, recoverySize, required, data)
    requires required <= Available(request)
    ensures var extra := Available(request) - required;
      && RoundDown(extra) == extra && FillsTarget(request, ps, windows, recovery, extra)
      && RoundUp(windows.size) + extra <= Available(request) <= request.targetSize - 2 * MIB
  {
    hide AllFit, Drafts, TotalSize, RecoveryDrafts, DataSources, Find, RoundUp, DataDrafts, Count, Reuses, FindPartition;
    RequiredWhole(request, ps);
    WholeDifference(Available(request), required);
    ExpandedTotal(request, ps, windows, recovery, Available(request) - required);
  }

  /** Gives Windows what is left over, and lays the partitions out. */
  method FitToTarget(request: Request, ps: seq<SourcePartition>, windows: SourcePartition,
                     recovery: Option<SourcePartition>, reuse: bool, recoverySize: u64, required: u64,
                     data: seq<SourcePartition>)
    returns (r: Result<RebuildPlan>)
    requires Measured(request, ps, windows, recovery, reuse, recoverySize, required, data)
    ensures required > Available(request) ==> r == Err(UnsupportedLayout)
    ensures required <= Available(request) ==>
      var extra := Available(request) - required;
      FillsTarget(request, ps, windows, recovery, extra) && r == Ok(PlanFor(request, ps, windows, recovery, extra))
  {
    hide AllFit, InPlaceCandidate, Drafts, TotalSize, RecoveryDrafts, DataSources, Find, RoundUp, DataDrafts, Count,
         Reuses, FindPartition, PlanFor;
    if request.targetSize <= 2 * MIB {
      assert false;
    }
    var targetLimit := AlignDown(request.targetSize - MIB);
    var available := targetLimit - MIB;
    if required > available {
      return Err(UnsupportedLayout);
    }
    RemainderFits(request, ps, windows, recovery, reuse, recoverySize, required, data);
    var extra := AlignDown(available - required);
    var windowsSize := AlignUp(windows.size);
    if windowsSize.Err? {
      assert false;
    }
    var expanded := CheckedAdd(windowsSize.value, extra);
    if expanded.Err? {
      assert false;
    }
    var plan := DescribePlan(request, ps, windows, recovery, reuse, recoverySize, expanded.value, data, extra);
    return Ok(plan);
  }

  /** The sizes that the planner has settled on fit the target. */
  ghost predicate Settled(request: Request, ps: seq<SourcePartition>, windows: SourcePartition,
                          recovery: Option<SourcePartition>, reuse: bool, recoverySize: u64, windowsSize: u64,
                          data: seq<SourcePartition>, extra: nat) {
    && MIB + TotalSize(Drafts(request, ps, windows, recovery, extra)) <= request.targetSize
    && reuse == Reuses(request, recovery) && recoverySize == TotalSize(RecoveryDrafts(request, recovery))
    && windowsSize == RoundUp(windows.size) + extra && data == DataSources(ps)
  }

  /** The partitions, and what the caller is told about them. */
  method DescribePlan(request: Request, ps: seq<SourcePartition>, windows: SourcePartition,
                      recovery: Option<SourcePartition>, reuse: bool, recoverySize: u64, windowsSize: u64,
                      data: seq<SourcePartition>, ghost extra: nat)
    returns (plan: RebuildPlan)
    requires |ps| <= 128 && Settled(request, ps, windows, recovery, reuse, recoverySize, windowsSize, data, extra)
    ensures plan == PlanFor(request, ps, windows, recovery, extra)
  {
    hide InPlaceCandidate, Drafts, TotalSize, RecoveryDrafts, DataSources, Find, RoundUp, DataDrafts, Count, Reuses;
    DraftCount(request, ps, windows, recovery, extra);
    var partitions, cursor := LayOut(request, ps, windows, recovery, reuse, recoverySize, windowsSize, data, extra);
    ghost var drafts := Drafts(request, ps, windows, recovery, extra);
    assert drafts[..|partitions|] == drafts;
    if cursor > request.targetSize {
      assert false;
    }
    var inPlace := CheckInPlace(request, ps);
    return RebuildPlan(
      partitions, MIB, request.targetSize - cursor, inPlace, true, true,
      (exists i :: 0 <= i < |ps| && ps[i].role == SystemReserved),
      request.requireRecovery && !reuse,
      request.requireRecovery && (recovery.None? || Find(ps, Recovery, 0) != Find(ps, Windows, 0) + 1),
      true, request.requireRecovery);
  }

  lemma WholeDifference(a: nat, b: nat)
    requires a % MIB == 0 && b % MIB == 0 && b <= a
    ensures RoundDown(a - b) == a - b
  {
  }

  /** Plans the layout of the new disk; nothing is written. */
  method PlanRebuildToNewTarget(request: Request) returns (r: Result<RebuildPlan>)
    ensures r == PlanRebuild(request)
  {
    hide SortByOffset, FirstFault, AllFit, AllSeparate, SortedByOffset, Drafts, TotalSize, PlanFor,
         RecoveryDrafts, DataSources, Find, NeededRecovery, RoundUp, DataDrafts, FindPartition;
    var ps :- ValidateAndSortSource(request);
    AcceptedSources(request);
    WindowsPresent(ps);
    var windows, recovery := ps[Find(ps, Windows, 0)], FindPartition(ps, Recovery);
    if request.requireRecovery {
      if request.winReState == Missing || request.winReState == Unknown || request.winReImageSize == 0 {
        return Err(VerificationFailed);
      }
      if request.winReState == RegisteredPartition
         && (recovery.None? || request.registeredWinReNumber != recovery.value.number) {
        return Err(IdentityMismatch);
      }
    }
    ExpandedTotal(request, ps, windows, recovery, 0);
    var recoveryPlan :- SizeRecovery(request, recovery);
    var (recoverySize, reuse) := recoveryPlan;
    var sums :- SumRequired(request, ps, windows, recovery, recoverySize);
    var (required, data) := sums;
    r := FitToTarget(request, ps, windows, recovery, reuse, recoverySize, required, data);
  }
}
