/**
 The rebuild planner from outside: which requests it accepts, and what its plan
 says about the sizes and about the source, in terms of the request alone.
 */
module Mbr2GptTerms {
  import opened Bytes
  import opened Mbr2GptLayout
  import opened Mbr2GptPlanner
  import opened Mbr2GptSource
  import opened Rearrangement
  import opened Results

  // ---------- the space that is needed ----------

  /** What a source partition needs on the target: only Windows and data come along as they are. */
  function Room(p: SourcePartition): nat {
    if p.role == Windows || p.role == Data then RoundUp(p.size) else 0
  }

  function WindowsRoom(ps: seq<SourcePartition>): nat {
    if Find(ps, Windows, 0) < |ps| then RoundUp(ps[Find(ps, Windows, 0)].size) else 0
  }

  lemma {:induction false} FindInFront(ps: seq<SourcePartition>, role: SourceRole, from: nat)
    requires from < |ps|
    ensures var front := Find(ps[..|ps| - 1], role, from);
      Find(ps, role, from) == if front < |ps| - 1 then front
                              else if ps[|ps| - 1].role == role then |ps| - 1 else |ps|
    decreases |ps| - from
  {
    if from < |ps| - 1 && ps[from].role != role {
      FindInFront(ps, role, from + 1);
    }
  }

  lemma CountedIsFound(ps: seq<SourcePartition>, role: SourceRole)
    ensures Count(ps, role) == 0 <==> Find(ps, role, 0) == |ps|
  {
    if Find(ps, role, 0) == |ps| {
      NoneFoundNoneCounted(ps, role);
    } else {
      FoundIsCounted(ps, role, Find(ps, role, 0));
    }
  }

  lemma {:induction false} FoundIsCounted(ps: seq<SourcePartition>, role: SourceRole, k: nat)
    requires k < |ps| && ps[k].role == role
    ensures Count(ps, role) >= 1
    decreases |ps|
  {
    if k < |ps| - 1 {
      FoundIsCounted(ps[..|ps| - 1], role, k);
    }
  }

  lemma {:induction false} RoomIsTotal(ps: seq<SourcePartition>)
    requires Count(ps, Windows) <= 1
    ensures Total(ps, Room) == WindowsRoom(ps) + TotalSize(DataDrafts(ps))
    decreases |ps|
  {
    hide RoundUp;
    if |ps| > 0 {
      var front, last := ps[..|ps| - 1], ps[|ps| - 1];
      RoomIsTotal(front);
      FindInFront(ps, Windows, 0);
      CountedIsFound(front, Windows);
      if last.role == Data {
        var draft := Draft(DataTarget, CopyContents, last.number, RoundUp(last.size));
        assert (DataDrafts(front) + [draft])[..|DataDrafts(front)|] == DataDrafts(front);
      } else {
        assert DataDrafts(front) + [] == DataDrafts(front);
      }
    } else {
      assert DataDrafts(ps) == [];
    }
  }

  // ---------- the recovery tools ----------

  predicate HasRecovery(request: Request, number: u32) {
    exists i :: 0 <= i < |request.sources| && request.sources[i].role == Recovery && request.sources[i].number == number
  }

  /** The recovery tools can be carried over: their state is known, and a registered partition is one of the sources. */
  predicate RecoveryKnown(request: Request) {
    request.requireRecovery ==>
      && (request.winReState == ImageAvailable || request.winReState == RegisteredPartition)
      && request.winReImageSize != 0
      && (request.winReState == RegisteredPartition ==> HasRecovery(request, request.registeredWinReNumber))
  }

  /** The registered recovery partition is big enough for the image and the space that is to stay free. */
  predicate KeptRecovery(request: Request, p: SourcePartition) {
    && request.requireRecovery && request.winReState == RegisteredPartition
    && p.role == Recovery && p.number == request.registeredWinReNumber
    && p.size >= NeededRecovery(request)
  }

  function RecoveryRoom(request: Request): nat {
    if !request.requireRecovery then 0
    else if exists i :: 0 <= i < |request.sources| && KeptRecovery(request, request.sources[i]) then
      Total(request.sources, (p: SourcePartition) => if KeptRecovery(request, p) then RoundUp(p.size) else 0)
    else NeededRecovery(request)
  }

  /** EFI and reserved partition, the rounded copies, and the recovery tools. */
  function SpaceNeeded(request: Request): nat {
    (if request.sectorSize == 4096 then 300 * MIB else 200 * MIB) + 16 * MIB
    + Total(request.sources, Room) + RecoveryRoom(request)
  }

  /** In an accepted source there is at most one partition of the role. */
  lemma {:induction false} OnlyOne(ps: seq<SourcePartition>, role: SourceRole, k: nat)
    requires Count(ps, role) <= 1 && k < |ps| && ps[k].role == role
    ensures Find(ps, role, 0) == k
    decreases |ps|
  {
    var front := ps[..|ps| - 1];
    FindInFront(ps, role, 0);
    if k < |front| {
      OnlyOne(front, role, k);
    } else {
      CountedIsFound(front, role);
    }
  }

  /** The partition of the role in the sorted list is the one among the sources. */
  lemma SameFound(sources: seq<SourcePartition>, ps: seq<SourcePartition>, role: SourceRole)
    requires multiset(ps) == multiset(sources) && Count(ps, role) <= 1
    ensures FindPartition(ps, role).Some? ==>
      FindPartition(ps, role).value in sources && FindPartition(ps, role).value.role == role
    ensures forall p :: p in sources && p.role == role ==> FindPartition(ps, role) == Some(p)
  {
    if FindPartition(ps, role).Some? {
      assert FindPartition(ps, role).value in multiset(ps);
    }
    forall p | p in sources && p.role == role ensures FindPartition(ps, role) == Some(p) {
      assert p in multiset(sources);
      var k :| 0 <= k < |ps| && ps[k] == p;
      OnlyOne(ps, role, k);
    }
  }

  lemma {:induction false} NoTotal(ps: seq<SourcePartition>, f: SourcePartition -> nat)
    requires forall i :: 0 <= i < |ps| ==> f(ps[i]) == 0
    ensures Total(ps, f) == 0
    decreases |ps|
  {
    if |ps| > 0 {
      NoTotal(ps[..|ps| - 1], f);
    }
  }

  lemma {:induction false} OneTotal(ps: seq<SourcePartition>, f: SourcePartition -> nat, k: nat)
    requires k < |ps| && forall i :: 0 <= i < |ps| && i != k ==> f(ps[i]) == 0
    ensures Total(ps, f) == f(ps[k])
    decreases |ps|
  {
    if k < |ps| - 1 {
      OneTotal(ps[..|ps| - 1], f, k);
    } else {
      NoTotal(ps[..|ps| - 1], f);
    }
  }

  lemma RecoveryIsKnown(request: Request, ps: seq<SourcePartition>)
    requires multiset(ps) == multiset(request.sources) && Count(ps, Recovery) <= 1
    ensures RecoveryFault(request, FindPartition(ps, Recovery)).None? <==> RecoveryKnown(request)
  {
    hide Count;
    SameFound(request.sources, ps, Recovery);
    var found := FindPartition(ps, Recovery);
    if found.Some? {
      var i :| 0 <= i < |request.sources| && request.sources[i] == found.value;
    }
  }

  lemma RecoveryTakes(request: Request, ps: seq<SourcePartition>)
    requires multiset(ps) == multiset(request.sources) && Count(ps, Recovery) <= 1 && AllSeparate(request.sources)
    requires RecoveryKnown(request)
    ensures TotalSize(RecoveryDrafts(request, FindPartition(ps, Recovery))) == RecoveryRoom(request)
  {
    hide Count, RoundUp, NeededRecovery, Separate;
    SameFound(request.sources, ps, Recovery);
    var found := FindPartition(ps, Recovery);
    OneDraft(RecoveryDrafts(request, found));
    var room := (p: SourcePartition) => if KeptRecovery(request, p) then RoundUp(p.size) else 0;
    if request.requireRecovery && Reuses(request, found) {
      var k :| 0 <= k < |request.sources| && request.sources[k] == found.value;
      assert KeptRecovery(request, request.sources[k]);
      forall i | 0 <= i < |request.sources| && i != k ensures room(request.sources[i]) == 0 {
        if KeptRecovery(request, request.sources[i]) {
          assert request.sources[i] in request.sources;
          TwiceNotSeparate(request.sources, i, k);
        }
      }
      OneTotal(request.sources, room, k);
    }
  }

  lemma TwiceNotSeparate(ps: seq<SourcePartition>, i: nat, k: nat)
    requires AllSeparate(ps) && i < |ps| && k < |ps| && i != k
    ensures ps[i] != ps[k]
  {
    assert Separate(ps[if i < k then i else k], ps[if i < k then k else i]);
  }

  /** The planner accepts exactly the sound sources whose recovery tools are known and for which there is room. */
  lemma RebuildAccepted(request: Request)
    ensures PlanRebuild(request).Ok? <==>
      && SupportedMedia(request) && SupportedPlatform(request)
      && AllFit(request.sources, request) && AllSeparate(request.sources) && RoleCounts(request.sources)
      && RecoveryKnown(request) && NeededRecovery(request) < U64_LIMIT
      && SpaceNeeded(request) <= Available(request)
  {
    hide AllFit, AllSeparate, SortedByOffset, RoleCounts, RecoveryKnown, NeededRecovery, PlanFor, SortByOffset, FirstFault,
         SupportedMedia, SupportedPlatform, SpaceNeeded, Available, Drafts, TotalSize, RecoveryFault, FindPartition;
    AcceptedSources(request);
    if ValidateAndSort(request).Ok? {
      var ps := ValidateAndSort(request).value;
      RecoveryDecides(request, ps);
      if RecoveryKnown(request) {
        SpaceDecides(request, ps);
      }
    }
  }

  lemma RecoveryDecides(request: Request, ps: seq<SourcePartition>)
    requires multiset(ps) == multiset(request.sources) && RoleCounts(ps)
    ensures Count(ps, Windows) == 1 && Find(ps, Windows, 0) < |ps|
    ensures RecoveryFault(request, FindPartition(ps, Recovery)).None? <==> RecoveryKnown(request)
  {
    WindowsPresent(ps);
    RecoveryIsKnown(request, ps);
  }

  lemma SpaceDecides(request: Request, ps: seq<SourcePartition>)
    requires multiset(ps) == multiset(request.sources) && RoleCounts(ps) && AllSeparate(request.sources)
    requires RecoveryKnown(request) && SupportedMedia(request) && Find(ps, Windows, 0) < |ps|
    ensures SpaceNeeded(request)
         == TotalSize(Drafts(request, ps, ps[Find(ps, Windows, 0)], FindPartition(ps, Recovery), 0))
    ensures Available(request) < U64_LIMIT
  {
    hide AllSeparate, RecoveryKnown, NeededRecovery, Drafts, TotalSize, FindPartition, RecoveryRoom, RoundUp, DataDrafts,
         RecoveryDrafts, Count;
    var windows, recovery := ps[Find(ps, Windows, 0)], FindPartition(ps, Recovery);
    ExpandedTotal(request, ps, windows, recovery, 0);
    RecoveryTakes(request, ps);
    RoomIsTotal(ps);
    TotalRearranged(ps, request.sources, Room);
  }

  // ---------- what the plan says ----------

  /** The sizes of the fixed partitions, and when the source's recovery partition is copied instead of a new one made. */
  lemma AcceptedSizes(request: Request)
    requires PlanRebuild(request).Ok?
    ensures var plan := PlanRebuild(request).value; var ps := plan.partitions;
      && |ps| >= 3
      && ps[0].size == (if request.sectorSize == 4096 then 300 * 1024 * 1024 else 200 * 1024 * 1024)
      && ps[1].size == 16 * 1024 * 1024
      && (request.requireRecovery ==>
            && |ps| >= 4
            && ps[3].size >= 990 * 1024 * 1024
            && ps[3].size >= request.winReImageSize + 250 * 1024 * 1024
            && (plan.recoveryCreated <==> ps[3].action == CreateAndStageWinRe)
            && (ps[3].action == CopyContents <==>
                  exists i :: 0 <= i < |request.sources| && KeptRecovery(request, request.sources[i]))
            && (ps[3].action == CopyContents ==> ps[3].sourceNumber == request.registeredWinReNumber)
            && (ps[3].action == CreateAndStageWinRe ==> ps[3].size == NeededRecovery(request)))
      && (!request.requireRecovery ==> !plan.recoveryCreated)
  {
    hide PlanRebuild, AllFit, SortedByOffset, Place, TotalSize, InPlaceCandidate, DataDrafts, SortByOffset, FirstFault,
         Find, FindPartition, Drafts, Count, RoundUp, AllSeparate, Available;
    var ps, windows, recovery, extra := PlanParts(request);
    AcceptedSources(request);
    RebuildAccepted(request);
    var drafts := Drafts(request, ps, windows, recovery, extra);
    FrontDrafts(request, ps, windows, recovery, extra);
    DraftCount(request, ps, windows, recovery, extra);
    PlaceElements(drafts, MIB, 0);
    PlaceElements(drafts, MIB, 1);
    SameFound(request.sources, ps, Recovery);
    if request.requireRecovery {
      PlaceElements(drafts, MIB, 3);
      RecoveryIsKnown(request, ps);
      RecoveryReused(request, recovery);
    }
  }

  lemma RecoveryReused(request: Request, recovery: Option<SourcePartition>)
    requires request.requireRecovery && RecoveryFault(request, recovery).None?
    requires recovery.Some? ==> recovery.value in request.sources && recovery.value.role == Recovery
    requires forall p :: p in request.sources && p.role == Recovery ==> recovery == Some(p)
    ensures Reuses(request, recovery) <==>
              exists i :: 0 <= i < |request.sources| && KeptRecovery(request, request.sources[i])
    ensures Reuses(request, recovery) ==> recovery.value.number == request.registeredWinReNumber
    ensures NeededRecovery(request) >= MINIMUM_RECOVERY
    ensures NeededRecovery(request) >= request.winReImageSize + RECOVERY_FREE
  {
    if Reuses(request, recovery) {
      var i :| 0 <= i < |request.sources| && request.sources[i] == recovery.value;
      assert KeptRecovery(request, request.sources[i]);
    }
    if i :| 0 <= i < |request.sources| && KeptRecovery(request, request.sources[i]) {
      assert request.sources[i] in request.sources;
    }
  }

  /** The recovery partition directly follows Windows on the source. */
  predicate FollowsWindows(sources: seq<SourcePartition>, w: SourcePartition, r: SourcePartition) {
    && w in sources && r in sources && w.role == Windows && r.role == Recovery && w.offset < r.offset
    && forall s :: s in sources ==> s.offset <= w.offset || r.offset <= s.offset
  }

  /** What the user is told: whether the old system partition goes, and whether the recovery partition moves. */
  lemma AcceptedNotes(request: Request)
    requires PlanRebuild(request).Ok?
    ensures var plan := PlanRebuild(request).value;
      && (plan.systemReplaced <==> exists s :: s in request.sources && s.role == SystemReserved)
      && (plan.recoveryOrderChanged <==>
            request.requireRecovery && !exists w, r :: FollowsWindows(request.sources, w, r))
  {
    hide PlanRebuild, Place, TotalSize, InPlaceCandidate, DataDrafts, SortByOffset, FirstFault, Drafts, Count, RoundUp,
         Available, Reuses, FollowsWindows;
    var ps, windows, recovery, extra := PlanParts(request);
    AcceptedSources(request);
    SameMembersIn(request.sources, ps);
    if s :| s in request.sources && s.role == SystemReserved {
      var i :| 0 <= i < |ps| && ps[i] == s;
    }
    AdjacentInOrder(request.sources, ps, request);
  }

  /** The source could be a case for conversion in place: few partitions, one active, and room at both ends. */
  predicate ConvertibleInPlace(request: Request) {
    && |request.sources| <= 3
    && (exists s :: s in request.sources && s.active)
    && (forall s, t :: s in request.sources && t in request.sources && s.active && t.active ==> s == t)
    && forall s :: s in request.sources ==>
         && (s.active ==> s.role == SystemReserved || s.role == Windows)
         && 16384 + 2 * request.sectorSize <= s.offset
         && s.offset + s.size + 16384 + request.sectorSize <= request.sourceSize
  }

  /** The preview of the plan tells exactly that. */
  lemma AcceptedPreview(request: Request)
    requires PlanRebuild(request).Ok?
    ensures PlanRebuild(request).value.inPlacePrecheck <==> ConvertibleInPlace(request)
  {
    hide PlanRebuild, Place, TotalSize, DataDrafts, SortByOffset, FirstFault, Drafts, RoundUp, Available, Reuses,
         InPlaceCandidate, ConvertibleInPlace, Find;
    var ps, windows, recovery, extra := PlanParts(request);
    AcceptedSources(request);
    SameSize(ps, request.sources);
    SameMembersIn(request.sources, ps);
    PreviewOfSorted(request, ps);
  }

  lemma PreviewOfSorted(request: Request, ps: seq<SourcePartition>)
    requires |ps| == |request.sources| >= 1 && forall s :: s in ps <==> s in request.sources
    requires SortedByOffset(ps) && AllSeparate(ps) && AllFit(ps, request) && SupportedPlatform(request)
    ensures InPlaceCandidate(request, ps) <==> ConvertibleInPlace(request)
  {
    hide NeedsNtfs;
    StrictlySorted(ps, request);
    EndsSorted(ps, request);
    forall i | 0 <= i < |ps| ensures ps[i] in request.sources && InRange(ps[i], request) && Rebuildable(ps[i]) {
      assert ps[i] in ps;
    }
    forall s | s in request.sources
      ensures exists i :: 0 <= i < |ps| && ps[i] == s
    {
      assert s in ps;
    }
  }

  /** In offset order no partition begins before the first or ends behind the last. */
  lemma EndsSorted(ps: seq<SourcePartition>, request: Request)
    requires |ps| > 0 && SortedByOffset(ps) && AllSeparate(ps) && AllFit(ps, request)
    ensures forall i :: 0 <= i < |ps| ==> ps[0].offset <= ps[i].offset && End(ps[i]) <= End(ps[|ps| - 1])
  {
    hide Rebuildable;
    StrictlySorted(ps, request);
    forall i | 0 <= i < |ps| ensures End(ps[i]) <= End(ps[|ps| - 1]) {
      if i < |ps| - 1 {
        assert Separate(ps[i], ps[|ps| - 1]) && InRange(ps[|ps| - 1], request);
      }
    }
  }

  lemma SameMembersIn(sources: seq<SourcePartition>, ps: seq<SourcePartition>)
    requires multiset(ps) == multiset(sources)
    ensures forall s :: s in ps <==> s in sources
  {
    forall s ensures s in ps <==> s in sources {
      assert s in ps <==> s in multiset(ps);
    }
  }

  lemma StrictlySorted(ps: seq<SourcePartition>, request: Request)
    requires SortedByOffset(ps) && AllSeparate(ps) && AllFit(ps, request)
    ensures forall i, j :: 0 <= i < j < |ps| ==> ps[i].offset < ps[j].offset
  {
    hide Rebuildable;
    forall i, j | 0 <= i < j < |ps| ensures ps[i].offset < ps[j].offset {
      assert Separate(ps[i], ps[j]) && InRange(ps[i], request) && InRange(ps[j], request);
    }
  }

  lemma NothingBetween(sources: seq<SourcePartition>, ps: seq<SourcePartition>, i: nat, j: nat)
    requires forall s :: s in ps <==> s in sources
    requires forall k, m :: 0 <= k < m < |ps| ==> ps[k].offset < ps[m].offset
    requires i < |ps| && j < |ps| && FollowsWindows(sources, ps[i], ps[j])
    ensures j == i + 1
  {
    assert i < j;
    var next := ps[i + 1];
    assert next in sources;
  }

  lemma AdjacentInOrder(sources: seq<SourcePartition>, ps: seq<SourcePartition>, request: Request)
    requires multiset(ps) == multiset(sources) && RoleCounts(ps)
    requires SortedByOffset(ps) && AllSeparate(ps) && AllFit(ps, request)
    ensures FindPartition(ps, Recovery).Some? && Find(ps, Recovery, 0) == Find(ps, Windows, 0) + 1 <==>
              exists w, r :: FollowsWindows(sources, w, r)
  {
    hide Count, AllSeparate, AllFit, SortedByOffset;
    SameMembersIn(sources, ps);
    StrictlySorted(ps, request);
    WindowsPresent(ps);
    var w, r := Find(ps, Windows, 0), Find(ps, Recovery, 0);
    if r < |ps| && r == w + 1 {
      forall s | s in sources ensures s.offset <= ps[w].offset || ps[r].offset <= s.offset {
        var k :| 0 <= k < |ps| && ps[k] == s;
      }
      assert FollowsWindows(sources, ps[w], ps[r]);
    }
    if p, q :| FollowsWindows(sources, p, q) {
      var i :| 0 <= i < |ps| && ps[i] == p;
      var j :| 0 <= j < |ps| && ps[j] == q;
      OnlyOne(ps, Windows, i);
      OnlyOne(ps, Recovery, j);
      NothingBetween(sources, ps, i, j);
    }
  }
}
