/**
 The review of the directories that were observed on an EFI system partition:
 which observations may become a removal plan, and what the plan lists.
 */
module EfiReview {
  import opened Bytes
  import opened Texts
  import opened TextOrder
  import opened Rearrangement
  import opened EfiManifest
  import opened EfiPaths

  const MAXIMUM_CANDIDATES: nat := 64
  const MAXIMUM_ENTRIES: nat := 4096

  /** One file or directory as it was read through its handle. */
  datatype Observed = Observed(entry: Entry, idValid: bool)

  datatype ObservedCandidate = ObservedCandidate(name: Text, entries: seq<Observed>)

  datatype OwnershipState = NotApplicable | MicrosoftOnlyOrEmpty | NonMicrosoftPresent | Ambiguous

  datatype Ownership = Ownership(
    state: OwnershipState,
    efiPresent: bool,
    fallbackPresent: bool,
    fallbackSigned: bool,
    nonMicrosoftEntries: u32,
    topLevelNamespaces: u32,
    bootNonstandard: u32,
    nonMicrosoftLoaders: u32)

  /** `identified` says that the disk and the partition passed their own checks. */
  datatype Observation = Observation(
    identified: bool,
    espLength: u64,
    espSerial: u64,
    ownership: Ownership,
    enumerationComplete: bool,
    candidates: seq<ObservedCandidate>)

  // ---------- the rules ----------

  predicate AllowsPreserving(o: Ownership) {
    && o.state == NonMicrosoftPresent && o.efiPresent
    && o.topLevelNamespaces != 0 && o.bootNonstandard == 0 && o.nonMicrosoftLoaders == 0
    && o.nonMicrosoftEntries == o.topLevelNamespaces
    && (o.fallbackPresent ==> o.fallbackSigned)
  }

  predicate HeaderSound(o: Observation) {
    && o.identified
    && 1 <= |o.candidates| <= MAXIMUM_CANDIDATES
    && o.enumerationComplete
    && AllowsPreserving(o.ownership)
    && o.ownership.topLevelNamespaces == |o.candidates|
  }

  predicate ValidEntry(o: Observed, name: Text, serial: u64, fold: Fold) {
    && SafePath(o.entry.path, fold) && UnderCandidate(o.entry.path, name)
    && (o.entry.kind == RegularFile || o.entry.kind == Directory)
    && o.idValid && o.entry.fileId != Zeros(16)
    && o.entry.serial == serial && o.entry.links == 1
    && (o.entry.hasSha <==> o.entry.kind == RegularFile)
    && (o.entry.kind == Directory ==> o.entry.sha == Zeros(32))
  }

  function EntryOf(o: Observed): Entry {
    o.entry
  }

  function PathOf(e: Entry): Text {
    e.path
  }

  /** The candidate itself is listed as a directory. */
  ghost predicate RootListed(entries: seq<Entry>, name: Text) {
    exists e :: e in entries && e.path == name && e.kind == Directory
  }

  ghost predicate ParentListed(path: Text, entries: seq<Entry>, fold: Fold) {
    && Parent(path).Some?
    && exists p :: p in entries && p.kind == Directory && SameText(p.path, Parent(path).value, fold)
  }

  ghost predicate ParentsListed(entries: seq<Entry>, name: Text, fold: Fold) {
    forall e :: e in entries && e.path != name ==> ParentListed(e.path, entries, fold)
  }

  ghost predicate TreeSound(entries: seq<Entry>, name: Text, fold: Fold) {
    DistinctKeys(entries, PathOf, fold) && RootListed(entries, name) && ParentsListed(entries, name, fold)
  }

  predicate EntriesValid(entries: seq<Observed>, name: Text, serial: u64, fold: Fold) {
    forall o :: o in entries ==> ValidEntry(o, name, serial, fold)
  }

  ghost predicate CandidateSound(c: ObservedCandidate, serial: u64, fold: Fold) {
    && SafeCandidateName(c.name, fold)
    && 0 < |c.entries| <= MAXIMUM_ENTRIES
    && EntriesValid(c.entries, c.name, serial, fold)
    && TreeSound(Mapped(c.entries, EntryOf), c.name, fold)
  }

  /** All entries of all candidates. */
  function Flat(cs: seq<ObservedCandidate>): seq<Observed>
    decreases |cs|
  {
    if |cs| == 0 then [] else Flat(cs[..|cs| - 1]) + cs[|cs| - 1].entries
  }

  function FileBytes(o: Observed): nat {
    if o.entry.kind == RegularFile then o.entry.size else 0
  }

  function IdOf(o: Observed): Text {
    o.entry.fileId
  }

  function Same(c: u16): u16 {
    c
  }

  /** Every file identifier occurs once. */
  predicate DistinctIds(entries: seq<Observed>) {
    DistinctKeys(entries, IdOf, Same)
  }

  function CandidateName(c: ObservedCandidate): Text {
    c.name
  }

  predicate TotalsSound(entries: seq<Observed>, length: u64) {
    |entries| <= MAXIMUM_ENTRIES && Total(entries, FileBytes) <= length && DistinctIds(entries)
  }

  ghost predicate CandidatesSound(cs: seq<ObservedCandidate>, serial: u64, length: u64, fold: Fold) {
    && (forall c :: c in cs ==> CandidateSound(c, serial, fold))
    && DistinctKeys(cs, CandidateName, fold)
    && TotalsSound(Flat(cs), length)
  }

  // ---------- the plan ----------

  function Normal(c: ObservedCandidate, fold: Fold): Candidate {
    Candidate(c.name, Sort(Mapped(c.entries, EntryOf), PathOf, fold))
  }

  function Normalizer(fold: Fold): ObservedCandidate -> Candidate {
    c => Normal(c, fold)
  }

  function NameOf(c: Candidate): Text {
    c.name
  }

  /** The candidates and their entries in the order of their folded names and paths. */
  function Canonical(cs: seq<ObservedCandidate>, fold: Fold): seq<Candidate> {
    Sort(Mapped(cs, Normalizer(fold)), NameOf, fold)
  }

  ghost predicate Reviewable(o: Observation, fold: Fold) {
    && HeaderSound(o)
    && CandidatesSound(o.candidates, o.espSerial, o.espLength, fold)
    && |Material(Canonical(o.candidates, fold))| <= MAXIMUM_MATERIAL
  }

  // ---------- the order of the observation does not matter ----------

  datatype Described = Described(name: Text, entries: multiset<Observed>)

  function Describe(c: ObservedCandidate): Described {
    Described(c.name, multiset(c.entries))
  }

  function NameDescribed(d: Described): Text {
    d.name
  }

  function EntriesDescribed(d: Described): multiset<Observed> {
    d.entries
  }

  /** The same candidates with the same entries, both in any order. */
  predicate Rearranged(a: seq<ObservedCandidate>, b: seq<ObservedCandidate>) {
    multiset(Mapped(a, Describe)) == multiset(Mapped(b, Describe))
  }

  lemma TreeIgnoresOrder(a: seq<Entry>, b: seq<Entry>, name: Text, fold: Fold)
    requires multiset(a) == multiset(b) && TreeSound(a, name, fold)
    ensures TreeSound(b, name, fold)
  {
    hide DistinctKeys, SameText, Parent;
    DistinctRearranged(a, b, PathOf, fold);
    var root :| root in a && root.path == name && root.kind == Directory;
    SameMembers(a, b, root);
    forall e | e in b && e.path != name ensures ParentListed(e.path, b, fold) {
      SameMembers(a, b, e);
      assert ParentListed(e.path, a, fold);
      var p :| p in a && p.kind == Directory && SameText(p.path, Parent(e.path).value, fold);
      SameMembers(a, b, p);
    }
  }

  lemma CandidateIgnoresOrder(c: ObservedCandidate, d: ObservedCandidate, serial: u64, fold: Fold)
    requires Describe(c) == Describe(d) && CandidateSound(c, serial, fold)
    ensures CandidateSound(d, serial, fold) && Normal(c, fold) == Normal(d, fold)
  {
    hide TreeSound, ValidEntry, SafeCandidateName, Sort;
    SameSize(c.entries, d.entries);
    MappedRearranged(c.entries, d.entries, EntryOf);
    TreeIgnoresOrder(Mapped(c.entries, EntryOf), Mapped(d.entries, EntryOf), c.name, fold);
    forall o | o in d.entries ensures ValidEntry(o, d.name, serial, fold) {
      SameMembers(c.entries, d.entries, o);
    }
    PathsDistinct(Mapped(c.entries, EntryOf), c.name, fold);
    SortIgnoresOrder(Mapped(c.entries, EntryOf), Mapped(d.entries, EntryOf), PathOf, fold);
  }

  lemma PathsDistinct(entries: seq<Entry>, name: Text, fold: Fold)
    requires TreeSound(entries, name, fold)
    ensures DistinctKeys(entries, PathOf, fold)
  {
  }

  /** Each candidate of one list has a twin in the other. */
  lemma TwinOf(a: seq<ObservedCandidate>, b: seq<ObservedCandidate>, d: ObservedCandidate)
    returns (c: ObservedCandidate)
    requires Rearranged(a, b) && d in b
    ensures c in a && Describe(c) == Describe(d)
  {
    var i :| 0 <= i < |b| && b[i] == d;
    assert Mapped(b, Describe)[i] in Mapped(b, Describe);
    SameMembers(Mapped(a, Describe), Mapped(b, Describe), Describe(d));
    var j :| 0 <= j < |a| && Mapped(a, Describe)[j] == Describe(d);
    c := a[j];
  }

  lemma NamesIgnoreOrder(a: seq<ObservedCandidate>, b: seq<ObservedCandidate>, fold: Fold)
    requires Rearranged(a, b) && DistinctKeys(a, CandidateName, fold)
    ensures DistinctKeys(b, CandidateName, fold)
  {
    hide SameText;
    var p, q := Mapped(a, Describe), Mapped(b, Describe);
    forall i, j | 0 <= i < j < |p| ensures !SameText(NameDescribed(p[i]), NameDescribed(p[j]), fold) {
      assert !SameText(CandidateName(a[i]), CandidateName(a[j]), fold);
    }
    DistinctRearranged(p, q, NameDescribed, fold);
    forall i, j | 0 <= i < j < |b| ensures !SameText(CandidateName(b[i]), CandidateName(b[j]), fold) {
      assert !SameText(NameDescribed(q[i]), NameDescribed(q[j]), fold);
    }
  }

  lemma {:induction false} FlatGathers(cs: seq<ObservedCandidate>)
    ensures multiset(Flat(cs)) == Gathered(Mapped(Mapped(cs, Describe), EntriesDescribed))
    decreases |cs|
  {
    if |cs| > 0 {
      var n := |cs| - 1;
      FlatGathers(cs[..n]);
      assert Mapped(Mapped(cs, Describe), EntriesDescribed)[..n] == Mapped(Mapped(cs[..n], Describe), EntriesDescribed);
    }
  }

  lemma FlatIgnoresOrder(a: seq<ObservedCandidate>, b: seq<ObservedCandidate>)
    requires Rearranged(a, b)
    ensures multiset(Flat(a)) == multiset(Flat(b))
  {
    FlatGathers(a);
    FlatGathers(b);
    MappedRearranged(Mapped(a, Describe), Mapped(b, Describe), EntriesDescribed);
    GatheredRearranged(Mapped(Mapped(a, Describe), EntriesDescribed), Mapped(Mapped(b, Describe), EntriesDescribed));
  }

  lemma TotalsIgnoreOrder(a: seq<Observed>, b: seq<Observed>, length: u64)
    requires multiset(a) == multiset(b) && TotalsSound(a, length)
    ensures TotalsSound(b, length)
  {
    SameSize(a, b);
    TotalRearranged(a, b, FileBytes);
    DistinctRearranged(a, b, IdOf, Same);
  }

  lemma RulesIgnoreOrder(a: seq<ObservedCandidate>, b: seq<ObservedCandidate>, serial: u64, length: u64, fold: Fold)
    requires Rearranged(a, b) && CandidatesSound(a, serial, length, fold)
    ensures CandidatesSound(b, serial, length, fold)
  {
    hide CandidateSound, TotalsSound, DistinctKeys, Rearranged;
    forall d | d in b ensures CandidateSound(d, serial, fold) {
      var c := TwinOf(a, b, d);
      CandidateIgnoresOrder(c, d, serial, fold);
    }
    NamesIgnoreOrder(a, b, fold);
    FlatIgnoresOrder(a, b);
    TotalsIgnoreOrder(Flat(a), Flat(b), length);
  }

  lemma {:induction false} NormalsIgnoreOrder(a: seq<ObservedCandidate>, b: seq<ObservedCandidate>, serial: u64,
                                              fold: Fold)
    requires Rearranged(a, b) && forall c :: c in a ==> CandidateSound(c, serial, fold)
    ensures multiset(Mapped(a, Normalizer(fold))) == multiset(Mapped(b, Normalizer(fold)))
    decreases |a|
  {
    hide CandidateSound, Normal;
    SameSize(Mapped(a, Describe), Mapped(b, Describe));
    var f := Normalizer(fold);
    if |a| > 0 {
      var n := |a| - 1;
      var j := LastOccurs(Mapped(a, Describe), Mapped(b, Describe));
      assert Mapped(a, Describe)[..n] == Mapped(a[..n], Describe);
      assert Without(Mapped(b, Describe), j) == Mapped(Without(b, j), Describe);
      NormalsIgnoreOrder(a[..n], Without(b, j), serial, fold);
      CandidateIgnoresOrder(a[n], b[j], serial, fold);
      MappedWithout(a, n, f);
      MappedWithout(b, j, f);
      assert Without(a, n) == a[..n];
    } else {
      assert Mapped(a, f) == Mapped(b, f);
    }
  }

  lemma NormalNamesDistinct(cs: seq<ObservedCandidate>, fold: Fold)
    requires DistinctKeys(cs, CandidateName, fold)
    ensures DistinctKeys(Mapped(cs, Normalizer(fold)), NameOf, fold)
  {
    hide SameText;
    var p := Mapped(cs, Normalizer(fold));
    forall i, j | 0 <= i < j < |p| ensures !SameText(NameOf(p[i]), NameOf(p[j]), fold) {
      assert !SameText(CandidateName(cs[i]), CandidateName(cs[j]), fold);
    }
  }

  /** Whatever order the candidates and entries were observed in: the same verdict, and the same plan. */
  lemma ReviewIgnoresOrder(o: Observation, p: Observation, fold: Fold)
    requires p == o.(candidates := p.candidates) && Rearranged(o.candidates, p.candidates) && Reviewable(o, fold)
    ensures Reviewable(p, fold) && Canonical(p.candidates, fold) == Canonical(o.candidates, fold)
  {
    hide CandidateSound, Normal, Material, TotalsSound, DistinctKeys, AllowsPreserving, Sort;
    var a, b := o.candidates, p.candidates;
    SameSize(Mapped(a, Describe), Mapped(b, Describe));
    RulesIgnoreOrder(a, b, o.espSerial, o.espLength, fold);
    NormalsIgnoreOrder(a, b, o.espSerial, fold);
    NormalNamesDistinct(a, fold);
    SortIgnoresOrder(Mapped(a, Normalizer(fold)), Mapped(b, Normalizer(fold)), NameOf, fold);
  }

  // ---------- every entry is reached from the candidate ----------

  /** Going from parent to parent, through directories that are listed, ends at the candidate itself. */
  ghost predicate ReachesRoot(path: Text, c: Candidate, fold: Fold)
    decreases |path|
  {
    || (path == c.name && exists e :: e in c.entries && e.path == c.name && e.kind == Directory)
    || (Parent(path).Some?
        && exists p: Entry :: p in c.entries && p.kind == Directory && |p.path| < |path|
                              && SameText(p.path, Parent(path).value, fold) && ReachesRoot(p.path, c, fold))
  }

  lemma {:induction false} EntryReachesRoot(e: Entry, c: Candidate, fold: Fold)
    requires TreeSound(c.entries, c.name, fold) && e in c.entries
    ensures ReachesRoot(e.path, c, fold)
    decreases |e.path|
  {
    hide DistinctKeys;
    if e.path != c.name {
      assert ParentListed(e.path, c.entries, fold);
      var p :| p in c.entries && p.kind == Directory && SameText(p.path, Parent(e.path).value, fold);
      assert |p.path| == |Parent(e.path).value| < |e.path|;
      EntryReachesRoot(p, c, fold);
    }
  }

  lemma NormalIsSound(c: ObservedCandidate, serial: u64, fold: Fold)
    requires CandidateSound(c, serial, fold)
    ensures TreeSound(Normal(c, fold).entries, c.name, fold)
  {
    hide TreeSound, ValidEntry, SafeCandidateName;
    TreeIgnoresOrder(Mapped(c.entries, EntryOf), Normal(c, fold).entries, c.name, fold);
  }

  /** What a plan lists: exactly the observed entries of each observed candidate, each reachable from its root. */
  lemma PlanListsTheTrees(o: Observation, fold: Fold)
    requires Reviewable(o, fold)
    ensures var plan := Canonical(o.candidates, fold);
      && multiset(plan) == multiset(Mapped(o.candidates, Normalizer(fold)))
      && (forall c, e :: c in plan && e in c.entries ==> ReachesRoot(e.path, c, fold))
      && StrictlySorted(plan, NameOf, fold)
      && (forall c :: c in plan ==> StrictlySorted(c.entries, PathOf, fold))
  {
    hide CandidateSound, Material, TotalsSound, DistinctKeys, AllowsPreserving, Sort, StrictlySorted, TreeSound,
         ReachesRoot;
    var plan := Canonical(o.candidates, fold);
    var normals := Mapped(o.candidates, Normalizer(fold));
    forall c | c in plan
      ensures TreeSound(c.entries, c.name, fold) && StrictlySorted(c.entries, PathOf, fold)
    {
      SameMembers(plan, normals, c);
      var i :| 0 <= i < |normals| && normals[i] == c;
      NormalIsSound(o.candidates[i], o.espSerial, fold);
      CandidatePathsDistinct(o.candidates[i], o.espSerial, fold);
      SortSorts(Mapped(o.candidates[i].entries, EntryOf), PathOf, fold);
    }
    forall c, e | c in plan && e in c.entries ensures ReachesRoot(e.path, c, fold) {
      EntryReachesRoot(e, c, fold);
    }
    NormalNamesDistinct(o.candidates, fold);
    SortSorts(normals, NameOf, fold);
  }

  lemma CandidatePathsDistinct(c: ObservedCandidate, serial: u64, fold: Fold)
    requires CandidateSound(c, serial, fold)
    ensures DistinctKeys(Mapped(c.entries, EntryOf), PathOf, fold)
  {
  }

  // ---------- what a plan never touches ----------

  /** Nothing that is named like one of these is part of a plan. */
  predicate Protected(name: Text, fold: Fold) {
    || SameText(name, Wide("Microsoft"), fold)
    || SameText(name, Wide("Boot"), fold)
    || SameText(name, Wide("EFI"), fold)
    || SameText(name, Wide("YTEC-EFI-REMOVE-QUARANTINE-V1"), fold)
  }

  /** A name that stays inside its directory: no separator, drive or wildcard, no dot or blank at its ends, not too long. */
  predicate StaysInside(name: Text) {
    && 1 <= |name| <= 128
    && name[0] !in {0x2E, 0x20} && name[|name| - 1] !in {0x2E, 0x20}
    && forall i :: 0 <= i < |name| ==> Ordinary(name[i])
  }

  lemma SafeStaysInside(segment: Text, fold: Fold)
    requires SafeSegment(segment, fold)
    ensures StaysInside(segment) && SEPARATOR !in segment
  {
    hide Reserved, Forbidden;
    forall i | 0 <= i < |segment| ensures Ordinary(segment[i]) {
      ForbiddenExactly(segment[i]);
    }
  }

  lemma FirstSegment(path: Text, name: Text)
    requires UnderCandidate(path, name) && SEPARATOR !in name
    ensures Segments(path)[0] == name
  {
    var cut := Find(path, SEPARATOR);
    if path != name {
      assert path[..|name| + 1] == name + [SEPARATOR];
      assert path[|name|] == SEPARATOR;
    }
    assert forall i :: 0 <= i < |name| ==> path[i] == name[i];
    assert path[..cut] == name;
  }

  /**
   Every path of a plan lies under its candidate, which is none of the protected directories, and no name in it
   leads anywhere else. A fallback loader is there only if it is signed, and nothing else of the boot directory or of
   another loader is in doubt; the plan has one candidate for every foreign directory.
   */
  lemma PlanSparesTheRest(o: Observation, c: Candidate, e: Entry, fold: Fold)
    requires Reviewable(o, fold) && c in Canonical(o.candidates, fold) && e in c.entries
    ensures Segments(e.path)[0] == c.name && !Protected(c.name, fold)
    ensures |e.path| <= 1024 && |Segments(e.path)| <= 9 && forall i :: 0 <= i < |Segments(e.path)| ==> StaysInside(Segments(e.path)[i])
    ensures e.kind == RegularFile || e.kind == Directory
    ensures e.serial == o.espSerial && e.links == 1 && e.fileId != Zeros(16)
    ensures (e.hasSha <==> e.kind == RegularFile) && (e.kind == Directory ==> e.sha == Zeros(32))
    ensures |Canonical(o.candidates, fold)| == o.ownership.nonMicrosoftEntries
    ensures o.ownership.fallbackPresent ==> o.ownership.fallbackSigned
    ensures o.ownership.bootNonstandard == 0 && o.ownership.nonMicrosoftLoaders == 0
  {
    hide TreeSound, Material, TotalsSound, DistinctKeys, Sort, SameText, StaysInside, Segments, SafeSegment,
         UnderCandidate;
    var plan, normals := Canonical(o.candidates, fold), Mapped(o.candidates, Normalizer(fold));
    SameSize(plan, normals);
    SameMembers(plan, normals, c);
    var j :| 0 <= j < |normals| && normals[j] == c;
    var entries := Mapped(o.candidates[j].entries, EntryOf);
    SameMembers(c.entries, entries, e);
    var k :| 0 <= k < |entries| && entries[k] == e;
    assert CandidateSound(o.candidates[j], o.espSerial, fold);
    assert ValidEntry(o.candidates[j].entries[k], c.name, o.espSerial, fold);
    SafeStaysInside(c.name, fold);
    FirstSegment(e.path, c.name);
    forall i | 0 <= i < |Segments(e.path)| ensures StaysInside(Segments(e.path)[i]) {
      SafeStaysInside(Segments(e.path)[i], fold);
    }
  }

  /** The bounds of a reviewed observation, and that every object in it was identified and occurs once. */
  lemma ReviewedBounds(o: Observation, fold: Fold)
    requires Reviewable(o, fold)
    ensures o.identified && o.enumerationComplete && 1 <= |o.candidates| <= 64
    ensures o.ownership.state == NonMicrosoftPresent && o.ownership.efiPresent
    ensures |Flat(o.candidates)| <= 4096 && Total(Flat(o.candidates), FileBytes) <= o.espLength
    ensures forall c, x :: c in o.candidates && x in c.entries ==> x.idValid
    ensures forall i, j :: 0 <= i < j < |Flat(o.candidates)| ==>
      Flat(o.candidates)[i].entry.fileId != Flat(o.candidates)[j].entry.fileId
  {
    hide TreeSound, Material, Canonical, SafeCandidateName, SafePath;
    var flat := Flat(o.candidates);
    forall i, j | 0 <= i < j < |flat| ensures flat[i].entry.fileId != flat[j].entry.fileId {
      assert !SameText(IdOf(flat[i]), IdOf(flat[j]), Same);
    }
    forall c, x | c in o.candidates && x in c.entries ensures x.idValid {
      assert CandidateSound(c, o.espSerial, fold);
      assert ValidEntry(x, c.name, o.espSerial, fold);
    }
  }

  // ---------- a plan that is accepted ----------

  /** One foreign directory with nothing in it. */
  function EmptyDirectory(length: u64, serial: u64, fileId: FileId): Observation {
    var name := Wide("grubx");
    var entry := Entry(Directory, name, serial, fileId, 0, 0, 0, 0, 0, 1, Zeros(32), false);
    Observation(true, length, serial, Ownership(NonMicrosoftPresent, true, false, false, 1, 1, 0, 0), true,
                [ObservedCandidate(name, [Observed(entry, true)])])
  }

  /** Whatever the locale's lower-casing does, a plan for one empty directory is accepted. */
  lemma EmptyDirectoryAccepted(length: u64, serial: u64, fileId: FileId, fold: Fold)
    requires fileId != Zeros(16)
    ensures Reviewable(EmptyDirectory(length, serial, fileId), fold)
  {
    hide Sort, Material, DistinctKeys, Total, SafeCandidateName, SafePath;
    var o := EmptyDirectory(length, serial, fileId);
    PlainName(fold);
    AloneIsDistinct(o.candidates, CandidateName, fold);
    var entry := o.candidates[0].entries[0].entry;
    assert Mapped(o.candidates[0].entries, EntryOf) == [entry];
    AloneIsDistinct([entry], PathOf, fold);
    assert o.candidates[..0] == [] && Flat([]) == [] && Flat(o.candidates) == o.candidates[0].entries;
    AloneIsDistinct(o.candidates[0].entries, IdOf, Same);
    NoFileBytes(o.candidates[0].entries);
    SmallMaterial(o, entry, fold);
  }

  lemma PlainName(fold: Fold)
    ensures SafeCandidateName(Wide("grubx"), fold) && SafePath(Wide("grubx"), fold)
  {
    hide Forbidden, Find, ReservedBase, Wide;
    PlainCharacters();
    var name := Wide("grubx");
    PlainFinds(name);
    assert name[..5] == name;
    NotReserved(Folded(name, fold));
  }

  lemma PlainCharacters()
    ensures Wide("grubx") == [0x67, 0x72, 0x75, 0x62, 0x78]
    ensures forall i :: 0 <= i < 5 ==> !Forbidden(Wide("grubx")[i])
  {
    var name := Wide("grubx");
    forall i | 0 <= i < |name| ensures !Forbidden(name[i]) {
      assert forall k :: 0 <= k < 9 ==> Wide("<>:\"/\\|?*")[k] != name[i];
    }
  }

  lemma PlainFinds(name: Text)
    requires name == [0x67, 0x72, 0x75, 0x62, 0x78]
    ensures Find(name, DOT) == 5 && Find(name, SEPARATOR) == 5 && Segments(name) == [name]
  {
  }

  lemma NotReserved(base: Text)
    requires |base| == 5
    ensures !ReservedBase(base)
  {
  }

  lemma AloneIsDistinct<T>(xs: seq<T>, key: T -> Text, fold: Fold)
    requires |xs| == 1
    ensures DistinctKeys(xs, key, fold)
  {
  }

  lemma NoFileBytes(entries: seq<Observed>)
    requires |entries| == 1 && entries[0].entry.kind == Directory
    ensures Total(entries, FileBytes) == 0
  {
    assert entries[..0] == [] && Total(entries[..0], FileBytes) == 0;
  }

  lemma SmallMaterial(o: Observation, entry: Entry, fold: Fold)
    requires |o.candidates| == 1 && |o.candidates[0].entries| == 1 && o.candidates[0].entries[0].entry == entry
    requires |o.candidates[0].name| == |entry.path| == 5
    ensures |Material(Canonical(o.candidates, fold))| <= MAXIMUM_MATERIAL
  {
    hide EntryBytes;
    var normals := Mapped(o.candidates, Normalizer(fold));
    var plan := Canonical(o.candidates, fold);
    SameSize(plan, normals);
    SameMembers(plan, normals, plan[0]);
    var c := plan[0];
    assert c == Normal(o.candidates[0], fold);
    SameSize(c.entries, Mapped(o.candidates[0].entries, EntryOf));
    SameMembers(c.entries, Mapped(o.candidates[0].entries, EntryOf), c.entries[0]);
    assert c.entries == [entry] && plan == [c];
    assert [c][..0] == [] && [entry][..0] == [];
    assert CandidatesBytes([c]) == [] + CandidateBytes(c);
    assert EntriesBytes([entry]) == [] + EntryBytes(entry);
    OneEntryLength(entry);
  }

  lemma OneEntryLength(e: Entry)
    ensures |EntryBytes(e)| == 106 + 2 * |e.path|
  {
  }

  // ---------- the digest tells plans apart ----------

  lemma PlanIsEncodable(o: Observation, fold: Fold)
    requires Reviewable(o, fold)
    ensures Encodable(Canonical(o.candidates, fold))
  {
    hide TreeSound, Material, TotalsSound, DistinctKeys, AllowsPreserving, Sort, Reserved, Segments, SafeSegments,
         UnderCandidate, ReservedBase, Forbidden, ParentsListed;
    var plan, normals := Canonical(o.candidates, fold), Mapped(o.candidates, Normalizer(fold));
    SameSize(plan, normals);
    forall i | 0 <= i < |plan| ensures EncodableCandidate(plan[i]) {
      SameMembers(plan, normals, plan[i]);
      var j :| 0 <= j < |normals| && normals[j] == plan[i];
      NormalIsEncodable(o.candidates[j], o.espSerial, fold);
    }
  }

  lemma NormalIsEncodable(c: ObservedCandidate, serial: u64, fold: Fold)
    requires CandidateSound(c, serial, fold)
    ensures EncodableCandidate(Normal(c, fold))
  {
    hide TreeSound, Sort, Reserved, Segments, SafeSegments, UnderCandidate, ReservedBase, Forbidden;
    var sorted, entries := Normal(c, fold).entries, Mapped(c.entries, EntryOf);
    SameSize(sorted, entries);
    forall i | 0 <= i < |sorted| ensures |sorted[i].path| < U32_LIMIT {
      SameMembers(sorted, entries, sorted[i]);
      var j :| 0 <= j < |entries| && entries[j] == sorted[i];
      assert ValidEntry(c.entries[j], c.name, serial, fold);
    }
  }

  /** Two accepted observations whose digests are taken of the same bytes have the same plan. */
  lemma SameMaterialSamePlan(o: Observation, p: Observation, fold: Fold)
    requires Reviewable(o, fold) && Reviewable(p, fold)
    requires Material(Canonical(o.candidates, fold)) == Material(Canonical(p.candidates, fold))
    ensures Canonical(o.candidates, fold) == Canonical(p.candidates, fold)
  {
    hide HeaderSound, CandidatesSound, Material, Canonical, Encodable;
    PlanIsEncodable(o, fold);
    PlanIsEncodable(p, fold);
    MaterialIsUnique(Canonical(o.candidates, fold), Canonical(p.candidates, fold));
  }
}
