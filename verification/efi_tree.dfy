/**
 A candidate directory as it lies on the file system, what a scan lists of it,
 and how a manifest made by a scan covers the tree directory by directory.
 */
module EfiTree {
  import opened Bytes
  import opened Results
  import opened Texts
  import opened TextOrder
  import opened Rearrangement
  import opened EfiManifest
  import opened EfiPaths
  import opened EfiReview

  /** What the file system tells about an open object. */
  datatype Facts = Facts(
    serial: u64,
    fileId: FileId,
    size: u64,
    creation: u64,
    lastAccess: u64,
    lastWrite: u64,
    change: u64,
    links: u32,
    sha: Digest)

  /** A file or directory; `id` tells the objects of the file system apart. The children are in listing order. */
  datatype Node = Node(id: nat, name: Text, directory: bool, reparse: bool, facts: Facts, children: seq<Node>)

  function ChildPath(path: Text, name: Text): (r: Text)
    ensures |r| == |path| + 1 + |name| && path + [SEPARATOR] <= r && r[|path| + 1..] == name
  {
    path + [SEPARATOR] + name
  }

  /** The object as a manifest entry. */
  function EntryAt(n: Node, path: Text): Entry {
    var f := n.facts;
    Entry(if n.directory then Directory else RegularFile, path, f.serial, f.fileId, f.size, f.creation, f.lastAccess,
          f.lastWrite, f.change, f.links, if n.directory then Zeros(32) else f.sha, !n.directory)
  }

  /** An object that is described by an entry agrees with it in kind and in every fact; a directory has no digest. */
  lemma EntryDescribes(n: Node, e: Entry)
    ensures EntryAt(n, e.path) == e <==>
      && e.kind == (if n.directory then Directory else RegularFile)
      && e.serial == n.facts.serial && e.fileId == n.facts.fileId && e.size == n.facts.size
      && e.creation == n.facts.creation && e.lastAccess == n.facts.lastAccess && e.lastWrite == n.facts.lastWrite
      && e.change == n.facts.change && e.links == n.facts.links
      && (n.directory ==> !e.hasSha && e.sha == Zeros(32))
      && (!n.directory ==> e.hasSha && e.sha == n.facts.sha)
  {
  }

  // ---------- the objects of a tree ----------

  function Ids(n: Node): set<nat>
    decreases n
  {
    {n.id} + IdsAll(n.children)
  }

  function IdsAll(ns: seq<Node>): set<nat>
    decreases ns
  {
    if |ns| == 0 then {} else IdsAll(ns[..|ns| - 1]) + Ids(ns[|ns| - 1])
  }

  /** As on FAT32: every object once, and no directory holds two names that differ by case only. */
  predicate WellFormed(n: Node, fold: Fold)
    decreases n
  {
    && n.id !in IdsAll(n.children)
    && WellFormedAll(n.children, fold)
    && (n.directory || |n.children| == 0)
  }

  predicate WellFormedAll(ns: seq<Node>, fold: Fold)
    decreases ns
  {
    |ns| == 0
    || (var front, last := ns[..|ns| - 1], ns[|ns| - 1];
        && WellFormedAll(front, fold) && WellFormed(last, fold)
        && Ids(last) !! IdsAll(front)
        && |last.name| > 0 && SEPARATOR !in last.name
        && forall i :: 0 <= i < |front| ==> !SameText(front[i].name, last.name, fold))
  }

  predicate SafeName(name: Text) {
    && 0 < |name| <= MAXIMUM_NAME && name != Wide(".") && name != Wide("..")
    && forall i :: 0 <= i < |name| ==> name[i] != SPACE && !Forbidden(name[i])
  }

  /** Regular objects only: single links, nothing redirected, and directories that can be listed. */
  predicate Plain(n: Node)
    decreases n
  {
    !n.reparse && n.facts.links == 1 && |n.children| <= MAXIMUM_ENTRIES && PlainAll(n.children)
  }

  predicate PlainAll(ns: seq<Node>)
    decreases ns
  {
    |ns| == 0 || (PlainAll(ns[..|ns| - 1]) && Plain(ns[|ns| - 1]) && SafeName(ns[|ns| - 1].name))
  }

  // ---------- scanning ----------

  /** The entries of a tree, each directory before what is in it. */
  function Scan(n: Node, path: Text): seq<Entry>
    decreases n
  {
    [EntryAt(n, path)] + ScanAll(n.children, path)
  }

  function ScanAll(ns: seq<Node>, path: Text): seq<Entry>
    decreases ns
  {
    if |ns| == 0 then []
    else ScanAll(ns[..|ns| - 1], path) + Scan(ns[|ns| - 1], ChildPath(path, ns[|ns| - 1].name))
  }

  // ---------- members of a list of children ----------

  lemma {:induction false} ChildFacts(ns: seq<Node>, i: nat, fold: Fold)
    requires i < |ns| && WellFormedAll(ns, fold)
    ensures WellFormed(ns[i], fold) && |ns[i].name| > 0 && SEPARATOR !in ns[i].name
    ensures Ids(ns[i]) <= IdsAll(ns) && Ids(ns[i]) !! IdsAll(ns[..i])
    ensures PlainAll(ns) ==> Plain(ns[i]) && SafeName(ns[i].name)
    decreases |ns|
  {
    hide SafeName;
    var n := |ns| - 1;
    if i < n {
      ChildFacts(ns[..n], i, fold);
      assert ns[..n][..i] == ns[..i];
    } else {
      assert ns[..n] == ns[..i];
    }
  }

  lemma {:induction false} NamesDiffer(ns: seq<Node>, i: nat, j: nat, fold: Fold)
    requires i < j < |ns| && WellFormedAll(ns, fold)
    ensures !SameText(ns[i].name, ns[j].name, fold)
    decreases |ns|
  {
    if j < |ns| - 1 {
      NamesDiffer(ns[..|ns| - 1], i, j, fold);
    }
  }

  // ---------- entries below a directory ----------

  predicate Under(path: Text, directory: Text) {
    directory + [SEPARATOR] <= path
  }

  function UnderOf(entries: seq<Entry>, directory: Text): seq<Entry>
    decreases |entries|
  {
    if |entries| == 0 then []
    else
      var last := entries[|entries| - 1];
      UnderOf(entries[..|entries| - 1], directory) + (if Under(last.path, directory) then [last] else [])
  }

  lemma {:induction false} UnderJoin(a: seq<Entry>, b: seq<Entry>, directory: Text)
    ensures UnderOf(a + b, directory) == UnderOf(a, directory) + UnderOf(b, directory)
    decreases |b|
  {
    hide Under;
    if |b| > 0 {
      UnderJoin(a, b[..|b| - 1], directory);
      assert (a + b)[..|a + b| - 1] == a + b[..|b| - 1];
    } else {
      assert a + b == a;
    }
  }

  predicate AllUnder(entries: seq<Entry>, directory: Text) {
    forall e :: e in entries ==> Under(e.path, directory)
  }

  predicate NoneUnder(entries: seq<Entry>, directory: Text) {
    forall e :: e in entries ==> !Under(e.path, directory)
  }

  lemma {:induction false} UnderAll(entries: seq<Entry>, directory: Text)
    requires AllUnder(entries, directory)
    ensures UnderOf(entries, directory) == entries
    decreases |entries|
  {
    hide Under;
    if |entries| > 0 {
      var n := |entries| - 1;
      assert entries[n] in entries;
      UnderAll(entries[..n], directory);
      assert entries == entries[..n] + [entries[n]];
    }
  }

  lemma {:induction false} UnderNone(entries: seq<Entry>, directory: Text)
    requires NoneUnder(entries, directory)
    ensures UnderOf(entries, directory) == []
    decreases |entries|
  {
    hide Under;
    if |entries| > 0 {
      var n := |entries| - 1;
      assert entries[n] in entries;
      UnderNone(entries[..n], directory);
    }
  }

  lemma {:induction false} UnderIn(entries: seq<Entry>, directory: Text, e: Entry)
    ensures e in UnderOf(entries, directory) <==> e in entries && Under(e.path, directory)
    decreases |entries|
  {
    hide Under;
    if |entries| > 0 {
      var n := |entries| - 1;
      UnderIn(entries[..n], directory, e);
      assert e in entries <==> e in entries[..n] || e == entries[n];
    }
  }

  lemma {:induction false} UnderTwice(entries: seq<Entry>, directory: Text, child: Text)
    requires Under(child, directory)
    ensures UnderOf(UnderOf(entries, directory), child) == UnderOf(entries, child)
    decreases |entries|
  {
    hide Under;
    if |entries| > 0 {
      var n := |entries| - 1;
      var last := entries[n];
      UnderTwice(entries[..n], directory, child);
      UnderJoin(UnderOf(entries[..n], directory), if Under(last.path, directory) then [last] else [], child);
      UnderChain(last.path, child, directory);
      assert [last][..0] == [];
    }
  }

  lemma UnderChain(path: Text, child: Text, directory: Text)
    requires Under(child, directory)
    ensures Under(path, child) ==> Under(path, directory)
  {
  }

  lemma UnderWithout(entries: seq<Entry>, j: nat, directory: Text)
    requires j < |entries|
    ensures multiset(UnderOf(entries, directory))
         == multiset(UnderOf(Without(entries, j), directory))
            + (if Under(entries[j].path, directory) then multiset{entries[j]} else multiset{})
  {
    hide Under;
    assert entries == entries[..j] + ([entries[j]] + entries[j + 1..]);
    UnderJoin(entries[..j], [entries[j]] + entries[j + 1..], directory);
    UnderJoin([entries[j]], entries[j + 1..], directory);
    UnderJoin(entries[..j], entries[j + 1..], directory);
    assert [entries[j]][..0] == [];
  }

  lemma {:induction false} UnderRearranged(a: seq<Entry>, b: seq<Entry>, directory: Text)
    requires multiset(a) == multiset(b)
    ensures multiset(UnderOf(a, directory)) == multiset(UnderOf(b, directory))
    decreases |a|
  {
    hide Under, UnderOf, Without;
    SameSize(a, b);
    if |a| > 0 {
      var j := LastOccurs(a, b);
      UnderRearranged(a[..|a| - 1], Without(b, j), directory);
      UnderWithout(b, j, directory);
      UnderWithout(a, |a| - 1, directory);
      WithoutLast(a);
    } else {
      assert a == b;
    }
  }

  // ---------- where a scan's paths lie ----------

  lemma {:induction false} ScanPaths(n: Node, path: Text, e: Entry)
    requires e in Scan(n, path)
    ensures e.path == path || Under(e.path, path)
    decreases n
  {
    hide Under;
    if e != EntryAt(n, path) {
      assert e in ScanAll(n.children, path);
      ScanAllPaths(n.children, path, e);
    }
  }

  lemma {:induction false} ScanAllPaths(ns: seq<Node>, path: Text, e: Entry)
    requires e in ScanAll(ns, path)
    ensures Under(e.path, path)
    decreases ns
  {
    var n := |ns| - 1;
    if e in ScanAll(ns[..n], path) {
      ScanAllPaths(ns[..n], path, e);
    } else {
      ScanPaths(ns[n], ChildPath(path, ns[n].name), e);
      UnderChain(e.path, ChildPath(path, ns[n].name), path);
    }
  }

  lemma ChildrenAllUnder(ns: seq<Node>, path: Text)
    ensures AllUnder(ScanAll(ns, path), path)
  {
    forall e | e in ScanAll(ns, path) ensures Under(e.path, path) {
      ScanAllPaths(ns, path, e);
    }
  }

  function FirstName(path: Text): Text {
    path[..Find(path, SEPARATOR)]
  }

  /** A path at or below a child starts with the child's name. */
  lemma StartsWithName(path: Text, name: Text, p: Text)
    requires SEPARATOR !in name && (p == ChildPath(path, name) || Under(p, ChildPath(path, name)))
    ensures |p| > |path| && FirstName(p[|path| + 1..]) == name
  {
    var rest, n := p[|path| + 1..], |name|;
    if p == ChildPath(path, name) {
      assert rest == name;
    } else {
      assert p[|path| + 1 + n] == SEPARATOR;
      assert rest[..n] == name && rest[n] == SEPARATOR;
    }
    assert rest[..n] == name;
    forall k | 0 <= k < n ensures rest[k] != SEPARATOR {
      assert rest[k] == name[k];
    }
    assert n < |rest| ==> rest[n] == SEPARATOR;
  }

  /** Two names without separators: a path below one child is not below the other. */
  lemma SiblingsApart(path: Text, a: Text, b: Text, p: Text)
    requires SEPARATOR !in a && SEPARATOR !in b && a != b
    requires p == ChildPath(path, a) || Under(p, ChildPath(path, a))
    ensures !Under(p, ChildPath(path, b))
  {
    hide Under, ChildPath;
    StartsWithName(path, a, p);
    if Under(p, ChildPath(path, b)) {
      StartsWithName(path, b, p);
    }
  }

  lemma SiblingScanApart(n: Node, path: Text, other: Text)
    requires SEPARATOR !in n.name && SEPARATOR !in other && n.name != other
    ensures NoneUnder(Scan(n, ChildPath(path, n.name)), ChildPath(path, other))
  {
    hide Under, ChildPath, Scan;
    forall e | e in Scan(n, ChildPath(path, n.name)) ensures !Under(e.path, ChildPath(path, other)) {
      ScanPaths(n, ChildPath(path, n.name), e);
      SiblingsApart(path, n.name, other, e.path);
    }
  }

  lemma OwnScanUnder(n: Node, path: Text)
    ensures UnderOf(Scan(n, path), path) == ScanAll(n.children, path)
  {
    UnderJoin([EntryAt(n, path)], ScanAll(n.children, path), path);
    UnderNone([EntryAt(n, path)], path);
    ChildrenAllUnder(n.children, path);
    UnderAll(ScanAll(n.children, path), path);
  }

  lemma {:induction false} NoneOfSiblings(ns: seq<Node>, path: Text, other: Text)
    requires SEPARATOR !in other
    requires forall i :: 0 <= i < |ns| ==> SEPARATOR !in ns[i].name && ns[i].name != other
    ensures UnderOf(ScanAll(ns, path), ChildPath(path, other)) == []
    decreases |ns|
  {
    hide Under, ChildPath, Scan;
    if |ns| > 0 {
      var n := |ns| - 1;
      NoneOfSiblings(ns[..n], path, other);
      SiblingScanApart(ns[n], path, other);
      UnderNone(Scan(ns[n], ChildPath(path, ns[n].name)), ChildPath(path, other));
      UnderJoin(ScanAll(ns[..n], path), Scan(ns[n], ChildPath(path, ns[n].name)), ChildPath(path, other));
    }
  }

  /** Of a directory's scan, what is below one child is that child's scan. */
  lemma {:induction false} ScanBelowChild(ns: seq<Node>, i: nat, path: Text, fold: Fold)
    requires i < |ns| && WellFormedAll(ns, fold)
    ensures UnderOf(ScanAll(ns, path), ChildPath(path, ns[i].name))
         == ScanAll(ns[i].children, ChildPath(path, ns[i].name))
    decreases |ns|
  {
    hide Under, ChildPath, Scan, SameText, WellFormed;
    var n := |ns| - 1;
    var q := ChildPath(path, ns[i].name);
    UnderJoin(ScanAll(ns[..n], path), Scan(ns[n], ChildPath(path, ns[n].name)), q);
    ChildFacts(ns, i, fold);
    if i < n {
      ScanBelowChild(ns[..n], i, path, fold);
      ChildFacts(ns, n, fold);
      NamesDiffer(ns, i, n, fold);
      DifferentNames(ns[i].name, ns[n].name, fold);
      SiblingScanApart(ns[n], path, ns[i].name);
      UnderNone(Scan(ns[n], ChildPath(path, ns[n].name)), q);
    } else {
      forall j | 0 <= j < n ensures SEPARATOR !in ns[j].name && ns[j].name != ns[n].name {
        ChildFacts(ns, j, fold);
        NamesDiffer(ns, j, n, fold);
        DifferentNames(ns[j].name, ns[n].name, fold);
      }
      NoneOfSiblings(ns[..n], path, ns[n].name);
      OwnScanUnder(ns[n], q);
    }
  }

  lemma DifferentNames(a: Text, b: Text, fold: Fold)
    requires !SameText(a, b, fold)
    ensures a != b
  {
  }

  lemma {:induction false} ChildListed(ns: seq<Node>, i: nat, path: Text)
    requires i < |ns|
    ensures EntryAt(ns[i], ChildPath(path, ns[i].name)) in ScanAll(ns, path)
    decreases |ns|
  {
    if i < |ns| - 1 {
      ChildListed(ns[..|ns| - 1], i, path);
    }
  }

  // ---------- counting direct children ----------

  predicate Direct(path: Text, directory: Text) {
    Under(path, directory) && SEPARATOR !in path[|directory| + 1..]
  }

  function DirectWeight(directory: Text): Entry -> nat {
    (e: Entry) => if Direct(e.path, directory) then 1 else 0
  }

  function DirectCount(entries: seq<Entry>, directory: Text): nat {
    Total(entries, DirectWeight(directory))
  }

  lemma {:induction false} DirectJoin(a: seq<Entry>, b: seq<Entry>, directory: Text)
    ensures DirectCount(a + b, directory) == DirectCount(a, directory) + DirectCount(b, directory)
    decreases |b|
  {
    hide Direct;
    if |b| > 0 {
      DirectJoin(a, b[..|b| - 1], directory);
      assert (a + b)[..|a + b| - 1] == a + b[..|b| - 1];
    } else {
      assert a + b == a;
    }
  }

  lemma {:induction false} DirectAreUnder(entries: seq<Entry>, directory: Text)
    ensures DirectCount(entries, directory) == DirectCount(UnderOf(entries, directory), directory)
    decreases |entries|
  {
    hide Under;
    if |entries| > 0 {
      var n := |entries| - 1;
      DirectAreUnder(entries[..n], directory);
      var last := if Under(entries[n].path, directory) then [entries[n]] else [];
      DirectJoin(UnderOf(entries[..n], directory), last, directory);
      assert [entries[n]][..0] == [];
    }
  }

  lemma {:induction false} DeeperNotDirect(entries: seq<Entry>, path: Text, name: Text)
    requires AllUnder(entries, ChildPath(path, name))
    ensures DirectCount(entries, path) == 0
    decreases |entries|
  {
    if |entries| > 0 {
      var n := |entries| - 1;
      assert entries[n] in entries;
      var p := entries[n].path;
      assert Under(p, ChildPath(path, name));
      assert p[|path| + 1 + |name|] == SEPARATOR;
      assert p[|path| + 1..][|name|] == SEPARATOR;
      DeeperNotDirect(entries[..n], path, name);
    }
  }

  lemma {:induction false} ScanCountsChildren(ns: seq<Node>, path: Text, fold: Fold)
    requires WellFormedAll(ns, fold)
    ensures DirectCount(ScanAll(ns, path), path) == |ns|
    decreases |ns|
  {
    hide Under, WellFormed, SameText, DirectCount;
    if |ns| > 0 {
      var n := |ns| - 1;
      var q := ChildPath(path, ns[n].name);
      ScanCountsChildren(ns[..n], path, fold);
      DirectJoin(ScanAll(ns[..n], path), Scan(ns[n], q), path);
      DirectJoin([EntryAt(ns[n], q)], ScanAll(ns[n].children, q), path);
      ChildrenAllUnder(ns[n].children, q);
      DeeperNotDirect(ScanAll(ns[n].children, q), path, ns[n].name);
      OwnEntryDirect(ns[n], path);
    } else {
      NothingDirect(path);
    }
  }

  lemma NothingDirect(path: Text)
    ensures DirectCount([], path) == 0
  {
  }

  lemma OwnEntryDirect(n: Node, path: Text)
    requires SEPARATOR !in n.name
    ensures DirectCount([EntryAt(n, ChildPath(path, n.name))], path) == 1
  {
    var e := EntryAt(n, ChildPath(path, n.name));
    assert Direct(e.path, path);
    assert [e][..0] == [];
    assert Total([e], DirectWeight(path)) == Total([e][..0], DirectWeight(path)) + DirectWeight(path)(e);
  }

  // ---------- a manifest that covers a tree exactly ----------

  /** The entry of a path, names compared without regard to case. */
  function FindEntry(entries: seq<Entry>, path: Text, fold: Fold): (r: Option<Entry>)
    ensures r.Some? ==> r.value in entries && SameText(r.value.path, path, fold)
    ensures r.None? ==> forall e :: e in entries ==> !SameText(e.path, path, fold)
  {
    if |entries| == 0 then None
    else if SameText(entries[0].path, path, fold) then Some(entries[0])
    else FindEntry(entries[1..], path, fold)
  }

  lemma FindsTheEntry(entries: seq<Entry>, e: Entry, fold: Fold)
    requires DistinctKeys(entries, PathOf, fold) && e in entries
    ensures FindEntry(entries, e.path, fold) == Some(e)
  {
    hide DistinctKeys;
    var r := FindEntry(entries, e.path, fold);
    assert SameText(e.path, e.path, fold);
    var i :| 0 <= i < |entries| && entries[i] == r.value;
    var j :| 0 <= j < |entries| && entries[j] == e;
    SamePlace(entries, i, j, fold);
  }

  lemma SamePlace(entries: seq<Entry>, i: nat, j: nat, fold: Fold)
    requires DistinctKeys(entries, PathOf, fold) && i < |entries| && j < |entries|
    requires SameText(PathOf(entries[i]), PathOf(entries[j]), fold)
    ensures i == j
  {
    SymmetricText(PathOf(entries[i]), PathOf(entries[j]), fold);
  }

  /** Below `path` the manifest lists the tree and nothing else. */
  ghost predicate Exact(entries: seq<Entry>, n: Node, path: Text, fold: Fold) {
    && DistinctKeys(entries, PathOf, fold)
    && EntryAt(n, path) in entries
    && multiset(UnderOf(entries, path)) == multiset(ScanAll(n.children, path))
    && Plain(n)
  }

  /** A manifest made by scanning the tree covers it, in whatever order it lists the entries. */
  lemma ScannedIsExact(entries: seq<Entry>, n: Node, path: Text, fold: Fold)
    requires multiset(entries) == multiset(Scan(n, path)) && DistinctKeys(entries, PathOf, fold) && Plain(n)
    ensures Exact(entries, n, path, fold)
  {
    hide DistinctKeys, Plain, UnderOf;
    UnderRearranged(entries, Scan(n, path), path);
    OwnScanUnder(n, path);
    SameMembers(entries, Scan(n, path), EntryAt(n, path));
  }

  /** What the review makes of a scanned tree covers that tree. */
  lemma ReviewedScanIsExact(o: ObservedCandidate, n: Node, serial: u64, fold: Fold)
    requires CandidateSound(o, serial, fold) && Mapped(o.entries, EntryOf) == Scan(n, o.name) && Plain(n)
    ensures Exact(Normal(o, fold).entries, n, o.name, fold)
  {
    hide Exact, Plain, DistinctKeys, Sort, TreeSound;
    NormalIsSound(o, serial, fold);
    PathsDistinct(Normal(o, fold).entries, o.name, fold);
    ScannedIsExact(Normal(o, fold).entries, n, o.name, fold);
  }

  /** Then it covers every directory below, and says how many children each has. */
  lemma ExactBelow(entries: seq<Entry>, n: Node, path: Text, i: nat, fold: Fold)
    requires Exact(entries, n, path, fold) && WellFormed(n, fold) && i < |n.children|
    ensures Exact(entries, n.children[i], ChildPath(path, n.children[i].name), fold)
  {
    hide DistinctKeys, UnderOf, WellFormedAll, PlainAll, ScanAll;
    var c := n.children[i];
    var q := ChildPath(path, c.name);
    ChildFacts(n.children, i, fold);
    ChildListed(n.children, i, path);
    SameMembers(UnderOf(entries, path), ScanAll(n.children, path), EntryAt(c, q));
    UnderIn(entries, path, EntryAt(c, q));
    UnderTwice(entries, path, q);
    UnderRearranged(UnderOf(entries, path), ScanAll(n.children, path), q);
    ScanBelowChild(n.children, i, path, fold);
  }

  lemma ExactCount(entries: seq<Entry>, n: Node, path: Text, fold: Fold)
    requires Exact(entries, n, path, fold) && WellFormed(n, fold)
    ensures DirectCount(entries, path) == |n.children|
  {
    hide DistinctKeys, UnderOf, WellFormedAll, PlainAll, ScanAll;
    DirectAreUnder(entries, path);
    TotalRearranged(UnderOf(entries, path), ScanAll(n.children, path), DirectWeight(path));
    ScanCountsChildren(n.children, path, fold);
  }

  // ---------- what may be removed ----------

  /** A manifest entry has the object's path and describes it in every respect. */
  ghost predicate Matches(n: Node, path: Text, entries: seq<Entry>, fold: Fold) {
    exists e :: e in entries && SameText(e.path, path, fold) && EntryAt(n, e.path) == e
  }

  /** The objects of a tree that match a manifest entry. */
  ghost function LicensedIds(n: Node, path: Text, entries: seq<Entry>, fold: Fold): set<nat>
    decreases n
  {
    (if Matches(n, path, entries, fold) then {n.id} else {}) + LicensedAll(n.children, path, entries, fold)
  }

  ghost function LicensedAll(ns: seq<Node>, path: Text, entries: seq<Entry>, fold: Fold): set<nat>
    decreases ns
  {
    if |ns| == 0 then {}
    else
      LicensedAll(ns[..|ns| - 1], path, entries, fold)
      + LicensedIds(ns[|ns| - 1], ChildPath(path, ns[|ns| - 1].name), entries, fold)
  }

  lemma {:induction false} LicensedChild(ns: seq<Node>, i: nat, path: Text, entries: seq<Entry>, fold: Fold)
    requires i < |ns|
    ensures LicensedIds(ns[i], ChildPath(path, ns[i].name), entries, fold) <= LicensedAll(ns, path, entries, fold)
    decreases |ns|
  {
    hide LicensedIds;
    if i < |ns| - 1 {
      LicensedChild(ns[..|ns| - 1], i, path, entries, fold);
    }
  }

  /** The object `x` lies at `q` in the tree that starts with `n` at `path`. */
  ghost predicate LiesAt(x: Node, q: Text, n: Node, path: Text)
    decreases n
  {
    (x == n && q == path)
    || exists i :: 0 <= i < |n.children| && LiesAt(x, q, n.children[i], ChildPath(path, n.children[i].name))
  }

  /** Only objects of the tree are licensed, and each of them matches an entry at its own path. */
  lemma {:induction false} LicensedMatches(n: Node, path: Text, entries: seq<Entry>, fold: Fold, id: nat)
    returns (x: Node, q: Text)
    requires id in LicensedIds(n, path, entries, fold)
    ensures x.id == id && LiesAt(x, q, n, path) && Matches(x, q, entries, fold) && id in Ids(n)
    decreases n
  {
    hide Matches;
    if id in LicensedAll(n.children, path, entries, fold) {
      var i;
      i, x, q := LicensedInList(n.children, path, entries, fold, id);
    } else {
      x, q := n, path;
    }
  }

  lemma {:induction false} LicensedInList(ns: seq<Node>, path: Text, entries: seq<Entry>, fold: Fold, id: nat)
    returns (i: nat, x: Node, q: Text)
    requires id in LicensedAll(ns, path, entries, fold)
    ensures i < |ns| && x.id == id && LiesAt(x, q, ns[i], ChildPath(path, ns[i].name))
    ensures Matches(x, q, entries, fold) && id in IdsAll(ns)
    decreases ns
  {
    hide Matches, LiesAt;
    var n := |ns| - 1;
    if id in LicensedAll(ns[..n], path, entries, fold) {
      i, x, q := LicensedInList(ns[..n], path, entries, fold, id);
    } else {
      i := n;
      x, q := LicensedMatches(ns[n], ChildPath(path, ns[n].name), entries, fold, id);
    }
  }

  /** A scan lists as many entries as there are objects. */
  lemma {:induction false} ScanCountsObjects(n: Node, path: Text, fold: Fold)
    requires WellFormed(n, fold)
    ensures |Scan(n, path)| == |Ids(n)|
    decreases n
  {
    ScanAllCountsObjects(n.children, path, fold);
  }

  lemma {:induction false} ScanAllCountsObjects(ns: seq<Node>, path: Text, fold: Fold)
    requires WellFormedAll(ns, fold)
    ensures |ScanAll(ns, path)| == |IdsAll(ns)|
    decreases ns
  {
    hide SameText;
    if |ns| > 0 {
      var n := |ns| - 1;
      ScanAllCountsObjects(ns[..n], path, fold);
      ScanCountsObjects(ns[n], ChildPath(path, ns[n].name), fold);
    }
  }
}
