/**
 Scanning a tree and deleting it against a manifest. The file system may refuse
 any call; it answers truthfully otherwise, and nobody else changes the tree.
 */
module EfiTreeRun {
  import opened Results
  import opened Texts
  import opened TextOrder
  import opened Rearrangement
  import opened EfiManifest
  import opened EfiPaths
  import opened EfiReview
  import opened EfiTree

  /** The nodes that are still there. */
  function Present(ns: seq<Node>, removed: set<nat>): seq<Node>
    decreases |ns|
  {
    if |ns| == 0 then []
    else
      var last := ns[|ns| - 1];
      Present(ns[..|ns| - 1], removed) + (if last.id in removed then [] else [last])
  }

  lemma OwnId(n: Node)
    ensures n.id in Ids(n)
  {
  }

  lemma {:induction false} NonePresent(ns: seq<Node>, removed: set<nat>)
    requires IdsAll(ns) <= removed
    ensures Present(ns, removed) == []
    decreases |ns|
  {
    hide Ids;
    if |ns| > 0 {
      NonePresent(ns[..|ns| - 1], removed);
      OwnId(ns[|ns| - 1]);
    }
  }

  lemma {:induction false} UntouchedChildren(ns: seq<Node>, removed: set<nat>)
    requires IdsAll(ns) !! removed
    ensures Present(ns, removed) == ns
    decreases |ns|
  {
    hide Ids;
    if |ns| > 0 {
      var front, last := ns[..|ns| - 1], ns[|ns| - 1];
      OwnId(last);
      assert last.id !in removed;
      UntouchedChildren(front, removed);
      assert ns == front + [last];
    }
  }

  predicate Listable(ns: seq<Node>) {
    |ns| <= MAXIMUM_ENTRIES && forall i :: 0 <= i < |ns| ==> |ns[i].name| <= MAXIMUM_NAME
  }

  /** What a query through an open handle accepts. */
  predicate Regular(n: Node, directory: bool) {
    n.directory == directory && !n.reparse && n.facts.links == 1
  }

  // ---------- the file system ----------

  /** `faults` says which of the next calls are refused; `faulted` remembers whether one was. */
  class FileSystem {
    const fold: Fold
    var removed: set<nat>
    var faults: seq<bool>
    var faulted: bool

    constructor (fold: Fold, faults: seq<bool>)
      ensures this.fold == fold && removed == {} && this.faults == faults && !faulted
    {
      this.fold, removed, this.faults, faulted := fold, {}, faults, false;
    }

    method Refused() returns (refused: bool)
      modifies this`faults, this`faulted
      ensures faulted == (old(faulted) || refused)
    {
      refused := |faults| > 0 && faults[0];
      if |faults| > 0 {
        faults := faults[1..];
      }
      faulted := faulted || refused;
    }

    method Enumerate(n: Node) returns (r: Option<seq<Node>>)
      modifies this`faults, this`faulted
      ensures old(faulted) ==> faulted
      ensures r.Some? ==> r.value == Present(n.children, removed) && Listable(r.value)
      ensures r.None? ==> faulted || !Listable(Present(n.children, removed))
    {
      var refused := Refused();
      var children := Present(n.children, removed);
      if refused || !Listable(children) {
        return None;
      }
      return Some(children);
    }

    method Query(n: Node, directory: bool) returns (r: Option<Facts>)
      modifies this`faults, this`faulted
      ensures old(faulted) ==> faulted
      ensures r.Some? ==> r.value == n.facts && Regular(n, directory) && n.id !in removed
      ensures r.None? ==> faulted || !Regular(n, directory) || n.id in removed
    {
      var refused := Refused();
      if refused || !Regular(n, directory) || n.id in removed {
        return None;
      }
      return Some(n.facts);
    }

    method Hash(n: Node) returns (r: Option<Digest>)
      modifies this`faults, this`faulted
      ensures old(faulted) ==> faulted
      ensures r.Some? ==> r.value == n.facts.sha
      ensures r.None? ==> faulted
    {
      var refused := Refused();
      return if refused then None else Some(n.facts.sha);
    }

    /** Opens the first child with that name, upper and lower case being the same. */
    method Open(n: Node, name: Text, directory: bool) returns (r: Option<Node>)
      modifies this`faults, this`faulted
      ensures old(faulted) ==> faulted
      ensures r.Some? ==> exists i :: 0 <= i < |n.children| && r.value == n.children[i]
                            && SameText(n.children[i].name, name, fold) && r.value.directory == directory
                            && r.value.id !in removed
      ensures r.None? ==>
                || faulted || !(0 < |name| <= MAXIMUM_NAME)
                || (exists i :: 0 <= i < |n.children| && SameText(n.children[i].name, name, fold)
                                && n.children[i].directory != directory)
                || forall i :: 0 <= i < |n.children| && n.children[i].id !in removed
                               ==> !SameText(n.children[i].name, name, fold)
    {
      if !(0 < |name| <= MAXIMUM_NAME) {
        return None;
      }
      var refused := Refused();
      if refused {
        return None;
      }
      for k := 0 to |n.children|
        invariant forall i :: 0 <= i < k && n.children[i].id !in removed ==> !SameText(n.children[i].name, name, fold)
      {
        var child := n.children[k];
        if child.id !in removed && SameText(child.name, name, fold) {
          return if child.directory == directory then Some(child) else None;
        }
      }
      return None;
    }

    /** Marks an object for deletion; it is gone when its handle is closed. Directories must be empty by then. */
    method Mark(n: Node) returns (ok: bool)
      requires Present(n.children, removed) == []
      modifies this
      ensures old(faulted) ==> faulted
      ensures removed == if ok then old(removed) + {n.id} else old(removed)
      ensures !ok ==> faulted
    {
      var refused := Refused();
      if refused {
        return false;
      }
      removed := removed + {n.id};
      return true;
    }
  }

  // ---------- scanning ----------

  /** What a scan accepts within its bounds; `count` entries were listed before. */
  predicate Scannable(n: Node, path: Text, depth: nat, count: nat)
    decreases n
  {
    && depth <= MAXIMUM_DEPTH && |path| <= MAXIMUM_PATH && count < MAXIMUM_ENTRIES
    && Regular(n, n.directory)
    && (n.directory ==> Listable(n.children) && ScannableAll(n.children, path, depth + 1, count + 1))
  }

  predicate ScannableAll(ns: seq<Node>, path: Text, depth: nat, count: nat)
    decreases ns
  {
    |ns| == 0
    || (var front, last := ns[..|ns| - 1], ns[|ns| - 1];
        && ScannableAll(front, path, depth, count)
        && SafeName(last.name)
        && Scannable(last, ChildPath(path, last.name), depth, count + |ScanAll(front, path)|))
  }

  lemma {:induction false} ScannableIsPlain(n: Node, path: Text, depth: nat, count: nat, fold: Fold)
    requires Scannable(n, path, depth, count) && WellFormed(n, fold)
    ensures Plain(n)
    decreases n
  {
    if n.directory {
      AllScannableArePlain(n.children, path, depth + 1, count + 1, fold);
    }
  }

  lemma {:induction false} AllScannableArePlain(ns: seq<Node>, path: Text, depth: nat, count: nat, fold: Fold)
    requires ScannableAll(ns, path, depth, count) && WellFormedAll(ns, fold)
    ensures PlainAll(ns)
    decreases ns
  {
    hide SafeName, SameText;
    if |ns| > 0 {
      var n := |ns| - 1;
      AllScannableArePlain(ns[..n], path, depth, count, fold);
      ScannableIsPlain(ns[n], ChildPath(path, ns[n].name), depth, count + |ScanAll(ns[..n], path)|, fold);
    }
  }

  lemma {:induction false} ScannablePrefix(ns: seq<Node>, k: nat, path: Text, depth: nat, count: nat)
    requires k <= |ns| && ScannableAll(ns, path, depth, count)
    ensures ScannableAll(ns[..k], path, depth, count)
    decreases |ns|
  {
    hide SafeName, Scannable;
    if k < |ns| {
      ScannablePrefix(ns[..|ns| - 1], k, path, depth, count);
      assert ns[..|ns| - 1][..k] == ns[..k];
    } else {
      assert ns[..k] == ns;
    }
  }

  predicate SameCensus(a: seq<Node>, b: seq<Node>, fold: Fold) {
    && |a| == |b|
    && forall i :: 0 <= i < |a| ==>
         SameText(a[i].name, b[i].name, fold) && a[i].directory == b[i].directory && a[i].reparse == b[i].reparse
  }

  /** Lists the tree; unless a call was refused, it succeeds exactly within the bounds. */
  method ScanTree(fs: FileSystem, n: Node, path: Text, depth: nat, entries: seq<Entry>) returns (r: Option<seq<Entry>>)
    requires WellFormed(n, fs.fold) && Ids(n) !! fs.removed
    modifies fs`faults, fs`faulted
    ensures old(fs.faulted) ==> fs.faulted
    ensures r.Some? ==> r.value == entries + Scan(n, path) && Scannable(n, path, depth, |entries|)
    ensures r.None? ==> fs.faulted || !Scannable(n, path, depth, |entries|)
    decreases n, 1
  {
    hide WellFormedAll, ScannableAll, ScanAll, SafeName, Regular, Listable;
    if depth > MAXIMUM_DEPTH || |path| > MAXIMUM_PATH || |entries| >= MAXIMUM_ENTRIES {
      return None;
    }
    RegularWhen(n);
    assert n.id in Ids(n);
    var facts := fs.Query(n, n.directory);
    if facts.None? {
      return None;
    }
    var listed := entries + [EntryAt(n, path)];
    if n.directory {
      var inner := ScanChildren(fs, n, path, depth, listed);
      if inner.None? {
        return None;
      }
      listed := inner.value;
    } else {
      var digest := fs.Hash(n);
      if digest.None? {
        return None;
      }
      ScanOfNothing(path);
    }
    var after := fs.Query(n, n.directory);
    if after.None? || after.value != facts.value {
      return None;
    }
    assert entries + [EntryAt(n, path)] + ScanAll(n.children, path) == entries + Scan(n, path);
    return Some(listed);
  }

  lemma RegularWhen(n: Node)
    ensures Regular(n, n.directory) <==> !n.reparse && n.facts.links == 1
  {
  }

  lemma ScanOfNothing(path: Text)
    ensures ScanAll([], path) == []
  {
  }

  method ScanChildren(fs: FileSystem, n: Node, path: Text, depth: nat, entries: seq<Entry>)
    returns (r: Option<seq<Entry>>)
    requires WellFormed(n, fs.fold) && Ids(n) !! fs.removed
    modifies fs`faults, fs`faulted
    ensures old(fs.faulted) ==> fs.faulted
    ensures r.Some? ==> r.value == entries + ScanAll(n.children, path)
                        && Listable(n.children) && ScannableAll(n.children, path, depth + 1, |entries|)
    ensures r.None? ==> fs.faulted || !Listable(n.children) || !ScannableAll(n.children, path, depth + 1, |entries|)
    decreases n, 0
  {
    hide WellFormedAll, ScannableAll, ScanAll, Scan, Scannable, SafeName, Listable, SameText, Present, IdsAll;
    UntouchedChildren(n.children, fs.removed);
    var children := fs.Enumerate(n);
    if children.None? {
      return None;
    }
    var listed := entries;
    NothingListed(n.children, path, depth, entries);
    for k := 0 to |n.children|
      invariant old(fs.faulted) ==> fs.faulted
      invariant listed == entries + ScanAll(n.children[..k], path)
      invariant ScannableAll(n.children[..k], path, depth + 1, |entries|)
    {
      var child := n.children[k];
      ChildFacts(n.children, k, fs.fold);
      OneMoreChild(n.children, k, path, depth, entries);
      if !SafeName(child.name) || child.reparse {
        return None;
      }
      var handle := fs.Open(n, child.name, child.directory);
      if handle.None? {
        OpensItself(n.children, k, fs.fold, fs.removed);
        return None;
      }
      OpenedIsChild(n.children, k, handle.value, fs.fold);
      var more := ScanTree(fs, handle.value, ChildPath(path, child.name), depth + 1, listed);
      if more.None? {
        return None;
      }
      listed := more.value;
    }
    assert n.children[..|n.children|] == n.children;
    var after := fs.Enumerate(n);
    if after.None? || !SameCensus(children.value, after.value, fs.fold) {
      CensusOfItself(n.children, fs.fold);
      return None;
    }
    return Some(listed);
  }

  lemma CensusOfItself(ns: seq<Node>, fold: Fold)
    ensures SameCensus(ns, ns, fold)
  {
  }

  lemma NothingListed(ns: seq<Node>, path: Text, depth: nat, entries: seq<Entry>)
    ensures entries == entries + ScanAll(ns[..0], path) && ScannableAll(ns[..0], path, depth + 1, |entries|)
  {
  }

  /** The next child: what it adds to the list, and what the scan of all children demands of it. */
  lemma OneMoreChild(ns: seq<Node>, k: nat, path: Text, depth: nat, entries: seq<Entry>)
    requires k < |ns|
    ensures var listed, q := entries + ScanAll(ns[..k], path), ChildPath(path, ns[k].name);
      && listed + Scan(ns[k], q) == entries + ScanAll(ns[..k + 1], path)
      && (ScannableAll(ns[..k], path, depth + 1, |entries|) && SafeName(ns[k].name)
          && Scannable(ns[k], q, depth + 1, |listed|)
          ==> ScannableAll(ns[..k + 1], path, depth + 1, |entries|))
      && (ScannableAll(ns, path, depth + 1, |entries|) ==>
            SafeName(ns[k].name) && !ns[k].reparse && Scannable(ns[k], q, depth + 1, |listed|))
  {
    hide Scan, SafeName, Listable;
    assert ns[..k + 1][..k] == ns[..k];
    if ScannableAll(ns, path, depth + 1, |entries|) {
      ScannablePrefix(ns, k + 1, path, depth + 1, |entries|);
    }
  }

  /** Names differ by more than case, so that the name opens the child itself. */
  lemma OpenedIsChild(ns: seq<Node>, k: nat, handle: Node, fold: Fold)
    requires k < |ns| && WellFormedAll(ns, fold)
    requires exists i :: 0 <= i < |ns| && handle == ns[i] && SameText(ns[i].name, ns[k].name, fold)
    ensures handle == ns[k]
  {
    hide WellFormedAll, SameText;
    var i :| 0 <= i < |ns| && handle == ns[i] && SameText(ns[i].name, ns[k].name, fold);
    SymmetricText(ns[i].name, ns[k].name, fold);
    if i < k {
      NamesDiffer(ns, i, k, fold);
    } else if k < i {
      NamesDiffer(ns, k, i, fold);
    }
  }

  lemma OpensItself(ns: seq<Node>, k: nat, fold: Fold, removed: set<nat>)
    requires k < |ns| && WellFormedAll(ns, fold) && SafeName(ns[k].name) && Ids(ns[k]) !! removed
    ensures 0 < |ns[k].name| <= MAXIMUM_NAME
    ensures !(exists i :: 0 <= i < |ns| && SameText(ns[i].name, ns[k].name, fold)
                          && ns[i].directory != ns[k].directory)
    ensures !(forall i :: 0 <= i < |ns| && ns[i].id !in removed ==> !SameText(ns[i].name, ns[k].name, fold))
  {
    hide WellFormedAll, Forbidden;
    forall i | 0 <= i < |ns| && SameText(ns[i].name, ns[k].name, fold) ensures ns[i].directory == ns[k].directory {
      OpenedIsChild(ns, k, ns[i], fold);
    }
    assert ns[k].id in Ids(ns[k]);
    assert SameText(ns[k].name, ns[k].name, fold);
  }

  // ---------- deleting against a manifest ----------

  /** Accepts an open object only if it is exactly what the entry describes. */
  method VerifyOpened(fs: FileSystem, n: Node, directory: bool, expected: Entry) returns (ok: bool)
    modifies fs`faults, fs`faulted
    ensures old(fs.faulted) ==> fs.faulted
    ensures ok ==> n.directory == directory && EntryAt(n, expected.path) == expected
    ensures !ok ==> fs.faulted || !Regular(n, directory) || n.id in fs.removed || EntryAt(n, expected.path) != expected
  {
    var facts := fs.Query(n, directory);
    if facts.None? {
      return false;
    }
    if !directory {
      var digest := fs.Hash(n);
      if digest.None? {
        return false;
      }
      var after := fs.Query(n, false);
      if after.None? || after.value != facts.value {
        return false;
      }
    }
    return EntryAt(n, expected.path) == expected;
  }

  method CountDirect(entries: seq<Entry>, directory: Text) returns (count: nat)
    ensures count == DirectCount(entries, directory)
  {
    count := 0;
    for k := 0 to |entries|
      invariant count == DirectCount(entries[..k], directory)
    {
      assert entries[..k + 1][..k] == entries[..k];
      if Under(entries[k].path, directory) && SEPARATOR !in entries[k].path[|directory| + 1..] {
        count := count + 1;
      }
    }
    assert entries[..|entries|] == entries;
  }

  lemma ExactRoot(entries: seq<Entry>, n: Node, path: Text, fold: Fold)
    requires Exact(entries, n, path, fold)
    ensures FindEntry(entries, path, fold) == Some(EntryAt(n, path)) && Regular(n, n.directory)
  {
    hide DistinctKeys, PlainAll, UnderOf, FindEntry;
    FindsTheEntry(entries, EntryAt(n, path), fold);
  }

  lemma VerifiedIsLicensed(n: Node, path: Text, entries: seq<Entry>, e: Entry, fold: Fold)
    requires e in entries && SameText(e.path, path, fold) && EntryAt(n, e.path) == e
    ensures n.id in LicensedIds(n, path, entries, fold)
  {
  }

  lemma LicensedBelow(n: Node, path: Text, entries: seq<Entry>, fold: Fold)
    ensures LicensedAll(n.children, path, entries, fold) <= LicensedIds(n, path, entries, fold)
  {
  }

  /**
   Deletes a directory from the inside out. Whatever the manifest says and whichever call is refused: only objects
   that match a manifest entry are removed. On success all of the directory is removed. With a manifest that covers
   the directory exactly, only a refused call can make it fail.
   */
  method DeleteTree(fs: FileSystem, n: Node, c: Candidate, path: Text, deleteRoot: bool) returns (ok: bool)
    requires WellFormed(n, fs.fold) && Ids(n) !! fs.removed
    modifies fs
    ensures old(fs.removed) <= fs.removed <= old(fs.removed) + LicensedIds(n, path, c.entries, fs.fold)
    ensures ok ==> fs.removed == old(fs.removed) + (if deleteRoot then Ids(n) else IdsAll(n.children))
    ensures old(fs.faulted) ==> fs.faulted
    ensures n.directory && Exact(c.entries, n, path, fs.fold) ==> ok || fs.faulted
    decreases n, 2
  {
    hide WellFormed, Exact, SameText, LicensedAll, LicensedIds, IdsAll, Regular, FindEntry;
    var expected := FindEntry(c.entries, path, fs.fold);
    if Exact(c.entries, n, path, fs.fold) {
      ExactRoot(c.entries, n, path, fs.fold);
    }
    if expected.None? || expected.value.kind != Directory {
      return false;
    }
    assert n.id in Ids(n);
    var verified := VerifyOpened(fs, n, true, expected.value);
    if !verified {
      return false;
    }
    VerifiedIsLicensed(n, path, c.entries, expected.value, fs.fold);
    LicensedBelow(n, path, c.entries, fs.fold);
    var emptied := DeleteChildren(fs, n, c, path);
    if !emptied {
      return false;
    }
    if deleteRoot {
      NonePresent(n.children, fs.removed);
      var rest := fs.Enumerate(n);
      if rest.None? || |rest.value| > 0 {
        return false;
      }
      ok := fs.Mark(n);
      return ok;
    }
    return true;
  }

  method DeleteChildren(fs: FileSystem, n: Node, c: Candidate, path: Text) returns (ok: bool)
    requires WellFormed(n, fs.fold) && Ids(n) !! fs.removed
    modifies fs
    ensures old(fs.removed) <= fs.removed <= old(fs.removed) + LicensedAll(n.children, path, c.entries, fs.fold)
    ensures ok ==> fs.removed == old(fs.removed) + IdsAll(n.children)
    ensures old(fs.faulted) ==> fs.faulted
    ensures Exact(c.entries, n, path, fs.fold) ==> ok || fs.faulted
    decreases n, 1
  {
    hide WellFormedAll, Exact, SameText, LicensedAll, IdsAll, DirectCount, Present;
    UntouchedChildren(n.children, fs.removed);
    var children := fs.Enumerate(n);
    if Exact(c.entries, n, path, fs.fold) {
      ExactCount(c.entries, n, path, fs.fold);
      ExactListable(c.entries, n, path, fs.fold);
    }
    if children.None? {
      return false;
    }
    var count := CountDirect(c.entries, path);
    if |children.value| != count {
      return false;
    }
    NoIds(n.children);
    for k := 0 to |n.children|
      invariant old(fs.faulted) ==> fs.faulted
      invariant fs.removed == old(fs.removed) + IdsAll(n.children[..k])
      invariant fs.removed <= old(fs.removed) + LicensedAll(n.children, path, c.entries, fs.fold)
    {
      ChildFacts(n.children, k, fs.fold);
      LicensedChild(n.children, k, path, c.entries, fs.fold);
      OneMoreIds(n.children, k);
      var removed := DeleteChild(fs, n, k, c, path);
      if !removed {
        return false;
      }
    }
    assert n.children[..|n.children|] == n.children;
    return true;
  }

  lemma NoIds(ns: seq<Node>)
    ensures IdsAll(ns[..0]) == {}
  {
  }

  lemma OneMoreIds(ns: seq<Node>, k: nat)
    requires k < |ns|
    ensures IdsAll(ns[..k + 1]) == IdsAll(ns[..k]) + Ids(ns[k])
  {
    assert ns[..k + 1][..k] == ns[..k];
  }

  lemma ExactListable(entries: seq<Entry>, n: Node, path: Text, fold: Fold)
    requires Exact(entries, n, path, fold) && WellFormed(n, fold)
    ensures Listable(n.children)
  {
    hide DistinctKeys, UnderOf, WellFormedAll, PlainAll, Forbidden;
    forall i | 0 <= i < |n.children| ensures |n.children[i].name| <= MAXIMUM_NAME {
      ChildFacts(n.children, i, fold);
    }
  }

  method DeleteChild(fs: FileSystem, n: Node, k: nat, c: Candidate, path: Text) returns (ok: bool)
    requires WellFormed(n, fs.fold) && k < |n.children| && Ids(n.children[k]) !! fs.removed
    modifies fs
    ensures var q := ChildPath(path, n.children[k].name);
      old(fs.removed) <= fs.removed <= old(fs.removed) + LicensedIds(n.children[k], q, c.entries, fs.fold)
    ensures ok ==> fs.removed == old(fs.removed) + Ids(n.children[k])
    ensures old(fs.faulted) ==> fs.faulted
    ensures Exact(c.entries, n, path, fs.fold) ==> ok || fs.faulted
    decreases n, 0
  {
    hide WellFormedAll, Exact, SameText, LicensedAll, LicensedIds, Regular, FindEntry;
    var child := n.children[k];
    var q := ChildPath(path, child.name);
    ChildFacts(n.children, k, fs.fold);
    if Exact(c.entries, n, path, fs.fold) {
      ExactBelow(c.entries, n, path, k, fs.fold);
      ExactRoot(c.entries, child, q, fs.fold);
      ExactOpens(c.entries, n, path, k, fs.fold, fs.removed);
    }
    var expected := FindEntry(c.entries, q, fs.fold);
    if expected.None? || child.directory != (expected.value.kind == Directory) || child.reparse {
      return false;
    }
    var handle := fs.Open(n, child.name, child.directory);
    if handle.None? {
      return false;
    }
    OpenedIsChild(n.children, k, handle.value, fs.fold);
    if child.directory {
      ok := DeleteTree(fs, handle.value, c, q, true);
      return ok;
    }
    assert child.id in Ids(child);
    var verified := VerifyOpened(fs, handle.value, false, expected.value);
    if !verified {
      return false;
    }
    VerifiedIsLicensed(child, q, c.entries, expected.value, fs.fold);
    FileIsAlone(child, fs.fold);
    ok := fs.Mark(handle.value);
  }

  lemma FileIsAlone(n: Node, fold: Fold)
    requires WellFormed(n, fold) && !n.directory
    ensures Ids(n) == {n.id} && forall removed :: Present(n.children, removed) == []
  {
  }

  lemma ExactOpens(entries: seq<Entry>, n: Node, path: Text, k: nat, fold: Fold, removed: set<nat>)
    requires Exact(entries, n, path, fold) && WellFormed(n, fold) && k < |n.children|
    requires Ids(n.children[k]) !! removed
    ensures !n.children[k].reparse && 0 < |n.children[k].name| <= MAXIMUM_NAME
    ensures !(exists i :: 0 <= i < |n.children| && SameText(n.children[i].name, n.children[k].name, fold)
                          && n.children[i].directory != n.children[k].directory)
    ensures !(forall i :: 0 <= i < |n.children| && n.children[i].id !in removed
                          ==> !SameText(n.children[i].name, n.children[k].name, fold))
  {
    hide DistinctKeys, UnderOf, WellFormedAll, PlainAll, SafeName, SameText;
    ChildFacts(n.children, k, fold);
    OpensItself(n.children, k, fold, removed);
  }

  /**
   Removing a candidate's whole tree. Against a manifest that a scan of this tree made, in any order, the tree is
   removed object by object, as many as the manifest lists, or some call was refused; nothing else is ever removed.
   */
  method DeleteCandidate(fs: FileSystem, root: Node, c: Candidate) returns (ok: bool)
    requires WellFormed(root, fs.fold) && Ids(root) !! fs.removed
    modifies fs
    ensures forall id :: id in fs.removed - old(fs.removed) ==>
              exists x, q :: LiesAt(x, q, root, c.name) && x.id == id && Matches(x, q, c.entries, fs.fold)
    ensures old(fs.removed) <= fs.removed <= old(fs.removed) + Ids(root)
    ensures ok ==> fs.removed == old(fs.removed) + Ids(root)
    ensures root.directory && Plain(root) && DistinctKeys(c.entries, PathOf, fs.fold)
            && multiset(c.entries) == multiset(Scan(root, c.name))
            ==> (ok || fs.faulted) && |c.entries| == |Ids(root)|
  {
    hide WellFormed, Exact, LicensedIds, Ids, Plain, DistinctKeys, LiesAt, Matches;
    if Plain(root) && DistinctKeys(c.entries, PathOf, fs.fold) && multiset(c.entries) == multiset(Scan(root, c.name)) {
      ScannedIsExact(c.entries, root, c.name, fs.fold);
      SameSize(c.entries, Scan(root, c.name));
      ScanCountsObjects(root, c.name, fs.fold);
    }
    ok := DeleteTree(fs, root, c, c.name, true);
    forall id | id in fs.removed - old(fs.removed)
      ensures exists x, q :: LiesAt(x, q, root, c.name) && x.id == id && Matches(x, q, c.entries, fs.fold)
      ensures id in Ids(root)
    {
      var x, q := LicensedMatches(root, c.name, c.entries, fs.fold, id);
    }
  }
}
