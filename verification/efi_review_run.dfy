/** The review as it runs: candidate by candidate and entry by entry, with running totals. */
module EfiReviewRun {
  import opened Bytes
  import opened Results
  import opened Texts
  import opened TextOrder
  import opened Rearrangement
  import opened EfiManifest
  import opened EfiPaths
  import opened EfiReview

  /** What a later deletion is bound to. */
  datatype Plan = Plan(candidates: seq<Candidate>, digest: Digest)

  // ---------- running totals ----------

  /** The identifiers seen so far and the file bytes counted so far. */
  datatype Totals = Totals(ids: set<FileId>, count: nat, bytes: nat)

  function TotalsOf(entries: seq<Observed>): Totals {
    Totals(set i | 0 <= i < |entries| :: entries[i].entry.fileId, |entries|, Total(entries, FileBytes))
  }

  lemma OneMoreId(entries: seq<Observed>, o: Observed)
    ensures DistinctIds(entries + [o]) <==> DistinctIds(entries) && o.entry.fileId !in TotalsOf(entries).ids
    ensures TotalsOf(entries + [o]).ids == TotalsOf(entries).ids + {o.entry.fileId}
  {
    hide SameText;
    var all, n := entries + [o], |entries|;
    assert forall i :: 0 <= i < n ==> all[i] == entries[i];
    forall i | 0 <= i < n
      ensures SameText(IdOf(all[i]), IdOf(all[n]), Same) <==> entries[i].entry.fileId == o.entry.fileId
    {
      SameIds(all[i], o);
    }
    if DistinctIds(all) {
      forall i, j | 0 <= i < j < n ensures !SameText(IdOf(entries[i]), IdOf(entries[j]), Same) {
        assert !SameText(IdOf(all[i]), IdOf(all[j]), Same);
      }
      forall i | 0 <= i < n ensures entries[i].entry.fileId != o.entry.fileId {
        assert !SameText(IdOf(all[i]), IdOf(all[n]), Same);
      }
    }
  }

  lemma SameIds(a: Observed, b: Observed)
    ensures SameText(IdOf(a), IdOf(b), Same) <==> a.entry.fileId == b.entry.fileId
  {
    if SameText(IdOf(a), IdOf(b), Same) {
      forall i | 0 <= i < 16 ensures a.entry.fileId[i] == b.entry.fileId[i] {
        assert Same(IdOf(a)[i]) == Same(IdOf(b)[i]);
      }
    }
  }

  lemma OneMoreByte(entries: seq<Observed>, o: Observed)
    ensures Total(entries + [o], FileBytes) == Total(entries, FileBytes) + FileBytes(o)
  {
    assert (entries + [o])[..|entries|] == entries;
  }

  /** More entries never bring the totals back under their limits. */
  lemma {:induction false} TotalsGrow(a: seq<Observed>, b: seq<Observed>)
    ensures DistinctIds(a + b) ==> DistinctIds(a)
    ensures Total(a, FileBytes) <= Total(a + b, FileBytes)
    decreases |b|
  {
    if |b| > 0 {
      var front := b[..|b| - 1];
      assert a + b == a + front + [b[|b| - 1]];
      TotalsGrow(a, front);
      OneMoreId(a + front, b[|b| - 1]);
      OneMoreByte(a + front, b[|b| - 1]);
    } else {
      assert a + b == a;
    }
  }

  // ---------- the entries of one candidate ----------

  method CheckEntry(o: Observed, name: Text, serial: u64, fold: Fold) returns (ok: bool)
    ensures ok <==> ValidEntry(o, name, serial, fold)
  {
    hide SafePath, UnderCandidate;
    var depth := CheckPath(o.entry.path, fold);
    if depth.None? || !UnderCandidate(o.entry.path, name) {
      return false;
    }
    if o.entry.kind != RegularFile && o.entry.kind != Directory {
      return false;
    }
    if !o.idValid || o.entry.fileId == Zeros(16) || o.entry.serial != serial || o.entry.links != 1 {
      return false;
    }
    var isFile := o.entry.kind == RegularFile;
    return isFile == o.entry.hasSha && (isFile || o.entry.sha == Zeros(32));
  }

  method ReviewEntries(c: ObservedCandidate, serial: u64, length: u64, fold: Fold, ghost before: seq<Observed>,
                       totals: Totals)
    returns (r: Option<(seq<Entry>, Totals)>)
    requires totals == TotalsOf(before) && DistinctIds(before) && totals.bytes <= length
    ensures r.Some? <==> EntriesValid(c.entries, c.name, serial, fold) && DistinctIds(before + c.entries)
                         && TotalsOf(before + c.entries).bytes <= length
    ensures r.Some? ==> r.value == (Mapped(c.entries, EntryOf), TotalsOf(before + c.entries))
  {
    hide ValidEntry, DistinctIds, FileBytes, TotalsOf, EntriesValid;
    var ids, bytes: nat, entries := totals.ids, totals.bytes, [];
    assert before + c.entries[..0] == before;
    ValidSoFar(c, 0, serial, fold);
    for k := 0 to |c.entries|
      invariant TotalsOf(before + c.entries[..k]) == Totals(ids, totals.count + k, bytes)
      invariant DistinctIds(before + c.entries[..k]) && bytes <= length
      invariant EntriesValid(c.entries[..k], c.name, serial, fold)
      invariant entries == Mapped(c.entries[..k], EntryOf)
    {
      ghost var seen := before + c.entries[..k];
      var o := c.entries[k];
      ghost var next := seen + [o];
      assert next == before + c.entries[..k + 1];
      assert next + c.entries[k + 1..] == before + c.entries;
      OneMoreTotal(seen, o, c.entries[k + 1..]);
      ValidSoFar(c, k, serial, fold);
      var valid := CheckEntry(o, c.name, serial, fold);
      if !valid || o.entry.fileId in ids {
        return None;
      }
      ids := ids + {o.entry.fileId};
      var longer := CountBytes(o, bytes, length);
      if longer.None? {
        return None;
      }
      bytes := longer.value;
      entries := entries + [o.entry];
    }
    assert c.entries[..|c.entries|] == c.entries;
    return Some((entries, Totals(ids, totals.count + |c.entries|, bytes)));
  }

  lemma OneMoreTotal(seen: seq<Observed>, o: Observed, more: seq<Observed>)
    ensures TotalsOf(seen + [o])
         == Totals(TotalsOf(seen).ids + {o.entry.fileId}, TotalsOf(seen).count + 1, TotalsOf(seen).bytes + FileBytes(o))
    ensures DistinctIds(seen + [o]) <==> DistinctIds(seen) && o.entry.fileId !in TotalsOf(seen).ids
    ensures DistinctIds(seen + [o] + more) ==> DistinctIds(seen + [o])
    ensures TotalsOf(seen + [o]).bytes <= TotalsOf(seen + [o] + more).bytes
  {
    hide DistinctIds, FileBytes;
    OneMoreId(seen, o);
    OneMoreByte(seen, o);
    TotalsGrow(seen + [o], more);
  }

  lemma ValidSoFar(c: ObservedCandidate, k: nat, serial: u64, fold: Fold)
    requires k <= |c.entries|
    ensures EntriesValid(c.entries[..0], c.name, serial, fold)
    ensures k < |c.entries| ==>
              && Mapped(c.entries[..k + 1], EntryOf) == Mapped(c.entries[..k], EntryOf) + [c.entries[k].entry]
              && (EntriesValid(c.entries[..k + 1], c.name, serial, fold)
                  <==> EntriesValid(c.entries[..k], c.name, serial, fold)
                       && ValidEntry(c.entries[k], c.name, serial, fold))
              && (EntriesValid(c.entries, c.name, serial, fold) ==> ValidEntry(c.entries[k], c.name, serial, fold))
  {
    hide ValidEntry;
    if k < |c.entries| {
      assert c.entries[..k + 1] == c.entries[..k] + [c.entries[k]];
      assert forall o :: o in c.entries[..k + 1] <==> o in c.entries[..k] || o == c.entries[k];
    }
  }

  method CountBytes(o: Observed, bytes: nat, length: u64) returns (r: Option<nat>)
    requires bytes <= length
    ensures r == if bytes + FileBytes(o) <= length then Some(bytes + FileBytes(o)) else None
  {
    if o.entry.kind == RegularFile {
      if o.entry.size > U64_LIMIT - 1 - bytes || bytes + o.entry.size > length {
        return None;
      }
      return Some(bytes + o.entry.size);
    }
    return Some(bytes);
  }

  // ---------- the tree of one candidate ----------

  ghost predicate Indexed(kinds: map<Text, EntryKind>, entries: seq<Entry>, fold: Fold) {
    && (forall i :: 0 <= i < |entries| ==>
          Folded(entries[i].path, fold) in kinds && kinds[Folded(entries[i].path, fold)] == entries[i].kind)
    && (forall t :: t in kinds ==> exists i :: 0 <= i < |entries| && Folded(entries[i].path, fold) == t)
  }

  lemma OneMorePath(entries: seq<Entry>, e: Entry, kinds: map<Text, EntryKind>, fold: Fold)
    requires Indexed(kinds, entries, fold)
    ensures DistinctKeys(entries + [e], PathOf, fold)
            <==> DistinctKeys(entries, PathOf, fold) && Folded(e.path, fold) !in kinds
    ensures Folded(e.path, fold) !in kinds ==> Indexed(kinds[Folded(e.path, fold) := e.kind], entries + [e], fold)
  {
    hide SameText, Folded;
    var all, n := entries + [e], |entries|;
    assert forall i :: 0 <= i < n ==> all[i] == entries[i];
    assert all[n] == e;
    forall i | 0 <= i < n
      ensures SameText(PathOf(all[i]), PathOf(e), fold) <==> Folded(all[i].path, fold) == Folded(e.path, fold)
    {
      FoldedSame(all[i].path, e.path, fold);
    }
    if DistinctKeys(all, PathOf, fold) {
      forall i, j | 0 <= i < j < n ensures !SameText(PathOf(entries[i]), PathOf(entries[j]), fold) {
        assert !SameText(PathOf(all[i]), PathOf(all[j]), fold);
      }
      forall i | 0 <= i < n ensures Folded(entries[i].path, fold) != Folded(e.path, fold) {
        assert !SameText(PathOf(all[i]), PathOf(all[n]), fold);
      }
    }
  }

  lemma IndexedDirectory(kinds: map<Text, EntryKind>, entries: seq<Entry>, path: Text, fold: Fold)
    requires Indexed(kinds, entries, fold)
    ensures Folded(path, fold) in kinds && kinds[Folded(path, fold)] == Directory
            <==> exists p :: p in entries && p.kind == Directory && SameText(p.path, path, fold)
  {
    hide SameText, Folded;
    var f := Folded(path, fold);
    if f in kinds && kinds[f] == Directory {
      var i :| 0 <= i < |entries| && Folded(entries[i].path, fold) == f;
      FoldedSame(entries[i].path, path, fold);
      assert entries[i] in entries;
    }
    forall p | p in entries && p.kind == Directory && SameText(p.path, path, fold)
      ensures f in kinds && kinds[f] == Directory
    {
      FoldedSame(p.path, path, fold);
      var i :| 0 <= i < |entries| && entries[i] == p;
    }
  }

  method IndexPaths(entries: seq<Entry>, fold: Fold) returns (r: Option<map<Text, EntryKind>>)
    ensures r.Some? <==> DistinctKeys(entries, PathOf, fold)
    ensures r.Some? ==> Indexed(r.value, entries, fold)
  {
    hide Folded, DistinctKeys;
    var kinds: map<Text, EntryKind> := map[];
    NoPaths(fold);
    for k := 0 to |entries|
      invariant DistinctKeys(entries[..k], PathOf, fold) && Indexed(kinds, entries[..k], fold)
    {
      var folded := Folded(entries[k].path, fold);
      assert entries[..k + 1] == entries[..k] + [entries[k]];
      OneMorePath(entries[..k], entries[k], kinds, fold);
      if folded in kinds {
        DistinctPrefix(entries, k + 1, fold);
        return None;
      }
      kinds := kinds[folded := entries[k].kind];
    }
    assert entries[..|entries|] == entries;
    return Some(kinds);
  }

  lemma NoPaths(fold: Fold)
    ensures DistinctKeys([], PathOf, fold)
  {
  }

  lemma DistinctPrefix(entries: seq<Entry>, k: nat, fold: Fold)
    requires k <= |entries| && !DistinctKeys(entries[..k], PathOf, fold)
    ensures !DistinctKeys(entries, PathOf, fold)
  {
    hide SameText;
    var i, j :| 0 <= i < j < k && SameText(PathOf(entries[..k][i]), PathOf(entries[..k][j]), fold);
    assert SameText(PathOf(entries[i]), PathOf(entries[j]), fold);
  }

  /** The list has no path twice, the candidate itself is listed as a directory, and so is every parent. */
  method CheckTree(entries: seq<Entry>, name: Text, fold: Fold) returns (ok: bool)
    ensures ok <==> TreeSound(entries, name, fold)
  {
    hide Indexed, DistinctKeys, Folded, SameText, Parent;
    var index := IndexPaths(entries, fold);
    if index.None? {
      return false;
    }
    var kinds := index.value;
    IndexedDirectory(kinds, entries, name, fold);
    RootIsIndexed(entries, name, fold);
    var root := Folded(name, fold);
    if root !in kinds || kinds[root] != Directory || !HasRoot(entries, name) {
      return false;
    }
    for k := 0 to |entries|
      invariant forall e :: e in entries[..k] && e.path != name ==> ParentListed(e.path, entries, fold)
    {
      assert entries[..k + 1] == entries[..k] + [entries[k]];
      if entries[k].path != name {
        assert entries[k] in entries;
        var parent := Parent(entries[k].path);
        if parent.None? {
          return false;
        }
        IndexedDirectory(kinds, entries, parent.value, fold);
        var folded := Folded(parent.value, fold);
        if folded !in kinds || kinds[folded] != Directory {
          return false;
        }
      }
    }
    assert entries[..|entries|] == entries;
    return true;
  }

  predicate HasRoot(entries: seq<Entry>, name: Text) {
    exists i :: 0 <= i < |entries| && entries[i].path == name && entries[i].kind == Directory
  }

  lemma RootIsIndexed(entries: seq<Entry>, name: Text, fold: Fold)
    ensures RootListed(entries, name) <==> HasRoot(entries, name)
    ensures RootListed(entries, name)
            ==> exists p :: p in entries && p.kind == Directory && SameText(p.path, name, fold)
  {
    if RootListed(entries, name) {
      var e :| e in entries && e.path == name && e.kind == Directory;
      var i :| 0 <= i < |entries| && entries[i] == e;
      assert SameText(e.path, name, fold);
    }
  }

  // ---------- all candidates ----------

  function FoldedNames(cs: seq<ObservedCandidate>, fold: Fold): set<Text> {
    set i | 0 <= i < |cs| :: Folded(cs[i].name, fold)
  }

  lemma OneMoreName(cs: seq<ObservedCandidate>, c: ObservedCandidate, fold: Fold)
    ensures DistinctKeys(cs + [c], CandidateName, fold)
            <==> DistinctKeys(cs, CandidateName, fold) && Folded(c.name, fold) !in FoldedNames(cs, fold)
    ensures FoldedNames(cs + [c], fold) == FoldedNames(cs, fold) + {Folded(c.name, fold)}
  {
    hide SameText, Folded;
    var all, n := cs + [c], |cs|;
    assert forall i :: 0 <= i < n ==> all[i] == cs[i];
    assert all[n] == c;
    forall i | 0 <= i < n
      ensures SameText(CandidateName(all[i]), CandidateName(c), fold) <==> Folded(all[i].name, fold) == Folded(c.name, fold)
    {
      FoldedSame(all[i].name, c.name, fold);
    }
    if DistinctKeys(all, CandidateName, fold) {
      forall i, j | 0 <= i < j < n ensures !SameText(CandidateName(cs[i]), CandidateName(cs[j]), fold) {
        assert !SameText(CandidateName(all[i]), CandidateName(all[j]), fold);
      }
      forall i | 0 <= i < n ensures Folded(cs[i].name, fold) != Folded(c.name, fold) {
        assert !SameText(CandidateName(all[i]), CandidateName(all[n]), fold);
      }
    }
  }

  /** What one more candidate must satisfy. */
  ghost predicate NextSound(cs: seq<ObservedCandidate>, c: ObservedCandidate, serial: u64, length: u64, fold: Fold) {
    && CandidateSound(c, serial, fold)
    && Folded(c.name, fold) !in FoldedNames(cs, fold)
    && TotalsSound(Flat(cs) + c.entries, length)
  }

  lemma OneMoreCandidate(cs: seq<ObservedCandidate>, c: ObservedCandidate, serial: u64, length: u64, fold: Fold)
    ensures CandidatesSound(cs + [c], serial, length, fold)
            <==> CandidatesSound(cs, serial, length, fold) && NextSound(cs, c, serial, length, fold)
    ensures Flat(cs + [c]) == Flat(cs) + c.entries
  {
    hide CandidateSound, DistinctKeys, Folded, DistinctIds;
    var all := cs + [c];
    assert all[..|cs|] == cs && all[|cs|] == c;
    OneMoreName(cs, c, fold);
    TotalsGrow(Flat(cs), c.entries);
    assert forall d :: d in all <==> d in cs || d == c;
  }

  lemma {:induction false} SoundPrefix(cs: seq<ObservedCandidate>, k: nat, serial: u64, length: u64, fold: Fold)
    requires k <= |cs| && CandidatesSound(cs, serial, length, fold)
    ensures CandidatesSound(cs[..k], serial, length, fold)
    decreases |cs|
  {
    hide CandidatesSound, NextSound;
    if k < |cs| {
      var n := |cs| - 1;
      assert cs == cs[..n] + [cs[n]];
      OneMoreCandidate(cs[..n], cs[n], serial, length, fold);
      SoundPrefix(cs[..n], k, serial, length, fold);
      assert cs[..n][..k] == cs[..k];
    } else {
      assert cs[..k] == cs;
    }
  }

  method ReviewCandidate(c: ObservedCandidate, serial: u64, length: u64, fold: Fold,
                         ghost before: seq<ObservedCandidate>, names: set<Text>, totals: Totals)
    returns (r: Option<(Candidate, Totals)>)
    requires CandidatesSound(before, serial, length, fold)
    requires names == FoldedNames(before, fold) && totals == TotalsOf(Flat(before))
    ensures r.Some? <==> NextSound(before, c, serial, length, fold)
    ensures r.Some? ==> r.value == (Normal(c, fold), TotalsOf(Flat(before) + c.entries))
  {
    hide SafeCandidateName, EntriesValid, TreeSound, DistinctIds, Folded, FoldedNames, DistinctKeys, Sort, FileBytes;
    if !SafeCandidateName(c.name, fold) || Folded(c.name, fold) in names {
      return None;
    }
    if |c.entries| == 0 || |c.entries| > MAXIMUM_ENTRIES || totals.count > MAXIMUM_ENTRIES - |c.entries| {
      return None;
    }
    var reviewed := ReviewEntries(c, serial, length, fold, Flat(before), totals);
    if reviewed.None? {
      return None;
    }
    var (entries, more) := reviewed.value;
    var sorted := Sort(entries, PathOf, fold);
    SortedTree(entries, c.name, fold);
    var sound := CheckTree(sorted, c.name, fold);
    if !sound {
      return None;
    }
    return Some((Candidate(c.name, sorted), more));
  }

  lemma SortedTree(entries: seq<Entry>, name: Text, fold: Fold)
    ensures TreeSound(Sort(entries, PathOf, fold), name, fold) <==> TreeSound(entries, name, fold)
  {
    hide TreeSound;
    var sorted := Sort(entries, PathOf, fold);
    if TreeSound(entries, name, fold) {
      TreeIgnoresOrder(entries, sorted, name, fold);
    } else if TreeSound(sorted, name, fold) {
      TreeIgnoresOrder(sorted, entries, name, fold);
    }
  }

  /** Accepts exactly the reviewable observations, and then lists them in canonical order. */
  method ReviewDeletion(o: Observation, fold: Fold, digest: seq<byte> -> Digest) returns (r: Option<Plan>)
    ensures r.Some? <==> Reviewable(o, fold)
    ensures r.Some? ==> r.value == Plan(Canonical(o.candidates, fold), digest(Material(Canonical(o.candidates, fold))))
  {
    hide AllowsPreserving, CandidatesSound, NextSound, Folded, Normal, Material, Sort, TotalsOf, FoldedNames;
    if !HeaderSound(o) {
      return None;
    }
    var cs := o.candidates;
    var manifests, names, totals := Nothing(o.espSerial, o.espLength, fold);
    for k := 0 to |cs|
      invariant CandidatesSound(cs[..k], o.espSerial, o.espLength, fold)
      invariant manifests == Mapped(cs[..k], Normalizer(fold))
      invariant names == FoldedNames(cs[..k], fold) && totals == TotalsOf(Flat(cs[..k]))
    {
      assert cs[..k + 1] == cs[..k] + [cs[k]];
      OneMoreCandidate(cs[..k], cs[k], o.espSerial, o.espLength, fold);
      OneMoreName(cs[..k], cs[k], fold);
      var reviewed := ReviewCandidate(cs[k], o.espSerial, o.espLength, fold, cs[..k], names, totals);
      if reviewed.None? {
        if CandidatesSound(cs, o.espSerial, o.espLength, fold) {
          SoundPrefix(cs, k + 1, o.espSerial, o.espLength, fold);
        }
        return None;
      }
      OneMoreNormal(cs[..k], cs[k], fold);
      manifests := manifests + [reviewed.value.0];
      names, totals := names + {Folded(cs[k].name, fold)}, reviewed.value.1;
    }
    assert cs[..|cs|] == cs;
    var sorted := Sort(manifests, NameOf, fold);
    var material := SerializeManifest(sorted);
    if material.None? {
      return None;
    }
    return Some(Plan(sorted, digest(material.value)));
  }

  lemma OneMoreNormal(cs: seq<ObservedCandidate>, c: ObservedCandidate, fold: Fold)
    ensures Mapped(cs + [c], Normalizer(fold)) == Mapped(cs, Normalizer(fold)) + [Normal(c, fold)]
  {
  }

  method Nothing(serial: u64, length: u64, fold: Fold)
    returns (manifests: seq<Candidate>, names: set<Text>, totals: Totals)
    ensures CandidatesSound([], serial, length, fold)
    ensures manifests == Mapped([], Normalizer(fold)) && names == FoldedNames([], fold) && totals == TotalsOf(Flat([]))
  {
    manifests, names, totals := [], {}, Totals({}, 0, 0);
  }
}
