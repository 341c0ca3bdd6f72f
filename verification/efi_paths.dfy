/** The names and paths that may appear below a directory that is to be removed. */
module EfiPaths {
  import opened Bytes
  import opened Results
  import opened Texts
  import opened TextOrder

  const MAXIMUM_DEPTH: nat := 8
  const MAXIMUM_NAME: nat := 128
  const MAXIMUM_PATH: nat := 1024

  const SEPARATOR: u16 := 0x5C
  const SLASH: u16 := 0x2F
  const SPACE: u16 := 0x20
  const DOT: u16 := 0x2E

  /** A literal as UTF-16 code units. */
  function Wide(s: string): (text: Text)
    ensures |text| == |s|
  {
    seq(|s|, i requires 0 <= i < |s| => s[i] as int % 0x1_0000)
  }

  // ---------- one name ----------

  predicate Forbidden(c: u16) {
    c < 0x20 || c > 0x7E || c in Wide("<>:\"/\\|?*")
  }

  /** The position of the first `c`, or the length if there is none. */
  function Find(text: Text, c: u16): (i: nat)
    ensures i <= |text| && c !in text[..i] && (i < |text| ==> text[i] == c)
  {
    if |text| == 0 || text[0] == c then 0
    else
      assert text[..1 + Find(text[1..], c)] == [text[0]] + text[1..][..Find(text[1..], c)];
      1 + Find(text[1..], c)
  }

  predicate ReservedBase(base: Text) {
    || base in [Wide("con"), Wide("prn"), Wide("aux"), Wide("nul"), Wide("clock$")]
    || (|base| == 4 && base[..3] in [Wide("com"), Wide("lpt")] && 0x31 <= base[3] <= 0x39)
  }

  predicate Reserved(segment: Text, fold: Fold) {
    ReservedBase(Folded(segment[..Find(segment, DOT)], fold))
  }

  predicate SafeSegment(segment: Text, fold: Fold) {
    && 0 < |segment| <= MAXIMUM_NAME
    && segment[0] !in [DOT, SPACE] && segment[|segment| - 1] !in [DOT, SPACE]
    && !Reserved(segment, fold)
    && forall i :: 0 <= i < |segment| ==> !Forbidden(segment[i])
  }

  /** The names that Windows keeps for devices. */
  function DeviceNames(): seq<string> {
    ["con", "prn", "aux", "nul", "clock$",
     "com1", "com2", "com3", "com4", "com5", "com6", "com7", "com8", "com9",
     "lpt1", "lpt2", "lpt3", "lpt4", "lpt5", "lpt6", "lpt7", "lpt8", "lpt9"]
  }

  /** Lower-casing leaves lower-case letters, digits and the dollar sign alone. */
  predicate LeavesLowerCase(fold: Fold) {
    forall c: u16 :: 0x61 <= c <= 0x7A || 0x30 <= c <= 0x39 || c == 0x24 ==> fold(c) == c
  }

  lemma DevicesAreReserved(k: nat)
    requires k < |DeviceNames()|
    ensures ReservedBase(Wide(DeviceNames()[k]))
  {
    var name := Wide(DeviceNames()[k]);
    if 5 <= k < 14 {
      assert name[..3] == Wide("com");
    } else if k >= 14 {
      assert name[..3] == Wide("lpt");
    }
  }

  lemma DeviceCharacters(k: nat)
    requires k < |DeviceNames()|
    ensures forall i :: 0 <= i < |DeviceNames()[k]| ==>
      var c := DeviceNames()[k][i] as int; 0x61 <= c <= 0x7A || 0x30 <= c <= 0x39 || c == 0x24
  {
  }

  lemma ReservedIsDevice(base: Text)
    ensures ReservedBase(base) ==> exists k :: 0 <= k < |DeviceNames()| && base == Wide(DeviceNames()[k])
  {
    if |base| == 4 && base[..3] in [Wide("com"), Wide("lpt")] && 0x31 <= base[3] <= 0x39 {
      NumberedDevice(base);
    } else if ReservedBase(base) {
      assert DeviceNames()[0] == "con" && DeviceNames()[1] == "prn" && DeviceNames()[2] == "aux";
      assert DeviceNames()[3] == "nul" && DeviceNames()[4] == "clock$";
    }
  }

  lemma NumberedDevice(base: Text)
    requires |base| == 4 && base[..3] in [Wide("com"), Wide("lpt")] && 0x31 <= base[3] <= 0x39
    ensures exists k :: 0 <= k < |DeviceNames()| && base == Wide(DeviceNames()[k])
  {
    var k := (if base[..3] == Wide("com") then 5 else 14) + (base[3] - 0x31);
    DeviceSpelling(k);
    assert base == base[..3] + [base[3]];
    assert base == Wide(DeviceNames()[k]);
  }

  lemma DeviceSpelling(k: nat)
    requires 5 <= k < 23
    ensures Wide(DeviceNames()[k])
         == (if k < 14 then Wide("com") else Wide("lpt")) + [0x31 + (if k < 14 then k - 5 else k - 14)]
  {
  }

  /** A character that may stand in a name: printable, and none of the nine that Windows forbids. */
  predicate Ordinary(c: u16) {
    0x20 <= c <= 0x7E && c !in {0x22, 0x2A, 0x2F, 0x3A, 0x3C, 0x3E, 0x3F, 0x5C, 0x7C}
  }

  lemma ForbiddenExactly(c: u16)
    ensures Forbidden(c) <==> !Ordinary(c)
  {
    var nine := Wide("<>:\"/\\|?*");
    assert nine == [0x3C, 0x3E, 0x3A, 0x22, 0x2F, 0x5C, 0x7C, 0x3F, 0x2A];
  }

  /** Exactly these names are safe: ordinary characters, no dot or blank at the ends, and no device in front of the dot. */
  lemma SafeSegmentExactly(segment: Text, fold: Fold)
    requires LeavesLowerCase(fold)
    ensures SafeSegment(segment, fold) <==>
      && 1 <= |segment| <= 128
      && segment[0] !in {0x2E, 0x20} && segment[|segment| - 1] !in {0x2E, 0x20}
      && (forall i :: 0 <= i < |segment| ==> Ordinary(segment[i]))
      && forall k :: 0 <= k < |DeviceNames()| ==> !SameText(segment[..Find(segment, DOT)], Wide(DeviceNames()[k]), fold)
  {
    hide Reserved, Forbidden, Ordinary, SameText, DeviceNames, Find;
    forall i | 0 <= i < |segment| ensures Forbidden(segment[i]) <==> !Ordinary(segment[i]) {
      ForbiddenExactly(segment[i]);
    }
    ReservedExactly(segment, fold);
  }

  lemma ReservedExactly(segment: Text, fold: Fold)
    requires LeavesLowerCase(fold)
    ensures !Reserved(segment, fold) <==>
      forall k :: 0 <= k < |DeviceNames()| ==> !SameText(segment[..Find(segment, DOT)], Wide(DeviceNames()[k]), fold)
  {
    hide ReservedBase, SameText, DeviceNames, Find, Wide, LeavesLowerCase;
    var base := segment[..Find(segment, DOT)];
    ReservedIsDevice(Folded(base, fold));
    forall k | 0 <= k < |DeviceNames()|
      ensures SameText(base, Wide(DeviceNames()[k]), fold) <==> Folded(base, fold) == Wide(DeviceNames()[k])
      ensures ReservedBase(Wide(DeviceNames()[k]))
    {
      DevicesAreReserved(k);
      FoldedSame(base, Wide(DeviceNames()[k]), fold);
      DeviceIsFolded(k, fold);
    }
  }

  lemma DeviceIsFolded(k: nat, fold: Fold)
    requires LeavesLowerCase(fold) && k < |DeviceNames()|
    ensures Folded(Wide(DeviceNames()[k]), fold) == Wide(DeviceNames()[k])
  {
    hide DeviceNames;
    DeviceCharacters(k);
  }

  /** No safe name, with or without an extension, is the name of a device in any spelling. */
  lemma NoDeviceNames(segment: Text, fold: Fold, k: nat)
    requires LeavesLowerCase(fold) && SafeSegment(segment, fold) && k < |DeviceNames()|
    ensures !SameText(segment[..Find(segment, DOT)], Wide(DeviceNames()[k]), fold)
  {
    hide Reserved, Forbidden, SameText, DeviceNames, Find, LeavesLowerCase;
    ReservedExactly(segment, fold);
  }

  /** The name of a directory that may be removed: never Microsoft's, the fallback's, or the quarantine's. */
  predicate SafeCandidateName(name: Text, fold: Fold) {
    && SafeSegment(name, fold)
    && !SameText(name, Wide("Microsoft"), fold) && !SameText(name, Wide("Boot"), fold)
    && !SameText(name, Wide("EFI"), fold) && !SameText(name, Wide("YTEC-EFI-REMOVE-QUARANTINE-V1"), fold)
  }

  // ---------- a path ----------

  /** The names between the separators. */
  function Segments(path: Text): (segments: seq<Text>)
    ensures |segments| > 0
  {
    var cut := Find(path, SEPARATOR);
    if cut == |path| then [path] else [path[..cut]] + Segments(path[cut + 1..])
  }

  function Joined(segments: seq<Text>): Text
    requires |segments| > 0
  {
    if |segments| == 1 then segments[0] else segments[0] + [SEPARATOR] + Joined(segments[1..])
  }

  /** Splitting at the separators loses nothing. */
  lemma {:induction false} SegmentsJoin(path: Text)
    ensures Joined(Segments(path)) == path
    ensures forall i :: 0 <= i < |Segments(path)| ==> SEPARATOR !in Segments(path)[i]
  {
    var cut := Find(path, SEPARATOR);
    if cut < |path| {
      SegmentsJoin(path[cut + 1..]);
      assert path == path[..cut] + [SEPARATOR] + path[cut + 1..];
      assert Segments(path)[1..] == Segments(path[cut + 1..]);
    }
  }

  predicate SafeSegments(segments: seq<Text>, fold: Fold) {
    forall i :: 0 <= i < |segments| ==> SafeSegment(segments[i], fold)
  }

  predicate SafePath(path: Text, fold: Fold) {
    && 0 < |path| <= MAXIMUM_PATH
    && path[0] != SEPARATOR && path[|path| - 1] != SEPARATOR
    && SLASH !in path
    && |Segments(path)| <= MAXIMUM_DEPTH + 1
    && SafeSegments(Segments(path), fold)
  }

  /** Exactly these paths are safe: at most nine safe names, one separator between them, and 1024 characters. */
  lemma SafePathExactly(path: Text, fold: Fold)
    ensures SafePath(path, fold) <==>
      && |path| <= 1024 && |Segments(path)| <= 9
      && forall i :: 0 <= i < |Segments(path)| ==> SafeSegment(Segments(path)[i], fold)
  {
    hide Reserved;
    var segments := Segments(path);
    if forall i :: 0 <= i < |segments| ==> SafeSegment(segments[i], fold) {
      SegmentsJoin(path);
      NoSlashJoined(segments, fold);
      EndsOfJoined(segments, fold);
    }
  }

  lemma {:induction false} NoSlashJoined(segments: seq<Text>, fold: Fold)
    requires |segments| > 0 && SafeSegments(segments, fold)
    ensures SLASH !in Joined(segments)
  {
    hide Reserved, Forbidden;
    assert SafeSegment(segments[0], fold);
    ForbiddenExactly(SLASH);
    assert SLASH !in segments[0];
    if |segments| > 1 {
      assert forall i :: 0 <= i < |segments| - 1 ==> segments[1..][i] == segments[i + 1];
      NoSlashJoined(segments[1..], fold);
    }
  }

  lemma {:induction false} EndsOfJoined(segments: seq<Text>, fold: Fold)
    requires |segments| > 0 && SafeSegments(segments, fold)
    ensures var path := Joined(segments);
      |path| > 0 && path[0] != SEPARATOR && path[|path| - 1] != SEPARATOR
  {
    hide Reserved, Forbidden;
    assert SafeSegment(segments[0], fold);
    ForbiddenExactly(SEPARATOR);
    assert SEPARATOR !in segments[0];
    if |segments| > 1 {
      assert forall i :: 0 <= i < |segments| - 1 ==> segments[1..][i] == segments[i + 1];
      EndsOfJoined(segments[1..], fold);
    }
  }

  /** Walks over the path separator by separator. */
  method CheckPath(path: Text, fold: Fold) returns (count: Option<nat>)
    ensures count == if SafePath(path, fold) then Some(|Segments(path)|) else None
  {
    hide SafeSegment, Segments, SafeSegments, Find;
    if |path| == 0 || |path| > MAXIMUM_PATH || path[0] == SEPARATOR || path[|path| - 1] == SEPARATOR || SLASH in path {
      return None;
    }
    var seen, begin := 0, 0;
    while begin < |path|
      invariant 0 <= begin < |path| && seen <= MAXIMUM_DEPTH + 1
      invariant |Segments(path)| == seen + |Segments(path[begin..])|
      invariant SafeSegments(Segments(path), fold) <==> SafeSegments(Segments(path[begin..]), fold)
    {
      var rest := path[begin..];
      var cut := Find(rest, SEPARATOR);
      SplitOnce(rest, fold);
      if !SafeSegment(rest[..cut], fold) {
        return None;
      }
      seen := seen + 1;
      if seen > MAXIMUM_DEPTH + 1 {
        return None;
      }
      if cut == |rest| {
        break;
      }
      assert rest[cut + 1..] == path[begin + cut + 1..];
      begin := begin + cut + 1;
    }
    return Some(seen);
  }

  lemma SplitOnce(rest: Text, fold: Fold)
    ensures var cut := Find(rest, SEPARATOR);
      && (cut == |rest| ==> rest[..cut] == rest && |Segments(rest)| == 1
                            && (SafeSegments(Segments(rest), fold) <==> SafeSegment(rest, fold)))
      && (cut < |rest| ==>
            && |Segments(rest)| == 1 + |Segments(rest[cut + 1..])|
            && (SafeSegments(Segments(rest), fold)
                <==> SafeSegment(rest[..cut], fold) && SafeSegments(Segments(rest[cut + 1..]), fold)))
  {
    hide SafeSegments, SafeSegment, Segments, Find;
    var cut := Find(rest, SEPARATOR);
    var more := if cut == |rest| then [] else Segments(rest[cut + 1..]);
    SegmentsStep(rest);
    SafeFirst(rest[..cut], more, fold);
    assert rest[..|rest|] == rest;
  }

  lemma SegmentsStep(path: Text)
    ensures var cut := Find(path, SEPARATOR);
      Segments(path) == [path[..cut]] + (if cut == |path| then [] else Segments(path[cut + 1..]))
  {
    hide Find;
    assert path[..|path|] == path;
  }

  lemma SafeFirst(first: Text, more: seq<Text>, fold: Fold)
    ensures SafeSegments([first] + more, fold) <==> SafeSegment(first, fold) && SafeSegments(more, fold)
    ensures SafeSegments([], fold)
  {
    hide SafeSegment;
    var all := [first] + more;
    assert all[0] == first;
    if SafeSegments(all, fold) {
      forall i | 0 <= i < |more| ensures SafeSegment(more[i], fold) {
        assert more[i] == all[i + 1];
      }
    }
  }

  // ---------- parents ----------

  /** The position of the last separator. */
  function LastSeparator(path: Text): (r: Option<nat>)
    ensures r.Some? ==> r.value < |path| && path[r.value] == SEPARATOR && SEPARATOR !in path[r.value + 1..]
    ensures r.None? ==> SEPARATOR !in path
    decreases |path|
  {
    if |path| == 0 then None
    else if path[|path| - 1] == SEPARATOR then Some(|path| - 1)
    else
      var front := path[..|path| - 1];
      var r := LastSeparator(front);
      assert path == front + [path[|path| - 1]];
      assert r.Some? ==> path[r.value + 1..] == front[r.value + 1..] + [path[|path| - 1]];
      r
  }

  /** The path without its last name. */
  function Parent(path: Text): (r: Option<Text>)
    ensures r.Some? ==> |r.value| < |path| && r.value + [SEPARATOR] <= path
  {
    var cut := LastSeparator(path);
    if cut.None? then None
    else
      assert path[..cut.value] + [SEPARATOR] == path[..cut.value + 1];
      Some(path[..cut.value])
  }

  /** The directory itself or something below it. */
  predicate UnderCandidate(path: Text, name: Text) {
    path == name || (|path| > |name| + 1 && name + [SEPARATOR] <= path)
  }
}
