/**
 The manifest of the directories to be deleted, and the bytes that its digest is
 taken of: different manifests never have the same bytes.
 */
module EfiManifest {
  import opened Bytes
  import opened Results
  import opened Texts

  type FileId = s: seq<byte> | |s| == 16 witness seq(16, _ => 0)
  type Digest = s: seq<byte> | |s| == 32 witness seq(32, _ => 0)

  datatype EntryKind = RegularFile | Directory | Reparse | UnknownKind

  datatype Entry = Entry(
    kind: EntryKind,
    path: Text,
    serial: u64,
    fileId: FileId,
    size: u64,
    creation: u64,
    lastAccess: u64,
    lastWrite: u64,
    change: u64,
    links: u32,
    sha: Digest,
    hasSha: bool)

  datatype Candidate = Candidate(name: Text, entries: seq<Entry>)

  const MAXIMUM_MATERIAL: nat := 16 * 1024 * 1024

  // ---------- the bytes ----------

  function KindByte(kind: EntryKind): byte {
    match kind
    case RegularFile => 0
    case Directory => 1
    case Reparse => 2
    case UnknownKind => 3
  }

  function Units(text: Text): (bytes: seq<byte>)
    ensures |bytes| == 2 * |text|
  {
    if |text| == 0 then [] else Little(text[0], 2) + Units(text[1..])
  }

  /** A text with its length in front; the length is stored in 32 bits. */
  function TextBytes(text: Text): (bytes: seq<byte>)
    ensures |bytes| == 4 + 2 * |text|
  {
    Little(|text|, 4) + Units(text)
  }

  /** Everything about an entry behind its path; it always has the same length. */
  function Tail(e: Entry): (bytes: seq<byte>)
    ensures |bytes| == 101
  {
    Little(e.serial, 8) + e.fileId + Little(e.size, 8) + Little(e.creation, 8) + Little(e.lastAccess, 8)
    + Little(e.lastWrite, 8) + Little(e.change, 8) + Little(e.links, 4) + [if e.hasSha then 1 else 0] + e.sha
  }

  function EntryBytes(e: Entry): (bytes: seq<byte>)
    ensures |bytes| >= 1
  {
    [KindByte(e.kind)] + TextBytes(e.path) + Tail(e)
  }

  function EntriesBytes(entries: seq<Entry>): seq<byte>
    decreases |entries|
  {
    if |entries| == 0 then [] else EntriesBytes(entries[..|entries| - 1]) + EntryBytes(entries[|entries| - 1])
  }

  function CandidateBytes(c: Candidate): seq<byte> {
    TextBytes(c.name) + Little(|c.entries|, 4) + EntriesBytes(c.entries)
  }

  function CandidatesBytes(cs: seq<Candidate>): seq<byte>
    decreases |cs|
  {
    if |cs| == 0 then [] else CandidatesBytes(cs[..|cs| - 1]) + CandidateBytes(cs[|cs| - 1])
  }

  /** "YTEC-EFI-REMOVE-MANIFEST-V1" */
  function Domain(): (bytes: seq<byte>)
    ensures |bytes| == 27
  {
    [0x59, 0x54, 0x45, 0x43, 0x2D, 0x45, 0x46, 0x49, 0x2D, 0x52, 0x45, 0x4D, 0x4F, 0x56, 0x45, 0x2D, 0x4D, 0x41,
     0x4E, 0x49, 0x46, 0x45, 0x53, 0x54, 0x2D, 0x56, 0x31]
  }

  function MaterialHead(count: nat): (bytes: seq<byte>)
    ensures |bytes| == 35
  {
    Little(27, 4) + Domain() + Little(count, 4)
  }

  /** The bytes that the digest is taken of. */
  function Material(cs: seq<Candidate>): seq<byte> {
    MaterialHead(|cs|) + CandidatesBytes(cs)
  }

  /** The lengths fit the 32 bits they are stored in. */
  predicate Encodable(cs: seq<Candidate>) {
    && |cs| < U32_LIMIT
    && forall i :: 0 <= i < |cs| ==> EncodableCandidate(cs[i])
  }

  predicate EncodableCandidate(c: Candidate) {
    && |c.name| < U32_LIMIT && |c.entries| < U32_LIMIT
    && forall i :: 0 <= i < |c.entries| ==> |c.entries[i].path| < U32_LIMIT
  }

  // ---------- what stands where ----------

  /** The bytes begin with the label of the format, its length in front, and the number of the candidates. */
  lemma MaterialBegins(cs: seq<Candidate>)
    requires |cs| < U32_LIMIT
    ensures var m, domain := Material(cs), "YTEC-EFI-REMOVE-MANIFEST-V1";
      && |m| >= 35 && U32At(m, 0) == |domain| == 27
      && (forall i :: 0 <= i < 27 ==> m[4 + i] == domain[i] as int)
      && U32At(m, 31) == |cs|
  {
    hide Little, FromLittle, CandidatesBytes;
    var m := Material(cs);
    assert m[0..4] == Little(27, 4) && m[31..35] == Little(|cs|, 4);
    assert forall i :: 0 <= i < 27 ==> m[4 + i] == Domain()[i];
    DomainText();
    U32Stored(m, 0, 27);
    U32Stored(m, 31, |cs|);
  }

  lemma DomainText()
    ensures forall i :: 0 <= i < 27 ==> Domain()[i] == "YTEC-EFI-REMOVE-MANIFEST-V1"[i] as int
  {
  }

  /** An entry: its kind, the length of its path, the path, and 101 bytes about the object. */
  lemma EntryBegins(e: Entry)
    requires |e.path| < U32_LIMIT
    ensures var bytes, n := EntryBytes(e), |e.path|;
      && |bytes| == 106 + 2 * n
      && (e.kind == RegularFile ==> bytes[0] == 0) && (e.kind == Directory ==> bytes[0] == 1)
      && U32At(bytes, 1) == n
      && bytes[5 + 2 * n..] == Tail(e)
  {
    hide Little, FromLittle, Tail, Units;
    var bytes := EntryBytes(e);
    assert bytes[1..5] == Little(|e.path|, 4);
    U32Stored(bytes, 1, |e.path|);
  }

  // ---------- unique decoding ----------

  /** Parts of equal length: if the wholes agree, so do the parts. */
  lemma SameParts(a: seq<byte>, b: seq<byte>, x: seq<byte>, y: seq<byte>)
    requires |a| == |b| && a + x == b + y
    ensures a == b && x == y
  {
    assert (a + x)[..|a|] == a && (b + y)[..|b|] == b;
    assert (a + x)[|a|..] == x && (b + y)[|b|..] == y;
  }

  lemma LittleInjective(a: nat, b: nat, width: nat)
    requires a < Capacity(width) && b < Capacity(width) && Little(a, width) == Little(b, width)
    ensures a == b
  {
    LittleRoundTrip(a, width);
    LittleRoundTrip(b, width);
  }

  lemma {:induction false} UnitsInjective(a: Text, b: Text)
    requires |a| == |b| && Units(a) == Units(b)
    ensures a == b
  {
    if |a| > 0 {
      Capacities();
      SameParts(Little(a[0], 2), Little(b[0], 2), Units(a[1..]), Units(b[1..]));
      LittleInjective(a[0], b[0], 2);
      UnitsInjective(a[1..], b[1..]);
      assert a == [a[0]] + a[1..] && b == [b[0]] + b[1..];
    }
  }

  lemma TextDecodes(a: Text, b: Text, x: seq<byte>, y: seq<byte>)
    requires |a| < U32_LIMIT && |b| < U32_LIMIT && TextBytes(a) + x == TextBytes(b) + y
    ensures a == b && x == y
  {
    hide Little, Units;
    Capacities();
    assert TextBytes(a) + x == Little(|a|, 4) + (Units(a) + x);
    assert TextBytes(b) + y == Little(|b|, 4) + (Units(b) + y);
    SameParts(Little(|a|, 4), Little(|b|, 4), Units(a) + x, Units(b) + y);
    LittleInjective(|a|, |b|, 4);
    SameParts(Units(a), Units(b), x, y);
    UnitsInjective(a, b);
  }

  lemma TailSlices(e: Entry)
    ensures var t := Tail(e);
      && t[0..8] == Little(e.serial, 8) && t[8..24] == e.fileId && t[24..32] == Little(e.size, 8)
      && t[32..40] == Little(e.creation, 8) && t[40..48] == Little(e.lastAccess, 8)
      && t[48..56] == Little(e.lastWrite, 8) && t[56..64] == Little(e.change, 8) && t[64..68] == Little(e.links, 4)
      && t[68] == (if e.hasSha then 1 else 0) && t[69..101] == e.sha
  {
    hide Little;
  }

  lemma TailDecodes(a: Entry, b: Entry)
    requires Tail(a) == Tail(b)
    ensures a == b.(kind := a.kind, path := a.path)
  {
    hide Tail, Little;
    TailSlices(a);
    TailSlices(b);
    Capacities();
    LittleInjective(a.serial, b.serial, 8);
    LittleInjective(a.size, b.size, 8);
    LittleInjective(a.creation, b.creation, 8);
    LittleInjective(a.lastAccess, b.lastAccess, 8);
    LittleInjective(a.lastWrite, b.lastWrite, 8);
    LittleInjective(a.change, b.change, 8);
    LittleInjective(a.links, b.links, 4);
  }

  lemma EntryDecodes(a: Entry, b: Entry, x: seq<byte>, y: seq<byte>)
    requires |a.path| < U32_LIMIT && |b.path| < U32_LIMIT && EntryBytes(a) + x == EntryBytes(b) + y
    ensures a == b && x == y
  {
    hide Tail, TextBytes, Little;
    assert EntryBytes(a) + x == [KindByte(a.kind)] + (TextBytes(a.path) + (Tail(a) + x));
    assert EntryBytes(b) + y == [KindByte(b.kind)] + (TextBytes(b.path) + (Tail(b) + y));
    SameParts([KindByte(a.kind)], [KindByte(b.kind)], TextBytes(a.path) + (Tail(a) + x),
              TextBytes(b.path) + (Tail(b) + y));
    assert KindByte(a.kind) == [KindByte(a.kind)][0] == KindByte(b.kind);
    TextDecodes(a.path, b.path, Tail(a) + x, Tail(b) + y);
    SameParts(Tail(a), Tail(b), x, y);
    TailDecodes(a, b);
  }

  lemma {:induction false} EntriesFront(entries: seq<Entry>)
    requires |entries| > 0
    ensures EntriesBytes(entries) == EntryBytes(entries[0]) + EntriesBytes(entries[1..])
    decreases |entries|
  {
    hide EntryBytes;
    if |entries| > 1 {
      EntriesFront(entries[..|entries| - 1]);
      assert entries[..|entries| - 1][1..] == entries[1..][..|entries| - 2];
    } else {
      assert entries[..0] == [] && entries[1..] == [];
    }
  }

  lemma {:induction false} EntriesDecode(a: seq<Entry>, b: seq<Entry>, x: seq<byte>, y: seq<byte>)
    requires |a| == |b| && EntriesBytes(a) + x == EntriesBytes(b) + y
    requires forall i :: 0 <= i < |a| ==> |a[i].path| < U32_LIMIT && |b[i].path| < U32_LIMIT
    ensures a == b && x == y
    decreases |a|
  {
    hide EntryBytes;
    if |a| > 0 {
      EntriesFront(a);
      EntriesFront(b);
      assert EntriesBytes(a) + x == EntryBytes(a[0]) + (EntriesBytes(a[1..]) + x);
      assert EntriesBytes(b) + y == EntryBytes(b[0]) + (EntriesBytes(b[1..]) + y);
      EntryDecodes(a[0], b[0], EntriesBytes(a[1..]) + x, EntriesBytes(b[1..]) + y);
      EntriesDecode(a[1..], b[1..], x, y);
      assert a == [a[0]] + a[1..] && b == [b[0]] + b[1..];
    } else {
      assert EntriesBytes(a) + x == x && EntriesBytes(b) + y == y;
    }
  }

  lemma CandidateDecodes(a: Candidate, b: Candidate, x: seq<byte>, y: seq<byte>)
    requires EncodableCandidate(a) && EncodableCandidate(b) && CandidateBytes(a) + x == CandidateBytes(b) + y
    ensures a == b && x == y
  {
    hide EntriesBytes, TextBytes, Little;
    Capacities();
    var p, q := EntriesBytes(a.entries) + x, EntriesBytes(b.entries) + y;
    assert CandidateBytes(a) + x == TextBytes(a.name) + (Little(|a.entries|, 4) + p);
    assert CandidateBytes(b) + y == TextBytes(b.name) + (Little(|b.entries|, 4) + q);
    TextDecodes(a.name, b.name, Little(|a.entries|, 4) + p, Little(|b.entries|, 4) + q);
    SameParts(Little(|a.entries|, 4), Little(|b.entries|, 4), p, q);
    LittleInjective(|a.entries|, |b.entries|, 4);
    EntriesDecode(a.entries, b.entries, x, y);
  }

  lemma {:induction false} CandidatesFront(cs: seq<Candidate>)
    requires |cs| > 0
    ensures CandidatesBytes(cs) == CandidateBytes(cs[0]) + CandidatesBytes(cs[1..])
    decreases |cs|
  {
    hide CandidateBytes;
    if |cs| > 1 {
      CandidatesFront(cs[..|cs| - 1]);
      assert cs[..|cs| - 1][1..] == cs[1..][..|cs| - 2];
    } else {
      assert cs[..0] == [] && cs[1..] == [];
    }
  }

  lemma {:induction false} CandidatesDecode(a: seq<Candidate>, b: seq<Candidate>)
    requires |a| == |b| && Encodable(a) && Encodable(b) && CandidatesBytes(a) == CandidatesBytes(b)
    ensures a == b
    decreases |a|
  {
    hide CandidateBytes, EncodableCandidate;
    if |a| > 0 {
      CandidatesFront(a);
      CandidatesFront(b);
      assert EncodableCandidate(a[0]) && EncodableCandidate(b[0]);
      CandidateDecodes(a[0], b[0], CandidatesBytes(a[1..]), CandidatesBytes(b[1..]));
      CandidatesDecode(a[1..], b[1..]);
      assert a == [a[0]] + a[1..] && b == [b[0]] + b[1..];
    }
  }

  /** Equal material means equal candidates. */
  lemma MaterialIsUnique(a: seq<Candidate>, b: seq<Candidate>)
    requires Encodable(a) && Encodable(b) && Material(a) == Material(b)
    ensures a == b
  {
    hide CandidatesBytes, Little, EncodableCandidate, Domain;
    Capacities();
    SameParts(MaterialHead(|a|), MaterialHead(|b|), CandidatesBytes(a), CandidatesBytes(b));
    SameParts(Little(27, 4) + Domain(), Little(27, 4) + Domain(), Little(|a|, 4), Little(|b|, 4));
    LittleInjective(|a|, |b|, 4);
    CandidatesDecode(a, b);
  }

  // ---------- the loops ----------

  /** Bytes are only appended while they fit the limit. */
  function Appended(material: seq<byte>, bytes: seq<byte>): (r: Option<seq<byte>>)
    ensures r.Some? <==> |material| + |bytes| <= MAXIMUM_MATERIAL
    ensures r.Some? ==> r.value == material + bytes
  {
    if |material| + |bytes| <= MAXIMUM_MATERIAL then Some(material + bytes) else None
  }

  /** Serializes entry by entry; what does not fit the limit is refused as soon as it is reached. */
  method SerializeManifest(cs: seq<Candidate>) returns (r: Option<seq<byte>>)
    ensures r == if |Material(cs)| <= MAXIMUM_MATERIAL then Some(Material(cs)) else None
  {
    hide Little, CandidateBytes, Domain;
    var material := MaterialHead(|cs|);
    for k := 0 to |cs|
      invariant material == MaterialHead(|cs|) + CandidatesBytes(cs[..k]) && |material| <= MAXIMUM_MATERIAL
    {
      assert cs[..k + 1][..k] == cs[..k];
      PrefixIsShorter(cs, k + 1);
      var longer := SerializeCandidate(material, cs[k]);
      if longer.None? {
        return None;
      }
      material := longer.value;
    }
    assert cs[..|cs|] == cs;
    return Some(material);
  }

  method SerializeCandidate(material: seq<byte>, c: Candidate) returns (r: Option<seq<byte>>)
    requires |material| <= MAXIMUM_MATERIAL
    ensures r == Appended(material, CandidateBytes(c))
  {
    hide Little, EntryBytes, TextBytes;
    var head := TextBytes(c.name) + Little(|c.entries|, 4);
    if |material| + |head| > MAXIMUM_MATERIAL {
      return None;
    }
    var longer := material + head;
    for k := 0 to |c.entries|
      invariant longer == material + head + EntriesBytes(c.entries[..k]) && |longer| <= MAXIMUM_MATERIAL
    {
      assert c.entries[..k + 1][..k] == c.entries[..k];
      FrontIsShorter(c.entries, k + 1);
      var next := EntryBytes(c.entries[k]);
      if |longer| + |next| > MAXIMUM_MATERIAL {
        return None;
      }
      longer := longer + next;
    }
    assert c.entries[..|c.entries|] == c.entries;
    assert longer == material + CandidateBytes(c);
    return Some(longer);
  }

  lemma {:induction false} FrontIsShorter(entries: seq<Entry>, k: nat)
    requires k <= |entries|
    ensures |EntriesBytes(entries[..k])| <= |EntriesBytes(entries)|
    decreases |entries|
  {
    hide EntryBytes;
    if k < |entries| {
      FrontIsShorter(entries[..|entries| - 1], k);
      assert entries[..|entries| - 1][..k] == entries[..k];
    } else {
      assert entries[..k] == entries;
    }
  }

  lemma {:induction false} PrefixIsShorter(cs: seq<Candidate>, k: nat)
    requires k <= |cs|
    ensures |CandidatesBytes(cs[..k])| <= |CandidatesBytes(cs)|
    decreases |cs|
  {
    hide CandidateBytes;
    if k < |cs| {
      PrefixIsShorter(cs[..|cs| - 1], k);
      assert cs[..|cs| - 1][..k] == cs[..k];
    } else {
      assert cs[..k] == cs;
    }
  }
}
