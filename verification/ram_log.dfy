/**
 The bounded log in memory: it keeps the newest records that fit two limits, and
 passes records on to a persistent sink until it is isolated for good.
 */
module RamLog {
  import opened Bytes
  import opened Texts

  datatype Level = Info | Warning | Error | Debug

  datatype Record = Record(level: Level, message: Text)

  datatype Limits = Limits(records: nat, totalCharacters: nat, messageCharacters: nat)

  const SPACE: u16 := 0x20
  const DOT: u16 := 0x2E

  // ---------- sanitizing ----------

  /** Control characters become spaces. */
  function Printable(c: u16): u16 {
    if c < SPACE then SPACE else c
  }

  /** Appends a character, unless it would be a second space in a row. */
  function Push(text: Text, c: u16): Text {
    if c == SPACE && |text| > 0 && text[|text| - 1] == SPACE then text else text + [c]
  }

  function Collapsed(message: Text): (text: Text)
    ensures |text| <= |message|
    decreases |message|
  {
    if |message| == 0 then [] else Push(Collapsed(message[..|message| - 1]), Printable(message[|message| - 1]))
  }

  function Shortened(text: Text, length: nat): Text {
    if |text| > length then text[..length] else text
  }

  /** One line of at most `maximum` characters; a longer message ends in three dots. */
  function Sanitized(message: Text, maximum: nat): (text: Text)
    ensures |text| <= maximum
  {
    var length := if |message| < maximum then |message| else maximum;
    var text := Collapsed(message[..length]);
    if |message| > length && maximum >= 3 then Shortened(text, maximum - 3) + [DOT, DOT, DOT] else text
  }

  predicate Clean(text: Text) {
    && (forall i :: 0 <= i < |text| ==> text[i] >= SPACE)
    && (forall i :: 0 < i < |text| ==> !(text[i - 1] == SPACE && text[i] == SPACE))
  }

  lemma {:induction false} CollapsedIsClean(message: Text)
    ensures Clean(Collapsed(message))
    decreases |message|
  {
    if |message| > 0 {
      CollapsedIsClean(message[..|message| - 1]);
    }
  }

  lemma {:induction false} CleanIsCollapsed(text: Text)
    requires Clean(text)
    ensures Collapsed(text) == text
    decreases |text|
  {
    if |text| > 0 {
      var front := text[..|text| - 1];
      CleanIsCollapsed(front);
      assert front + [text[|text| - 1]] == text;
    }
  }

  lemma SanitizedIsClean(message: Text, maximum: nat)
    ensures Clean(Sanitized(message, maximum))
  {
    var length := if |message| < maximum then |message| else maximum;
    CollapsedIsClean(message[..length]);
  }

  /** Sanitizing again, under the same limit or a larger one, changes nothing. */
  lemma SanitizedAgain(message: Text, maximum: nat, larger: nat)
    requires maximum <= larger
    ensures Sanitized(Sanitized(message, maximum), larger) == Sanitized(message, maximum)
  {
    var text := Sanitized(message, maximum);
    SanitizedIsClean(message, maximum);
    CleanIsCollapsed(text);
    assert text[..|text|] == text;
  }

  // ---------- what sanitizing keeps ----------

  predicate IsBlank(c: u16) {
    c <= SPACE
  }

  predicate StartsBlank(text: Text) {
    |text| > 0 && IsBlank(text[0])
  }

  predicate EndsBlank(text: Text) {
    |text| > 0 && IsBlank(text[|text| - 1])
  }

  /** The words of a text: what stands between spaces and control characters. */
  function Words(text: Text): (words: seq<Text>)
    ensures |text| > 0 && !EndsBlank(text) ==>
              |words| > 0 && |words[|words| - 1]| > 0
              && words[|words| - 1][|words[|words| - 1]| - 1] == text[|text| - 1]
    decreases |text|
  {
    if |text| == 0 then []
    else
      var front, c := text[..|text| - 1], text[|text| - 1];
      var words := Words(front);
      if IsBlank(c) then words
      else if |front| == 0 || EndsBlank(front) then words + [[c]]
      else words[..|words| - 1] + [words[|words| - 1] + [c]]
  }

  lemma WordsNext(text: Text, c: u16)
    ensures Words(text + [c]) ==
      if IsBlank(c) then Words(text)
      else if |text| == 0 || EndsBlank(text) then Words(text) + [[c]]
      else Words(text)[..|Words(text)| - 1] + [Words(text)[|Words(text)| - 1] + [c]]
    ensures StartsBlank(text + [c]) == if |text| == 0 then IsBlank(c) else StartsBlank(text)
    ensures EndsBlank(text + [c]) == IsBlank(c)
  {
    assert (text + [c])[..|text|] == text;
  }

  lemma {:induction false} CollapsedKeepsWords(message: Text)
    ensures Words(Collapsed(message)) == Words(message)
    ensures Collapsed(message) == [] <==> message == []
    ensures StartsBlank(Collapsed(message)) == StartsBlank(message)
    ensures EndsBlank(Collapsed(message)) == EndsBlank(message)
    decreases |message|
  {
    hide Words, StartsBlank, Clean;
    if |message| > 0 {
      var front, c := message[..|message| - 1], message[|message| - 1];
      var text := Collapsed(front);
      CollapsedKeepsWords(front);
      CollapsedIsClean(front);
      assert message == front + [c];
      WordsNext(front, c);
      WordsNext(text, Printable(c));
      EndsInSpace(text);
    } else {
      assert Collapsed(message) == message;
    }
  }

  lemma EndsInSpace(text: Text)
    requires Clean(text)
    ensures EndsBlank(text) <==> |text| > 0 && text[|text| - 1] == SPACE
  {
  }

  lemma SanitizedWhole(message: Text, maximum: nat)
    requires |message| <= maximum
    ensures Sanitized(message, maximum) == Collapsed(message)
  {
    assert message[..|message|] == message;
  }

  /** A message that fits keeps its words; one that is clean already is not changed at all. */
  lemma SanitizedKeepsWords(message: Text, maximum: nat)
    requires |message| <= maximum
    ensures Words(Sanitized(message, maximum)) == Words(message)
    ensures Sanitized(message, maximum) == [] <==> message == []
    ensures StartsBlank(Sanitized(message, maximum)) == StartsBlank(message)
    ensures EndsBlank(Sanitized(message, maximum)) == EndsBlank(message)
    ensures Clean(message) ==> Sanitized(message, maximum) == message
  {
    hide *;
    SanitizedWhole(message, maximum);
    CollapsedKeepsWords(message);
    if Clean(message) {
      CleanIsCollapsed(message);
    }
  }

  /** A longer message: its front, with three dots at the end if there is room for them. */
  lemma SanitizedFront(message: Text, maximum: nat)
    requires |message| > maximum
    ensures var front := Sanitized(message[..maximum], maximum);
      Sanitized(message, maximum)
      == if maximum < 3 then front else Shortened(front, maximum - 3) + [DOT, DOT, DOT]
  {
    assert message[..maximum][..maximum] == message[..maximum];
  }

  lemma NoWords(text: Text)
    requires Clean(text) && Words(text) == []
    ensures text == [] || text == [SPACE]
  {
    if |text| > 0 {
      var front, c := text[..|text| - 1], text[|text| - 1];
      assert text == front + [c];
      WordsNext(front, c);
    }
  }

  /** There is only one clean text with these words and these ends. */
  lemma {:induction false} CleanIsUnique(a: Text, b: Text)
    requires Clean(a) && Clean(b) && Words(a) == Words(b)
    requires StartsBlank(a) == StartsBlank(b) && EndsBlank(a) == EndsBlank(b)
    ensures a == b
    decreases |a|
  {
    if Words(a) == [] {
      NoWords(a);
      NoWords(b);
      return;
    }
    FrontOfClean(a);
    FrontOfClean(b);
    CleanIsUnique(a[..|a| - 1], b[..|b| - 1]);
  }

  /** The front of a clean text, and how its words and its end follow from those of the text. */
  lemma FrontOfClean(a: Text)
    requires Clean(a) && Words(a) != []
    ensures |a| > 0
    ensures var f, words := a[..|a| - 1], Words(a);
      var last := words[|words| - 1];
      && a == f + [a[|a| - 1]] && Clean(f)
      && (if EndsBlank(a) then a[|a| - 1] == SPACE && Words(f) == words && !EndsBlank(f)
          else
            && |last| > 0 && a[|a| - 1] == last[|last| - 1]
            && Words(f) == words[..|words| - 1] + (if |last| == 1 then [] else [last[..|last| - 1]])
            && EndsBlank(f) == (|last| == 1 && !(|words| == 1 && !StartsBlank(a))))
      && StartsBlank(f) == (StartsBlank(a) && !(|a| == 1))
      && (|a| == 1 ==> |words| == 1 && !StartsBlank(a))
  {
    var f, c := a[..|a| - 1], a[|a| - 1];
    assert a == f + [c];
    WordsNext(f, c);
    if Words(f) == [] {
      NoWords(f);
    }
  }

  method SanitizeMessage(message: Text, maximum: nat) returns (sanitized: Text)
    ensures sanitized == Sanitized(message, maximum)
  {
    var length := if |message| < maximum then |message| else maximum;
    sanitized := [];
    var previousSpace := false;
    for k := 0 to length
      invariant sanitized == Collapsed(message[..k])
      invariant previousSpace <==> |sanitized| > 0 && sanitized[|sanitized| - 1] == SPACE
    {
      assert message[..k + 1][..k] == message[..k];
      var character := if message[k] < SPACE then SPACE else message[k];
      if character == SPACE && previousSpace {
        continue;
      }
      previousSpace := character == SPACE;
      sanitized := sanitized + [character];
    }
    if |message| > length && maximum >= 3 {
      if |sanitized| > maximum - 3 {
        sanitized := sanitized[..maximum - 3];
      }
      sanitized := sanitized + [DOT, DOT, DOT];
    }
  }

  // ---------- what is kept ----------

  function Characters(records: seq<Record>): (n: nat)
    decreases |records|
  {
    if |records| == 0 then 0
    else Characters(records[..|records| - 1]) + |records[|records| - 1].message|
  }

  predicate Fits(records: seq<Record>, limits: Limits) {
    |records| <= limits.records && Characters(records) <= limits.totalCharacters
  }

  /** The longest end of the history that fits both limits. */
  predicate IsLongestFit(records: seq<Record>, history: seq<Record>, limits: Limits) {
    && |records| <= |history|
    && records == history[|history| - |records|..]
    && Fits(records, limits)
    && (|records| < |history| ==> !Fits(history[|history| - |records| - 1..], limits))
  }

  lemma {:induction false} CharactersSplit(a: seq<Record>, b: seq<Record>)
    ensures Characters(a + b) == Characters(a) + Characters(b)
    decreases |b|
  {
    if |b| > 0 {
      assert (a + b)[..|a + b| - 1] == a + b[..|b| - 1];
      CharactersSplit(a, b[..|b| - 1]);
    } else {
      assert a + b == a;
    }
  }

  lemma CharactersOfOne(r: Record)
    ensures Characters([r]) == |r.message|
  {
    assert [r][..0] == [];
  }

  /** No longer end of the history fits: the one that is kept is the longest. */
  lemma LongestIsUnique(records: seq<Record>, history: seq<Record>, limits: Limits, k: nat)
    requires IsLongestFit(records, history, limits) && k <= |history| && Fits(history[k..], limits)
    ensures |history| - k <= |records|
  {
    if k < |history| - |records| {
      var next := |history| - |records| - 1;
      assert history[k..] == history[k..next] + history[next..];
      CharactersSplit(history[k..next], history[next..]);
    }
  }

  /** What is kept is an end of the history, within both limits. */
  lemma KeptIsEnd(records: seq<Record>, history: seq<Record>, limits: Limits, dropped: nat)
    requires dropped + |records| == |history|
    ensures IsLongestFit(records, history, limits) ==>
      records == history[dropped..] && |records| <= limits.records && Characters(records) <= limits.totalCharacters
    ensures records == [] ==> records == history[dropped..]
  {
  }

  // ---------- the sink ----------

  /** A persistent log, as far as the router knows it: what was written to it. */
  class Sink {
    var received: seq<Record>

    constructor ()
      ensures received == []
    {
      received := [];
    }

    method Write(r: Record)
      modifies this
      ensures received == old(received) + [r]
    {
      received := received + [r];
    }
  }

  // ---------- the router ----------

  class Router {
    const limits: Limits
    var records: seq<Record>
    var dropped: nat
    var storedCharacters: nat
    var sink: Sink?
    var ramOnly: bool
    /** Every record written so far, sanitized. */
    ghost var history: seq<Record>
    /** What the sink had before it was attached, what it was given then, and how much had been written by then. */
    ghost var before: seq<Record>
    ghost var handedOver: seq<Record>
    ghost var attachedAt: nat

    predicate Bounded() {
      limits.records > 0 && limits.totalCharacters > 0
    }

    ghost predicate Valid()
      reads this, sink
    {
      && (limits.totalCharacters > 0 ==> limits.messageCharacters <= limits.totalCharacters)
      && (forall r :: r in history ==> |r.message| <= limits.messageCharacters)
      && (if Bounded() then IsLongestFit(records, history, limits) else records == [])
      && dropped + |records| == |history|
      && storedCharacters == Characters(records)
      && (ramOnly ==> sink == null)
      && attachedAt <= |history|
      && (sink != null ==> sink.received == before + handedOver + history[attachedAt..])
    }

    constructor (requested: Limits)
      ensures Valid() && history == [] && sink == null && !ramOnly
      ensures limits == requested.(messageCharacters := limits.messageCharacters)
      ensures limits.messageCharacters <= requested.messageCharacters
      ensures requested.totalCharacters > 0 ==> limits.messageCharacters <= requested.totalCharacters
      ensures limits.messageCharacters in {requested.messageCharacters, requested.totalCharacters}
      ensures requested.messageCharacters <= requested.totalCharacters || requested.totalCharacters == 0 ==>
        limits == requested
    {
      limits := if requested.totalCharacters != 0 && requested.messageCharacters > requested.totalCharacters then
                  requested.(messageCharacters := requested.totalCharacters)
                else requested;
      records := [];
      dropped := 0;
      storedCharacters := 0;
      sink := null;
      ramOnly := false;
      history := [];
      before := [];
      handedOver := [];
      attachedAt := 0;
    }

    /** Drops the oldest records until the new one fits, keeps it, and passes it on. */
    method Write(r: Record)
      requires Valid()
      modifies this, sink
      ensures Valid()
      ensures history == old(history) + [Record(r.level, Sanitized(r.message, limits.messageCharacters))]
      ensures Bounded() ==> |records| <= limits.records && storedCharacters <= limits.totalCharacters
      ensures dropped + |records| == |history| && records == history[dropped..] && storedCharacters == Characters(records)
      ensures sink == old(sink) && ramOnly == old(ramOnly)
      ensures before == old(before) && handedOver == old(handedOver) && attachedAt == old(attachedAt)
    {
      hide IsLongestFit, Sanitized, Characters, Fits;
      var message := SanitizeMessage(r.message, limits.messageCharacters);
      var sanitized := Record(r.level, message);
      Keep(sanitized);
      SuffixGrows(history, attachedAt, sanitized);
      history := history + [sanitized];
      KeptIsEnd(records, history, limits, dropped);
      if sink != null {
        sink.Write(sanitized);
      }
    }

    /** Keeps the record, if the limits allow any. */
    method Keep(r: Record)
      requires Bounded() ==> IsLongestFit(records, history, limits) && |r.message| <= limits.totalCharacters
      requires !Bounded() ==> records == []
      requires dropped + |records| == |history| && storedCharacters == Characters(records)
      modifies this`records, this`dropped, this`storedCharacters
      ensures Bounded() ==> IsLongestFit(records, history + [r], limits)
      ensures !Bounded() ==> records == []
      ensures dropped + |records| == |history| + 1 && storedCharacters == Characters(records)
    {
      hide IsLongestFit, Characters, Fits;
      if limits.records == 0 || limits.totalCharacters == 0 {
        dropped := dropped + 1;
      } else {
        MakeRoom(r);
        WithOneMore(records, r, limits);
        if |r.message| > limits.totalCharacters {
          assert false;
        }
        records := records + [r];
        storedCharacters := storedCharacters + |r.message|;
      }
    }

    method MakeRoom(r: Record)
      requires Bounded() && IsLongestFit(records, history, limits) && |r.message| <= limits.totalCharacters
      requires dropped + |records| == |history| && storedCharacters == Characters(records)
      modifies this`records, this`dropped, this`storedCharacters
      ensures dropped + |records| == |history| && storedCharacters == Characters(records)
      ensures IsLongestFit(records + [r], history + [r], limits)
    {
      hide Characters, Fits;
      ghost var now := history + [r];
      StillTooLong(records, history, r, limits);
      WithOneMore(records, r, limits);
      while |records| > 0 && (|records| >= limits.records || storedCharacters + |r.message| > limits.totalCharacters)
        invariant |records| <= |history| && records == history[|history| - |records|..]
        invariant dropped + |records| == |history| && storedCharacters == Characters(records)
        invariant |records| < |history| ==> !Fits(now[|history| - |records| - 1..], limits)
      {
        WithOneMore(records, r, limits);
        WithoutFirst(records);
        assert now[|history| - |records|..] == records + [r];
        storedCharacters := storedCharacters - |records[0].message|;
        records := records[1..];
        dropped := dropped + 1;
      }
      WithOneMore(records, r, limits);
      NoRecordsNoCharacters();
      assert now[|now| - |records + [r]|..] == records + [r];
    }

    /** Writes every kept record to the sink, the oldest first. */
    method HandOver(target: Sink)
      modifies target
      ensures target.received == old(target.received) + records
    {
      for k := 0 to |records|
        invariant target.received == old(target.received) + records[..k]
      {
        target.Write(records[k]);
        assert records[..k + 1] == records[..k] + [records[k]];
      }
      assert records[..|records|] == records;
    }

    /** Hands the kept records over; later ones follow as they are written. */
    method AttachPersistentSink(target: Sink) returns (ok: bool)
      requires Valid() && target != sink
      modifies this, target
      ensures Valid() && history == old(history) && records == old(records) && ramOnly == old(ramOnly)
      ensures ok <==> !old(ramOnly) && old(sink) == null
      ensures ok ==> sink == target && target.received == old(target.received) + records
      ensures ok ==> before == old(target.received) && handedOver == records && attachedAt == |history|
      ensures !ok ==> sink == old(sink) && target.received == old(target.received)
      ensures !ok ==> before == old(before) && handedOver == old(handedOver) && attachedAt == old(attachedAt)
    {
      hide IsLongestFit, Characters;
      if ramOnly || sink != null {
        return false;
      }
      HandOver(target);
      before := old(target.received);
      handedOver := records;
      attachedAt := |history|;
      sink := target;
      assert before + handedOver + history[attachedAt..] == before + handedOver;
      return true;
    }

    /** From here on nothing reaches a sink any more, and none can be attached. */
    method IsolateToRamPermanently()
      requires Valid()
      modifies this`sink, this`ramOnly
      ensures Valid() && ramOnly && sink == null
    {
      sink := null;
      ramOnly := true;
    }
  }

  lemma NoRecordsNoCharacters()
    ensures Characters([]) == 0
  {
  }

  lemma WithOneMore(records: seq<Record>, r: Record, limits: Limits)
    ensures Characters(records + [r]) == Characters(records) + |r.message|
    ensures Fits(records + [r], limits)
       <==> |records| < limits.records && Characters(records) + |r.message| <= limits.totalCharacters
    ensures Fits(records + [r], limits) ==> Fits(records, limits)
  {
    CharactersSplit(records, [r]);
    CharactersOfOne(r);
  }

  lemma WithoutFirst(records: seq<Record>)
    requires |records| > 0
    ensures Characters(records) == |records[0].message| + Characters(records[1..])
  {
    CharactersSplit([records[0]], records[1..]);
    CharactersOfOne(records[0]);
    assert records == [records[0]] + records[1..];
  }

  lemma SuffixGrows(history: seq<Record>, at: nat, r: Record)
    requires at <= |history|
    ensures (history + [r])[at..] == history[at..] + [r]
  {
  }

  /** An end that did not fit before does not fit with one record more. */
  lemma StillTooLong(records: seq<Record>, history: seq<Record>, r: Record, limits: Limits)
    requires IsLongestFit(records, history, limits)
    ensures |records| < |history| ==> !Fits((history + [r])[|history| - |records| - 1..], limits)
  {
    if |records| < |history| {
      var longer := history[|history| - |records| - 1..];
      WithOneMore(longer, r, limits);
      assert (history + [r])[|history| - |records| - 1..] == longer + [r];
    }
  }

  /** The records as they are kept and passed on. */
  function Cleaned(rs: seq<Record>, maximum: nat): (cleaned: seq<Record>)
    ensures |cleaned| == |rs|
  {
    seq(|rs|, i requires 0 <= i < |rs| => Record(rs[i].level, Sanitized(rs[i].message, maximum)))
  }

  /** Records before, during and after an attachment: the sink has what was kept then and what came until the isolation. */
  method SinkSeesSuffix(router: Router, sink: Sink, early: seq<Record>, late: seq<Record>, lost: seq<Record>)
    returns (ghost first: seq<Record>, ghost kept: seq<Record>, ghost seen: seq<Record>)
    requires router.Valid() && router.sink == null && !router.ramOnly && sink.received == []
    modifies router, sink
    ensures router.Valid() && router.ramOnly
    ensures first == old(router.history) + Cleaned(early, router.limits.messageCharacters)
    ensures seen == Cleaned(late, router.limits.messageCharacters)
    ensures router.history == first + seen + Cleaned(lost, router.limits.messageCharacters)
    ensures router.Bounded() ==> IsLongestFit(kept, first, router.limits)
    ensures sink.received == kept + seen
  {
    hide IsLongestFit, Characters, Cleaned;
    WriteAll(router, early);
    first := router.history;
    kept := router.records;
    var ok := router.AttachPersistentSink(sink);
    WriteAll(router, late);
    seen := router.history[|first|..];
    assert router.history == first + seen;
    assert [] + kept == kept && sink.received == kept + seen;
    router.IsolateToRamPermanently();
    WriteAll(router, lost);
  }

  method WriteAll(router: Router, rs: seq<Record>)
    requires router.Valid()
    modifies router, router.sink
    ensures router.Valid() && router.sink == old(router.sink) && router.ramOnly == old(router.ramOnly)
    ensures router.before == old(router.before) && router.handedOver == old(router.handedOver)
    ensures router.attachedAt == old(router.attachedAt)
    ensures router.history == old(router.history) + Cleaned(rs, router.limits.messageCharacters)
  {
    hide Sanitized;
    for k := 0 to |rs|
      invariant router.Valid() && router.sink == old(router.sink) && router.ramOnly == old(router.ramOnly)
      invariant router.before == old(router.before) && router.handedOver == old(router.handedOver)
      invariant router.attachedAt == old(router.attachedAt)
      invariant router.history == old(router.history) + Cleaned(rs, router.limits.messageCharacters)[..k]
    {
      router.Write(rs[k]);
    }
  }
}
