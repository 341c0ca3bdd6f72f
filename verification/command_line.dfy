/**
 Passing arguments to a process: how they are quoted into one command line, and
 how the C runtime of the process takes that line apart again.
 */
module CommandLine {
  import opened Bytes
  import opened Texts

  const TAB: u16 := 0x09
  const NEWLINE: u16 := 0x0A
  const VERTICAL_TAB: u16 := 0x0B
  const SPACE: u16 := 0x20
  const QUOTE: u16 := 0x22
  const BACKSLASH: u16 := 0x5C

  // ---------- quoting ----------

  predicate NeedsQuotes(c: u16) {
    c == SPACE || c == TAB || c == NEWLINE || c == VERTICAL_TAB || c == QUOTE
  }

  function Backslashes(n: nat): (t: Text)
    ensures |t| == n && forall i :: 0 <= i < n ==> t[i] == BACKSLASH
  {
    seq(n, _ => BACKSLASH)
  }

  /** The argument between the quotes, behind `pending` backslashes of it. */
  function Escaped(argument: Text, pending: nat): (t: Text)
    decreases |argument|
  {
    if |argument| == 0 then Backslashes(2 * pending)
    else if argument[0] == BACKSLASH then Escaped(argument[1..], pending + 1)
    else if argument[0] == QUOTE then Backslashes(2 * pending + 1) + [QUOTE] + Escaped(argument[1..], 0)
    else Backslashes(pending) + [argument[0]] + Escaped(argument[1..], 0)
  }

  predicate Plain(argument: Text) {
    |argument| > 0 && forall i :: 0 <= i < |argument| ==> !NeedsQuotes(argument[i])
  }

  function Quoted(argument: Text): (t: Text)
    ensures |t| > 0
  {
    if Plain(argument) then argument else [QUOTE] + Escaped(argument, 0) + [QUOTE]
  }

  /** Counts the backslashes until it is clear whether a quote follows. */
  method QuoteWindowsArgument(argument: Text) returns (quoted: Text)
    ensures quoted == Quoted(argument)
  {
    if Plain(argument) {
      return argument;
    }
    quoted := [QUOTE];
    var backslashCount := 0;
    for k := 0 to |argument|
      invariant backslashCount >= 0
      invariant [QUOTE] + Escaped(argument, 0) == quoted + Escaped(argument[k..], backslashCount)
    {
      var character := argument[k];
      assert argument[k..][1..] == argument[k + 1..];
      if character == BACKSLASH {
        backslashCount := backslashCount + 1;
        continue;
      }
      if character == QUOTE {
        quoted := quoted + Backslashes(backslashCount * 2 + 1) + [QUOTE];
        backslashCount := 0;
        continue;
      }
      quoted := quoted + Backslashes(backslashCount) + [character];
      backslashCount := 0;
    }
    quoted := quoted + Backslashes(backslashCount * 2) + [QUOTE];
  }

  /** The part of the command line behind the program: a blank and a quoted argument for each. */
  function ArgumentTail(arguments: seq<Text>): (line: Text) {
    if |arguments| == 0 then [] else [SPACE] + Quoted(arguments[0]) + ArgumentTail(arguments[1..])
  }

  method JoinArguments(program: Text, arguments: seq<Text>) returns (line: Text)
    ensures line == Quoted(program) + ArgumentTail(arguments)
  {
    line := QuoteWindowsArgument(program);
    for k := 0 to |arguments|
      invariant line + ArgumentTail(arguments[k..]) == Quoted(program) + ArgumentTail(arguments)
    {
      assert arguments[k..][1..] == arguments[k + 1..];
      var quoted := QuoteWindowsArgument(arguments[k]);
      line := line + [SPACE];
      line := line + quoted;
    }
  }

  /** An argument is passed as it is exactly if it is not empty and has no blank, line break or quote; else it grows. */
  lemma QuotedIfNeeded(argument: Text)
    ensures Quoted(argument) == argument <==>
      && argument != []
      && forall i :: 0 <= i < |argument| ==> argument[i] !in {0x20, 0x09, 0x0A, 0x0B, 0x22}
    ensures Quoted(argument) != argument ==>
      |Quoted(argument)| >= |argument| + 2 && Quoted(argument)[0] == Quoted(argument)[|Quoted(argument)| - 1] == QUOTE
  {
    EscapedGrows(argument, 0);
  }

  lemma {:induction false} EscapedGrows(argument: Text, pending: nat)
    ensures |Escaped(argument, pending)| >= |argument| + pending
    decreases |argument|
  {
    if |argument| > 0 {
      EscapedGrows(argument[1..], if argument[0] == BACKSLASH then pending + 1 else 0);
    }
  }

  /** One blank in front of every argument, and nothing else between them. */
  lemma {:induction false} TailJoins(a: seq<Text>, b: seq<Text>)
    ensures ArgumentTail(a + b) == ArgumentTail(a) + ArgumentTail(b)
    ensures |a| == 1 ==> ArgumentTail(a) == [0x20] + Quoted(a[0])
    decreases |a|
  {
    hide Quoted;
    if |a| > 0 {
      assert (a + b)[1..] == a[1..] + b;
      TailJoins(a[1..], b);
    } else {
      assert a + b == b;
    }
  }

  // ---------- the C runtime's side ----------

  function LeadingBackslashes(line: Text): (n: nat)
    ensures n <= |line| && line[..n] == Backslashes(n)
    ensures n < |line| ==> line[n] != BACKSLASH
  {
    if |line| == 0 || line[0] != BACKSLASH then 0
    else
      var n := 1 + LeadingBackslashes(line[1..]);
      assert line[..n] == [BACKSLASH] + line[1..][..n - 1];
      n
  }

  predicate Blank(c: u16) {
    c == SPACE || c == TAB
  }

  /** Neither the end of the line nor, outside quotes, a blank. */
  predicate Goes(line: Text, inQuotes: bool) {
    |line| > 0 && line[0] != 0 && (inQuotes || !Blank(line[0]))
  }

  /**
   One argument, and the rest of the line. Backslashes in front of a quote count
   half; the last of an odd number makes the quote a character. Other quotes
   switch quoting on and off, but a doubled one inside quotes is a character.
   */
  function ParseArgument(line: Text, inQuotes: bool): (r: (Text, Text))
    ensures |r.1| <= |line|
    ensures Goes(line, inQuotes) ==> |r.1| < |line|
    decreases |line|
  {
    if !Goes(line, inQuotes) then ([], line)
    else
      var n := LeadingBackslashes(line);
      if n < |line| && line[n] == QUOTE then
        if n % 2 == 1 then
          var (argument, rest) := ParseArgument(line[n + 1..], inQuotes);
          (Backslashes(n / 2) + [QUOTE] + argument, rest)
        else if inQuotes && n + 1 < |line| && line[n + 1] == QUOTE then
          var (argument, rest) := ParseArgument(line[n + 2..], true);
          (Backslashes(n / 2) + [QUOTE] + argument, rest)
        else
          var (argument, rest) := ParseArgument(line[n + 1..], !inQuotes);
          (Backslashes(n / 2) + argument, rest)
      else if n > 0 then
        var (argument, rest) := ParseArgument(line[n..], inQuotes);
        (Backslashes(n) + argument, rest)
      else
        var (argument, rest) := ParseArgument(line[1..], inQuotes);
        ([line[0]] + argument, rest)
  }

  /** All arguments of the line behind the program. */
  function ParseArguments(line: Text): (arguments: seq<Text>)
    decreases |line|
  {
    if |line| == 0 || line[0] == 0 then []
    else if Blank(line[0]) then ParseArguments(line[1..])
    else
      var (argument, rest) := ParseArgument(line, false);
      [argument] + ParseArguments(rest)
  }

  // ---------- the round trip ----------

  /** The line ends here, or the next argument is separated by a blank. */
  predicate Separated(tail: Text) {
    |tail| == 0 || Blank(tail[0])
  }

  lemma {:induction false} LeadingRun(n: nat, rest: Text)
    requires |rest| > 0 && rest[0] != BACKSLASH
    ensures LeadingBackslashes(Backslashes(n) + rest) == n
    decreases n
  {
    var line := Backslashes(n) + rest;
    if n > 0 {
      assert line[1..] == Backslashes(n - 1) + rest;
      LeadingRun(n - 1, rest);
    } else {
      assert line == rest;
    }
  }

  /** A run of backslashes in front of a quote: half of them, and then the quote. */
  lemma RunBeforeQuote(n: nat, rest: Text)
    ensures var line := Backslashes(n) + [QUOTE] + rest;
      && LeadingBackslashes(line) == n && line[n] == QUOTE && line[n + 1..] == rest && Goes(line, true)
  {
    var line := Backslashes(n) + [QUOTE] + rest;
    assert line == Backslashes(n) + ([QUOTE] + rest);
    LeadingRun(n, [QUOTE] + rest);
    assert line[n + 1..] == rest;
  }

  /** A quote behind a run of backslashes, outside quotes or behind an odd run. */
  lemma QuoteStep(line: Text, inQuotes: bool)
    requires Goes(line, inQuotes)
    requires var n := LeadingBackslashes(line);
      n < |line| && line[n] == QUOTE && (n % 2 == 1 || !inQuotes)
    ensures var n := LeadingBackslashes(line);
      var (argument, rest) := ParseArgument(line[n + 1..], if n % 2 == 1 then inQuotes else !inQuotes);
      ParseArgument(line, inQuotes)
      == (if n % 2 == 1 then Backslashes(n / 2) + [QUOTE] + argument else Backslashes(n / 2) + argument, rest)
  {
  }

  /** Outside a run, a character stands for itself. */
  lemma CharacterStep(c: u16, rest: Text)
    requires c != BACKSLASH && c != QUOTE && c != 0
    ensures ParseArgument([c] + rest, true) == ([c] + ParseArgument(rest, true).0, ParseArgument(rest, true).1)
  {
    var line := [c] + rest;
    assert line[1..] == rest && LeadingBackslashes(line) == 0;
  }

  lemma RunStep(n: nat, line: Text)
    requires n > 0 && |line| > 0 && line[0] != BACKSLASH && line[0] != QUOTE
    ensures ParseArgument(Backslashes(n) + line, true)
         == (Backslashes(n) + ParseArgument(line, true).0, ParseArgument(line, true).1)
  {
    LeadingRun(n, line);
    assert (Backslashes(n) + line)[n..] == line;
  }

  lemma RunBeforeCharacter(n: nat, c: u16, rest: Text)
    requires c != BACKSLASH && c != QUOTE && c != 0
    ensures ParseArgument(Backslashes(n) + [c] + rest, true)
         == (Backslashes(n) + [c] + ParseArgument(rest, true).0, ParseArgument(rest, true).1)
  {
    hide ParseArgument;
    CharacterStep(c, rest);
    assert Backslashes(n) + [c] + rest == Backslashes(n) + ([c] + rest);
    var argument := ParseArgument(rest, true).0;
    assert Backslashes(n) + [c] + argument == Backslashes(n) + ([c] + argument);
    if n > 0 {
      RunStep(n, [c] + rest);
    } else {
      assert Backslashes(0) + ([c] + rest) == [c] + rest;
      assert Backslashes(0) + ([c] + argument) == [c] + argument;
    }
  }

  lemma ClosingQuote(n: nat, tail: Text)
    requires Separated(tail)
    ensures ParseArgument(Backslashes(2 * n) + [QUOTE] + tail, true) == (Backslashes(n), tail)
  {
    RunBeforeQuote(2 * n, tail);
    assert ParseArgument(tail, false) == ([], tail);
    assert Backslashes(n) + [] == Backslashes(n);
  }

  lemma {:induction false} EscapedDecodes(argument: Text, pending: nat, tail: Text)
    requires 0 !in argument && Separated(tail)
    ensures ParseArgument(Escaped(argument, pending) + [QUOTE] + tail, true) == (Backslashes(pending) + argument, tail)
    decreases |argument|
  {
    hide ParseArgument, LeadingBackslashes;
    if |argument| == 0 {
      ClosingQuote(pending, tail);
      assert Backslashes(pending) + argument == Backslashes(pending);
    } else {
      var rest := argument[1..];
      assert argument == [argument[0]] + rest;
      if argument[0] == BACKSLASH {
        EscapedDecodes(rest, pending + 1, tail);
        assert Backslashes(pending + 1) + rest == Backslashes(pending) + argument;
      } else if argument[0] == QUOTE {
        EscapedDecodes(rest, 0, tail);
        EscapedQuote(pending, Escaped(rest, 0) + [QUOTE] + tail);
        assert Escaped(argument, pending) + [QUOTE] + tail
            == Backslashes(2 * pending + 1) + [QUOTE] + (Escaped(rest, 0) + [QUOTE] + tail);
        assert Backslashes(pending) + [QUOTE] + (Backslashes(0) + rest) == Backslashes(pending) + argument;
      } else {
        EscapedDecodes(rest, 0, tail);
        RunBeforeCharacter(pending, argument[0], Escaped(rest, 0) + [QUOTE] + tail);
        assert Escaped(argument, pending) + [QUOTE] + tail
            == Backslashes(pending) + [argument[0]] + (Escaped(rest, 0) + [QUOTE] + tail);
        assert Backslashes(pending) + [argument[0]] + (Backslashes(0) + rest) == Backslashes(pending) + argument;
      }
    }
  }

  lemma EscapedQuote(pending: nat, rest: Text)
    ensures ParseArgument(Backslashes(2 * pending + 1) + [QUOTE] + rest, true)
         == (Backslashes(pending) + [QUOTE] + ParseArgument(rest, true).0, ParseArgument(rest, true).1)
  {
    hide ParseArgument, LeadingBackslashes, Backslashes;
    RunBeforeQuote(2 * pending + 1, rest);
    QuoteStep(Backslashes(2 * pending + 1) + [QUOTE] + rest, true);
  }

  lemma {:induction false} PlainDecodes(argument: Text, tail: Text)
    requires 0 !in argument && Separated(tail)
    requires forall i :: 0 <= i < |argument| ==> !NeedsQuotes(argument[i])
    ensures ParseArgument(argument + tail, false) == (argument, tail)
    decreases |argument|
  {
    hide ParseArgument;
    PlainStep(argument, tail);
    if |argument| > 0 {
      var line := argument + tail;
      var n := LeadingBackslashes(line);
      var step := if n > 0 then n else 1;
      PlainDecodes(argument[step..], tail);
      assert argument[..step] + argument[step..] == argument;
    }
  }

  /** Outside quotes a plain argument is taken over, run by run. */
  lemma PlainStep(argument: Text, tail: Text)
    requires 0 !in argument && Separated(tail)
    requires forall i :: 0 <= i < |argument| ==> !NeedsQuotes(argument[i])
    ensures |argument| == 0 ==> ParseArgument(argument + tail, false) == ([], tail)
    ensures |argument| > 0 ==>
      var n := LeadingBackslashes(argument + tail);
      var step := if n > 0 then n else 1;
      && step <= |argument|
      && ParseArgument(argument + tail, false)
         == (argument[..step] + ParseArgument(argument[step..] + tail, false).0,
             ParseArgument(argument[step..] + tail, false).1)
  {
    var line := argument + tail;
    if |argument| == 0 {
      assert line == tail;
    } else {
      var n := LeadingBackslashes(line);
      assert forall i :: 0 <= i < n ==> line[i] == line[..n][i] == BACKSLASH;
      assert |tail| > 0 ==> line[|argument|] == tail[0];
      var step := if n > 0 then n else 1;
      assert line[step..] == argument[step..] + tail;
      assert line[0] == argument[0] && argument[0] in argument && Goes(line, false);
      assert n < |line| ==> line[n] != QUOTE;
      assert n > 0 ==> argument[..step] == Backslashes(n);
      assert n == 0 ==> argument[..step] == [line[0]];
    }
  }

  lemma QuotedDecodes(argument: Text, tail: Text)
    requires 0 !in argument && Separated(tail)
    ensures ParseArgument(Quoted(argument) + tail, false) == (argument, tail)
    ensures !Blank(Quoted(argument)[0]) && Quoted(argument)[0] != 0
  {
    hide ParseArgument, Escaped;
    assert |Quoted(argument)| > 0;
    if Plain(argument) {
      PlainDecodes(argument, tail);
    } else {
      EscapedDecodes(argument, 0, tail);
      OpeningQuote(Escaped(argument, 0) + [QUOTE] + tail);
      assert Quoted(argument) + tail == [QUOTE] + (Escaped(argument, 0) + [QUOTE] + tail);
      assert Backslashes(0) + argument == argument;
      var parsed := ParseArgument(Quoted(argument) + tail, false);
      assert parsed.0 == argument && parsed.1 == tail;
    }
  }

  lemma OpeningQuote(rest: Text)
    ensures ParseArgument([QUOTE] + rest, false) == ParseArgument(rest, true)
  {
    var line := [QUOTE] + rest;
    assert LeadingBackslashes(line) == 0 && line[1..] == rest;
    QuoteStep(line, false);
    hide ParseArgument;
    assert Backslashes(0) + ParseArgument(rest, true).0 == ParseArgument(rest, true).0;
  }

  /** Whatever the arguments, the process receives exactly them. */
  lemma {:induction false} ArgumentsRoundTrip(arguments: seq<Text>)
    requires forall i :: 0 <= i < |arguments| ==> 0 !in arguments[i]
    ensures ParseArguments(ArgumentTail(arguments)) == arguments
  {
    hide ParseArgument, Quoted;
    if |arguments| > 0 {
      var rest := ArgumentTail(arguments[1..]);
      var line := Quoted(arguments[0]) + rest;
      QuotedDecodes(arguments[0], rest);
      assert ArgumentTail(arguments) == [SPACE] + line;
      assert ArgumentTail(arguments)[1..] == line;
      ArgumentsRoundTrip(arguments[1..]);
      assert arguments == [arguments[0]] + arguments[1..];
    }
  }

  lemma {:induction false} ParsedHasNoNul(line: Text, inQuotes: bool)
    ensures 0 !in ParseArgument(line, inQuotes).0
    decreases |line|
  {
    if Goes(line, inQuotes) {
      hide LeadingBackslashes;
      var n := LeadingBackslashes(line);
      if n < |line| && line[n] == QUOTE {
        if n % 2 == 1 {
          ParsedHasNoNul(line[n + 1..], inQuotes);
        } else if inQuotes && n + 1 < |line| && line[n + 1] == QUOTE {
          ParsedHasNoNul(line[n + 2..], true);
        } else {
          ParsedHasNoNul(line[n + 1..], !inQuotes);
        }
      } else if n > 0 {
        ParsedHasNoNul(line[n..], inQuotes);
      } else {
        ParsedHasNoNul(line[1..], inQuotes);
      }
    }
  }

  lemma {:induction false} NoArgumentHasNul(line: Text)
    ensures forall a :: a in ParseArguments(line) ==> 0 !in a
    decreases |line|
  {
    hide ParseArgument;
    if |line| > 0 && line[0] != 0 {
      if Blank(line[0]) {
        NoArgumentHasNul(line[1..]);
      } else {
        ParsedHasNoNul(line, false);
        NoArgumentHasNul(ParseArgument(line, false).1);
      }
    }
  }

  /** The process receives exactly the given arguments if and only if none contains a NUL, which would end the line. */
  lemma ArgumentsArriveUnlessNul(arguments: seq<Text>)
    ensures ParseArguments(ArgumentTail(arguments)) == arguments
       <==> forall i :: 0 <= i < |arguments| ==> 0 !in arguments[i]
  {
    hide ParseArguments, ArgumentTail;
    NoArgumentHasNul(ArgumentTail(arguments));
    if forall i :: 0 <= i < |arguments| ==> 0 !in arguments[i] {
      ArgumentsRoundTrip(arguments);
    } else {
      var i :| 0 <= i < |arguments| && 0 in arguments[i];
      assert arguments[i] in arguments;
    }
  }
}
