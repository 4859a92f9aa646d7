/** The kernel oops parser: a machine that is fed one line of the kernel log at a time. */
module Oops {
  import opened CStrings
  import Decimal

  const MAX_LINES := 100

  datatype Pattern = Pattern(beginLine: string, classification: string, severity: int, isRegex: bool)

  /** The table of patterns, with the matching of its regular expressions. */
  datatype Table = Table(patterns: seq<Pattern>, regexec: (string, string) -> bool)

  datatype Message = Message(pattern: Pattern, lines: seq<string>)

  // ---- Lines ----

  /** s without a part in brackets at its start; a bracket that is not closed takes all of s. */
  function SkipBracket(s: string, open: char, close: char): string {
    if s == "" || s[0] != open then s
    else
      var i := IndexOf(s, close);
      if i < |s| then s[i + 1..] else ""
  }

  function SkipSpace(s: string): string {
    if s != "" && Decimal.IsSpace(s[0]) then s[1..] else s
  }

  /** A line without its log level, its timestamp and one space. */
  function Stripped(line: string): string {
    SkipSpace(SkipBracket(SkipBracket(CStr(line), '<', '>'), '[', ']'))
  }

  /** skip_log_level and skip_timestamp */
  method SkipOver(line: string, open: char, close: char) returns (start: string)
    ensures start == SkipBracket(line, open, close)
  {
    var i := 0;
    if line != "" && line[0] == open {
      while i < |line| && line[i] != close
        invariant i <= |line|
        invariant forall j :: 0 <= j < i ==> line[j] != close
      {
        i := i + 1;
      }
      assert i == IndexOf(line, close);
      if i < |line| {
        i := i + 1;
      }
    }
    start := line[i..];
  }

  /** strstr */
  predicate Contains(s: string, part: string) {
    part <= s || (s != "" && Contains(s[1..], part))
  }

  function Lower(c: char): char {
    if 'A' <= c <= 'Z' then (c as int + 32) as char else c
  }

  predicate StartsWithCasei(s: string, part: string) {
    |part| <= |s| && forall i :: 0 <= i < |part| ==> Lower(s[i]) == Lower(part[i])
  }

  // ---- Patterns ----

  predicate PatternMatches(t: Table, text: string, p: Pattern) {
    if p.isRegex then t.regexec(p.beginLine, text) else p.beginLine <= text
  }

  /** The first pattern of the table, from i on, that the text matches. */
  function FirstMatch(t: Table, text: string, i: nat): (p: Option<Pattern>)
    requires i <= |t.patterns|
    ensures p.Some? <==> exists j :: i <= j < |t.patterns| && PatternMatches(t, text, t.patterns[j])
    ensures p.Some? ==> exists j ::
      && i <= j < |t.patterns| && p.value == t.patterns[j] && PatternMatches(t, text, t.patterns[j])
      && forall k :: i <= k < j ==> !PatternMatches(t, text, t.patterns[k])
    decreases |t.patterns| - i
  {
    if i == |t.patterns| then None
    else if PatternMatches(t, text, t.patterns[i]) then Some(t.patterns[i])
    else FirstMatch(t, text, i + 1)
  }

  function Starts(t: Table, text: string): Option<Pattern> {
    FirstMatch(t, text, 0)
  }

  /** A plain pattern is the beginning of the text; the others are left to the regular expression. */
  lemma StartsIff(t: Table, text: string)
    ensures Starts(t, text).Some? <==> exists p ::
      && p in t.patterns
      && (p.isRegex ==> t.regexec(p.beginLine, text))
      && (!p.isRegex ==> |p.beginLine| <= |text| && text[..|p.beginLine|] == p.beginLine)
  {
    forall p: Pattern
      ensures PatternMatches(t, text, p) <==>
        && (p.isRegex ==> t.regexec(p.beginLine, text))
        && (!p.isRegex ==> |p.beginLine| <= |text| && text[..|p.beginLine|] == p.beginLine)
    {
    }
    if p :| p in t.patterns && PatternMatches(t, text, p) {
      var i :| 0 <= i < |t.patterns| && t.patterns[i] == p;
      assert PatternMatches(t, text, t.patterns[i]);
    }
  }

  method FindPattern(t: Table, text: string) returns (p: Option<Pattern>)
    ensures p == Starts(t, text)
  {
    var i := 0;
    while i < |t.patterns|
      invariant i <= |t.patterns|
      invariant Starts(t, text) == FirstMatch(t, text, i)
    {
      if PatternMatches(t, text, t.patterns[i]) {
        return Some(t.patterns[i]);
      }
      i := i + 1;
    }
    return None;
  }

  // ---- The end of a message ----

  predicate BeginsDump(text: string) {
    "Call Trace:" <= text
  }

  /** A line that is not a stack frame. */
  predicate LeavesDump(text: string) {
    !(" " <= text) || |text| < 8 || Contains(text, "Code:") || Contains(text, "Instruction Dump::")
  }

  predicate BeginsAnother(text: string) {
    Contains(text, "WARNING:") || Contains(text, "Unable to handle")
  }

  /** ALSA bugs may hold such lines. */
  predicate MayHoldAnother(p: Pattern) {
    p.isRegex && StartsWithCasei(p.beginLine, "^ALSA")
  }

  /** The line ends a message of `length` lines. */
  predicate Ends(p: Pattern, length: nat, dump: bool, text: string) {
    || length >= MAX_LINES
    || Contains(text, "[ end trace")
    || (dump && LeavesDump(text))
    || (BeginsAnother(text) && !MayHoldAnother(p))
  }

  // ---- The machine ----

  /** The collected lines, the pattern that the first of them matched, and in_stack_dump. */
  datatype Buffer = Buffer(lines: seq<string>, pattern: Option<Pattern>, dump: bool)

  predicate Bounded(st: Buffer) {
    |st.lines| <= MAX_LINES && (st.lines != [] ==> st.pattern.Some?)
  }

  function DumpAfter(st: Buffer, text: string): bool {
    if |st.lines| >= MAX_LINES || Contains(text, "[ end trace") then st.dump
    else if !st.dump then BeginsDump(text)
    else !LeavesDump(text)
  }

  /** One line; the handler is given a message when it ends. */
  function Step(t: Table, st: Buffer, text: string): (r: (Buffer, Option<Message>))
    requires Bounded(st)
    ensures Bounded(r.0)
  {
    if st.lines == [] then
      match Starts(t, text)
      case None => (st, None)
      case Some(p) => (Buffer([text], Some(p), false), None)
    else if Ends(st.pattern.value, |st.lines|, st.dump, text) then
      (Buffer([], st.pattern, DumpAfter(st, text)), Some(Message(st.pattern.value, st.lines)))
    else (Buffer(st.lines + [text], st.pattern, DumpAfter(st, text)), None)
  }

  /** A stack dump begins with the line that announces a call trace. */
  lemma DumpBeginsIff(t: Table, st: Buffer, text: string)
    requires Bounded(st) && 0 < |st.lines| < 100 && !st.dump && !Occurs(text, "[ end trace")
    ensures Step(t, st, text).0.dump <==> |text| >= 11 && text[..11] == "Call Trace:"
  {
    hide Contains, Ends;
    ContainsIff(text, "[ end trace");
  }

  /** The static state of the parser, with the messages that were handed to the handler. */
  class OopsParser {
    const table: Table
    const lines: array<string>
    var length: nat
    var pattern: Option<Pattern>
    var inStackDump: bool
    var handled: seq<Message>

    ghost predicate Valid()
      reads this
    {
      lines.Length == MAX_LINES && length <= MAX_LINES && (length > 0 ==> pattern.Some?)
    }

    ghost function State(): (st: Buffer)
      reads this, lines
      requires Valid()
      ensures Bounded(st)
    {
      Buffer(lines[..length], pattern, inStackDump)
    }

    constructor (table: Table)
      ensures Valid() && fresh(lines) && this.table == table && handled == []
      ensures State() == Buffer([], None, false)
    {
      this.table := table;
      lines := new string[MAX_LINES](_ => "");
      length, pattern, inStackDump, handled := 0, None, false, [];
    }

    /** The checks of parse_single_line in the middle of a message. */
    method EndFound(start: string) returns (end: bool)
      requires Valid() && length > 0
      modifies this`inStackDump
      ensures end == Ends(pattern.value, length, old(inStackDump), start)
      ensures inStackDump == DumpAfter(old(State()), start)
    {
      hide Contains;
      end := false;
      if length >= MAX_LINES {
        end := true;
      } else if Contains(start, "[ end trace") {
        end := true;
      } else if !inStackDump {
        if BeginsDump(start) {
          inStackDump := true;
        }
      } else if !(" " <= start) || |start| < 8 || Contains(start, "Code:") || Contains(start, "Instruction Dump::") {
        inStackDump := false;
        end := true;
      }
      if Contains(start, "WARNING:") || Contains(start, "Unable to handle") {
        if !pattern.value.isRegex || !StartsWithCasei(pattern.value.beginLine, "^ALSA") {
          end := true;
        }
      }
    }

    /** parse_single_line; whether the handler was called. */
    method ParseSingleLine(line: string) returns (processed: bool)
      requires Valid()
      modifies this, lines
      ensures Valid()
      ensures State() == Step(table, old(State()), Stripped(line)).0
      ensures var m := Step(table, old(State()), Stripped(line)).1;
        && processed == m.Some?
        && handled == old(handled) + if m.Some? then [m.value] else []
    {
      hide Ends, DumpAfter, Starts, Decimal.IsSpace;
      processed := false;
      var start := SkipOver(CStr(line), '<', '>');
      start := SkipOver(start, '[', ']');
      start := SkipSpace(start);
      if length == 0 {
        var p := FindPattern(table, start);
        if p.Some? {
          pattern := p;
          lines[0] := start;
          length := 1;
          inStackDump := false;
        }
      } else {
        var end := EndFound(start);
        if end {
          handled := handled + [Message(pattern.value, lines[..length])];
          length := 0;
          processed := true;
        } else {
          NotFull(pattern.value, length, old(inStackDump), start);
          lines[length] := start;
          length := length + 1;
        }
      }
    }
  }

  lemma NotFull(p: Pattern, length: nat, dump: bool, text: string)
    requires !Ends(p, length, dump, text)
    ensures length < MAX_LINES
  {
  }

  // ---- What is left of a line ----

  predicate StartsWithSpace(text: string) {
    text != "" && (text[0] == ' ' || '\t' <= text[0] <= '\r')
  }

  lemma CStrOfLine(line: string)
    requires NUL !in line
    ensures CStr(line) == line
  {
    IndexOfAbsent(line, NUL);
  }

  lemma Unbracketed(open: char, inside: string, close: char, text: string)
    requires open != close && close !in inside
    ensures SkipBracket([open] + inside + [close] + text, open, close) == text
  {
    var s := [open] + inside + [close] + text;
    assert s == ([open] + inside) + [close] + text;
    IndexOfAfter([open] + inside, close, text);
    assert s[|inside| + 2..] == text;
  }

  lemma NeverClosed(open: char, close: char, text: string)
    requires open != close && close !in text
    ensures SkipBracket([open] + text, open, close) == ""
  {
    IndexOfAbsent([open] + text, close);
  }

  /** Log level, timestamp and one space are taken off, in this order; whatever text follows is left. */
  lemma StrippedOfBoth(level: string, stamp: string, text: string)
    requires '>' !in level && ']' !in stamp && NUL !in level && NUL !in stamp && NUL !in text
    ensures Stripped("<" + level + ">[" + stamp + "] " + text) == text
  {
    hide SkipBracket, CStr;
    var line := "<" + level + ">[" + stamp + "] " + text;
    CStrOfLine(line);
    assert line == ['<'] + level + ['>'] + (['['] + stamp + [']'] + (" " + text));
    Unbracketed('<', level, '>', ['['] + stamp + [']'] + (" " + text));
    Unbracketed('[', stamp, ']', " " + text);
    assert (" " + text)[1..] == text;
  }

  /** A line without a log level. */
  lemma StrippedOfStamp(stamp: string, text: string)
    requires ']' !in stamp && NUL !in stamp && NUL !in text
    ensures Stripped("[" + stamp + "] " + text) == text
  {
    hide CStr;
    var line := "[" + stamp + "] " + text;
    CStrOfLine(line);
    assert line == ['['] + stamp + [']'] + (" " + text);
    Unbracketed('[', stamp, ']', " " + text);
    assert (" " + text)[1..] == text;
  }

  /** A line without a timestamp. */
  lemma StrippedOfLevel(level: string, text: string)
    requires '>' !in level && NUL !in level && NUL !in text
    requires (text != "" ==> text[0] != '[') && !StartsWithSpace(text)
    ensures Stripped("<" + level + ">" + text) == text
  {
    hide CStr;
    var line := "<" + level + ">" + text;
    CStrOfLine(line);
    assert line == ['<'] + level + ['>'] + text;
    Unbracketed('<', level, '>', text);
  }

  /** A line with neither, and one space at most taken from its start. */
  lemma StrippedOfNothing(text: string)
    requires NUL !in text && (text != "" ==> text[0] != '<' && text[0] != '[')
    ensures Stripped(text) == if StartsWithSpace(text) then text[1..] else text
  {
    hide CStr;
    CStrOfLine(text);
  }

  /** A bracket that is not closed takes the whole line. */
  lemma StrippedUnclosed(level: string, text: string)
    requires '>' !in level && NUL !in level && NUL !in text
    ensures Stripped("<" + level) == ""
    ensures ']' !in text ==> Stripped("<" + level + ">[" + text) == "" && Stripped("[" + text) == ""
  {
    hide CStr;
    CStrOfLine("<" + level);
    NeverClosed('<', '>', level);
    if ']' !in text {
      var line := "<" + level + ">[" + text;
      CStrOfLine(line);
      CStrOfLine("[" + text);
      assert line == ['<'] + level + ['>'] + (['['] + text);
      Unbracketed('<', level, '>', ['['] + text);
      NeverClosed('[', ']', text);
    }
  }

  // ---- What ends a message ----

  /** The part occurs in s. */
  ghost predicate Occurs(s: string, part: string) {
    exists i :: 0 <= i <= |s| && part <= s[i..]
  }

  lemma {:induction false} ContainsIff(s: string, part: string)
    ensures Contains(s, part) <==> Occurs(s, part)
    decreases |s|
  {
    assert s[0..] == s;
    if s == "" {
    } else {
      ContainsIff(s[1..], part);
      if i :| 0 < i <= |s| && part <= s[i..] {
        assert s[1..][i - 1..] == s[i..];
      }
      if i :| 0 <= i <= |s| - 1 && part <= s[1..][i..] {
        assert s[1..][i..] == s[i + 1..];
      }
    }
  }

  /** A line of a stack dump: it is indented, long enough, and announces nothing else. */
  ghost predicate IsFrame(text: string) {
    |text| >= 8 && text[0] == ' ' && !Occurs(text, "Code:") && !Occurs(text, "Instruction Dump::")
  }

  /**
   A message goes on with a line exactly when it is not full, the line does not end the trace, it is a frame if the
   message is in a stack dump, and it does not announce another message, which only ALSA messages may hold.
   */
  lemma GoesOnIff(p: Pattern, length: nat, dump: bool, text: string)
    ensures !Ends(p, length, dump, text) <==>
      && length < 100 && !Occurs(text, "[ end trace") && (dump ==> IsFrame(text))
      && (Occurs(text, "WARNING:") || Occurs(text, "Unable to handle") ==> MayHoldAnother(p))
  {
    hide Contains, Occurs, MayHoldAnother;
    ContainsIff(text, "[ end trace");
    ContainsIff(text, "Code:");
    ContainsIff(text, "Instruction Dump::");
    ContainsIff(text, "WARNING:");
    ContainsIff(text, "Unable to handle");
  }

  /** The ALSA pattern of the table is such a one, whatever its case; a plain pattern never is. */
  lemma AlsaMayHoldAnother(classification: string, severity: int, begin: string)
    ensures MayHoldAnother(Pattern("^ALSA (.*): BUG(.*)", classification, severity, true))
    ensures MayHoldAnother(Pattern("^alsa", classification, severity, true))
    ensures !MayHoldAnother(Pattern(begin, classification, severity, false))
    ensures begin == "" || begin[0] != '^' ==> !MayHoldAnother(Pattern(begin, classification, severity, true))
  {
    if begin != "" && begin[0] != '^' {
      assert Lower("^ALSA"[0]) == '^' && Lower(begin[0]) != '^';
    }
  }
}
