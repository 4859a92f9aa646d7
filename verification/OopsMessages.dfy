/** Which lines of a log make a message, said without the machine that collects them. */
module OopsMessages {
  import opened CStrings
  import opened Oops

  /** The messages handed over when the machine is given the lines from i on. */
  function Emitted(t: Table, st: Buffer, texts: seq<string>, i: nat): seq<Message>
    requires Bounded(st) && i <= |texts|
    decreases |texts| - i
  {
    if i == |texts| then []
    else
      var (st', m) := Step(t, st, texts[i]);
      (if m.Some? then [m.value] else []) + Emitted(t, st', texts, i + 1)
  }

  // ---- Messages as runs of lines ----

  /** A message that began at line a is in a stack dump at line i: a line between them began one. */
  ghost predicate InDump(texts: seq<string>, a: nat, i: nat)
    requires i <= |texts|
  {
    exists k :: a < k < i && BeginsDump(texts[k])
  }

  /** Line i ends a message of p that began at line a. */
  ghost predicate EndsAt(p: Pattern, texts: seq<string>, a: nat, i: nat)
    requires a < i < |texts|
  {
    Ends(p, i - a, InDump(texts, a, i), texts[i])
  }

  /** The first line from i on that ends the message, or the end of the log. */
  ghost function EndOf(p: Pattern, texts: seq<string>, a: nat, i: nat): (b: nat)
    requires a < i <= |texts|
    ensures i <= b <= |texts|
    ensures b < |texts| ==> EndsAt(p, texts, a, b)
    ensures forall k :: i <= k < b ==> !EndsAt(p, texts, a, k)
    decreases |texts| - i
  {
    if i == |texts| || EndsAt(p, texts, a, i) then i else EndOf(p, texts, a, i + 1)
  }

  /** Where the messages begin and end: each begins at the first line after the last that matches a pattern. */
  ghost function Spans(t: Table, texts: seq<string>, i: nat): seq<(nat, nat)>
    requires i <= |texts|
    decreases |texts| - i
  {
    if i == |texts| then []
    else if Starts(t, texts[i]).None? then Spans(t, texts, i + 1)
    else
      var b := EndOf(Starts(t, texts[i]).value, texts, i, i + 1);
      if b == |texts| then [] else [(i, b)] + Spans(t, texts, b + 1)
  }

  /** The run of lines is a message. */
  ghost predicate IsMessage(t: Table, texts: seq<string>, a: nat, b: nat) {
    && a < b < |texts| && b - a <= MAX_LINES
    && Starts(t, texts[a]).Some?
    && EndsAt(Starts(t, texts[a]).value, texts, a, b)
    && forall k :: a < k < b ==> !EndsAt(Starts(t, texts[a]).value, texts, a, k)
  }

  ghost function MessageAt(t: Table, texts: seq<string>, span: (nat, nat)): Message
    requires IsMessage(t, texts, span.0, span.1)
  {
    Message(Starts(t, texts[span.0]).value, texts[span.0..span.1])
  }

  ghost predicate AreMessages(t: Table, texts: seq<string>, spans: seq<(nat, nat)>) {
    forall k :: 0 <= k < |spans| ==> IsMessage(t, texts, spans[k].0, spans[k].1)
  }

  ghost function MessagesAt(t: Table, texts: seq<string>, spans: seq<(nat, nat)>): seq<Message>
    requires AreMessages(t, texts, spans)
  {
    seq(|spans|, k requires 0 <= k < |spans| => MessageAt(t, texts, spans[k]))
  }

  lemma EndIsNear(p: Pattern, texts: seq<string>, a: nat, i: nat)
    requires a < i <= |texts| && i - a <= MAX_LINES
    ensures EndOf(p, texts, a, i) - a <= MAX_LINES
  {
    assert a + MAX_LINES < |texts| ==> EndsAt(p, texts, a, a + MAX_LINES);
  }

  lemma FirstSpan(t: Table, texts: seq<string>, a: nat)
    requires a < |texts| && Starts(t, texts[a]).Some?
    ensures var b := EndOf(Starts(t, texts[a]).value, texts, a, a + 1); b < |texts| ==> IsMessage(t, texts, a, b)
  {
    EndIsNear(Starts(t, texts[a]).value, texts, a, a + 1);
  }

  lemma {:induction false} SpansAreMessages(t: Table, texts: seq<string>, i: nat)
    requires i <= |texts|
    ensures AreMessages(t, texts, Spans(t, texts, i))
    decreases |texts| - i
  {
    hide Starts, EndOf, IsMessage;
    if i < |texts| {
      if Starts(t, texts[i]).None? {
        SpansAreMessages(t, texts, i + 1);
      } else {
        var b := EndOf(Starts(t, texts[i]).value, texts, i, i + 1);
        if b < |texts| {
          FirstSpan(t, texts, i);
          SpansAreMessages(t, texts, b + 1);
        }
      }
    }
  }

  /**
   The messages are in order, none shares a line with another or with the line that ends another, and no line
   outside them that could begin a message precedes one.
   */
  ghost predicate InOrder(t: Table, texts: seq<string>, spans: seq<(nat, nat)>, i: nat) {
    if spans == [] then true
    else
      && i <= spans[0].0 < spans[0].1 < |texts|
      && (forall j :: i <= j < spans[0].0 ==> Starts(t, texts[j]).None?)
      && InOrder(t, texts, spans[1..], spans[0].1 + 1)
  }

  lemma {:induction false} SpansAreInOrder(t: Table, texts: seq<string>, i: nat)
    requires i <= |texts|
    ensures InOrder(t, texts, Spans(t, texts, i), i)
    decreases |texts| - i
  {
    hide Starts, EndOf;
    if i < |texts| {
      if Starts(t, texts[i]).None? {
        SpansAreInOrder(t, texts, i + 1);
      } else {
        var b := EndOf(Starts(t, texts[i]).value, texts, i, i + 1);
        if b < |texts| {
          SpansAreInOrder(t, texts, b + 1);
        }
      }
    }
  }

  // ---- The machine finds them ----

  /** The machine has collected lines a to i of a message. */
  ghost predicate Collecting(t: Table, st: Buffer, texts: seq<string>, a: nat, i: nat) {
    && a < i <= |texts| && i - a <= MAX_LINES
    && st.lines == texts[a..i] && st.pattern == Starts(t, texts[a]) && st.pattern.Some?
    && st.dump == InDump(texts, a, i)
  }

  lemma StepCollects(t: Table, st: Buffer, texts: seq<string>, a: nat, i: nat)
    requires i < |texts| && Collecting(t, st, texts, a, i)
    ensures Bounded(st)
    ensures EndsAt(st.pattern.value, texts, a, i) ==>
      && Step(t, st, texts[i]).0.lines == []
      && Step(t, st, texts[i]).1 == Some(Message(Starts(t, texts[a]).value, texts[a..i]))
    ensures !EndsAt(st.pattern.value, texts, a, i) ==>
      && Step(t, st, texts[i]).1 == None
      && Collecting(t, Step(t, st, texts[i]).0, texts, a, i + 1)
  {
  }

  lemma StepStarts(t: Table, st: Buffer, texts: seq<string>, i: nat)
    requires i < |texts| && st.lines == []
    ensures Starts(t, texts[i]).None? ==> Step(t, st, texts[i]) == (st, None)
    ensures Starts(t, texts[i]).Some? ==>
      Step(t, st, texts[i]).1 == None && Collecting(t, Step(t, st, texts[i]).0, texts, i, i + 1)
  {
  }

  lemma {:induction false} CollectingEmits(t: Table, st: Buffer, texts: seq<string>, a: nat, i: nat)
    requires Collecting(t, st, texts, a, i) && Bounded(st)
    ensures
      var b := EndOf(st.pattern.value, texts, a, i);
      if b == |texts| then Emitted(t, st, texts, i) == []
      else
        var rest := Spans(t, texts, b + 1);
        AreMessages(t, texts, rest) &&
        Emitted(t, st, texts, i) == [Message(st.pattern.value, texts[a..b])] + MessagesAt(t, texts, rest)
    decreases |texts| - i
  {
    hide Starts, Step, Collecting, EndsAt, Spans, MessagesAt;
    if i < |texts| {
      StepCollects(t, st, texts, a, i);
      var st' := Step(t, st, texts[i]).0;
      CollectingIs(t, st, texts, a, i);
      if EndsAt(st.pattern.value, texts, a, i) {
        IdleEmits(t, st', texts, i + 1);
      } else {
        CollectingIs(t, st', texts, a, i + 1);
        CollectingEmits(t, st', texts, a, i + 1);
      }
    }
  }

  lemma CollectingIs(t: Table, st: Buffer, texts: seq<string>, a: nat, i: nat)
    requires Collecting(t, st, texts, a, i)
    ensures a < i <= |texts| && st.pattern == Starts(t, texts[a]) && st.pattern.Some?
  {
  }

  lemma MessagesOfMore(t: Table, texts: seq<string>, span: (nat, nat), spans: seq<(nat, nat)>)
    requires IsMessage(t, texts, span.0, span.1) && AreMessages(t, texts, spans)
    ensures AreMessages(t, texts, [span] + spans)
    ensures MessagesAt(t, texts, [span] + spans) == [MessageAt(t, texts, span)] + MessagesAt(t, texts, spans)
  {
    hide IsMessage;
  }

  /** From a machine that is not in a message, exactly the messages of the log are handed over. */
  lemma {:induction false} IdleEmits(t: Table, st: Buffer, texts: seq<string>, i: nat)
    requires st.lines == [] && i <= |texts| && Bounded(st)
    ensures AreMessages(t, texts, Spans(t, texts, i))
    ensures Emitted(t, st, texts, i) == MessagesAt(t, texts, Spans(t, texts, i))
    decreases |texts| - i
  {
    hide Starts, Step, Collecting, EndsAt, IsMessage;
    SpansAreMessages(t, texts, i);
    if i < |texts| {
      StepStarts(t, st, texts, i);
      var st' := Step(t, st, texts[i]).0;
      if Starts(t, texts[i]).None? {
        IdleEmits(t, st', texts, i + 1);
      } else {
        CollectingIs(t, st', texts, i, i + 1);
        CollectingEmits(t, st', texts, i, i + 1);
        var b := EndOf(st'.pattern.value, texts, i, i + 1);
        if b < |texts| {
          FirstSpan(t, texts, i);
          MessagesOfMore(t, texts, (i, b), Spans(t, texts, b + 1));
        }
      }
    }
  }

  /** The messages of a whole log, for the machine as it is initialised. */
  lemma MessagesOfLog(t: Table, texts: seq<string>)
    ensures var spans := Spans(t, texts, 0);
      && AreMessages(t, texts, spans)
      && InOrder(t, texts, spans, 0)
      && Emitted(t, Buffer([], None, false), texts, 0) == MessagesAt(t, texts, spans)
  {
    SpansAreInOrder(t, texts, 0);
    IdleEmits(t, Buffer([], None, false), texts, 0);
  }
}
