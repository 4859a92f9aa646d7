/**
 C strings and byte buffers. A byte is a `char` below 256; a buffer is a `string`
 that may hold the terminator '\0', and its C string is what precedes the first one.
 */
module CStrings {
  datatype Option<+T> = None | Some(value: T)

  const NUL := '\0'

  /** The position of the first c in s, or |s| when there is none. */
  function IndexOf(s: string, c: char): (i: nat)
    ensures i <= |s|
    ensures i < |s| ==> s[i] == c
    ensures forall j :: 0 <= j < i ==> s[j] != c
  {
    if s == [] || s[0] == c then 0 else 1 + IndexOf(s[1..], c)
  }

  /** s up to the first c. */
  function Cut(s: string, c: char): string {
    s[..IndexOf(s, c)]
  }

  /** The C string held by a buffer. */
  function CStr(s: string): string {
    Cut(s, NUL)
  }

  lemma IndexOfIs(s: string, c: char, i: nat)
    requires i <= |s| && c !in s[..i]
    requires i < |s| ==> s[i] == c
    ensures IndexOf(s, c) == i
  {
  }

  /** A prefix without c, followed by c. */
  lemma IndexOfAfter(p: string, c: char, rest: string)
    requires c !in p
    ensures IndexOf(p + [c] + rest, c) == |p|
    ensures Cut(p + [c] + rest, c) == p
  {
    var s := p + [c] + rest;
    assert s[..|p|] == p;
    IndexOfIs(s, c, |p|);
  }

  lemma IndexOfAbsent(s: string, c: char)
    requires c !in s
    ensures IndexOf(s, c) == |s| && Cut(s, c) == s
  {
  }

  const TWO32 := 0x1_0000_0000

  /** The low four bytes of an integer, least significant first. */
  function Le32(n: nat): (s: string)
    ensures |s| == 4
  {
    [(n % 0x100) as char, (n / 0x100 % 0x100) as char, (n / 0x1_0000 % 0x100) as char, (n / 0x100_0000 % 0x100) as char]
  }

  function FromLe32(s: string): nat
    requires |s| == 4
  {
    s[0] as int + 0x100 * s[1] as int + 0x1_0000 * s[2] as int + 0x100_0000 * s[3] as int
  }

  lemma Le32RoundTrip(n: nat)
    requires n < TWO32
    ensures FromLe32(Le32(n)) == n
  {
    var a, b, c := n / 0x100, n / 0x1_0000, n / 0x100_0000;
    assert b == a / 0x100 && c == b / 0x100 && c < 0x100;
  }

  // ---- Lines ----

  /** The lines, each ended by a newline, one after the other. */
  function JoinLines(lines: seq<string>): string {
    if lines == [] then "" else lines[0] + "\n" + JoinLines(lines[1..])
  }

  lemma {:induction false} JoinLinesLast(lines: seq<string>, line: string)
    ensures JoinLines(lines + [line]) == JoinLines(lines) + line + "\n"
  {
    if lines == [] {
      assert [line][1..] == [];
    } else {
      assert (lines + [line])[1..] == lines[1..] + [line];
      JoinLinesLast(lines[1..], line);
    }
  }

  /** The lines of a text, without their newlines; the last need not have one. */
  function Lines(text: string): seq<string>
    decreases |text|
  {
    var i := IndexOf(text, '\n');
    if text == "" then []
    else if i == |text| then [text]
    else [text[..i]] + Lines(text[i + 1..])
  }

  /** A line of text: nothing in it ends a line or a C string. */
  predicate OneLine(s: string) {
    '\n' !in s && NUL !in s
  }

  lemma {:induction false} LinesOfJoin(lines: seq<string>)
    requires forall l :: l in lines ==> '\n' !in l
    ensures Lines(JoinLines(lines)) == lines
  {
    if lines == [] {
    } else {
      var rest := JoinLines(lines[1..]);
      var text := lines[0] + "\n" + rest;
      IndexOfAfter(lines[0], '\n', rest);
      assert text[..|lines[0]|] == lines[0] && text[|lines[0]| + 1..] == rest;
      LinesOfJoin(lines[1..]);
    }
  }

  lemma {:induction false} LinesAreOneLine(text: string, l: string)
    requires l in Lines(text)
    ensures '\n' !in l && (NUL !in text ==> NUL !in l)
    decreases |text|
  {
    var i := IndexOf(text, '\n');
    if i == |text| {
      assert l == text;
    } else if l != text[..i] {
      LinesAreOneLine(text[i + 1..], l);
    }
  }

  lemma {:induction false} JoinHasNoNul(lines: seq<string>)
    requires forall l :: l in lines ==> NUL !in l
    ensures NUL !in JoinLines(lines)
  {
    if lines == [] {
    } else {
      JoinHasNoNul(lines[1..]);
    }
  }
}
