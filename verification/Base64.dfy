/**
 The base 64 encoder of libnica: the alphabet and padding of section 4 of RFC 4648,
 in lines of 76 characters as in section 6.8 of RFC 2045.
 */
module Base64 {
  import opened CStrings

  type Byte = x: int | 0 <= x < 256

  const LINE_LEN := 76
  /** Groups of three bytes that fill a line. */
  const LINE_GROUPS := 19

  /** The alphabet. */
  function Digit(v: nat): char
    requires v < 64
  {
    if v < 26 then (65 + v) as char
    else if v < 52 then (97 + v - 26) as char
    else if v < 62 then (48 + v - 52) as char
    else if v == 62 then '+'
    else '/'
  }

  /** b64_3b: three bytes as four characters. */
  function Quad(a: Byte, b: Byte, c: Byte): (q: string)
    ensures |q| == 4
  {
    var x := a * 65536 + b * 256 + c;
    [Digit(x / 262144 % 64), Digit(x / 4096 % 64), Digit(x / 64 % 64), Digit(x % 64)]
  }

  function Pad(n: nat): string {
    seq(n, _ => '=')
  }

  function LineBreak(groups: nat): string {
    if groups % LINE_GROUPS == 0 then "\n" else ""
  }

  /** The encoding of what follows the first `groups` groups of an input. */
  function Encoding(input: seq<Byte>, groups: nat): string
    decreases |input|
  {
    if input == [] then ""
    else if |input| == 1 then Quad(input[0], 0, 0)[..2] + Pad(2)
    else if |input| == 2 then Quad(input[0], input[1], 0)[..3] + Pad(1)
    else Quad(input[0], input[1], input[2]) + LineBreak(groups + 1) + Encoding(input[3..], groups + 1)
  }

  /** The output so far, which is the start of the encoding, is in the buffer. */
  ghost predicate Written(buff: array<char>, used: nat, done: string, pad: nat, rest: seq<Byte>, groups: nat,
      goal: string)
    reads buff
  {
    && used == |done| <= buff.Length && buff[..used] == done
    && done + Pad(pad) + Encoding(rest, groups) == goal
    && (pad > 0 ==> rest == [])
    && pad <= 2
  }

  /** One group, as the loop reads it: the bytes that are missing at the end of the file are zero. */
  function Group(rest: seq<Byte>): string
    requires rest != []
  {
    Quad(rest[0], if |rest| > 1 then rest[1] else 0, if |rest| > 2 then rest[2] else 0)
  }

  function GroupLen(rest: seq<Byte>): nat {
    if |rest| < 3 then |rest| else 3
  }

  /** What the group adds to the output: its characters and, after a whole line, a newline. */
  function GroupOutput(rest: seq<Byte>, groups: nat): string
    requires rest != []
  {
    Group(rest)[..GroupLen(rest) + 1] + if |rest| >= 3 then LineBreak(groups + 1) else ""
  }

  lemma GroupStep(done: string, rest: seq<Byte>, groups: nat)
    requires rest != []
    ensures done + Pad(0) + Encoding(rest, groups) ==
      done + GroupOutput(rest, groups) + Pad(3 - GroupLen(rest)) + Encoding(rest[GroupLen(rest)..], groups + 1)
  {
  }

  /** The characters out so far end a line exactly when they are whole groups of a whole number of lines. */
  lemma LineBreakTest(groups: nat, len: nat)
    requires 1 <= len <= 3
    ensures (4 * groups + len + 1) % LINE_LEN == 0 <==> len == 3 && (groups + 1) % LINE_GROUPS == 0
  {
  }

  /**
   nc_b64enc_file. The input is what the file holds; the buffer has four bytes more than buff_size,
   because a group is stored before the space for it is checked.
   */
  method EncodeFile(input: seq<Byte>, buff: array<char>, buffSize: nat) returns (ok: bool)
    requires buff.Length >= buffSize + 4
    modifies buff
    ensures ok == (input == [] || |Encoding(input, 0)| + 1 < buffSize)
    ensures ok ==> buff[..|Encoding(input, 0)|] == Encoding(input, 0) && buff[|Encoding(input, 0)|] == NUL
    ensures forall i :: buffSize + 4 <= i < buff.Length ==> buff[i] == old(buff[i])
  {
    hide Encoding, Quad, Pad, GroupOutput;
    var outCount: nat, padSize: nat, used: nat := 0, 0, 0;
    var rest := input;
    ghost var done, groups, goal := "", 0, Encoding(input, 0);
    StartEncoding(goal);
    while rest != []
      invariant Written(buff, used, done, padSize, rest, groups, goal)
      invariant rest != [] ==> outCount == 4 * groups
      invariant groups == 0 ==> used == 0 && rest == input
      invariant groups > 0 ==> used + padSize + 1 < buffSize
      invariant forall i :: buffSize + 4 <= i < buff.Length ==> buff[i] == old(buff[i])
      decreases |rest|
    {
      var len := GroupLen(rest);
      GroupStep(done, rest, groups);
      used, outCount := StoreGroup(buff, used, done, rest, outCount, groups);
      done := done + GroupOutput(rest, groups);
      padSize := 3 - len;
      rest, groups := rest[len..], groups + 1;
      if buffSize <= used + padSize + 1 {
        AtLeast(done, padSize, Encoding(rest, groups), goal);
        return false;
      }
    }
    FinishEncoding(done, padSize, goal, groups);
    WritePadding(buff, used, padSize);
    return true;
  }

  /** The stores of one turn of the loop: four characters, of which some count, and perhaps a newline. */
  method StoreGroup(buff: array<char>, used: nat, ghost done: string, rest: seq<Byte>, outCount: nat, ghost groups: nat)
    returns (used': nat, outCount': nat)
    requires rest != [] && outCount == 4 * groups && used == |done|
    requires used + 4 < buff.Length || (groups == 0 && used + 4 <= buff.Length)
    requires buff[..used] == done
    modifies buff
    ensures used' == |done + GroupOutput(rest, groups)| <= buff.Length
    ensures buff[..used'] == done + GroupOutput(rest, groups)
    ensures outCount' == outCount + GroupLen(rest) + 1
    ensures forall i :: used + 4 < i < buff.Length || (groups == 0 && i == used + 4 && i < buff.Length) ==>
      buff[i] == old(buff[i])
  {
    hide Quad;
    var len := GroupLen(rest);
    var quad := Group(rest);
    buff[used], buff[used + 1], buff[used + 2], buff[used + 3] := quad[0], quad[1], quad[2], quad[3];
    assert buff[..used + len + 1] == done + quad[..len + 1];
    used', outCount' := used + len + 1, outCount + len + 1;
    LineBreakTest(groups, len);
    if outCount' % LINE_LEN == 0 {
      buff[used'] := '\n';
      used' := used' + 1;
    }
    assert buff[..used'] == done + GroupOutput(rest, groups);
  }

  lemma StartEncoding(goal: string)
    ensures "" + Pad(0) + goal == goal
  {
  }

  lemma AtLeast(done: string, pad: nat, more: string, goal: string)
    requires done + Pad(pad) + more == goal
    ensures |done| + pad <= |goal|
  {
  }

  lemma FinishEncoding(done: string, pad: nat, goal: string, groups: nat)
    requires done + Pad(pad) + Encoding([], groups) == goal
    ensures goal == done + Pad(pad) && |goal| == |done| + pad
  {
  }

  /** b64_padding */
  method WritePadding(buff: array<char>, used: nat, padSize: nat)
    requires used + padSize < buff.Length && padSize <= 2
    modifies buff
    ensures buff[..used + padSize] == old(buff[..used]) + Pad(padSize)
    ensures buff[used + padSize] == NUL
    ensures forall i :: used + padSize < i < buff.Length ==> buff[i] == old(buff[i])
  {
    var out := used;
    if padSize > 0 {
      buff[out] := '=';
      out := out + 1;
    }
    if padSize > 1 {
      buff[out] := '=';
      out := out + 1;
    }
    buff[out] := NUL;
  }

  // ---- Decoding ----

  /** The value of a character of the alphabet. */
  function Value(c: char): Option<nat> {
    if 'A' <= c <= 'Z' then Some(c as int - 65)
    else if 'a' <= c <= 'z' then Some(c as int - 97 + 26)
    else if '0' <= c <= '9' then Some(c as int - 48 + 52)
    else if c == '+' then Some(62)
    else if c == '/' then Some(63)
    else None
  }

  /** The bytes of a quantum of four values; the number of bytes is what its padding leaves. */
  function Bytes(p: nat, q: nat, r: nat, t: nat, n: nat): seq<Byte>
    requires p < 64 && q < 64 && r < 64 && t < 64 && n <= 3
  {
    [p * 4 + q / 16, q % 16 * 16 + r / 4, r % 4 * 64 + t][..n]
  }

  function ValueOr0(c: char): (v: nat)
    ensures v < 64
  {
    if Value(c).Some? then Value(c).value else 0
  }

  /** Decoding by section 4 of RFC 4648: quanta of four characters, the last one perhaps padded. */
  function Decode(s: string): Option<seq<Byte>>
    decreases |s|
  {
    if s == [] then Some([])
    else if |s| < 4 || Value(s[0]).None? || Value(s[1]).None? then None
    else
      var n := if s[3] != '=' then 3 else if s[2] != '=' then 2 else 1;
      if (n == 3 && Value(s[3]).None?) || (n >= 2 && Value(s[2]).None?) || (n < 3 && |s| != 4) then None
      else
        var r, t := if n >= 2 then ValueOr0(s[2]) else 0, if n == 3 then ValueOr0(s[3]) else 0;
        var here := Bytes(ValueOr0(s[0]), ValueOr0(s[1]), r, t, n);
        match Decode(s[4..])
        case None => None
        case Some(more) => Some(here + more)
  }

  /** s without its newlines. */
  function Strip(s: string): string {
    if s == [] then [] else (if s[0] == '\n' then [] else [s[0]]) + Strip(s[1..])
  }

  lemma {:induction false} StripAppend(x: string, y: string)
    ensures Strip(x + y) == Strip(x) + Strip(y)
  {
    if x == [] {
      assert x + y == y;
    } else {
      assert (x + y)[1..] == x[1..] + y;
      StripAppend(x[1..], y);
    }
  }

  lemma {:induction false} StripNone(x: string)
    requires '\n' !in x
    ensures Strip(x) == x
  {
    if x == [] {
    } else {
      StripNone(x[1..]);
    }
  }

  lemma ValueOfDigit(v: nat)
    requires v < 64
    ensures Value(Digit(v)) == Some(v) && Digit(v) != '\n' && Digit(v) != '='
  {
  }

  /** The four six-bit values of three bytes. */
  function Sixes(a: Byte, b: Byte, c: Byte): (nat, nat, nat, nat) {
    (a / 4, a % 4 * 16 + b / 16, b % 16 * 4 + c / 64, c % 64)
  }

  lemma SmallMultiple(d: int, k: int)
    requires -d < d * k < d
    ensures k == 0
  {
  }

  lemma Divided(x: int, d: int, quotient: int, remainder: int)
    requires x == d * quotient + remainder && 0 <= remainder < d
    ensures x / d == quotient && x % d == remainder
  {
    var k := x / d - quotient;
    assert d * k == d * (x / d) - d * quotient == remainder - x % d;
    SmallMultiple(d, k);
  }

  /** The six bits at a place, for x == (high * 64 + v) * unit + low. */
  lemma SixAt(x: int, unit: int, high: int, v: int, low: int)
    requires 0 <= low < unit && 0 <= v < 64 && x == unit * (64 * high + v) + low
    ensures x / unit % 64 == v
  {
    Divided(x, unit, 64 * high + v, low);
    Divided(64 * high + v, 64, high, v);
  }

  lemma SixesAreIn(a: Byte, b: Byte, c: Byte)
    ensures var (p, q, r, t) := Sixes(a, b, c);
      p < 64 && q < 64 && r < 64 && t < 64 &&
      a * 65536 + b * 256 + c == 262144 * p + 4096 * q + 64 * r + t
  {
  }

  lemma QuadIsSixes(a: Byte, b: Byte, c: Byte)
    ensures var (p, q, r, t) := Sixes(a, b, c);
      p < 64 && q < 64 && r < 64 && t < 64 && Quad(a, b, c) == [Digit(p), Digit(q), Digit(r), Digit(t)]
  {
    SixesAreIn(a, b, c);
    var (p, q, r, t) := Sixes(a, b, c);
    QuadOf(a, b, c, p, q, r, t);
  }

  lemma QuadOf(a: Byte, b: Byte, c: Byte, p: nat, q: nat, r: nat, t: nat)
    requires p < 64 && q < 64 && r < 64 && t < 64
    requires a * 65536 + b * 256 + c == 262144 * p + 4096 * q + 64 * r + t
    ensures Quad(a, b, c) == [Digit(p), Digit(q), Digit(r), Digit(t)]
  {
    hide Digit;
    var x := a * 65536 + b * 256 + c;
    SixAt(x, 262144, 0, p, 4096 * q + 64 * r + t);
    SixAt(x, 4096, p, q, 64 * r + t);
    SixAt(x, 64, 64 * p + q, r, t);
    Divided(x, 64, 4096 * p + 64 * q + r, t);
  }

  lemma BytesOfSixes(a: Byte, b: Byte, c: Byte)
    ensures var (p, q, r, t) := Sixes(a, b, c);
      p < 64 && q < 64 && r < 64 && t < 64 && Bytes(p, q, r, t, 3) == [a, b, c]
    ensures c == 0 ==> var (p, q, r, t) := Sixes(a, b, c); Bytes(p, q, r, 0, 2) == [a, b]
    ensures b == 0 && c == 0 ==> var (p, q, r, t) := Sixes(a, b, c); Bytes(p, q, 0, 0, 1) == [a]
  {
  }

  /** Decoding what one group adds. */
  lemma DecodeQuad(a: Byte, b: Byte, c: Byte, more: string)
    ensures Decode(Quad(a, b, c) + more) ==
      match Decode(more) case None => None case Some(bytes) => Some([a, b, c] + bytes)
  {
    hide Quad, Bytes, Value, Digit;
    var (p, q, r, t) := Sixes(a, b, c);
    QuadIsSixes(a, b, c);
    BytesOfSixes(a, b, c);
    ValueOfDigit(p);
    ValueOfDigit(q);
    ValueOfDigit(r);
    ValueOfDigit(t);
    var s := Quad(a, b, c) + more;
    assert s[4..] == more;
  }

  lemma DecodeTwo(a: Byte, b: Byte)
    ensures Decode(Quad(a, b, 0)[..3] + Pad(1)) == Some([a, b])
  {
    hide Quad, Bytes, Value, Digit;
    var (p, q, r, t) := Sixes(a, b, 0);
    QuadIsSixes(a, b, 0);
    BytesOfSixes(a, b, 0);
    ValueOfDigit(p);
    ValueOfDigit(q);
    ValueOfDigit(r);
    var s := Quad(a, b, 0)[..3] + Pad(1);
    assert s == [Digit(p), Digit(q), Digit(r), '='];
    assert s[4..] == [];
    assert [a, b] + [] == [a, b];
  }

  lemma DecodeOne(a: Byte)
    ensures Decode(Quad(a, 0, 0)[..2] + Pad(2)) == Some([a])
  {
    hide Quad, Bytes, Value, Digit;
    var (p, q, r, t) := Sixes(a, 0, 0);
    QuadIsSixes(a, 0, 0);
    BytesOfSixes(a, 0, 0);
    ValueOfDigit(p);
    ValueOfDigit(q);
    var s := Quad(a, 0, 0)[..2] + Pad(2);
    assert s == [Digit(p), Digit(q), '=', '='];
    assert s[4..] == [];
    assert [a] + [] == [a];
  }

  lemma QuadHasNoBreak(a: Byte, b: Byte, c: Byte)
    ensures '\n' !in Quad(a, b, c) && '=' !in Quad(a, b, c)
  {
  }

  lemma StripLineBreak(groups: nat)
    ensures Strip(LineBreak(groups)) == ""
  {
  }

  /** Any input can be read back from its encoding. */
  lemma {:induction false} DecodeEncoding(input: seq<Byte>, groups: nat)
    ensures Decode(Strip(Encoding(input, groups))) == Some(input)
    decreases |input|
  {
    hide Quad, Pad, Decode;
    if input == [] {
      assert Encoding(input, groups) == "";
      DecodeNothing();
    } else if |input| == 1 {
      QuadHasNoBreak(input[0], 0, 0);
      PadHasNoBreak(2);
      StripNone(Quad(input[0], 0, 0)[..2] + Pad(2));
      DecodeOne(input[0]);
      assert [input[0]] == input;
    } else if |input| == 2 {
      QuadHasNoBreak(input[0], input[1], 0);
      PadHasNoBreak(1);
      StripNone(Quad(input[0], input[1], 0)[..3] + Pad(1));
      DecodeTwo(input[0], input[1]);
      assert [input[0], input[1]] == input;
    } else {
      var quad, more := Quad(input[0], input[1], input[2]), Encoding(input[3..], groups + 1);
      QuadHasNoBreak(input[0], input[1], input[2]);
      StripNone(quad);
      StripLineBreak(groups + 1);
      StripAppend(quad, LineBreak(groups + 1));
      StripAppend(quad + LineBreak(groups + 1), more);
      DecodeEncoding(input[3..], groups + 1);
      DecodeQuad(input[0], input[1], input[2], Strip(more));
      assert quad + "" == quad;
      assert [input[0], input[1], input[2]] + input[3..] == input;
    }
  }

  lemma DecodeNothing()
    ensures Decode(Strip("")) == Some([])
  {
  }

  lemma PadHasNoBreak(n: nat)
    ensures '\n' !in Pad(n)
  {
  }

  // ---- Lines and padding ----

  /**
   No line of s is longer than 76 characters and none but the last is shorter,
   when its first line continues one of `column`.
   */
  predicate LinesFit(s: string, column: nat) {
    && column <= LINE_LEN
    && (s != [] && s[0] == '\n' ==> column == LINE_LEN)
    && (s != [] ==> LinesFit(s[1..], if s[0] == '\n' then 0 else column + 1))
  }

  lemma {:induction false} LinesFitAfter(x: string, y: string, column: nat)
    requires '\n' !in x && LinesFit(y, column + |x|)
    ensures LinesFit(x + y, column)
  {
    if x == [] {
      assert x + y == y;
    } else {
      assert (x + y)[1..] == x[1..] + y;
      LinesFitAfter(x[1..], y, column + 1);
    }
  }

  lemma LinesFitEnd(column: nat)
    requires column <= LINE_LEN
    ensures LinesFit("", column)
  {
  }

  /** Every line of an encoding has 76 characters, but the last, which has at most as many. */
  lemma {:induction false} EncodingLinesFit(input: seq<Byte>, groups: nat)
    ensures LinesFit(Encoding(input, groups), 4 * (groups % LINE_GROUPS))
    decreases |input|
  {
    hide Quad, Pad, LinesFit;
    var column := 4 * (groups % LINE_GROUPS);
    if input == [] {
      LinesFitEnd(column);
    } else if |input| < 3 {
      QuadHasNoBreak(input[0], if |input| > 1 then input[1] else 0, 0);
      PadHasNoBreak(3 - |input|);
      PadLength(3 - |input|);
      LinesFitEnd(column + 4);
      LinesFitAfter(Encoding(input, groups), "", column);
      assert Encoding(input, groups) + "" == Encoding(input, groups);
    } else {
      var quad, more := Quad(input[0], input[1], input[2]), Encoding(input[3..], groups + 1);
      QuadHasNoBreak(input[0], input[1], input[2]);
      EncodingLinesFit(input[3..], groups + 1);
      NextColumn(groups, more);
      LinesFitAfter(quad, LineBreak(groups + 1) + more, column);
      assert quad + LineBreak(groups + 1) + more == quad + (LineBreak(groups + 1) + more);
    }
  }

  lemma PadLength(n: nat)
    ensures |Pad(n)| == n
  {
  }

  lemma NextColumn(groups: nat, more: string)
    requires LinesFit(more, 4 * ((groups + 1) % LINE_GROUPS))
    ensures LinesFit(LineBreak(groups + 1) + more, 4 * (groups % LINE_GROUPS) + 4)
  {
    if (groups + 1) % LINE_GROUPS == 0 {
      assert groups % LINE_GROUPS == LINE_GROUPS - 1;
      assert ("\n" + more)[1..] == more;
    } else {
      assert (groups + 1) % LINE_GROUPS == groups % LINE_GROUPS + 1;
      assert "" + more == more;
    }
  }

  /** How many characters the last group of an input of this length lacks. */
  function Lacking(length: nat): nat {
    if length % 3 == 0 then 0 else 3 - length % 3
  }

  /** The padding is the characters that the last group lacks, all of them, at the very end and nowhere else. */
  lemma {:induction false} PaddingAtEnd(input: seq<Byte>, groups: nat, i: nat)
    requires i < |Encoding(input, groups)|
    ensures Lacking(|input|) <= |Encoding(input, groups)|
    ensures Encoding(input, groups)[i] == '=' <==> |Encoding(input, groups)| - Lacking(|input|) <= i
    decreases |input|
  {
    hide Quad;
    if |input| < 3 {
      QuadHasNoBreak(input[0], if |input| > 1 then input[1] else 0, 0);
    } else {
      var quad := Quad(input[0], input[1], input[2]);
      var head, more := quad + LineBreak(groups + 1), Encoding(input[3..], groups + 1);
      QuadHasNoBreak(input[0], input[1], input[2]);
      assert Encoding(input, groups) == head + more;
      assert '=' !in head;
      assert Lacking(|input[3..]|) == Lacking(|input|);
      PaddingFits(input[3..], groups + 1);
      if |head| <= i {
        PaddingAtEnd(input[3..], groups + 1, i - |head|);
      } else {
        assert Encoding(input, groups)[i] == head[i];
      }
    }
  }

  lemma {:induction false} PaddingFits(input: seq<Byte>, groups: nat)
    ensures Lacking(|input|) <= |Encoding(input, groups)|
    decreases |input|
  {
    hide Quad;
    if |input| < 3 {
    } else {
      assert Lacking(|input[3..]|) == Lacking(|input|);
      PaddingFits(input[3..], groups + 1);
    }
  }
}
