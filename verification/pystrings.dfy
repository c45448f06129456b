/**
 * The parts of Python's `str` behaviour that the tools rely on, stated over
 * Dafny strings (sequences of Unicode scalar values).
 */
module PyStrings {

  /** `str.isspace()` for one character: the code points Python 3 treats as whitespace. */
  predicate IsSpace(c: char) {
    || ('\t' <= c <= '\r')
    || ('\U{001C}' <= c <= ' ')
    || c == '\U{0085}' || c == '\U{00A0}' || c == '\U{1680}'
    || ('\U{2000}' <= c <= '\U{200A}')
    || c == '\U{2028}' || c == '\U{2029}' || c == '\U{202F}' || c == '\U{205F}' || c == '\U{3000}'
  }

  /** The characters at which `str.splitlines()` ends a line ("\r\n" counts as one break). */
  predicate IsLineBreak(c: char) {
    || ('\n' <= c <= '\r')
    || ('\U{001C}' <= c <= '\U{001E}')
    || c == '\U{0085}' || c == '\U{2028}' || c == '\U{2029}'
  }

  predicate StartsWith(s: string, prefix: string) {
    |prefix| <= |s| && s[..|prefix|] == prefix
  }

  predicate EndsWith(s: string, suffix: string) {
    |suffix| <= |s| && s[|s| - |suffix|..] == suffix
  }

  /** `pattern in s` for strings. */
  predicate Contains(s: string, pattern: string) {
    exists i | 0 <= i <= |s| :: StartsWith(s[i..], pattern)
  }

  /** `str.lstrip()`: drops the leading whitespace. */
  function LStrip(s: string): (r: string)
    ensures |r| <= |s| && r == s[|s| - |r|..]
    ensures forall i | 0 <= i < |s| - |r| :: IsSpace(s[i])
    ensures r != [] ==> !IsSpace(r[0])
  {
    if s != [] && IsSpace(s[0]) then LStrip(s[1..]) else s
  }

  /** `str.rstrip()`: drops the trailing whitespace. */
  function RStrip(s: string): (r: string)
    ensures |r| <= |s| && r == s[..|r|]
    ensures forall i | |r| <= i < |s| :: IsSpace(s[i])
    ensures r != [] ==> !IsSpace(r[|r| - 1])
  {
    if s != [] && IsSpace(s[|s| - 1]) then RStrip(s[..|s| - 1]) else s
  }

  /** `str.strip()`: the text between the leading and the trailing whitespace. */
  function Strip(s: string): (r: string)
    ensures |r| <= |s|
    ensures r == [] <==> forall i | 0 <= i < |s| :: IsSpace(s[i])
    ensures r != [] ==> !IsSpace(r[0]) && !IsSpace(r[|r| - 1])
  {
    var l := LStrip(s);
    var r := RStrip(l);
    if r == [] then
      r
    else
      assert r[0] == l[0];
      assert l[0] == s[|s| - |l|];
      r
  }

  /** Where the stripped text starts in `s`: after the leading whitespace. */
  function StripStart(s: string): (a: nat)
    ensures a <= |s|
  {
    |s| - |LStrip(s)|
  }

  /** `s.strip()` is the slice of `s` from its first to its last non-whitespace character:
      everything before and after it is whitespace. */
  lemma StripSlice(s: string)
    ensures StripStart(s) + |Strip(s)| <= |s|
    ensures Strip(s) == s[StripStart(s)..StripStart(s) + |Strip(s)|]
    ensures forall i | 0 <= i < StripStart(s) :: IsSpace(s[i])
    ensures forall i | StripStart(s) + |Strip(s)| <= i < |s| :: IsSpace(s[i])
  {
    var l := LStrip(s);
    var r := RStrip(l);
    var a := |s| - |l|;
    assert l == s[a..];
    assert r == l[..|r|] == s[a..a + |r|];
    forall i | a + |r| <= i < |s|
      ensures IsSpace(s[i])
    {
      assert s[i] == l[i - a];
    }
  }

  /** `sep.join(lines)`. */
  function Join(lines: seq<string>, sep: string): string
  {
    if |lines| == 0 then ""
    else if |lines| == 1 then lines[0]
    else lines[0] + sep + Join(lines[1..], sep)
  }

  /** `s.split(sep)` for a one-character separator: the pieces between separators, empty ones included. */
  function Split(s: string, sep: char): (r: seq<string>)
    ensures |r| >= 1
    ensures forall i | 0 <= i < |r| :: sep !in r[i]
    ensures Join(r, [sep]) == s
  {
    if s == [] then [""]
    else
      var rest := Split(s[1..], sep);
      if s[0] == sep then
        [""] + rest
      else
        var r := [[s[0]] + rest[0]] + rest[1..];
        assert Join(r, [sep]) == [s[0]] + Join(rest, [sep]) by {
          if |rest| > 1 {
            assert r[1..] == rest[1..];
          }
        }
        assert s == [s[0]] + s[1..];
        r
  }

  /** A piece without the separator splits into itself. */
  lemma {:induction false} SplitNoSep(a: string, sep: char)
    requires sep !in a
    ensures Split(a, sep) == [a]
    decreases |a|
  {
    if a != [] {
      SplitNoSep(a[1..], sep);
      assert [a[0]] + a[1..] == a;
    }
  }

  /** A piece without the separator, then the separator, splits off as the first piece. */
  lemma {:induction false} SplitAtSep(a: string, sep: char, rest: string)
    requires sep !in a
    ensures Split(a + [sep] + rest, sep) == [a] + Split(rest, sep)
    decreases |a|
  {
    var s := a + [sep] + rest;
    if a == [] {
      assert s[1..] == rest;
    } else {
      assert s[1..] == a[1..] + [sep] + rest;
      SplitAtSep(a[1..], sep, rest);
      assert [a[0]] + a[1..] == a;
    }
  }

  /** Splitting pieces joined by a separator none of them contains gives the pieces back. */
  lemma {:induction false} SplitOfJoin(pieces: seq<string>, sep: char)
    requires |pieces| >= 1
    requires forall i | 0 <= i < |pieces| :: sep !in pieces[i]
    ensures Split(Join(pieces, [sep]), sep) == pieces
    decreases |pieces|
  {
    if |pieces| == 1 {
      SplitNoSep(pieces[0], sep);
    } else {
      SplitAtSep(pieces[0], sep, Join(pieces[1..], [sep]));
      SplitOfJoin(pieces[1..], sep);
    }
  }

  /** A join of at least one piece ends with the last piece. */
  lemma {:induction false} JoinEndsWithLast(pieces: seq<string>, sep: string)
    requires |pieces| >= 1
    ensures EndsWith(Join(pieces, sep), pieces[|pieces| - 1])
    decreases |pieces|
  {
    if |pieces| > 1 {
      JoinEndsWithLast(pieces[1..], sep);
      var j := Join(pieces[1..], sep);
      var last := pieces[|pieces| - 1];
      assert (pieces[0] + sep + j)[|pieces[0] + sep + j| - |last|..] == j[|j| - |last|..];
    }
  }

  /** Index of the first line break in `s`, or `|s|` when there is none. */
  function FirstBreak(s: string): (k: nat)
    ensures k <= |s|
    ensures forall i | 0 <= i < k :: !IsLineBreak(s[i])
    ensures k < |s| ==> IsLineBreak(s[k])
  {
    if s == [] || IsLineBreak(s[0]) then 0 else 1 + FirstBreak(s[1..])
  }

  /** `s.splitlines()`: the lines of `s` without their breaks; a final break opens no extra line. */
  function SplitLines(s: string): (r: seq<string>)
    ensures forall i | 0 <= i < |r| :: forall j | 0 <= j < |r[i]| :: !IsLineBreak(r[i][j])
    decreases |s|
  {
    if s == [] then []
    else
      var k := FirstBreak(s);
      if k == |s| then [s]
      else
        var width := if s[k] == '\r' && k + 1 < |s| && s[k + 1] == '\n' then 2 else 1;
        [s[..k]] + SplitLines(s[k + width..])
  }

  /** `lines` without its last element when that element is the empty string. */
  function DropTrailingEmpty(lines: seq<string>): seq<string> {
    if |lines| > 0 && lines[|lines| - 1] == "" then lines[..|lines| - 1] else lines
  }

  predicate NoLineBreaks(lines: seq<string>) {
    forall i | 0 <= i < |lines| :: forall j | 0 <= j < |lines[i]| :: !IsLineBreak(lines[i][j])
  }

  /** Joining break-free lines with "\n" and splitting the result again gives the lines back,
      except that a final empty line is absorbed by the last break. */
  lemma {:induction false} SplitLinesOfJoin(lines: seq<string>)
    requires NoLineBreaks(lines)
    ensures SplitLines(Join(lines, "\n")) == DropTrailingEmpty(lines)
  {
    if |lines| == 0 {
    } else if |lines| == 1 {
      if lines[0] != "" {
        assert FirstBreak(lines[0]) == |lines[0]|;
      }
    } else {
      var s := Join(lines, "\n");
      var rest := Join(lines[1..], "\n");
      assert s == lines[0] + "\n" + rest;
      FirstBreakAt(lines[0], rest);
      assert s[..|lines[0]|] == lines[0];
      assert s[|lines[0]| + 1..] == rest;
      SplitLinesOfJoin(lines[1..]);
      assert lines == [lines[0]] + lines[1..];
    }
  }

  lemma FirstBreakAt(line: string, rest: string)
    requires forall j | 0 <= j < |line| :: !IsLineBreak(line[j])
    ensures FirstBreak(line + "\n" + rest) == |line|
  {
    if line != [] {
      assert (line + "\n" + rest)[1..] == line[1..] + "\n" + rest;
      FirstBreakAt(line[1..], rest);
    }
  }

  /** Python's `str.upper()` restricted to the characters whose upper case is a single character
      in the ranges the tools look up: ASCII letters and the Cyrillic alphabet. */
  function UpperChar(c: char): char {
    if 'a' <= c <= 'z' then (c as int - 0x20) as char
    else if '\U{0430}' <= c <= '\U{044F}' then (c as int - 0x20) as char   // а..я to А..Я
    else if '\U{0450}' <= c <= '\U{045F}' then (c as int - 0x50) as char   // ѐ..џ to Ѐ..Џ (ё to Ё)
    else if c == '\U{0131}' then 'I'                                       // dotless i
    else if c == '\U{017F}' then 'S'                                       // long s
    else if c == '\U{1C80}' then '\U{0412}'                                // historic Cyrillic forms
    else if c == '\U{1C81}' then '\U{0414}'
    else if c == '\U{1C82}' then '\U{041E}'
    else if c == '\U{1C83}' then '\U{0421}'
    else if c == '\U{1C84}' || c == '\U{1C85}' then '\U{0422}'
    else if c == '\U{1C86}' then '\U{042A}'
    else c
  }

  function Upper(s: string): (r: string)
    ensures |r| == |s|
    ensures forall i | 0 <= i < |s| :: r[i] == UpperChar(s[i])
  {
    seq(|s|, i requires 0 <= i < |s| => UpperChar(s[i]))
  }

  /** `s.replace(pattern, "")`: removes the non-overlapping occurrences of `pattern`, scanning left to right. */
  function RemoveAll(s: string, pattern: string): (r: string)
    requires pattern != []
    ensures |r| <= |s|
    decreases |s|
  {
    if |s| < |pattern| then s
    else if s[..|pattern|] == pattern then RemoveAll(s[|pattern|..], pattern)
    else [s[0]] + RemoveAll(s[1..], pattern)
  }

  /** `pattern` starts at no position of `u + pattern` before `pattern` itself. */
  predicate NoEarlyMatch(u: string, pattern: string) {
    forall i | 0 <= i < |u| :: !StartsWith((u + pattern)[i..], pattern)
  }

  /** Without an occurrence of `pattern`, removing it changes nothing. */
  lemma {:induction false} RemoveAllAbsent(s: string, pattern: string)
    requires pattern != [] && !Contains(s, pattern)
    ensures RemoveAll(s, pattern) == s
    decreases |s|
  {
    if |s| >= |pattern| {
      assert s[0..] == s;
      assert !StartsWith(s[0..], pattern);
      forall i | 0 <= i <= |s[1..]|
        ensures !StartsWith(s[1..][i..], pattern)
      {
        assert s[1..][i..] == s[i + 1..];
      }
      RemoveAllAbsent(s[1..], pattern);
      assert [s[0]] + s[1..] == s;
    }
  }

  /** The text before the first occurrence of `pattern` is kept, that occurrence is removed,
      and removal goes on after it. */
  lemma {:induction false} RemoveAllAfter(u: string, pattern: string, v: string)
    requires pattern != [] && NoEarlyMatch(u, pattern)
    ensures RemoveAll(u + pattern + v, pattern) == u + RemoveAll(v, pattern)
    decreases |u|
  {
    var s := u + pattern + v;
    if u == [] {
      assert s[..|pattern|] == pattern && s[|pattern|..] == v;
    } else {
      assert !StartsWith((u + pattern)[0..], pattern);
      assert s[..|pattern|] == (u + pattern)[0..][..|pattern|];
      assert s[1..] == u[1..] + pattern + v;
      forall i | 0 <= i < |u[1..]|
        ensures !StartsWith((u[1..] + pattern)[i..], pattern)
      {
        assert (u[1..] + pattern)[i..] == (u + pattern)[i + 1..];
        assert !StartsWith((u + pattern)[i + 1..], pattern);
      }
      RemoveAllAfter(u[1..], pattern, v);
      assert RemoveAll(s, pattern) == [s[0]] + RemoveAll(s[1..], pattern);
      assert [u[0]] + u[1..] == u;
    }
  }

  predicate IsDigit(c: char) { '0' <= c <= '9' }

  /** `str(n)` for a natural number. */
  function Decimal(n: nat): (r: string)
    ensures r != [] && forall i | 0 <= i < |r| :: IsDigit(r[i])
  {
    if n < 10 then ["0123456789"[n]]
    else Decimal(n / 10) + ["0123456789"[n % 10]]
  }

  predicate IsUpperHexDigit(c: char) { '0' <= c <= '9' || 'A' <= c <= 'F' }

  /** The upper-case hexadecimal digit of `d`. */
  function HexDigit(d: nat): (c: char)
    requires d < 16
    ensures IsUpperHexDigit(c)
  {
    if d < 10 then ('0' as int + d) as char else ('A' as int + (d - 10)) as char
  }

  /** `format(n, "X")`: upper-case hexadecimal digits without leading zeros. */
  function Hex(n: nat): (r: string)
    ensures r != [] && forall i | 0 <= i < |r| :: IsUpperHexDigit(r[i])
    ensures n < 0x100 ==> |r| <= 2
  {
    if n < 16 then [HexDigit(n)]
    else Hex(n / 16) + [HexDigit(n % 16)]
  }

  /** `format(n, "02X")` for a byte value: exactly two upper-case hexadecimal digits. */
  function HexByte(n: nat): (r: string)
    requires n < 0x100
    ensures |r| == 2 && IsUpperHexDigit(r[0]) && IsUpperHexDigit(r[1])
  {
    [HexDigit(n / 16), HexDigit(n % 16)]
  }

  /** The two-digit form agrees with the general padded formatting. */
  lemma HexByteIsPadded(n: nat)
    requires n < 0x100
    ensures HexByte(n) == HexPadded(n, 2)
  {
    if n < 16 {
      assert Hex(n) == [HexDigit(n)];
      assert Repeat('0', 1) == [HexDigit(0)];
    } else {
      assert Hex(n / 16) == [HexDigit(n / 16)];
    }
  }

  /** `k` copies of `c`. */
  function Repeat(c: char, k: nat): (r: string)
    ensures |r| == k && forall i | 0 <= i < k :: r[i] == c
  {
    if k == 0 then [] else [c] + Repeat(c, k - 1)
  }

  /** `format(n, "0{width}X")`: hexadecimal, padded on the left with zeros to at least `width` digits. */
  function HexPadded(n: nat, width: nat): (r: string)
    ensures |r| >= width
    ensures n < 0x100 && width == 2 ==> |r| == 2
    ensures forall i | 0 <= i < |r| :: IsUpperHexDigit(r[i])
  {
    var digits := Hex(n);
    if |digits| >= width then digits
    else Repeat('0', width - |digits|) + digits
  }
}
