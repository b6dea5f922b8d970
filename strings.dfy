/**
 * The pieces of Python's string semantics that the plugins rely on: the
 * whitespace of str.isspace, strip, ASCII case mapping, str.replace
 * (left to right, non-overlapping), join, split and str(int).
 */
module Strings {
  /** Python's str.isspace for one character. */
  predicate IsSpace(c: char)
  {
    c == ' ' || ('\t' <= c <= '\r') || ('\U{1C}' <= c <= '\U{1F}')
    || c == '\U{85}' || c == '\U{A0}' || c == '\U{1680}'
    || ('\U{2000}' <= c <= '\U{200A}') || c == '\U{2028}' || c == '\U{2029}'
    || c == '\U{202F}' || c == '\U{205F}' || c == '\U{3000}'
  }

  /** The whitespace bytes.strip() removes (ASCII only). */
  predicate IsAsciiSpace(c: char) { c == ' ' || ('\t' <= c <= '\r') }

  predicate AllSpace(s: string) { forall i :: 0 <= i < |s| ==> IsSpace(s[i]) }

  /** str.lstrip(): the suffix left after dropping leading whitespace. */
  function LStrip(s: string): (r: string)
    ensures |r| <= |s| && r == s[|s| - |r|..]
    ensures r != [] ==> !IsSpace(r[0])
    ensures AllSpace(s[..|s| - |r|])
  {
    if s != [] && IsSpace(s[0]) then
      var r := LStrip(s[1..]);
      assert s[..|s| - |r|] == [s[0]] + s[1..][..|s| - 1 - |r|];
      r
    else s
  }

  /** str.rstrip(): the prefix left after dropping trailing whitespace. */
  function RStrip(s: string): (r: string)
    ensures |r| <= |s| && r == s[..|r|]
    ensures r != [] ==> !IsSpace(r[|r| - 1])
    ensures AllSpace(s[|r|..])
  {
    if s != [] && IsSpace(s[|s| - 1]) then
      var r := RStrip(s[..|s| - 1]);
      assert s[|r|..] == s[..|s| - 1][|r|..] + [s[|s| - 1]];
      r
    else s
  }

  /** str.strip(). */
  function Strip(s: string): string { RStrip(LStrip(s)) }

  /** strip() leaves a string alone when it neither starts nor ends with whitespace. */
  lemma StripUnchanged(s: string)
    requires s != [] ==> !IsSpace(s[0]) && !IsSpace(s[|s| - 1])
    ensures Strip(s) == s
  {
    var l := LStrip(s);
    if |l| < |s| {
      assert s[..|s| - |l|][0] == s[0];
    }
    assert l == s;
  }

  /** A string is blank for the plugins when rstrip() leaves nothing. */
  lemma {:induction false} RStripEmptyIffAllSpace(s: string)
    ensures RStrip(s) == [] <==> AllSpace(s)
  {
    if RStrip(s) != [] {
      var r := RStrip(s);
      assert s[|r| - 1] == r[|r| - 1];
    }
  }

  /** lstrip() leaves nothing exactly when every character is whitespace. */
  lemma LStripEmptyIffAllSpace(s: string)
    ensures LStrip(s) == [] <==> AllSpace(s)
  {
    var r := LStrip(s);
    if r == [] {
      assert s[..|s|] == s;
    } else {
      assert s[|s| - |r|] == r[0];
    }
  }

  /** bytes.strip() is empty exactly when every character is ASCII whitespace. */
  predicate AsciiBlank(s: string) { forall i :: 0 <= i < |s| ==> IsAsciiSpace(s[i]) }

  function LowerChar(c: char): (d: char)
    ensures 'A' <= c <= 'Z' ==> 'a' <= d <= 'z'
    ensures !('A' <= c <= 'Z') ==> d == c
  {
    if 'A' <= c <= 'Z' then (c as int + 32) as char else c
  }

  function UpperChar(c: char): (d: char)
    ensures 'a' <= c <= 'z' ==> 'A' <= d <= 'Z'
    ensures !('a' <= c <= 'z') ==> d == c
  {
    if 'a' <= c <= 'z' then (c as int - 32) as char else c
  }

  /** str.lower() on ASCII letters. */
  function Lower(s: string): (r: string)
    ensures |r| == |s| && forall i :: 0 <= i < |s| ==> r[i] == LowerChar(s[i])
  {
    if s == [] then [] else [LowerChar(s[0])] + Lower(s[1..])
  }

  /** str.upper() on ASCII letters. */
  function Upper(s: string): (r: string)
    ensures |r| == |s| && forall i :: 0 <= i < |s| ==> r[i] == UpperChar(s[i])
  {
    if s == [] then [] else [UpperChar(s[0])] + Upper(s[1..])
  }

  /** str.capitalize() on ASCII letters: first character upper, the rest lower. */
  function Capitalize(s: string): (r: string)
    ensures |r| == |s|
    ensures s != [] ==> r[0] == UpperChar(s[0]) && r[1..] == Lower(s[1..])
  {
    if s == [] then [] else [UpperChar(s[0])] + Lower(s[1..])
  }

  predicate StartsWith(s: string, p: string) { p <= s }

  predicate EndsWith(s: string, p: string) { |p| <= |s| && s[|s| - |p|..] == p }

  /** Python's `p in s` for strings. */
  predicate HasSubstring(s: string, p: string)
    decreases |s|
  {
    p <= s || (s != [] && HasSubstring(s[1..], p))
  }

  /** str.replace(pat, rep) for a non-empty pattern: occurrences are found left to
   *  right and do not overlap. */
  function Replace(s: string, pat: string, rep: string): string
    requires pat != []
    decreases |s|
  {
    if s == [] then []
    else if pat <= s then rep + Replace(s[|pat|..], pat, rep)
    else [s[0]] + Replace(s[1..], pat, rep)
  }

  /** Replacing something that does not occur changes nothing. */
  lemma {:induction false} ReplaceAbsent(s: string, pat: string, rep: string)
    requires pat != [] && !HasSubstring(s, pat)
    ensures Replace(s, pat, rep) == s
    decreases |s|
  {
    if s != [] {
      ReplaceAbsent(s[1..], pat, rep);
    }
  }

  /** Replacing a single character rep a string distributes over concatenation. */
  lemma {:induction false} ReplaceCharConcat(s: string, t: string, c: char, rep: string)
    ensures Replace(s + t, [c], rep) == Replace(s, [c], rep) + Replace(t, [c], rep)
    decreases |s|
  {
    if s == [] {
      assert s + t == t;
    } else {
      var st := s + t;
      assert st[0] == s[0];
      assert st[1..] == s[1..] + t;
      assert ([c] <= st) == ([c] <= s);
      ReplaceCharConcat(s[1..], t, c, rep);
      if [c] <= s {
        assert Replace(st, [c], rep) == rep + Replace(st[1..], [c], rep);
        assert Replace(s, [c], rep) == rep + Replace(s[1..], [c], rep);
      } else {
        assert Replace(st, [c], rep) == [st[0]] + Replace(st[1..], [c], rep);
        assert Replace(s, [c], rep) == [s[0]] + Replace(s[1..], [c], rep);
      }
    }
  }

  /** The text has no x in it. */
  predicate Lacks(s: string, x: char) { forall i :: 0 <= i < |s| ==> s[i] != x }

  /** Replacing anything by text without x leaves a text without x. */
  lemma {:induction false} ReplaceLacks(s: string, pat: string, rep: string, x: char)
    requires pat != [] && Lacks(s, x) && Lacks(rep, x)
    ensures Lacks(Replace(s, pat, rep), x)
    decreases |s|
  {
    if s != [] {
      if pat <= s {
        ReplaceLacks(s[|pat|..], pat, rep, x);
      } else {
        ReplaceLacks(s[1..], pat, rep, x);
      }
    }
  }

  /** Replacing a character that does not occur changes nothing. */
  lemma {:induction false} ReplaceCharAbsent(s: string, c: char, rep: string)
    requires Lacks(s, c)
    ensures Replace(s, [c], rep) == s
    decreases |s|
  {
    if s != [] {
      assert s[0] != c;
      assert !([c] <= s);
      ReplaceCharAbsent(s[1..], c, rep);
    }
  }

  /** Escaping c and then unescaping c gives back a text without backslashes. */
  lemma {:induction false} UnescapeEscape(s: string, c: char)
    requires Lacks(s, '\\') && c != '\\'
    ensures Replace(Replace(s, [c], ['\\', c]), ['\\', c], [c]) == s
    decreases |s|
  {
    if s != [] {
      UnescapeEscape(s[1..], c);
      var rest := Replace(s[1..], [c], ['\\', c]);
      if s[0] == c {
        assert Replace(s, [c], ['\\', c]) == ['\\', c] + rest;
        assert (['\\', c] + rest)[2..] == rest;
      } else {
        var t := [s[0]] + rest;
        assert Replace(s, [c], ['\\', c]) == t;
        assert t[0] == s[0];
        ReplaceHead(t, ['\\', c], [c]);
        assert t[1..] == rest;
      }
    }
  }

  /** str.replace past a first character that does not start a match. */
  lemma ReplaceHead(s: string, pat: string, rep: string)
    requires pat != [] && s != [] && |pat| >= 2 && (s[0] != pat[0] || |s| < 2 || s[1] != pat[1])
    ensures Replace(s, pat, rep) == [s[0]] + Replace(s[1..], pat, rep)
  {
    assert !(pat <= s);
  }

  /** "sep".join(parts). */
  function Join(parts: seq<string>, sep: string): (r: string)
    ensures |parts| == 1 ==> r == parts[0]
  {
    if |parts| == 0 then []
    else if |parts| == 1 then parts[0]
    else parts[0] + sep + Join(parts[1..], sep)
  }

  /** Joining one more part. */
  lemma {:induction false} JoinSnoc(parts: seq<string>, x: string, sep: string)
    requires parts != []
    ensures Join(parts + [x], sep) == Join(parts, sep) + sep + x
    decreases |parts|
  {
    if |parts| == 1 {
      assert (parts + [x])[1..] == [x];
    } else {
      assert (parts + [x])[1..] == parts[1..] + [x];
      JoinSnoc(parts[1..], x, sep);
    }
  }

  /** The parts concatenated without separator. */
  function Concat(parts: seq<string>): string
  {
    if parts == [] then [] else parts[0] + Concat(parts[1..])
  }

  lemma {:induction false} ConcatAppend(a: seq<string>, b: seq<string>)
    ensures Concat(a + b) == Concat(a) + Concat(b)
  {
    if a == [] {
      assert a + b == b;
    } else {
      assert (a + b)[1..] == a[1..] + b;
      ConcatAppend(a[1..], b);
    }
  }

  /** str.split(c) for a one-character separator: always at least one part. */
  function Split(s: string, c: char): (parts: seq<string>)
    ensures |parts| >= 1
    ensures forall i, j :: 0 <= i < |parts| && 0 <= j < |parts[i]| ==> parts[i][j] != c
    decreases |s|
  {
    if s == [] then [[]]
    else
      var rest := Split(s[1..], c);
      if s[0] == c then [[]] + rest else [[s[0]] + rest[0]] + rest[1..]
  }

  /** A string without the separator is split into itself alone. */
  lemma {:induction false} SplitLacking(s: string, c: char)
    requires Lacks(s, c)
    ensures Split(s, c) == [s]
    decreases |s|
  {
    if s != [] {
      SplitLacking(s[1..], c);
      assert s[0] != c && [s[0]] + s[1..] == s;
    }
  }

  lemma {:induction false} SplitAtSeparator(a: string, b: string, c: char)
    requires Lacks(a, c)
    ensures Split(a + [c] + b, c) == [a] + Split(b, c)
    decreases |a|
  {
    var s := a + [c] + b;
    if a == [] {
      assert s[1..] == b;
    } else {
      assert s[1..] == a[1..] + [c] + b;
      SplitAtSeparator(a[1..], b, c);
      assert s[0] == a[0] != c && [a[0]] + a[1..] == a;
    }
  }

  /** Splitting what was joined with a separator no part holds gives back the parts. */
  lemma {:induction false} SplitJoin(parts: seq<string>, c: char)
    requires parts != [] && forall i :: 0 <= i < |parts| ==> Lacks(parts[i], c)
    ensures Split(Join(parts, [c]), c) == parts
    decreases |parts|
  {
    if |parts| == 1 {
      SplitLacking(parts[0], c);
    } else {
      SplitJoin(parts[1..], c);
      SplitAtSeparator(parts[0], Join(parts[1..], [c]), c);
    }
  }

  /** Joining the parts of a split with its separator restores the string. */
  lemma {:induction false} JoinSplit(s: string, c: char)
    ensures Join(Split(s, c), [c]) == s
    decreases |s|
  {
    if s != [] {
      JoinSplit(s[1..], c);
      var rest := Split(s[1..], c);
      if s[0] == c {
        assert Split(s, c)[1..] == rest;
      } else {
        var parts := Split(s, c);
        if |rest| > 1 {
          assert parts[1..] == rest[1..];
          assert Join(rest, [c]) == rest[0] + [c] + Join(rest[1..], [c]);
        }
      }
    }
  }

  /** The line boundaries of Python's str.splitlines. */
  predicate IsLineBreak(c: char)
  {
    c == '\n' || c == '\r' || c == '\U{0B}' || c == '\U{0C}' || ('\U{1C}' <= c <= '\U{1E}')
    || c == '\U{85}' || c == '\U{2028}' || c == '\U{2029}'
  }

  /** Length of the text before the first line boundary. */
  function LineLength(s: string): (n: nat)
    ensures n <= |s|
    ensures forall j :: 0 <= j < n ==> !IsLineBreak(s[j])
    ensures n < |s| ==> IsLineBreak(s[n])
  {
    if s == [] || IsLineBreak(s[0]) then 0 else 1 + LineLength(s[1..])
  }

  /**
   * str.splitlines(): the lines without their terminators; "\r\n" is one
   * terminator, a terminator at the very end opens no further line, and the
   * empty string has no lines.
   */
  function SplitLines(s: string): (lines: seq<string>)
    ensures s != [] <==> lines != []
    decreases |s|
  {
    if s == [] then []
    else
      var n := LineLength(s);
      if n == |s| then [s]
      else [s[..n]] + SplitLines(s[TerminatorEnd(s, n)..])
  }

  /** Where the line terminator at n ends: "\r\n" counts as one. */
  function TerminatorEnd(s: string, n: nat): (stop: nat)
    requires n < |s|
    ensures n < stop <= |s|
  {
    if s[n] == '\r' && n + 1 < |s| && s[n + 1] == '\n' then n + 2 else n + 1
  }

  /** The only line boundary in s, if any, is "\n". */
  predicate OnlyNewlines(s: string)
  {
    forall j :: 0 <= j < |s| ==> s[j] == '\n' || !IsLineBreak(s[j])
  }

  /**
   * On text whose only line boundary is "\n" and that does not end with one,
   * joining the lines with "\n" gives the text back.
   */
  lemma {:induction false} JoinSplitLines(s: string)
    requires OnlyNewlines(s)
    requires s == [] || s[|s| - 1] != '\n'
    ensures Join(SplitLines(s), "\n") == s
    decreases |s|
  {
    if s != [] {
      var n := LineLength(s);
      if n < |s| {
        var rest := s[n + 1..];
        assert rest != [] && rest[|rest| - 1] == s[|s| - 1];
        OnlyNewlinesSuffix(s, n + 1);
        JoinSplitLines(rest);
        assert s[n] == '\n';
        SplitLinesAtNewline(s, n);
        JoinAtNewline(s, n, SplitLines(rest));
      } else {
        assert SplitLines(s) == [s];
      }
    }
  }

  lemma OnlyNewlinesSuffix(s: string, k: nat)
    requires OnlyNewlines(s) && k <= |s|
    ensures OnlyNewlines(s[k..])
  {
    var rest := s[k..];
    forall j | 0 <= j < |rest| ensures rest[j] == '\n' || !IsLineBreak(rest[j]) {
      assert rest[j] == s[k + j];
    }
  }

  lemma JoinAtNewline(s: string, n: nat, t: seq<string>)
    requires n < |s| && s[n] == '\n' && t != [] && Join(t, "\n") == s[n + 1..]
    ensures Join([s[..n]] + t, "\n") == s
  {
    JoinCons(s[..n], t, "\n");
    assert s[..n] + "\n" + s[n + 1..] == s;
  }

  lemma SplitLinesAtNewline(s: string, n: nat)
    requires n == LineLength(s) && n < |s| && s[n] == '\n'
    ensures SplitLines(s) == [s[..n]] + SplitLines(s[n + 1..])
  {
    assert TerminatorEnd(s, n) == n + 1;
  }

  lemma JoinCons(x: string, t: seq<string>, sep: string)
    requires t != []
    ensures Join([x] + t, sep) == x + sep + Join(t, sep)
  {
    assert ([x] + t)[1..] == t;
  }

  /** Length of the leading run of non-whitespace. */
  function WordLength(s: string): (n: nat)
    ensures n <= |s|
    ensures forall j :: 0 <= j < n ==> !IsSpace(s[j])
    ensures n < |s| ==> IsSpace(s[n])
    ensures s != [] && !IsSpace(s[0]) ==> n > 0
  {
    if s == [] || IsSpace(s[0]) then 0 else 1 + WordLength(s[1..])
  }

  function DigitChar(d: nat): (c: char)
    requires d < 16
    ensures d < 10 ==> '0' <= c <= '9'
  {
    "0123456789abcdef"[d]
  }

  /** str(n) for a natural number. */
  function NatToString(n: nat): (s: string)
    ensures s != [] && forall i :: 0 <= i < |s| ==> '0' <= s[i] <= '9'
  {
    if n < 10 then [DigitChar(n)] else NatToString(n / 10) + [DigitChar(n % 10)]
  }

  /** str(i) for an integer. */
  function IntToString(i: int): string
  {
    if i < 0 then "-" + NatToString(-i) else NatToString(i)
  }
}
