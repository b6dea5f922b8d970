/**
 * Word highlight: the words under the cursors, or the selected texts, are
 * searched for as escaped regular expressions, all over the buffer or in a
 * window around the visible part, and the occurrences highlighted; commands
 * add the next highlighted occurrence to the selection, drop the last one,
 * or select them all.
 */
module WordHighlight {
  import opened Wrappers
  import opened Strings
  import opened Regions
  import opened Host
  import Seqs

  const DefaultFileSizeLimit := 4194304
  const DefaultSearchChars := 20000

  // ----- Escaping -----

  /** The characters re.escape leaves alone: ASCII letters, digits and "_". */
  predicate IsAlnum(c: char) { 'a' <= c <= 'z' || 'A' <= c <= 'Z' || '0' <= c <= '9' || c == '_' }

  /** The characters escape_regex puts back without their backslash. */
  const Unescaped: set<char> := {'\'', '<', '>', '`'}

  /** How one character is escaped when the characters of `bare` are left bare. */
  function EscapeChar(c: char, bare: set<char>): string
  {
    if IsAlnum(c) || c in bare then [c]
    else if c == '\0' then "\\000"
    else ['\\', c]
  }

  function EscapeWith(s: string, bare: set<char>): (r: string)
    ensures s == [] ==> r == []
  {
    if s == [] then [] else EscapeChar(s[0], bare) + EscapeWith(s[1..], bare)
  }

  /** re.escape: every character but a letter, a digit or "_" gets a backslash; NUL becomes "\000". */
  function ReEscape(s: string): string { EscapeWith(s, {}) }

  /** After the units of characters outside `bare`, no bare c can come first. */
  lemma FirstNotBare(s: string, bare: set<char>, c: char)
    requires c !in bare && !IsAlnum(c) && c != '\\'
    ensures EscapeWith(s, bare) == [] || EscapeWith(s, bare)[0] != c
  {
    if s != [] {
      var u := EscapeChar(s[0], bare);
      assert EscapeWith(s, bare) == u + EscapeWith(s[1..], bare);
      if IsAlnum(s[0]) || s[0] in bare {
        assert u[0] == s[0];
      } else {
        assert u[0] == '\\';
      }
    }
  }

  /** str.replace leaves a prefix without backslashes alone when the pattern starts with one. */
  lemma {:induction false} ReplacePlain(u: string, t: string, pat: string, rep: string)
    requires |pat| >= 1 && pat[0] == '\\' && Lacks(u, '\\')
    ensures Replace(u + t, pat, rep) == u + Replace(t, pat, rep)
    decreases |u|
  {
    if u == [] {
      assert u + t == t;
    } else {
      var ut := u + t;
      assert ut[0] == u[0] && ut[1..] == u[1..] + t;
      assert !(pat <= ut);
      ReplacePlain(u[1..], t, pat, rep);
    }
  }

  /** The backslash before c is taken back only in c's own unit. */
  lemma UnescapeUnit(x: char, rest: string, bare: set<char>, c: char)
    requires !IsAlnum(c) && c != '\0' && c != '\\' && c !in bare && '\\' !in bare
    requires rest == [] || rest[0] != c
    ensures Replace(EscapeChar(x, bare) + rest, ['\\', c], [c]) == EscapeChar(x, bare + {c}) + Replace(rest, ['\\', c], [c])
  {
    var pat := ['\\', c];
    if IsAlnum(x) || x in bare {
      assert EscapeChar(x, bare) == [x] && EscapeChar(x, bare + {c}) == [x] && Lacks([x], '\\');
      ReplacePlain([x], rest, pat, [c]);
    } else if x == c {
      UnescapeOwn(rest, c);
    } else if x == '\0' {
      assert EscapeChar(x, bare) == "\\000" && EscapeChar(x, bare + {c}) == "\\000";
      UnescapeNul(rest, c);
    } else {
      assert EscapeChar(x, bare) == ['\\', x] && EscapeChar(x, bare + {c}) == ['\\', x];
      UnescapeOther(x, rest, c);
    }
  }

  lemma UnescapeOwn(rest: string, c: char)
    ensures Replace(['\\', c] + rest, ['\\', c], [c]) == [c] + Replace(rest, ['\\', c], [c])
  {
    var t := ['\\', c] + rest;
    assert ['\\', c] <= t && t[2..] == rest;
  }

  lemma UnescapeNul(rest: string, c: char)
    requires c != '0'
    ensures Replace("\\000" + rest, ['\\', c], [c]) == "\\000" + Replace(rest, ['\\', c], [c])
  {
    var pat := ['\\', c];
    var t := "\\000" + rest;
    ReplaceHead(t, pat, [c]);
    assert t[1..] == "000" + rest;
    ReplacePlain("000", rest, pat, [c]);
  }

  lemma UnescapeOther(x: char, rest: string, c: char)
    requires x != c && (rest == [] || rest[0] != c)
    ensures Replace(['\\', x] + rest, ['\\', c], [c]) == ['\\', x] + Replace(rest, ['\\', c], [c])
  {
    var pat := ['\\', c];
    var t := ['\\', x] + rest;
    ReplaceHead(t, pat, [c]);
    assert t[1..] == [x] + rest;
    var t1 := [x] + rest;
    if x == '\\' {
      ReplaceHead(t1, pat, [c]);
      assert t1[1..] == rest;
    } else {
      ReplacePlain([x], rest, pat, [c]);
    }
  }

  /**
   * Taking the backslash back from before c turns the escaping with `bare`
   * into the escaping with `bare` and c: the backslash before c can only be
   * the one re.escape put there.
   */
  lemma {:induction false} UnescapeStep(s: string, bare: set<char>, c: char)
    requires !IsAlnum(c) && c != '\0' && c != '\\' && c !in bare && '\\' !in bare
    ensures Replace(EscapeWith(s, bare), ['\\', c], [c]) == EscapeWith(s, bare + {c})
    decreases |s|
  {
    if s != [] {
      UnescapeStep(s[1..], bare, c);
      FirstNotBare(s[1..], bare, c);
      UnescapeUnit(s[0], EscapeWith(s[1..], bare), bare, c);
    }
  }

  /** The four replacements of escape_regex, one after the other. */
  lemma EscapeRegexSteps(s: string)
    ensures Replace(Replace(Replace(Replace(ReEscape(s), "\\'", "'"), "\\<", "<"), "\\>", ">"), "\\`", "`")
      == EscapeWith(s, Unescaped)
  {
    var b1: set<char> := {'\''};
    var b2: set<char> := {'\'', '<'};
    var b3: set<char> := {'\'', '<', '>'};
    UnescapeStep(s, {}, '\'');
    assert {} + {'\''} == b1;
    UnescapeStep(s, b1, '<');
    assert b1 + {'<'} == b2;
    UnescapeStep(s, b2, '>');
    assert b2 + {'>'} == b3;
    UnescapeStep(s, b3, '`');
    assert b3 + {'`'} == Unescaped;
  }

  /**
   * escape_regex: re.escape, then a backslash taken back from before each of
   * ', <, > and `, which the host's regular expressions read differently
   * when escaped.  The result is the escaping that leaves those four bare.
   */
  function EscapeRegex(s: string): (r: string)
    ensures r == EscapeWith(s, Unescaped)
  {
    EscapeRegexSteps(s);
    Replace(Replace(Replace(Replace(ReEscape(s), "\\'", "'"), "\\<", "<"), "\\>", ">"), "\\`", "`")
  }

  /**
   * How the host's search reads a pattern made of characters and escapes: a
   * backslash followed by "000" stands for NUL, a backslash followed by
   * another character for that character, any other character for itself.
   */
  function Literal(p: string): string
    decreases |p|
  {
    if p == [] then []
    else if p[0] == '\\' && |p| >= 4 && p[1..4] == "000" then ['\0'] + Literal(p[4..])
    else if p[0] == '\\' && |p| >= 2 then [p[1]] + Literal(p[2..])
    else [p[0]] + Literal(p[1..])
  }

  lemma LiteralUnit(c: char, bare: set<char>, t: string)
    requires '\\' !in bare
    ensures Literal(EscapeChar(c, bare) + t) == [c] + Literal(t)
  {
    var p := EscapeChar(c, bare) + t;
    if IsAlnum(c) || c in bare {
      assert p[0] == c && p[1..] == t;
    } else if c == '\0' {
      assert p[1..4] == "000" && p[4..] == t;
    } else {
      assert p[1] == c && p[2..] == t;
      assert |p| >= 4 ==> p[1..4] != "000";
    }
  }

  /** The escaped text, read as a pattern, stands for the text itself. */
  lemma {:induction false} LiteralEscape(s: string, bare: set<char>)
    requires '\\' !in bare
    ensures Literal(EscapeWith(s, bare)) == s
    decreases |s|
  {
    if s != [] {
      LiteralUnit(s[0], bare, EscapeWith(s[1..], bare));
      LiteralEscape(s[1..], bare);
      assert s == [s[0]] + s[1..];
    }
  }

  /** escape_regex makes a pattern that stands for exactly the text searched for. */
  lemma EscapeRegexLiteral(s: string)
    ensures Literal(EscapeRegex(s)) == s
  {
    LiteralEscape(s, Unescaped);
  }

  /** The pattern searched for: the escaped text, kept apart from word characters unless non-word search is on. */
  function SearchPattern(s: string, nonWord: bool): string
  {
    if nonWord then EscapeRegex(s) else "(?<!\\w)" + EscapeRegex(s) + "(?!\\w)"
  }

  lemma SearchPatternShape(s: string, nonWord: bool)
    ensures nonWord ==> SearchPattern(s, nonWord) == EscapeRegex(s)
    ensures !nonWord ==> var p := SearchPattern(s, nonWord);
      StartsWith(p, "(?<!\\w)") && EndsWith(p, "(?!\\w)") && Literal(p[7..|p| - 6]) == s
  {
    EscapeRegexLiteral(s);
    if !nonWord {
      var p := SearchPattern(s, nonWord);
      assert p[7..|p| - 6] == EscapeRegex(s);
    }
  }

  // ----- Searching -----

  /**
   * The host's view.find(pattern, point): the first match at or after the
   * point.  The patterns searched stand for non-empty texts, so a match is
   * never empty.
   */
  ghost predicate Forward(find: (string, int) -> Option<Region>)
  {
    forall pat, p :: find(pat, p).Some? ==> p <= find(pat, p).value.Begin() < find(pat, p).value.End()
  }

  /**
   * The matches of the limited-size search: from `from` on, each search
   * starting where the previous match ended, until no match is found or a
   * match ends after `end`, which is kept.
   */
  function Window(find: (string, int) -> Option<Region>, pat: string, from: int, end: int): (w: seq<Region>)
    requires Forward(find)
    ensures w == [] <==> find(pat, from).None?
    ensures w != [] ==> find(pat, from) == Some(w[0])
    ensures forall i :: 0 <= i < |w| ==> from <= w[i].Begin()
    decreases end - from
  {
    match find(pat, from)
    case None => []
    case Some(r) => if r.End() > end then [r] else [r] + Window(find, pat, r.End(), end)
  }

  /** The window after a match: empty once the match ends after `end`, else the search restarting at its end. */
  lemma WindowCons(find: (string, int) -> Option<Region>, pat: string, from: int, end: int, r: Region)
    requires Forward(find) && find(pat, from) == Some(r)
    ensures r.End() > end ==> Window(find, pat, from, end) == [r]
    ensures r.End() <= end ==> Window(find, pat, from, end) == [r] + Window(find, pat, r.End(), end)
  {
  }

  /**
   * The matches of a window search chain: each but the last ends by `end`
   * and the search from its end finds the next; the last ends after `end`
   * or nothing follows it.
   */
  lemma {:induction false} WindowChain(find: (string, int) -> Option<Region>, pat: string, from: int, end: int)
    requires Forward(find)
    ensures var w := Window(find, pat, from, end);
      (forall i :: 0 <= i < |w| - 1 ==> w[i].End() <= end && find(pat, w[i].End()) == Some(w[i + 1]))
      && (w != [] ==> w[|w| - 1].End() > end || find(pat, w[|w| - 1].End()).None?)
    decreases end - from
  {
    match find(pat, from)
    case None =>
    case Some(r) =>
      if r.End() <= end {
        var rest := Window(find, pat, r.End(), end);
        WindowChain(find, pat, r.End(), end);
        var w := [r] + rest;
        assert forall i :: 0 <= i < |rest| ==> w[i + 1] == rest[i];
        if rest != [] {
          assert w[1] == rest[0];
          assert w[|w| - 1] == rest[|rest| - 1];
        }
      }
  }

  /** The matches of a window search do not overlap and come in order. */
  lemma {:induction false} WindowOrdered(find: (string, int) -> Option<Region>, pat: string, from: int, end: int)
    requires Forward(find)
    ensures forall i, j :: 0 <= i < j < |Window(find, pat, from, end)| ==>
      Window(find, pat, from, end)[i].End() <= Window(find, pat, from, end)[j].Begin()
    decreases end - from
  {
    match find(pat, from)
    case None =>
    case Some(r) =>
      if r.End() <= end {
        var rest := Window(find, pat, r.End(), end);
        WindowOrdered(find, pat, r.End(), end);
        var w := [r] + rest;
        forall i, j | 0 <= i < j < |w| ensures w[i].End() <= w[j].Begin() {
          assert w[j] == rest[j - 1];
          assert r.End() <= rest[j - 1].Begin();
          if i > 0 {
            assert w[i] == rest[i - 1];
            assert rest[i - 1].End() <= rest[j - 1].Begin();
          } else {
            assert w[i] == r;
          }
        }
      }
  }

  /** Where the limited-size search starts: `chars` before the visible region, but not before the buffer. */
  function WindowBegin(visible: Region, chars: int): (b: int)
    ensures b >= 0 && b >= visible.Begin() - chars
    ensures b == 0 || b == visible.Begin() - chars
  {
    if visible.Begin() - chars < 0 then 0 else visible.Begin() - chars
  }

  /** How the texts are searched for in one run. */
  datatype Search = Search(limited: bool, nonWord: bool, findAll: string -> seq<Region>,
                           find: (string, int) -> Option<Region>, visible: Region, chars: int)

  /** The regions one text adds: all matches, or those of the window around the visible region. */
  function Matches(srch: Search, text: string): seq<Region>
    requires Forward(srch.find)
  {
    var pat := SearchPattern(text, srch.nonWord);
    if srch.limited then Window(srch.find, pat, WindowBegin(srch.visible, srch.chars), srch.visible.End() + srch.chars)
    else srch.findAll(pat)
  }

  /** find_regions: the matches of the text are appended to the regions. */
  method FindRegions(regions: seq<Region>, text: string, srch: Search) returns (out: seq<Region>)
    requires Forward(srch.find)
    ensures out == regions + Matches(srch, text)
  {
    var search := SearchPattern(text, srch.nonWord);
    if !srch.limited {
      return regions + srch.findAll(search);
    }
    var find := srch.find;
    var begin := WindowBegin(srch.visible, srch.chars);
    var end := srch.visible.End() + srch.chars;
    ghost var all := Window(find, search, begin, end);
    var fromPoint := begin;
    out := regions;
    while true
      invariant out + Window(find, search, fromPoint, end) == regions + all
      decreases end - fromPoint
    {
      var region := find(search, fromPoint);
      if region.None? {
        assert out + [] == out;
        break;
      }
      var r := region.value;
      WindowCons(find, search, fromPoint, end, r);
      ghost var rest := Window(find, search, r.End(), end);
      if r.End() > end {
        out := out + [r];
        break;
      }
      assert out + ([r] + rest) == (out + [r]) + rest;
      out := out + [r];
      fromPoint := r.End();
    }
  }

  /** The regions that contain none of the selections. */
  function Uncovered(regions: seq<Region>, sels: seq<Region>): (out: seq<Region>)
    ensures |out| <= |regions|
    ensures forall r :: r in out <==> r in regions && forall j :: 0 <= j < |sels| ==> !r.ContainsRegion(sels[j])
  {
    if regions == [] then []
    else
      (if forall j :: 0 <= j < |sels| ==> !regions[0].ContainsRegion(sels[j]) then [regions[0]] else [])
      + Uncovered(regions[1..], sels)
  }

  /** Dropping the regions that contain one more selection. */
  lemma {:induction false} UncoveredSnoc(regions: seq<Region>, sels: seq<Region>, s: Region)
    ensures Uncovered(Uncovered(regions, sels), [s]) == Uncovered(regions, sels + [s])
    decreases |regions|
  {
    if regions != [] {
      var r := regions[0];
      var ss := sels + [s];
      assert (forall j :: 0 <= j < |ss| ==> !r.ContainsRegion(ss[j]))
        <==> (forall j :: 0 <= j < |sels| ==> !r.ContainsRegion(sels[j])) && !r.ContainsRegion(s) by {
        assert forall j :: 0 <= j < |sels| ==> ss[j] == sels[j];
        assert ss[|sels|] == s;
      }
      UncoveredSnoc(regions[1..], sels, s);
      var kept := Uncovered(regions, sels);
      var tail := Uncovered(regions[1..], sels);
      if forall j :: 0 <= j < |sels| ==> !r.ContainsRegion(sels[j]) {
        assert kept == [r] + tail && kept[1..] == tail && kept[0] == r;
      } else {
        assert kept == tail;
      }
    }
  }

  /** The loop that drops, selection by selection, the regions containing it. */
  method DropCovering(regions: seq<Region>, sels: seq<Region>) returns (out: seq<Region>)
    ensures out == Uncovered(regions, sels)
  {
    out := regions;
    UncoveredNone(regions);
    assert sels[..0] == [];
    for i := 0 to |sels|
      invariant out == Uncovered(regions, sels[..i])
    {
      UncoveredSnoc(regions, sels[..i], sels[i]);
      assert sels[..i] + [sels[i]] == sels[..i + 1];
      out := Uncovered(out, [sels[i]]);
    }
    assert sels[..|sels|] == sels;
  }

  lemma {:induction false} UncoveredNone(regions: seq<Region>)
    ensures Uncovered(regions, []) == regions
    decreases |regions|
  {
    if regions != [] {
      UncoveredNone(regions[1..]);
    }
  }

  // ----- One run of the highlighter -----

  /** The settings that decide what a selection contributes. */
  datatype Mode = Mode(whenEmpty: bool, underCursor: bool, nonWord: bool)

  /**
   * What a selection contributes: the text, whether it is searched for, and
   * whether the regions containing a selection are dropped afterwards.
   */
  datatype Candidate = Candidate(text: string, searched: bool, dropCovering: bool)

  predicate NoSeparator(s: string, separators: string)
  {
    forall i :: 0 <= i < |s| ==> s[i] !in separators
  }

  /**
   * The branches of the loop of highlight_occurences for one selection; `w`
   * is view.word(sel).  A caret contributes the word around it when empty
   * selections are highlighted; a selection its text when non-word search is
   * on; otherwise a selection contributes only when it is exactly a word.
   */
  function CandidateOf(buf: string, sel: Region, w: Region, mode: Mode, separators: string): (c: Option<Candidate>)
    ensures c.Some? && c.value.searched ==> c.value.text != []
    ensures c.Some? && c.value.searched && !(!sel.Empty() && mode.nonWord) ==> NoSeparator(c.value.text, separators)
    ensures sel.Empty() && !mode.whenEmpty ==> c.None?
    ensures !sel.Empty() && !mode.nonWord ==> (c.Some? <==> w.Begin() == sel.Begin() && w.End() == sel.End())
    ensures !sel.Empty() && mode.nonWord ==> (c.Some? <==> Substr(buf, sel) != []) && (c.Some? ==> c.value.text == Substr(buf, sel))
    ensures c.Some? && c.value.dropCovering <==> sel.Empty() && mode.whenEmpty && !mode.underCursor
  {
    if mode.whenEmpty && sel.Empty() then
      var text := Strip(Substr(buf, w));
      Some(Candidate(text, text != [] && NoSeparator(text, separators), !mode.underCursor))
    else if !sel.Empty() && mode.nonWord then
      var text := Substr(buf, sel);
      if text != [] then Some(Candidate(text, true, false)) else None
    else if !sel.Empty() && w.End() == sel.End() && w.Begin() == sel.Begin() then
      var text := Strip(Substr(buf, w));
      Some(Candidate(text, text != [] && NoSeparator(text, separators), false))
    else None
  }

  /** What the loop has built: the regions, the texts already processed, and the texts searched for. */
  datatype Scan = Scan(regions: seq<Region>, processed: seq<string>, searched: seq<string>)

  /** One selection: a text already processed contributes nothing. */
  function Next(c: Option<Candidate>, st: Scan, srch: Search, sels: seq<Region>): Scan
    requires Forward(srch.find)
  {
    if c.None? || c.value.text in st.processed then st
    else
      var text := c.value.text;
      var regions := if c.value.searched then st.regions + Matches(srch, text) else st.regions;
      Scan(if c.value.dropCovering then Uncovered(regions, sels) else regions,
           st.processed + [text],
           st.searched + (if c.value.searched then [text] else []))
  }

  function ScanAll(cs: seq<Option<Candidate>>, st: Scan, srch: Search, sels: seq<Region>): Scan
    requires Forward(srch.find)
    decreases |cs|
  {
    if cs == [] then st else ScanAll(cs[1..], Next(cs[0], st, srch, sels), srch, sels)
  }

  function Candidates(buf: string, sels: seq<Region>, word: Region -> Region, mode: Mode, separators: string): (cs: seq<Option<Candidate>>)
    ensures |cs| == |sels|
    ensures forall i :: 0 <= i < |sels| ==> cs[i] == CandidateOf(buf, sels[i], word(sels[i]), mode, separators)
  {
    seq(|sels|, i requires 0 <= i < |sels| => CandidateOf(buf, sels[i], word(sels[i]), mode, separators))
  }

  predicate Distinct(xs: seq<string>)
  {
    forall i, j :: 0 <= i < j < |xs| ==> xs[i] != xs[j]
  }

  /** The bookkeeping of a run: no text is processed twice, and every text searched for was processed. */
  predicate Bookkept(st: Scan)
  {
    Distinct(st.processed) && Distinct(st.searched)
    && (forall i :: 0 <= i < |st.searched| ==> st.searched[i] in st.processed && st.searched[i] != [])
  }

  lemma NextBookkept(c: Option<Candidate>, st: Scan, srch: Search, sels: seq<Region>)
    requires Forward(srch.find) && Bookkept(st)
    requires c.Some? && c.value.searched ==> c.value.text != []
    ensures Bookkept(Next(c, st, srch, sels))
  {
    if c.Some? && c.value.text !in st.processed {
      var st' := Next(c, st, srch, sels);
      var t := c.value.text;
      assert st'.processed == st.processed + [t];
      assert forall i :: 0 <= i < |st.processed| ==> st.processed[i] != t;
      forall i | 0 <= i < |st.searched| ensures st.searched[i] != t {
        assert st.searched[i] in st.processed;
      }
      assert forall x :: x in st.processed ==> x in st'.processed;
    }
  }

  lemma {:induction false} ScanAllBookkept(cs: seq<Option<Candidate>>, st: Scan, srch: Search, sels: seq<Region>)
    requires Forward(srch.find) && Bookkept(st)
    requires forall i :: 0 <= i < |cs| && cs[i].Some? && cs[i].value.searched ==> cs[i].value.text != []
    ensures Bookkept(ScanAll(cs, st, srch, sels))
    decreases |cs|
  {
    if cs != [] {
      NextBookkept(cs[0], st, srch, sels);
      assert forall i :: 0 <= i < |cs| - 1 ==> cs[1..][i] == cs[i + 1];
      ScanAllBookkept(cs[1..], Next(cs[0], st, srch, sels), srch, sels);
    }
  }

  /** The outcome of the loop of highlight_occurences over the selections. */
  function Occurrences(buf: string, sels: seq<Region>, word: Region -> Region, mode: Mode,
                       separators: string, srch: Search): Scan
    requires Forward(srch.find)
  {
    ScanAll(Candidates(buf, sels, word, mode, separators), Scan([], [], []), srch, sels)
  }

  /** Each text is searched for at most once in a run, and never the empty text. */
  lemma SearchedOnce(buf: string, sels: seq<Region>, word: Region -> Region, mode: Mode,
                     separators: string, srch: Search)
    requires Forward(srch.find)
    ensures var st := Occurrences(buf, sels, word, mode, separators, srch);
      Distinct(st.searched) && Distinct(st.processed)
      && forall i :: 0 <= i < |st.searched| ==> st.searched[i] != []
  {
    ScanAllBookkept(Candidates(buf, sels, word, mode, separators), Scan([], [], []), srch, sels);
  }

  /** A run of the loop of highlight_occurences for one selection. */
  method ScanStep(c: Option<Candidate>, regions: seq<Region>, processed: seq<string>, srch: Search, sels: seq<Region>,
                  ghost searched: seq<string>)
      returns (regions': seq<Region>, processed': seq<string>, ghost searched': seq<string>)
    requires Forward(srch.find)
    ensures regions' == Next(c, Scan(regions, processed, searched), srch, sels).regions
    ensures processed' == Next(c, Scan(regions, processed, searched), srch, sels).processed
    ensures searched' == Next(c, Scan(regions, processed, searched), srch, sels).searched
  {
    regions', processed', searched' := regions, processed, searched;
    if c.None? || c.value.text in processed {
      return;
    }
    var text := c.value.text;
    processed' := processed + [text];
    if c.value.searched {
      regions' := FindRegions(regions, text, srch);
      searched' := searched + [text];
    }
    if c.value.dropCovering {
      regions' := DropCovering(regions', sels);
    }
  }

  /** The loop of highlight_occurences over the selections. */
  method RunScan(buf: string, sels: seq<Region>, word: Region -> Region, mode: Mode,
                 separators: string, srch: Search) returns (regions: seq<Region>)
    requires Forward(srch.find)
    ensures regions == Occurrences(buf, sels, word, mode, separators, srch).regions
  {
    ghost var cs := Candidates(buf, sels, word, mode, separators);
    regions := [];
    var processed: seq<string> := [];
    ghost var searched: seq<string> := [];
    for i := 0 to |sels|
      invariant ScanAll(cs[i..], Scan(regions, processed, searched), srch, sels)
        == ScanAll(cs, Scan([], [], []), srch, sels)
    {
      var c := CandidateOf(buf, sels[i], word(sels[i]), mode, separators);
      assert c == cs[i] && cs[i..][1..] == cs[i + 1..];
      regions, processed, searched := ScanStep(c, regions, processed, srch, sels, searched);
    }
    assert cs[|sels|..] == [];
  }

  /** Whether some selection is not empty. */
  predicate HasNonEmpty(sels: seq<Region>)
  {
    exists i :: 0 <= i < |sels| && !sels[i].Empty()
  }

  /** The first highlighted region ending after the last selection and after the skip mark. */
  function NextHighlighted(wh: seq<Region>, last: Region, skipped: int): (k: Option<nat>)
    ensures k.Some? ==> k.value < |wh| && wh[k.value].End() > last.End() && wh[k.value].End() > skipped
    ensures k.Some? ==> forall j :: 0 <= j < k.value ==> !(wh[j].End() > last.End() && wh[j].End() > skipped)
    ensures k.None? ==> forall j :: 0 <= j < |wh| ==> !(wh[j].End() > last.End() && wh[j].End() > skipped)
  {
    if wh == [] then None
    else if wh[0].End() > last.End() && wh[0].End() > skipped then Some(0)
    else
      match NextHighlighted(wh[1..], last, skipped)
      case None => None
      case Some(k) => Some(k + 1)
  }

  // ----- The plugin's state -----

  /**
   * The plugin's Storage: the selections and regions of the last run, the
   * skip mark of "select next", and the regions the view highlights under the
   * plugin's key.
   */
  /** What the storage remembers between calls: the last selections, the last regions found, and the highlighted regions. */
  datatype Memory = Memory(prevSelections: Option<seq<Region>>, prevRegions: Option<seq<Region>>, shown: seq<Region>)

  /**
   * highlight_occurences's effect on the memory, from m to m'.  Without a
   * non-empty selection, when carets are not highlighted, everything is
   * cleared; a selection set equal to the last one changes nothing;
   * otherwise the selections and the regions they find are remembered, and
   * the regions are highlighted unless they equal the last ones.
   */
  predicate Highlighted(m: Memory, m': Memory, buf: string, sels: seq<Region>, word: Region -> Region, mode: Mode,
                        separators: string, srch: Search)
    requires Forward(srch.find)
  {
    (!mode.whenEmpty && !HasNonEmpty(sels) ==> m' == Memory(None, None, []))
    && ((mode.whenEmpty || HasNonEmpty(sels)) && m.prevSelections == Some(sels) ==> m' == m)
    && ((mode.whenEmpty || HasNonEmpty(sels)) && m.prevSelections != Some(sels) ==>
          var regions := Occurrences(buf, sels, word, mode, separators, srch).regions;
          m'.prevSelections == Some(sels) && m'.prevRegions == Some(regions)
          && m'.shown == if m.prevRegions == Some(regions) then m.shown else regions)
  }

  /** Highlighting twice with the same selections changes the memory once. */
  lemma HighlightIdempotent(m: Memory, m': Memory, m'': Memory, buf: string, sels: seq<Region>, word: Region -> Region,
                            mode: Mode, separators: string, srch: Search)
    requires Forward(srch.find)
    requires Highlighted(m, m', buf, sels, word, mode, separators, srch)
    requires Highlighted(m', m'', buf, sels, word, mode, separators, srch)
    ensures m'' == m'
  {
  }

  /**
   * The plugin's Storage class attributes (the last selections, the last
   * regions found, the skip mark), which are global, and the regions shown
   * under the plugin's key, which the host keeps per view: `shown` is those
   * of the one view modelled here.
   */
  class Storage {
    var prevSelections: Option<seq<Region>>
    var prevRegions: Option<seq<Region>>
    var skipped: int
    var shown: seq<Region>

    constructor()
      ensures prevSelections == None && prevRegions == None && skipped == 0 && shown == []
    {
      prevSelections := None;
      prevRegions := None;
      skipped := 0;
      shown := [];
    }

    function Memo(): Memory
      reads this
    {
      Memory(prevSelections, prevRegions, shown)
    }

    /**
     * highlight_occurences.  Without a non-empty selection, when carets are
     * not highlighted, everything is cleared; a selection set equal to the
     * last one changes nothing; otherwise the selections are scanned and the
     * regions found are highlighted if they differ from the last ones.  The
     * buffer is searched in a window when it is larger than the file size
     * limit.
     */
    method HighlightOccurrences(buf: string, sels: seq<Region>, word: Region -> Region, mode: Mode,
                                separators: string, fileSizeLimit: int,
                                findAll: string -> seq<Region>, find: (string, int) -> Option<Region>,
                                visible: Region, chars: int)
      requires Forward(find)
      modifies this
      ensures skipped == old(skipped)
      ensures Highlighted(old(Memo()), Memo(), buf, sels, word, mode, separators,
                          Search(!(|buf| <= fileSizeLimit), mode.nonWord, findAll, find, visible, chars))
    {
      if !mode.whenEmpty && !HasNonEmpty(sels) {
        shown := [];
        prevRegions := None;
        prevSelections := None;
        return;
      }
      if prevSelections == Some(sels) {
        return;
      }
      prevSelections := Some(sels);
      var limited := !(|buf| <= fileSizeLimit);
      var regions := RunScan(buf, sels, word, mode, separators, Search(limited, mode.nonWord, findAll, find, visible, chars));
      if prevRegions != Some(regions) {
        shown := [];
        if regions != [] {
          shown := regions;
        }
        prevRegions := Some(regions);
      }
    }

    /** OdyseusWhSelectHighlightedWordsCommand: every highlighted region is added to the selection. */
    method SelectHighlighted(v: View)
      modifies v
      ensures v.sel == old(v.sel) + shown && v.buffer == old(v.buffer)
    {
      ghost var s0 := v.sel;
      for i := 0 to |shown|
        invariant v.sel == s0 + shown[..i] && v.buffer == old(v.buffer)
      {
        v.AddSel(shown[i]);
        assert shown[..i + 1] == shown[..i] + [shown[i]];
      }
      assert shown[..|shown|] == shown;
    }

    /**
     * OdyseusWhSelectHighlightedNextWordCommand: the first highlighted region
     * ending after the last selection and after the skip mark is added to the
     * selection, and the mark moves to its end.
     */
    method SelectNext(v: View)
      modifies v, this
      ensures v.buffer == old(v.buffer) && shown == old(shown) && prevSelections == old(prevSelections) && prevRegions == old(prevRegions)
      ensures old(v.sel) == [] ==> v.sel == old(v.sel) && skipped == old(skipped)
      ensures old(v.sel) != [] ==>
        match NextHighlighted(old(shown), old(v.sel)[|old(v.sel)| - 1], old(skipped))
        case None => v.sel == old(v.sel) && skipped == old(skipped)
        case Some(k) => v.sel == old(v.sel) + [old(shown)[k]] && skipped == old(shown)[k].End()
    {
      var sel := Seqs.Reversed(v.sel);
      if sel == [] {
        return;
      }
      var word := sel[0];
      var wh := shown;
      ghost var k := NextHighlighted(wh, word, skipped);
      for i := 0 to |wh|
        invariant v.sel == old(v.sel) && skipped == old(skipped) && v.buffer == old(v.buffer)
        invariant forall j :: 0 <= j < i ==> !(wh[j].End() > word.End() && wh[j].End() > skipped)
      {
        var w := wh[i];
        if w.End() > word.End() && w.End() > skipped {
          assert k == Some(i);
          v.AddSel(w);
          skipped := w.End();
          return;
        }
      }
      assert k == None;
    }

    /**
     * OdyseusWhSelectHighlightedSkipLastWordCommand: with more than one
     * selection the last leaves the set and the skip mark moves to its end.
     */
    method SkipLast(v: View)
      modifies v, this
      ensures v.buffer == old(v.buffer) && shown == old(shown) && prevSelections == old(prevSelections) && prevRegions == old(prevRegions)
      ensures |old(v.sel)| <= 1 ==> v.sel == old(v.sel) && skipped == old(skipped)
      ensures |old(v.sel)| > 1 ==> var last := old(v.sel)[|old(v.sel)| - 1];
        v.sel == Remove(old(v.sel), last) && skipped == last.End()
    {
      var sel: seq<Region> := Seqs.Reversed(v.sel);
      if sel != [] && |sel| > 1 {
        v.Subtract(sel[0]);
        skipped := sel[0].End();
      }
    }

    /** OdyseusWhWordHighlightClickCommand: the skip mark is reset, then the view highlighted when live. */
    method Click(buf: string, sels: seq<Region>, word: Region -> Region, mode: Mode,
                 separators: string, fileSizeLimit: int,
                 findAll: string -> seq<Region>, find: (string, int) -> Option<Region>,
                 visible: Region, chars: int, live: bool, widget: bool)
      requires Forward(find)
      modifies this
      ensures skipped == 0
      ensures !(live && !widget) ==> Memo() == old(Memo())
      ensures live && !widget ==>
        Highlighted(old(Memo()), Memo(), buf, sels, word, mode, separators,
                    Search(!(|buf| <= fileSizeLimit), mode.nonWord, findAll, find, visible, chars))
    {
      skipped := 0;
      if live && !widget {
        HighlightOccurrences(buf, sels, word, mode, separators, fileSizeLimit, findAll, find, visible, chars);
      }
    }

    /** on_activated_async: the last selections and the skip mark are forgotten; without live highlighting the highlights go. */
    method OnActivated(loading: bool, live: bool)
      modifies this
      ensures prevSelections == None && skipped == 0 && prevRegions == old(prevRegions)
      ensures !loading && !live ==> shown == []
      ensures loading || live ==> shown == old(shown)
    {
      prevSelections := None;
      skipped := 0;
      if !loading && !live {
        shown := [];
      }
    }
  }

  /** on_selection_modified_async runs the highlighter only for a view with selections, live, and not a widget. */
  predicate ListenerRuns(hasView: bool, sels: seq<Region>, live: bool, widget: bool)
  {
    hasView && |sels| > 0 && live && !widget
  }
}
