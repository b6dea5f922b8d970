/**
 * Better find results: commands over the "Find Results" buffer, whose
 * blocks are a file-name line ending in ":", the numbered lines of the
 * matches, and an empty line.  A caret jumps to the next or previous match
 * inside its own block (footers bound the blocks), the file and line under
 * a caret are opened, and the lines around a caret's block are found.
 */
module FindResults {
  import opened Wrappers
  import opened Seqs
  import opened Strings
  import opened Regions
  import opened Host

  // ----- Jumping between matches -----

  /** The index of the first match beginning strictly after p. */
  function FirstAfter(ms: seq<Region>, p: int): (k: Option<nat>)
    ensures k.Some? ==> k.value < |ms| && p < ms[k.value].Begin()
    ensures k.Some? ==> forall j :: 0 <= j < k.value ==> ms[j].Begin() <= p
    ensures k.None? ==> forall j :: 0 <= j < |ms| ==> ms[j].Begin() <= p
  {
    if ms == [] then None
    else if p < ms[0].Begin() then Some(0)
    else
      match FirstAfter(ms[1..], p)
      case None => None
      case Some(k) => Some(k + 1)
  }

  /** The index of the last match beginning strictly before p. */
  function LastBefore(ms: seq<Region>, p: int): (k: Option<nat>)
    ensures k.Some? ==> k.value < |ms| && ms[k.value].Begin() < p
    ensures k.Some? ==> forall j :: k.value < j < |ms| ==> p <= ms[j].Begin()
    ensures k.None? ==> forall j :: 0 <= j < |ms| ==> p <= ms[j].Begin()
  {
    if ms == [] then None
    else if ms[|ms| - 1].Begin() < p then Some(|ms| - 1)
    else LastBefore(ms[..|ms| - 1], p)
  }

  /**
   * find_next_match: the first match beginning after the caret; failing
   * that the first match when cycling, else none.
   */
  function NextMatch(caret: Region, ms: seq<Region>, cycle: bool): (m: Option<Region>)
    ensures ms == [] ==> m.None?
    ensures FirstAfter(ms, caret.Begin()).Some? ==> m == Some(ms[FirstAfter(ms, caret.Begin()).value])
    ensures FirstAfter(ms, caret.Begin()).None? && ms != [] ==> m == (if cycle then Some(ms[0]) else None)
  {
    match FirstAfter(ms, caret.Begin())
    case Some(k) => Some(ms[k])
    case None => if cycle && |ms| > 0 then Some(ms[0]) else None
  }

  /**
   * find_prev_match: the last match beginning before the caret; failing that
   * the last match when cycling, else none.
   */
  function PrevMatch(caret: Region, ms: seq<Region>, cycle: bool): (m: Option<Region>)
    ensures ms == [] ==> m.None?
    ensures LastBefore(ms, caret.Begin()).Some? ==> m == Some(ms[LastBefore(ms, caret.Begin()).value])
    ensures LastBefore(ms, caret.Begin()).None? && ms != [] ==> m == (if cycle then Some(ms[|ms| - 1]) else None)
  {
    match LastBefore(ms, caret.Begin())
    case Some(k) => Some(ms[k])
    case None => if cycle && |ms| > 0 then Some(ms[|ms| - 1]) else None
  }

  /** A match found by the jump is one of the matches; without cycling it lies on the side it was asked for. */
  lemma JumpSide(caret: Region, ms: seq<Region>, cycle: bool)
    ensures NextMatch(caret, ms, cycle).Some? ==> NextMatch(caret, ms, cycle).value in ms
    ensures PrevMatch(caret, ms, cycle).Some? ==> PrevMatch(caret, ms, cycle).value in ms
    ensures !cycle && NextMatch(caret, ms, cycle).Some? ==> caret.Begin() < NextMatch(caret, ms, cycle).value.Begin()
    ensures !cycle && PrevMatch(caret, ms, cycle).Some? ==> PrevMatch(caret, ms, cycle).value.Begin() < caret.Begin()
  {
  }

  /** The end of the last footer ending before p, or 0. */
  function LowerBound(footers: seq<Region>, p: int): (lo: int)
    ensures lo == 0 || exists i :: 0 <= i < |footers| && footers[i].End() == lo && lo < p
    ensures forall i :: 0 <= i < |footers| && footers[i].End() < p && footers[i].End() != lo ==>
      exists j :: i < j < |footers| && footers[j].End() == lo
    ensures (forall i :: 0 <= i < |footers| ==> footers[i].End() >= p) ==> lo == 0
  {
    if footers == [] then 0
    else if footers[|footers| - 1].End() < p then footers[|footers| - 1].End()
    else LowerBound(footers[..|footers| - 1], p)
  }

  /** The end of the first footer ending after p, or the size of the view. */
  function UpperBound(footers: seq<Region>, p: int, size: int): (hi: int)
    ensures hi == size || exists i :: 0 <= i < |footers| && footers[i].End() == hi && hi > p
    ensures forall i :: 0 <= i < |footers| && footers[i].End() > p && footers[i].End() != hi ==>
      exists j :: 0 <= j < i && footers[j].End() == hi
    ensures (forall i :: 0 <= i < |footers| ==> footers[i].End() <= p) ==> hi == size
  {
    if footers == [] then size
    else if footers[0].End() > p then footers[0].End()
    else UpperBound(footers[1..], p, size)
  }

  /** The matches beginning strictly between the bounds, in order. */
  function Between(ms: seq<Region>, lo: int, hi: int): (out: seq<Region>)
    ensures |out| <= |ms|
    ensures forall m :: m in out <==> m in ms && lo < m.Begin() < hi
  {
    if ms == [] then []
    else (if lo < ms[0].Begin() < hi then [ms[0]] else []) + Between(ms[1..], lo, hi)
  }

  /** filter_matches: the matches of the caret's block. */
  function FilterMatches(caret: Region, ms: seq<Region>, footers: seq<Region>, size: int): seq<Region>
  {
    Between(ms, LowerBound(footers, caret.Begin()), UpperBound(footers, caret.Begin(), size))
  }

  predicate EndsAscending(footers: seq<Region>)
  {
    forall i, j :: 0 <= i < j < |footers| ==> footers[i].End() <= footers[j].End()
  }

  /**
   * With the footers in buffer order, no footer ends between the caret and
   * a match kept by filter_matches: the match lies in the caret's block.
   */
  lemma SameBlock(caret: Region, ms: seq<Region>, footers: seq<Region>, size: int, m: Region, f: Region)
    requires EndsAscending(footers) && f in footers
    requires m in FilterMatches(caret, ms, footers, size)
    ensures f.End() < caret.Begin() ==> f.End() < m.Begin()
    ensures f.End() > caret.Begin() ==> f.End() > m.Begin()
  {
    var p := caret.Begin();
    var lo := LowerBound(footers, p);
    var hi := UpperBound(footers, p, size);
    var i :| 0 <= i < |footers| && footers[i] == f;
    if f.End() < p && f.End() != lo {
      var j :| i < j < |footers| && footers[j].End() == lo;
    }
    if f.End() > p && f.End() != hi {
      var j :| 0 <= j < i && footers[j].End() == hi;
    }
  }

  /** Where a jump goes: the next or previous match of the caret's block. */
  function JumpTarget(caret: Region, found: seq<Region>, footers: seq<Region>, size: int,
                      forward: bool, cycle: bool): Option<Region>
  {
    var ms := FilterMatches(caret, found, footers, size);
    if forward then NextMatch(caret, ms, cycle) else PrevMatch(caret, ms, cycle)
  }

  /**
   * OdyseusBfrFindInFilesJumpCommand and its file and match variants.  The
   * matches are the host's file-name regions (`toFile`) or match regions;
   * a file jump puts a caret at the file name's begin, a match jump selects
   * the match.  An empty region found is false in Python and is not jumped
   * to; without a selection the command fails and changes nothing.
   */
  method Jump(v: View, found: seq<Region>, footers: seq<Region>, forward: bool, cycle: bool, toFile: bool)
    modifies v
    ensures v.buffer == old(v.buffer)
    ensures old(v.sel) == [] ==> v.sel == old(v.sel)
    ensures old(v.sel) != [] ==>
      var t := JumpTarget(old(v.sel)[0], found, footers, |old(v.buffer)|, forward, cycle);
      (t.Some? && !t.value.Empty() ==>
        v.sel == [if toFile then Region(t.value.Begin(), t.value.Begin()) else t.value])
      && (t.None? || t.value.Empty() ==> v.sel == old(v.sel))
  {
    if v.sel == [] {
      return;
    }
    var caret := v.sel[0];
    var matches := FilterMatches(caret, found, footers, |v.buffer|);
    var hit := if forward then NextMatch(caret, matches, cycle) else PrevMatch(caret, matches, cycle);
    if hit.Some? && !hit.value.Empty() {
      var target := if toFile then Region(hit.value.Begin(), hit.value.Begin()) else hit.value;
      GotoMatch(v, target);
    }
  }

  /** goto_match: the selection becomes the one region (unfolding is not modelled). */
  method GotoMatch(v: View, m: Region)
    modifies v
    ensures v.sel == [m] && v.buffer == old(v.buffer)
  {
    v.ClearSel();
    v.AddSel(m);
  }

  // ----- Line numbers and file names -----

  predicate IsDigit(c: char) { '0' <= c <= '9' }

  /** Digits are not whitespace. */
  lemma DigitNotSpace(c: char)
    requires IsDigit(c)
    ensures !IsSpace(c)
  {
  }

  /** The length of the longest prefix of whitespace. */
  function SpaceRun(t: string): (n: nat)
    ensures n <= |t| && (forall i :: 0 <= i < n ==> IsSpace(t[i])) && (n == |t| || !IsSpace(t[n]))
  {
    if t != [] && IsSpace(t[0]) then 1 + SpaceRun(t[1..]) else 0
  }

  /** The length of the longest run of digits from offset p. */
  function DigitRun(t: string, p: nat): (n: nat)
    requires p <= |t|
    ensures p + n <= |t| && (forall i :: p <= i < p + n ==> IsDigit(t[i])) && (p + n == |t| || !IsDigit(t[p + n]))
    decreases |t| - p
  {
    if p < |t| && IsDigit(t[p]) then 1 + DigitRun(t, p + 1) else 0
  }

  /**
   * `\s*(\d+).+` matches the start of t with the group t[i..i + k]: spaces,
   * k digits, then one character that is not a line break.
   */
  predicate LineNoMatch(t: string, i: nat, k: nat)
  {
    i + k < |t| && k >= 1
    && (forall j :: 0 <= j < i ==> IsSpace(t[j]))
    && (forall j :: i <= j < i + k ==> IsDigit(t[j]))
    && t[i + k] != '\n'
  }

  /** get_line_no on the text of the caret's line: the group of `\s*(\d+).+` under re.match. */
  function LineNoOf(t: string): Option<string>
  {
    var w := SpaceRun(t);
    var d := DigitRun(t, w);
    if d == 0 then None
    else if w + d < |t| && t[w + d] != '\n' then Some(t[w..w + d])
    else if d >= 2 then Some(t[w..w + d - 1])
    else None
  }

  /**
   * LineNoOf is what Python's backtracking re.match finds first: a match
   * exists exactly when a group is returned, and the group is the longest
   * any match has.  So the whole digit run is returned when a character
   * other than a line break follows it, and a line that ends in its digits
   * loses the last one.
   */
  lemma LineNoOfMatch(t: string)
    ensures LineNoOf(t).Some? ==> exists i: nat, k: nat :: LineNoMatch(t, i, k) && LineNoOf(t).value == t[i..i + k]
    ensures (exists i: nat, k: nat :: LineNoMatch(t, i, k)) ==> LineNoOf(t).Some?
    ensures LineNoOf(t).Some? ==> forall i: nat, k: nat :: LineNoMatch(t, i, k) ==> k <= |LineNoOf(t).value|
  {
    var w := SpaceRun(t);
    var d := DigitRun(t, w);
    LineNoForced(t, w, d);
    if d > 0 {
      if w + d < |t| && t[w + d] != '\n' {
        assert LineNoMatch(t, w, d);
      } else if d >= 2 {
        assert LineNoMatch(t, w, d - 1);
      }
    }
  }

  /** Every match puts the group right after all the leading whitespace, and the group within the digit run. */
  lemma LineNoForced(t: string, w: nat, d: nat)
    requires w == SpaceRun(t) && d == DigitRun(t, w)
    ensures forall i: nat, k: nat :: LineNoMatch(t, i, k) ==> i == w && k <= d
    ensures forall i: nat, k: nat :: LineNoMatch(t, i, k) && k == d ==> w + d < |t| && t[w + d] != '\n'
  {
    forall i: nat, k: nat | LineNoMatch(t, i, k) ensures i == w && k <= d {
      if i < w {
        DigitNotSpace(t[i]);
      }
    }
  }

  /** The backtracking at the end of a line: "  123" yields "12". */
  lemma LineNoBacktracks()
    ensures LineNoOf("  123") == Some("12")
  {
    assert SpaceRun("  123") == 2 by {
      assert "  123"[1..] == " 123" && " 123"[1..] == "123";
    }
    assert DigitRun("  123", 5) == 0;
    assert DigitRun("  123", 2) == 3;
    assert "  123"[2..4] == "12";
  }

  /** The group of `(.+):$` under re.match: a non-empty line-break-free f with t == f + ":" or f + ":\n". */
  predicate Heads(t: string, f: string)
  {
    f != [] && Lacks(f, '\n') && (t == f + ":" || t == f + ":\n")
  }

  /** The line without its final ":" (and the one line break that `$` may stand before). */
  function HeaderOf(t: string): (r: Option<string>)
    ensures r.Some? ==> Heads(t, r.value)
    ensures forall f :: Heads(t, f) ==> r == Some(f)
  {
    var u := if t != [] && t[|t| - 1] == '\n' then t[..|t| - 1] else t;
    HeadsUnique(t, u);
    if |u| >= 2 && u[|u| - 1] == ':' && Lacks(u[..|u| - 1], '\n') then
      assert u[..|u| - 1] + ":" == u;
      assert t == u || t == u + "\n";
      Some(u[..|u| - 1])
    else None
  }

  /** A group of `(.+):$` is the line, less one final line break, less its final ":". */
  lemma HeadsUnique(t: string, u: string)
    requires u == if t != [] && t[|t| - 1] == '\n' then t[..|t| - 1] else t
    ensures forall f :: Heads(t, f) ==> u == f + ":" && f == u[..|u| - 1]
  {
    forall f | Heads(t, f) ensures u == f + ":" && f == u[..|u| - 1] {
      if t == f + ":\n" {
        assert t[|t| - 1] == '\n' && t[..|t| - 1] == f + ":";
      } else {
        assert t[|t| - 1] == ':';
      }
    }
  }

  /** `\S(.+):$`, the file-name line get_begin looks for. */
  predicate BlockHeader(t: string)
  {
    HeaderOf(t).Some? && |HeaderOf(t).value| >= 2 && !IsSpace(HeaderOf(t).value[0])
  }

  /** A line start of the buffer: offset 0 or just after a line break. */
  predicate LineStartAt(buf: string, s: int)
  {
    0 <= s <= |buf| && (s == 0 || buf[s - 1] == '\n')
  }

  /** The region view.line returns: from a line start to the end of a (possibly later) line. */
  predicate IsLine(buf: string, line: Region)
  {
    LineStartAt(buf, line.a) && line.a <= line.b <= |buf| && (line.b == |buf| || buf[line.b] == '\n')
  }

  /**
   * The text the upward walk reads at line start s: the caret's line itself
   * at its own start, the single line starting at s above it.
   */
  function Examined(buf: string, line: Region, s: nat): string
    requires IsLine(buf, line) && s <= |buf|
  {
    if s == line.a then Substr(buf, line) else buf[s..LineEnd(buf, s)]
  }

  /** The line of view.line(p) for a point just after the end of the line above. */
  lemma LineAbove(buf: string, line: Region)
    requires IsLine(buf, line) && line.a > 0
    ensures var up := Line(buf, Region(line.a - 1, line.a - 1));
      IsLine(buf, up) && up.b == line.a - 1 && up.a < line.a
      && Substr(buf, up) == buf[up.a..LineEnd(buf, up.a)]
      && forall s :: up.a < s < line.a ==> !LineStartAt(buf, s)
  {
    var q := line.a - 1;
    var up := Line(buf, Region(q, q));
    assert buf[q] == '\n';
    assert up.a == LineStart(buf, q) && up.b == q;
    LineEndAt(buf, up.a, q);
  }

  /** LineEnd from a point before a line break with none in between. */
  lemma {:induction false} LineEndAt(buf: string, p: nat, q: nat)
    requires p <= q < |buf| && buf[q] == '\n' && forall i :: p <= i < q ==> buf[i] != '\n'
    ensures LineEnd(buf, p) == q
    decreases q - p
  {
    if p < q {
      LineEndAt(buf, p + 1, q);
    }
  }

  /** view.line(line.begin() - 1): the line above. */
  function Up(buf: string, line: Region): (up: Region)
    requires IsLine(buf, line) && line.a > 0
    ensures IsLine(buf, up) && up.a < line.a
  {
    LineAbove(buf, line);
    Line(buf, Region(line.a - 1, line.a - 1))
  }

  /**
   * The line the upward walk of get_file and get_begin stops at: the current
   * line when its text is accepted, otherwise the same search from the line
   * above; the walk gives up at the line starting at offset 0, which it
   * never examines.
   */
  function Above(buf: string, line: Region, accept: string -> bool): (r: Option<Region>)
    requires IsLine(buf, line)
    ensures r.Some? ==> IsLine(buf, r.value)
    decreases line.a
  {
    if line.a <= 0 then None
    else if accept(Substr(buf, line)) then Some(line)
    else Above(buf, Up(buf, line), accept)
  }

  /**
   * The line Above finds is the first line start, from the caret's line up
   * and above offset 0, whose text is accepted; none means no such line.
   */
  lemma {:induction false} AboveFirst(buf: string, line: Region, accept: string -> bool)
    requires IsLine(buf, line)
    ensures var r := Above(buf, line, accept);
      (r.Some? ==> 0 < r.value.a <= line.a && accept(Examined(buf, line, r.value.a))
                   && Substr(buf, r.value) == Examined(buf, line, r.value.a))
      && (r.Some? ==> forall s :: r.value.a < s <= line.a && LineStartAt(buf, s) ==> !accept(Examined(buf, line, s)))
      && (r.None? ==> forall s :: 0 < s <= line.a && LineStartAt(buf, s) ==> !accept(Examined(buf, line, s)))
    decreases line.a
  {
    if line.a > 0 && !accept(Substr(buf, line)) {
      var up := Up(buf, line);
      AboveLift(buf, line, up, accept);
      AboveFirst(buf, up, accept);
    }
  }

  /** What the search from the line above says about the line starts below it. */
  lemma AboveLift(buf: string, line: Region, up: Region, accept: string -> bool)
    requires IsLine(buf, line) && line.a > 0 && up == Up(buf, line)
    requires !accept(Substr(buf, line))
    ensures IsLine(buf, up) && up.a < line.a
    ensures forall s :: 0 <= s <= up.a ==> Examined(buf, up, s) == Examined(buf, line, s)
    ensures forall s :: up.a < s <= line.a && LineStartAt(buf, s) ==> !accept(Examined(buf, line, s))
  {
    LineAbove(buf, line);
  }

  lemma AboveHere(buf: string, line: Region, accept: string -> bool)
    requires IsLine(buf, line) && line.a > 0 && accept(Substr(buf, line))
    ensures Above(buf, line, accept) == Some(line)
  {
  }

  /** One step of the upward walk: the search goes on from the line above. */
  lemma AboveStep(buf: string, line: Region, accept: string -> bool)
    requires IsLine(buf, line) && line.a > 0 && !accept(Substr(buf, line))
    ensures Above(buf, Up(buf, line), accept) == Above(buf, line, accept)
  {
  }

  /** What get_file accepts: a `(.+):$` line naming an existing path. */
  function HeaderExists(pathExists: string -> bool): string -> bool
  {
    t => HeaderOf(t).Some? && pathExists(HeaderOf(t).value)
  }

  /** The upward walk of get_file and get_begin: from a line up to, and not including, the first line of the buffer. */
  method WalkUp(buf: string, start: Region, accept: string -> bool) returns (found: Option<Region>)
    requires IsLine(buf, start)
    ensures found == Above(buf, start, accept)
  {
    var line := start;
    while line.Begin() > 0
      invariant IsLine(buf, line) && Above(buf, line, accept) == Above(buf, start, accept)
      decreases line.a
    {
      if accept(Substr(buf, line)) {
        AboveHere(buf, line, accept);
        return Some(line);
      }
      AboveStep(buf, line, accept);
      line := Up(buf, line);
    }
    return None;
  }

  /** get_file: the path of the first line, walking up from the caret's line, that names an existing path. */
  method GetFile(buf: string, sel: Region, pathExists: string -> bool) returns (file: Option<string>)
    ensures file == FileOf(buf, sel, pathExists)
  {
    var found := WalkUp(buf, Line(buf, sel), HeaderExists(pathExists));
    if found.Some? {
      return HeaderOf(Substr(buf, found.value));
    }
    return None;
  }

  /** get_begin: with one selection, the first file-name line walking up from it. */
  method GetBegin(buf: string, sels: seq<Region>) returns (begin: Option<Region>)
    ensures |sels| != 1 ==> begin.None?
    ensures |sels| == 1 ==> begin == Above(buf, Line(buf, sels[0]), BlockHeader)
  {
    if |sels| != 1 {
      return None;
    }
    begin := WalkUp(buf, Line(buf, sels[0]), BlockHeader);
  }

  /** The line view.line(line.end() + 1) returns. */
  function LineBelow(buf: string, line: Region): Region
  {
    Line(buf, Region(line.End() + 1, line.End() + 1))
  }

  /**
   * After the last line of a buffer that does not end in a line break,
   * view.line(end + 1) is the same line again: the point is clamped to the
   * buffer's end.
   */
  lemma LastLineBelow(buf: string, line: Region)
    requires IsLine(buf, line) && line.b == |buf| && forall i :: line.a <= i < line.b ==> buf[i] != '\n'
    ensures LineBelow(buf, line) == line
  {
    LineStartFrom(buf, line.a, |buf|);
  }

  /** LineStart from a point after a line start with no line break in between. */
  lemma {:induction false} LineStartFrom(buf: string, s: nat, p: nat)
    requires LineStartAt(buf, s) && s <= p <= |buf| && forall i :: s <= i < p ==> buf[i] != '\n'
    ensures LineStart(buf, p) == s
    decreases p - s
  {
    if s < p {
      LineStartFrom(buf, s, p - 1);
    }
  }

  /**
   * The downward walk of get_end as written: the loop `while line.end() <=
   * view.size()` keeps going while the line is not empty, and on a last line
   * that is neither empty nor followed by a line break the next line is the
   * same one, so the state never changes and the loop does not end.
   */
  lemma GetEndAsWrittenLoops()
    ensures var buf := "a";
      var line := Line(buf, Region(0, 0));
      line.End() <= |buf| && Substr(buf, line) != [] && LineBelow(buf, line) == line
  {
    var buf := "a";
    var line := Line(buf, Region(0, 0));
    assert LineEnd(buf, 0) == 1;
    LastLineBelow(buf, line);
  }

  /**
   * The line get_end stops at: the first empty line from the caret's line
   * down, and none when the buffer ends first — the stop the loop's
   * condition evidently intends.
   */
  function Below(buf: string, line: Region): (r: Option<Region>)
    requires IsLine(buf, line)
    ensures r.Some? ==> IsLine(buf, r.value)
    decreases |buf| - line.b
  {
    if line.a == line.b then Some(line)
    else if line.b == |buf| then None
    else
      LineDown(buf, line);
      Below(buf, LineBelow(buf, line))
  }

  /**
   * The line Below finds is empty, and every line start between it and the
   * caret's line begins a non-empty line; none means all lines below are
   * non-empty.
   */
  lemma {:induction false} BelowFirst(buf: string, line: Region)
    requires IsLine(buf, line)
    ensures var r := Below(buf, line);
      (r.Some? ==> r.value.a == r.value.b && line.b <= r.value.a)
      && (r.Some? && r.value != line ==> line.b < r.value.a && buf[r.value.a - 1] == '\n')
      && (r.Some? ==> forall s :: line.b < s < r.value.a && LineStartAt(buf, s) ==> LineEnd(buf, s) > s)
      && (r.None? ==> line.a < line.b && forall s :: line.b < s <= |buf| && LineStartAt(buf, s) ==> LineEnd(buf, s) > s)
    decreases |buf| - line.b
  {
    if line.a != line.b && line.b < |buf| {
      var down := LineBelow(buf, line);
      LineDown(buf, line);
      BelowFirst(buf, down);
      if Below(buf, down).Some? && down == Below(buf, down).value {
        assert buf[down.a - 1] == '\n';
      }
    }
  }

  /** The line below: a single line starting just after the line break that ends this one. */
  lemma LineDown(buf: string, line: Region)
    requires IsLine(buf, line) && line.b < |buf|
    ensures var down := LineBelow(buf, line);
      IsLine(buf, down) && down.a == line.b + 1 && down.b == LineEnd(buf, down.a)
  {
  }

  /** get_end: with one selection, the first empty line from it down; none at the buffer's end. */
  method GetEnd(buf: string, sels: seq<Region>) returns (end: Option<Region>)
    ensures |sels| != 1 ==> end.None?
    ensures |sels| == 1 ==> end == Below(buf, Line(buf, sels[0]))
  {
    if |sels| != 1 {
      return None;
    }
    var line := Line(buf, sels[0]);
    ghost var spec := Below(buf, line);
    while line.End() <= |buf|
      invariant IsLine(buf, line) && Below(buf, line) == spec
      decreases |buf| - line.b
    {
      if |Substr(buf, line)| == 0 {
        return Some(line);
      }
      if line.End() == |buf| {
        return None;
      }
      LineDown(buf, line);
      line := LineBelow(buf, line);
    }
    return None;
  }

  // ----- Opening files -----

  /** What the open-file command asks the window to open: a path, or a path at a line. */
  datatype Open = OpenFile(path: string) | OpenAt(path: string, lineNo: string)

  /** The encoded position "path:line" the window opens. */
  function Encoded(o: Open): string
  {
    match o
    case OpenFile(path) => path
    case OpenAt(path, lineNo) => path + ":" + lineNo
  }

  /** get_line_no for a selection: on the text of its line. */
  function LineNo(buf: string, sel: Region): Option<string>
  {
    LineNoOf(Substr(buf, Line(buf, sel)))
  }

  /** get_file for a selection, as a function. */
  function FileOf(buf: string, sel: Region, pathExists: string -> bool): (f: Option<string>)
    ensures f.Some? ==> pathExists(f.value) && f.value != []
  {
    var found := Above(buf, Line(buf, sel), HeaderExists(pathExists));
    AboveFirst(buf, Line(buf, sel), HeaderExists(pathExists));
    if found.Some? then HeaderOf(Substr(buf, found.value)) else None
  }

  /**
   * OdyseusBfrFindInFilesOpenFileCommand for one selection: its file at its
   * line when both are found, its file alone when only that is.
   */
  function OpenFor(buf: string, sel: Region, pathExists: string -> bool): (here: seq<Open>)
    ensures |here| <= 1
    ensures |here| == 1 <==> FileOf(buf, sel, pathExists).Some?
    ensures |here| == 1 ==> here[0].path == FileOf(buf, sel, pathExists).value && pathExists(here[0].path) && here[0].path != []
    ensures |here| == 1 ==> (here[0].OpenAt? <==> LineNo(buf, sel).Some?)
    ensures |here| == 1 && here[0].OpenAt? ==> here[0].lineNo == LineNo(buf, sel).value
  {
    var file := FileOf(buf, sel, pathExists);
    var lineNo := LineNo(buf, sel);
    if file.Some? && lineNo.Some? then [OpenAt(file.value, lineNo.value)]
    else if file.Some? then [OpenFile(file.value)]
    else []
  }

  /** The opens of the selections, in order. */
  function Opens(buf: string, sels: seq<Region>, pathExists: string -> bool): (out: seq<Open>)
    ensures |out| <= |sels|
  {
    if sels == [] then [] else OpenFor(buf, sels[0], pathExists) + Opens(buf, sels[1..], pathExists)
  }

  /** Every path opened exists. */
  lemma {:induction false} OpensExist(buf: string, sels: seq<Region>, pathExists: string -> bool)
    ensures forall o :: o in Opens(buf, sels, pathExists) ==> pathExists(o.path) && o.path != []
    decreases |sels|
  {
    if sels != [] {
      OpensExist(buf, sels[1..], pathExists);
    }
  }

  /** The body of the open-file command's loop, for one selection. */
  method OpenOne(buf: string, sel: Region, pathExists: string -> bool) returns (here: seq<Open>)
    ensures here == OpenFor(buf, sel, pathExists)
  {
    var lineNo := LineNo(buf, sel);
    var fileName := GetFile(buf, sel, pathExists);
    here := [];
    if fileName.Some? && lineNo.Some? {
      here := [OpenAt(fileName.value, lineNo.value)];
    } else if fileName.Some? {
      here := [OpenFile(fileName.value)];
    }
  }

  /** The open-file command's loop over the selections. */
  method OpenFiles(buf: string, sels: seq<Region>, pathExists: string -> bool) returns (out: seq<Open>)
    ensures out == Opens(buf, sels, pathExists)
  {
    out := [];
    var i := 0;
    while i < |sels|
      invariant 0 <= i <= |sels|
      invariant out + Opens(buf, sels[i..], pathExists) == Opens(buf, sels, pathExists)
    {
      var here := OpenOne(buf, sels[i], pathExists);
      assert sels[i..][1..] == sels[i + 1..];
      var rest := Opens(buf, sels[i + 1..], pathExists);
      assert Opens(buf, sels[i..], pathExists) == here + rest;
      ConcatAssoc(out, here, rest);
      out := out + here;
      i := i + 1;
    }
  }

  /** `^([^\s].+):$` on one line: at least three characters, a non-space first, ":" last. */
  predicate FileLine(l: string)
  {
    |l| >= 3 && !IsSpace(l[0]) && l[|l| - 1] == ':'
  }

  /** The file names of the lines that are file-name lines, in order. */
  function FileLines(lines: seq<string>): (out: seq<string>)
    ensures |out| <= |lines|
  {
    if lines == [] then []
    else (if FileLine(lines[0]) then [lines[0][..|lines[0]| - 1]] else []) + FileLines(lines[1..])
  }

  /** A file-name line that names `f`. */
  predicate Names(l: string, f: string)
  {
    FileLine(l) && f == l[..|l| - 1]
  }

  /** A name is listed exactly when some line names it. */
  lemma {:induction false} FileLinesNamed(lines: seq<string>, f: string)
    ensures f in FileLines(lines) <==> exists i :: 0 <= i < |lines| && Names(lines[i], f)
    decreases |lines|
  {
    if lines != [] {
      var rest := lines[1..];
      var here := if FileLine(lines[0]) then [lines[0][..|lines[0]| - 1]] else [];
      assert FileLines(lines) == here + FileLines(rest);
      assert f in here <==> Names(lines[0], f);
      FileLinesNamed(rest, f);
      if f in FileLines(rest) {
        var i :| 0 <= i < |rest| && Names(rest[i], f);
        assert rest[i] == lines[i + 1];
      }
      if exists i :: 0 <= i < |lines| && Names(lines[i], f) {
        var i :| 0 <= i < |lines| && Names(lines[i], f);
        if i > 0 {
          assert rest[i - 1] == lines[i];
        }
      }
    }
  }

  /** The file names of two stretches of lines come one after the other. */
  lemma {:induction false} FileLinesAppend(a: seq<string>, b: seq<string>)
    ensures FileLines(a + b) == FileLines(a) + FileLines(b)
    decreases |a|
  {
    if a == [] {
      assert a + b == b;
    } else {
      assert (a + b)[1..] == a[1..] + b && (a + b)[0] == a[0];
      FileLinesAppend(a[1..], b);
      var here := if FileLine(a[0]) then [a[0][..|a[0]| - 1]] else [];
      assert FileLines(a + b) == here + FileLines(a[1..] + b);
      assert FileLines(a) == here + FileLines(a[1..]);
      assert here + (FileLines(a[1..]) + FileLines(b)) == (here + FileLines(a[1..])) + FileLines(b);
    }
  }

  /** get_files: the file names of the buffer, from the lines that name a file. */
  function GetFiles(content: string): seq<string>
  {
    FileLines(Split(content, '\n'))
  }

  /** OdyseusBfrFindInFilesOpenAllFilesCommand: every file of the buffer, for the "Find Results" view only. */
  function OpenAll(viewName: string, content: string): (out: seq<string>)
    ensures viewName != "Find Results" ==> out == []
  {
    if viewName == "Find Results" then GetFiles(content) else []
  }
}
