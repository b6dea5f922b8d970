/**
 * Cycling the quotes around each selection: ' becomes ", " becomes `, `
 * becomes ' (or every quote becomes a forced one); inside, the new quote is
 * escaped and escaped old quotes are unescaped.
 */
module ToggleQuotes {
  import opened Wrappers
  import opened Strings
  import opened Regions
  import opened Edits
  import opened Host

  /** The quote characters, in cycling order. */
  const QuoteList: seq<char> := ['\'', '"', '`']

  predicate IsQuote(c: char) { c in QuoteList }

  /** The next quote in the cycle. */
  function NextQuote(q: char): (r: char)
    requires IsQuote(q)
    ensures IsQuote(r) && r != q
  {
    if q == '\'' then '"' else if q == '"' then '`' else '\''
  }

  predicate NoNewline(s: string) { Lacks(s, '\n') }

  datatype Quoted = Quoted(quote: char, inner: string)

  /**
   * A match of ^(['"`])(.*)\1$: `.` stops at "\n", and `$` also matches just
   * before a final "\n", which the match then leaves out of both groups.
   * The greedy `.*` tries the longer inner text first.
   */
  function QuoteMatch(text: string): (r: Option<Quoted>)
    ensures r.Some? ==> IsQuote(r.value.quote) && NoNewline(r.value.inner)
    ensures r.Some? ==> text == [r.value.quote] + r.value.inner + [r.value.quote]
                         || text == [r.value.quote] + r.value.inner + [r.value.quote, '\n']
  {
    var n := |text|;
    if n >= 2 && IsQuote(text[0]) && text[n - 1] == text[0] && NoNewline(text[1..n - 1]) then
      assert text == [text[0]] + text[1..n - 1] + [text[0]];
      Some(Quoted(text[0], text[1..n - 1]))
    else if n >= 3 && IsQuote(text[0]) && text[n - 1] == '\n' && text[n - 2] == text[0] && NoNewline(text[1..n - 2]) then
      assert text == [text[0]] + text[1..n - 2] + [text[0], '\n'];
      Some(Quoted(text[0], text[1..n - 2]))
    else None
  }

  /** Every quoted text without a line break in it matches, with its own quote and inner text. */
  lemma QuoteMatchQuoted(q: char, inner: string)
    requires IsQuote(q) && NoNewline(inner)
    ensures QuoteMatch([q] + inner + [q]) == Some(Quoted(q, inner))
  {
    var text := [q] + inner + [q];
    assert text[1..|text| - 1] == inner;
  }

  /** The quote a match is rewritten with: the forced one when given (non-empty), else the next one. */
  function NewQuote(oldQuote: char, force: string): (r: string)
    requires IsQuote(oldQuote)
    ensures r != []
    ensures force == [] ==> r == [NextQuote(oldQuote)]
  {
    if force != [] then force else [NextQuote(oldQuote)]
  }

  /** The text a match is replaced by. */
  function Toggle(m: Quoted, force: string): string
    requires IsQuote(m.quote)
  {
    var q := NewQuote(m.quote, force);
    var escaped := Replace(m.inner, q, ['\\'] + q);
    var text := Replace(escaped, ['\\', m.quote], [m.quote]);
    q + text + q
  }

  /** The replacement starts and ends with the new quote. */
  lemma ToggleQuotesAround(m: Quoted, force: string)
    requires IsQuote(m.quote)
    ensures var q := NewQuote(m.quote, force); var t := Toggle(m, force);
      |t| >= 2 * |q| && t[..|q|] == q && t[|t| - |q|..] == q
  {
  }

  /**
   * What a selection turns into: None when neither it nor the selection
   * widened by one character on each side is quoted; else the region
   * replaced and its new text.
   */
  function ToggleAt(buf: string, r: Region, force: string): (res: Option<(Region, string)>)
    ensures res.Some? ==> res.value.0 == r || res.value.0 == Region(r.Begin() - 1, r.End() + 1)
    ensures QuoteMatch(Substr(buf, r)).Some? ==> res == Some((r, Toggle(QuoteMatch(Substr(buf, r)).value, force)))
    ensures var wide := Region(r.Begin() - 1, r.End() + 1);
      QuoteMatch(Substr(buf, r)).None? && QuoteMatch(Substr(buf, wide)).Some? ==>
        res == Some((wide, Toggle(QuoteMatch(Substr(buf, wide)).value, force)))
    ensures res.None? <==>
      QuoteMatch(Substr(buf, r)).None? && QuoteMatch(Substr(buf, Region(r.Begin() - 1, r.End() + 1))).None?
  {
    match QuoteMatch(Substr(buf, r))
    case Some(m) => Some((r, Toggle(m, force)))
    case None =>
      var wide := Region(r.Begin() - 1, r.End() + 1);
      match QuoteMatch(Substr(buf, wide))
      case Some(m) => Some((wide, Toggle(m, force)))
      case None => None
  }

  /** One pass of the loop, on the live k-th selection. */
  function Step(d: Doc, k: nat, force: string): (d': Doc)
    ensures |d'.sel| == |d.sel|
    ensures k >= |d.sel| || ToggleAt(d.buffer, d.sel[k], force).None? ==> d' == d
  {
    if k >= |d.sel| then d
    else match ToggleAt(d.buffer, d.sel[k], force)
      case None => d
      case Some((w, text)) => ReplaceIn(d, w, text)
  }

  /** Passes k, k + 1, ..., n - 1 of the loop. */
  function Steps(d: Doc, k: nat, n: nat, force: string): (d': Doc)
    ensures |d'.sel| == |d.sel|
    decreases n - k
  {
    if k >= n then d else Steps(Step(d, k, force), k + 1, n, force)
  }

  /** OdyseusToggleQuotesCommand.run; `expanded` is what expand_selection to scope selects. */
  method Run(v: View, force: string, expanded: seq<Region>)
    modifies v
    ensures var sel0 := if old(v.sel) != [] && old(v.sel)[0].Empty() then expanded else old(v.sel);
      Doc(v.buffer, v.sel) == Steps(Doc(old(v.buffer), sel0), 0, |sel0|, force)
  {
    if |v.sel| > 0 && v.sel[0].Size() == 0 {
      v.SetSel(expanded);
    }
    ghost var d0 := Doc(v.buffer, v.sel);
    var k := 0;
    while k < |v.sel|
      invariant k <= |v.sel| == |d0.sel|
      invariant Steps(Doc(v.buffer, v.sel), k, |d0.sel|, force) == Steps(d0, 0, |d0.sel|, force)
      decreases |v.sel| - k
    {
      ToggleStep(v, k, force);
      k := k + 1;
    }
  }

  /** One pass of the loop in run. */
  method ToggleStep(v: View, k: nat, force: string)
    requires k < |v.sel|
    modifies v
    ensures Doc(v.buffer, v.sel) == Step(old(Doc(v.buffer, v.sel)), k, force)
  {
    ghost var d := Doc(v.buffer, v.sel);
    ghost var found := ToggleAt(d.buffer, d.sel[k], force);
    var sel := v.sel[k];
    var res := QuoteMatch(Substr(v.buffer, sel));
    if res.None? {
      sel := Region(sel.Begin() - 1, sel.End() + 1);
      res := QuoteMatch(Substr(v.buffer, sel));
    }
    assert found == if res.Some? then Some((sel, Toggle(res.value, force))) else None;
    if res.Some? {
      var text := Toggle(res.value, force);
      v.Replace(sel, text);
    }
  }

  /** Escaping c leaves no escaped d, for a d other than c. */
  lemma {:induction false} UnescapeOther(s: string, c: char, d: char)
    requires Lacks(s, '\\') && c != '\\' && c != d
    ensures Replace(Replace(s, [c], ['\\', c]), ['\\', d], [d]) == Replace(s, [c], ['\\', c])
    decreases |s|
  {
    if s != [] {
      var pat := ['\\', d];
      UnescapeOther(s[1..], c, d);
      var rest := Replace(s[1..], [c], ['\\', c]);
      if s[0] == c {
        var t := ['\\', c] + rest;
        assert Replace(s, [c], ['\\', c]) == t;
        assert t[1] == c;
        ReplaceHead(t, pat, [d]);
        assert t[1..] == [c] + rest;
        ReplaceHead(t[1..], pat, [d]);
        assert t[1..][1..] == rest;
      } else {
        var t := [s[0]] + rest;
        assert Replace(s, [c], ['\\', c]) == t;
        assert t[0] == s[0];
        ReplaceHead(t, pat, [d]);
        assert t[1..] == rest;
      }
    }
  }

  /**
   * Forcing the quote back undoes a forced toggle, for an inner text with no
   * backslash, no old quote and no line break.
   */
  lemma ToggleForcedBack(q: char, q': char, inner: string)
    requires IsQuote(q) && IsQuote(q') && q != q'
    requires Lacks(inner, '\\') && Lacks(inner, q) && NoNewline(inner)
    ensures var t := Toggle(Quoted(q, inner), [q']);
      QuoteMatch(t).Some? && Toggle(QuoteMatch(t).value, [q]) == [q] + inner + [q]
  {
    var esc := Replace(inner, [q'], ['\\', q']);
    assert NewQuote(q, [q']) == [q'] && ['\\'] + [q'] == ['\\', q'];
    UnescapeOther(inner, q', q);
    assert Toggle(Quoted(q, inner), [q']) == [q'] + esc + [q'];
    ReplaceLacks(inner, [q'], ['\\', q'], '\n');
    QuoteMatchQuoted(q', esc);
    ReplaceLacks(inner, [q'], ['\\', q'], q);
    ReplaceCharAbsent(esc, q, ['\\', q]);
    assert NewQuote(q', [q]) == [q] && ['\\'] + [q] == ['\\', q];
    UnescapeEscape(inner, q');
  }

  /** An unforced toggle leaves a text that matches again, with the next quote. */
  lemma ToggleAgain(m: Quoted)
    requires IsQuote(m.quote) && NoNewline(m.inner)
    ensures var r := QuoteMatch(Toggle(m, []));
      r.Some? && r.value.quote == NextQuote(m.quote) && NoNewline(r.value.inner)
  {
    var q := NextQuote(m.quote);
    assert NewQuote(m.quote, []) == [q] && ['\\'] + [q] == ['\\', q];
    var esc := Replace(m.inner, [q], ['\\', q]);
    ReplaceLacks(m.inner, [q], ['\\', q], '\n');
    var text := Replace(esc, ['\\', m.quote], [m.quote]);
    ReplaceLacks(esc, ['\\', m.quote], [m.quote], '\n');
    QuoteMatchQuoted(q, text);
    assert Toggle(m, []) == [q] + text + [q];
  }

  /** Three unforced toggles bring back the first quote. */
  lemma NextQuoteCycle(q: char)
    requires IsQuote(q)
    ensures NextQuote(NextQuote(NextQuote(q))) == q
  {
  }
}
