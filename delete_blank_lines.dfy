/**
 * Deleting blank lines from each selection (or the whole buffer).  The text
 * is split into lines; every whitespace-only line but the last is removed,
 * or, with `surplus`, only the blank lines that follow another blank line
 * are; the lines left are joined with "\n" and replace the selection, and a
 * new selection covers the result.
 */
module DeleteBlankLines {
  import opened Strings
  import opened Regions
  import opened Edits
  import opened Host

  /**
   * A line is blank when rstrip() leaves nothing of it, that is when every
   * character is whitespace (Strings.RStripEmptyIffAllSpace).
   */
  predicate Blank(line: string) { AllSpace(line) }

  /**
   * What the stripping loop leaves of `lines`, given whether the line before
   * them was blank.  The last line is always kept.
   */
  function KeepLines(lines: seq<string>, haveBlank: bool, surplus: bool): (out: seq<string>)
    ensures |out| <= |lines|
    ensures lines != [] ==> out != [] && out[|out| - 1] == lines[|lines| - 1]
    decreases |lines|
  {
    if |lines| <= 1 then lines
    else if Blank(lines[0]) then
      if !surplus || haveBlank then KeepLines(lines[1..], true, surplus)
      else [lines[0]] + KeepLines(lines[1..], true, surplus)
    else [lines[0]] + KeepLines(lines[1..], false, surplus)
  }

  /** The loop of _ody_strip: `del lines[i]` for a blank line that goes. */
  method StripLines(lines0: seq<string>, surplus: bool) returns (lines: seq<string>)
    ensures lines == KeepLines(lines0, false, surplus)
  {
    lines := lines0;
    var i := 0;
    var haveBlank := false;
    assert lines[..0] + KeepLines(lines[0..], false, surplus) == KeepLines(lines0, false, surplus) by {
      assert lines[..0] == [] && lines[0..] == lines0;
    }
    while i < |lines| - 1
      invariant 0 <= i <= |lines|
      invariant lines[..i] + KeepLines(lines[i..], haveBlank, surplus) == KeepLines(lines0, false, surplus)
      decreases |lines| - i
    {
      lines, i, haveBlank := DeleteStep(lines, i, haveBlank, surplus);
    }
    assert KeepLines(lines[i..], haveBlank, surplus) == lines[i..];
    assert lines[..i] + lines[i..] == lines;
  }

  /**
   * One pass of the loop: the blank line at i is deleted, or i moves past
   * the line; either way the lines still to come are kept as before.
   */
  method DeleteStep(lines: seq<string>, i: nat, haveBlank: bool, surplus: bool)
      returns (lines': seq<string>, i': nat, haveBlank': bool)
    requires i < |lines| - 1
    ensures i' <= |lines'| && |lines'| - i' < |lines| - i
    ensures haveBlank' == Blank(lines[i])
    ensures lines'[..i'] + KeepLines(lines'[i'..], haveBlank', surplus) == lines[..i] + KeepLines(lines[i..], haveBlank, surplus)
  {
    ghost var prefix, rest := lines[..i], lines[i..];
    lines', i' := lines, i;
    if Blank(lines[i]) {
      if !surplus || haveBlank {
        KeepDrop(rest, haveBlank, surplus);
        lines' := lines[..i] + lines[i + 1..];
        assert lines'[..i] == prefix && lines'[i..] == rest[1..];
      } else {
        KeepKeep(rest, haveBlank, surplus);
        KeepPrefix(lines, i, KeepLines(rest[1..], true, surplus));
        i' := i + 1;
      }
      haveBlank' := true;
    } else {
      KeepKeep(rest, haveBlank, surplus);
      KeepPrefix(lines, i, KeepLines(rest[1..], false, surplus));
      haveBlank' := false;
      i' := i + 1;
    }
  }

  lemma KeepDrop(rest: seq<string>, haveBlank: bool, surplus: bool)
    requires |rest| >= 2 && Blank(rest[0]) && (!surplus || haveBlank)
    ensures KeepLines(rest, haveBlank, surplus) == KeepLines(rest[1..], true, surplus)
  {
  }

  lemma KeepKeep(rest: seq<string>, haveBlank: bool, surplus: bool)
    requires |rest| >= 2 && (!Blank(rest[0]) || (surplus && !haveBlank))
    ensures KeepLines(rest, haveBlank, surplus) == [rest[0]] + KeepLines(rest[1..], Blank(rest[0]), surplus)
  {
  }

  /** Moving the kept line at i from the pending part to the prefix. */
  lemma KeepPrefix(lines: seq<string>, i: nat, tail: seq<string>)
    requires i + 1 < |lines|
    ensures lines[..i] + ([lines[i..][0]] + tail) == lines[..i + 1] + tail
    ensures lines[i + 1..] == lines[i..][1..]
  {
    assert lines[..i + 1] == lines[..i] + [lines[i]];
  }

  /** The text a selection is replaced by. */
  function StripText(orig: string, surplus: bool): string
  {
    Join(KeepLines(SplitLines(orig), false, surplus), "\n")
  }

  /** _ody_strip: replace the selection and return the region of the result. */
  method StripSelection(v: View, selection: Region, surplus: bool) returns (r: Region)
    modifies v
    ensures v.buffer == ReplaceRegion(old(v.buffer), selection, StripText(Substr(old(v.buffer), selection), surplus))
    ensures v.sel == AdjustAll(old(v.sel), selection, |v.buffer| - |old(v.buffer)|)
    ensures r == Region(selection.Begin(), selection.Begin() + |StripText(Substr(old(v.buffer), selection), surplus)|)
  {
    var orig := Substr(v.buffer, selection);
    var lines := SplitLines(orig);
    lines := StripLines(lines, surplus);
    var output := Join(lines, "\n");
    v.Replace(selection, output);
    r := Region(selection.Begin(), selection.Begin() + |output|);
  }

  /** The rewrite run applies to each selection's text. */
  function Stripper(surplus: bool): string -> string
  {
    t => StripText(t, surplus)
  }

  /** OdyseusDeleteBlankLinesCommand.run. */
  method Run(v: View, surplus: bool, wholeFile: bool)
    requires !wholeFile ==> SelectionSet(v.sel, |v.buffer|)
    modifies v
    ensures wholeFile ==> v.buffer == StripText(old(v.buffer), surplus)
    ensures wholeFile ==> v.sel == AdjustAll(old(v.sel), Region(0, |old(v.buffer)|), |v.buffer| - |old(v.buffer)|)
    ensures !wholeFile ==> v.buffer == Rewrite(old(v.buffer), old(v.sel), Stripper(surplus))
    ensures !wholeFile ==> v.sel == NewRegions(old(v.buffer), old(v.sel), Stripper(surplus), |old(v.sel)|)
  {
    if wholeFile {
      StripWholeFile(v, surplus);
    } else {
      var newSelections := StripEach(v, surplus);
      Reselect(v, newSelections);
    }
  }

  /** The whole-file branch of run: the region (0, size) is stripped. */
  method StripWholeFile(v: View, surplus: bool)
    modifies v
    ensures v.buffer == StripText(old(v.buffer), surplus)
    ensures v.sel == AdjustAll(old(v.sel), Region(0, |old(v.buffer)|), |v.buffer| - |old(v.buffer)|)
  {
    ghost var buf := v.buffer;
    var all := Region(0, |v.buffer|);
    assert Substr(buf, all) == buf by { assert buf[0..|buf|] == buf; }
    var _ := StripSelection(v, all, surplus);
    ghost var text := StripText(buf, surplus);
    assert ReplaceRegion(buf, all, text) == text by { assert buf[..0] + text + buf[|buf|..] == text; }
  }

  /** Clearing the selection set and adding the new regions one by one. */
  method Reselect(v: View, regions: seq<Region>)
    modifies v
    ensures v.sel == regions && v.buffer == old(v.buffer)
  {
    v.ClearSel();
    for j := 0 to |regions|
      invariant v.sel == regions[..j] && v.buffer == old(v.buffer)
    {
      assert regions[..j + 1] == regions[..j] + [regions[j]];
      v.AddSel(regions[j]);
    }
  }

  /** The loop of run over the live selection set, collecting the new regions. */
  method StripEach(v: View, surplus: bool) returns (newSelections: seq<Region>)
    requires SelectionSet(v.sel, |v.buffer|)
    modifies v
    ensures v.buffer == Rewrite(old(v.buffer), old(v.sel), Stripper(surplus))
    ensures newSelections == NewRegions(old(v.buffer), old(v.sel), Stripper(surplus), |old(v.sel)|)
  {
    ghost var orig, sels := v.buffer, v.sel;
    ghost var f := Stripper(surplus);
    newSelections := [];
    assert SelectionSet(sels, |orig|);
    var k := 0;
    while k < |v.sel|
      invariant Rewritten(orig, sels, f, k, v.buffer, v.sel)
      invariant newSelections == NewRegions(orig, sels, f, k)
      decreases |sels| - k
    {
      var r := StripStep(v, surplus, orig, sels, k);
      newSelections := newSelections + [r];
      k := k + 1;
    }
    assert k == |sels|;
    assert SelectionSet(sels, |orig|);
    RewriteDone(orig, sels, f, v.buffer, v.sel);
  }

  /** One pass of the loop in run: _ody_strip on the live k-th selection. */
  method StripStep(v: View, surplus: bool, ghost orig: string, ghost sels: seq<Region>, k: nat) returns (r: Region)
    requires SelectionSet(sels, |orig|) && k < |sels|
    requires Rewritten(orig, sels, Stripper(surplus), k, v.buffer, v.sel)
    modifies v
    ensures Rewritten(orig, sels, Stripper(surplus), k + 1, v.buffer, v.sel)
    ensures r == NewRegion(orig, sels, Stripper(surplus), k)
  {
    ghost var f := Stripper(surplus);
    ghost var buf, cur := v.buffer, v.sel;
    ReadStep(orig, sels, f, k, buf, cur);
    ReplaceStep(orig, sels, f, k, buf, cur);
    assert f(Substr(buf, cur[k])) == StripText(Substr(buf, cur[k]), surplus);
    r := StripSelection(v, v.sel[k], surplus);
  }

  /** The lines that are not blank, in order. */
  function NonBlank(lines: seq<string>): (out: seq<string>)
    ensures |out| <= |lines|
  {
    if lines == [] then []
    else (if Blank(lines[0]) then [] else [lines[0]]) + NonBlank(lines[1..])
  }

  /** Stripping never removes a line that has text on it, nor reorders them. */
  lemma {:induction false} KeepNonBlank(lines: seq<string>, haveBlank: bool, surplus: bool)
    ensures NonBlank(KeepLines(lines, haveBlank, surplus)) == NonBlank(lines)
    decreases |lines|
  {
    if |lines| > 1 {
      var tail := lines[1..];
      KeepNonBlank(tail, true, surplus);
      KeepNonBlank(tail, false, surplus);
      if Blank(lines[0]) {
        if !surplus || haveBlank {
          assert NonBlank(lines) == NonBlank(tail);
        } else {
          KeepHead(lines[0], KeepLines(tail, true, surplus));
        }
      } else {
        KeepHead(lines[0], KeepLines(tail, false, surplus));
      }
    }
  }

  lemma KeepHead(x: string, rest: seq<string>)
    ensures NonBlank([x] + rest) == (if Blank(x) then [] else [x]) + NonBlank(rest)
  {
    assert ([x] + rest)[1..] == rest;
  }

  /**
   * Without `surplus`, every blank line but the last line goes: what is left
   * is the non-blank lines before the last one, then the last line.
   */
  lemma {:induction false} KeepNoSurplus(lines: seq<string>, haveBlank: bool)
    requires lines != []
    ensures KeepLines(lines, haveBlank, false) == NonBlank(lines[..|lines| - 1]) + [lines[|lines| - 1]]
    decreases |lines|
  {
    var n := |lines|;
    if n == 1 {
      assert lines == [lines[0]];
    } else {
      var tail := lines[1..];
      KeepNoSurplus(tail, true);
      KeepNoSurplus(tail, false);
      assert lines[..n - 1] == [lines[0]] + tail[..n - 2];
      KeepHead(lines[0], tail[..n - 2]);
    }
  }

  /** The lines from the first non-blank one on. */
  function DropBlanks(lines: seq<string>): (out: seq<string>)
    ensures |out| <= |lines|
    ensures out == [] || !Blank(out[0])
    ensures NonBlank(out) == NonBlank(lines)
  {
    if lines != [] && Blank(lines[0]) then DropBlanks(lines[1..]) else lines
  }

  /** Each run of blank lines replaced by its first line. */
  function Collapse(lines: seq<string>): (out: seq<string>)
    ensures lines != [] ==> out != [] && out[0] == lines[0]
    decreases |lines|
  {
    if lines == [] then []
    else if Blank(lines[0]) then [lines[0]] + Collapse(DropBlanks(lines[1..]))
    else [lines[0]] + Collapse(lines[1..])
  }

  /** No two neighbouring lines are both blank. */
  predicate NoBlankRun(lines: seq<string>)
  {
    forall i :: 0 <= i < |lines| - 1 ==> !(Blank(lines[i]) && Blank(lines[i + 1]))
  }

  lemma {:induction false} CollapseNoBlankRun(lines: seq<string>)
    ensures NoBlankRun(Collapse(lines))
    decreases |lines|
  {
    if lines != [] {
      var rest := if Blank(lines[0]) then DropBlanks(lines[1..]) else lines[1..];
      CollapseNoBlankRun(rest);
      var c := Collapse(lines);
      assert c == [lines[0]] + Collapse(rest);
      forall i | 0 <= i < |c| - 1 ensures !(Blank(c[i]) && Blank(c[i + 1])) {
        if i > 0 {
          assert c[i] == Collapse(rest)[i - 1] && c[i + 1] == Collapse(rest)[i];
        } else {
          assert c[1] == rest[0];
        }
      }
    }
  }

  /**
   * With `surplus`, a run of blank lines keeps only its first line (or none,
   * right after a blank line), and the last line always stays.
   */
  lemma {:induction false} KeepSurplus(lines: seq<string>, haveBlank: bool)
    requires lines != []
    ensures var init := lines[..|lines| - 1];
      KeepLines(lines, haveBlank, true) == Collapse(if haveBlank then DropBlanks(init) else init) + [lines[|lines| - 1]]
    decreases |lines|
  {
    var n := |lines|;
    if n == 1 {
      assert lines == [lines[0]];
    } else {
      var tail, last := lines[1..], lines[n - 1];
      var init := lines[..n - 1];
      assert init == [lines[0]] + tail[..n - 2];
      assert init[1..] == tail[..n - 2];
      assert tail[|tail| - 1] == last;
      if Blank(lines[0]) {
        KeepSurplus(tail, true);
        if haveBlank {
          assert DropBlanks(init) == DropBlanks(tail[..n - 2]);
        } else {
          assert Collapse(init) == [lines[0]] + Collapse(DropBlanks(tail[..n - 2]));
        }
      } else {
        KeepSurplus(tail, false);
        assert DropBlanks(init) == init;
        assert Collapse(init) == [lines[0]] + Collapse(tail[..n - 2]);
      }
    }
  }

  /** With `surplus`, the stripped lines hold no two neighbouring blank lines before the last one. */
  lemma KeepSurplusNoBlankRun(lines: seq<string>)
    requires lines != []
    ensures var out := KeepLines(lines, false, true); NoBlankRun(out[..|out| - 1])
  {
    KeepSurplus(lines, false);
    var out := KeepLines(lines, false, true);
    CollapseNoBlankRun(lines[..|lines| - 1]);
    assert out[..|out| - 1] == Collapse(lines[..|lines| - 1]);
  }

  /** Lines without a blank one before the last are left as they are. */
  lemma {:induction false} KeepNoBlank(lines: seq<string>, haveBlank: bool, surplus: bool)
    requires forall i :: 0 <= i < |lines| - 1 ==> !Blank(lines[i])
    ensures KeepLines(lines, haveBlank, surplus) == lines
    decreases |lines|
  {
    if |lines| > 1 {
      assert !Blank(lines[0]);
      KeepNoBlank(lines[1..], false, surplus);
    }
  }

  /**
   * A text with "\n" as its only line break, no final "\n" and no blank line
   * but possibly the last comes out unchanged.
   */
  lemma StripTextUnchanged(t: string, surplus: bool)
    requires OnlyNewlines(t) && (t == [] || t[|t| - 1] != '\n')
    requires forall i :: 0 <= i < |SplitLines(t)| - 1 ==> !Blank(SplitLines(t)[i])
    ensures StripText(t, surplus) == t
  {
    KeepNoBlank(SplitLines(t), false, surplus);
    JoinSplitLines(t);
  }
}
