/**
 * Debug statements built from the selections.  Every non-empty selection names
 * something to print and leaves the selection set; the statement is then
 * inserted at every empty cursor, the cursor that ends last first, so that
 * the offsets of the cursors still to come stay valid.
 */
module TextDebugging {
  import opened Wrappers
  import opened Strings
  import opened Regions
  import opened Edits
  import opened Seqs
  import opened Search
  import opened Host

  /** What OdyseusTextDebuggingCommand does: hand over to a language's command, or not. */
  datatype Route = NoSelection | RunPython | RunJavaScript | RunPhp | NoSupport

  const NoSupportMessage := "No support for the current language grammar."
  const NoCursorMessage := "You must place an empty cursor somewhere"

  /** The dispatch on the scope score at the first selection's begin. */
  function Dispatch(sels: seq<Region>, score: (int, string) -> nat): (r: Route)
    ensures r == NoSelection <==> sels == []
    ensures r == RunPython <==> sels != [] && score(sels[0].Begin(), "source.python") > 0
    ensures r == RunJavaScript <==> sels != [] && score(sels[0].Begin(), "source.python") == 0
                                    && score(sels[0].Begin(), "source.js") > 0
    ensures r == NoSupport <==> sels != [] && score(sels[0].Begin(), "source.python") == 0
                                && score(sels[0].Begin(), "source.js") == 0 && score(sels[0].Begin(), "source.php") == 0
  {
    if sels == [] then NoSelection
    else
      var location := sels[0].Begin();
      if score(location, "source.python") > 0 then RunPython
      else if score(location, "source.js") > 0 then RunJavaScript
      else if score(location, "source.php") > 0 then RunPhp
      else NoSupport
  }

  /** os.path.basename: what follows the last "/". */
  function Basename(path: string): (b: string)
    ensures Lacks(b, '/') && EndsWith(path, b)
    ensures |b| < |path| ==> path[|path| - |b| - 1] == '/'
  {
    if path == [] then []
    else if path[|path| - 1] == '/' then []
    else
      var b := Basename(path[..|path| - 1]);
      var r := b + [path[|path| - 1]];
      assert path[|path| - |r|..] == path[..|path| - 1][|path| - 1 - |b|..] + [path[|path| - 1]];
      r
  }

  /** The base name of a path is the whole of its last component. */
  lemma {:induction false} BasenameOfPath(dir: string, file: string)
    requires Lacks(file, '/')
    ensures Basename(dir + "/" + file) == file
    decreases |file|
  {
    var p := dir + "/" + file;
    if file == [] {
      assert p[|p| - 1] == '/';
    } else {
      var init := file[..|file| - 1];
      assert p[..|p| - 1] == dir + "/" + init;
      BasenameOfPath(dir, init);
      assert file == init + [file[|file| - 1]];
    }
  }

  /** The name in the banner: the file's base name, else the view's name, else "Untitled". */
  function Name(fileName: string, viewName: string): (n: string)
    ensures fileName != [] ==> EndsWith(fileName, n) && Lacks(n, '/')
    ensures fileName == [] && viewName != [] ==> n == viewName
    ensures fileName == [] && viewName == [] ==> n == "Untitled"
  {
    if fileName != [] then Basename(fileName)
    else if viewName != [] then viewName
    else "Untitled"
  }

  /** The empty regions of a list, in order. */
  function Empties(rs: seq<Region>): (es: seq<Region>)
    ensures |es| <= |rs|
    ensures forall i :: 0 <= i < |es| ==> es[i].Empty()
  {
    if rs == [] then []
    else (if rs[0].Empty() then [rs[0]] else []) + Empties(rs[1..])
  }

  /** There is no empty cursor exactly when every region selects something. */
  lemma {:induction false} NoEmpties(rs: seq<Region>)
    ensures Empties(rs) == [] <==> forall i :: 0 <= i < |rs| ==> !rs[i].Empty()
    decreases |rs|
  {
    if rs != [] {
      NoEmpties(rs[1..]);
      assert forall i :: 1 <= i < |rs| ==> rs[i] == rs[1..][i - 1];
    }
  }

  /** The texts of the non-empty regions of a list, in order. */
  function Texts(buf: string, rs: seq<Region>): (ts: seq<string>)
    ensures |ts| + |Empties(rs)| == |rs|
  {
    if rs == [] then []
    else (if rs[0].Empty() then [] else [Substr(buf, rs[0])]) + Texts(buf, rs[1..])
  }

  /** Bounds that hold for every region of a list hold for its empty ones. */
  lemma {:induction false} EmptiesWithin(rs: seq<Region>, lo: int, hi: int)
    requires forall i :: 0 <= i < |rs| ==> lo <= rs[i].Begin() && rs[i].End() <= hi
    ensures forall i :: 0 <= i < |Empties(rs)| ==> lo <= Empties(rs)[i].Begin() && Empties(rs)[i].End() <= hi
    decreases |rs|
  {
    if rs != [] {
      EmptiesWithin(rs[1..], lo, hi);
    }
  }

  lemma {:induction false} EmptiesAfter(rs: seq<Region>, lo: int)
    requires forall i :: 0 <= i < |rs| ==> lo <= rs[i].Begin()
    ensures forall i :: 0 <= i < |Empties(rs)| ==> lo <= Empties(rs)[i].Begin()
    decreases |rs|
  {
    if rs != [] {
      EmptiesAfter(rs[1..], lo);
    }
  }

  predicate Apart(rs: seq<Region>)
  {
    forall i, j :: 0 <= i < j < |rs| ==> rs[i].End() <= rs[j].Begin()
  }

  lemma {:induction false} EmptiesApart(rs: seq<Region>)
    requires Apart(rs)
    ensures Apart(Empties(rs))
    decreases |rs|
  {
    if rs != [] {
      var tail := rs[1..];
      assert Apart(tail) by {
        forall i, j | 0 <= i < j < |tail| ensures tail[i].End() <= tail[j].Begin() {
          assert tail[i] == rs[i + 1] && tail[j] == rs[j + 1];
        }
      }
      EmptiesApart(tail);
      var rest := Empties(tail);
      if rs[0].Empty() {
        assert forall i :: 0 <= i < |tail| ==> rs[0].End() <= tail[i].Begin();
        EmptiesAfter(tail, rs[0].End());
        var es := [rs[0]] + rest;
        forall i, j | 0 <= i < j < |es| ensures es[i].End() <= es[j].Begin() {
          assert es[j] == rest[j - 1];
          if i > 0 {
            assert es[i] == rest[i - 1];
          }
        }
        assert Empties(rs) == es;
      } else {
        assert Empties(rs) == rest;
      }
    }
  }

  /** The empty cursors of a selection set are a selection set again. */
  lemma EmptiesSelectionSet(rs: seq<Region>, size: int)
    requires SelectionSet(rs, size)
    ensures SelectionSet(Empties(rs), size)
  {
    EmptiesWithin(rs, 0, size);
    EmptiesApart(rs);
  }

  /** The regions of sels still selected once those in `gone` were subtracted. */
  function Kept(sels: seq<Region>, gone: seq<Region>): seq<Region>
  {
    if sels == [] then []
    else (if sels[0].Empty() || sels[0] !in gone then [sels[0]] else []) + Kept(sels[1..], gone)
  }

  lemma {:induction false} KeptNone(sels: seq<Region>)
    ensures Kept(sels, []) == sels
  {
    if sels != [] {
      KeptNone(sels[1..]);
    }
  }

  lemma RemoveConcat(a: seq<Region>, b: seq<Region>, r: Region)
    requires |a| <= 1
    ensures Remove(a + b, r) == Remove(a, r) + Remove(b, r)
  {
    if a != [] {
      assert (a + b)[1..] == b;
      assert a[1..] == [];
    } else {
      assert a + b == b;
    }
  }

  lemma {:induction false} KeptRemove(sels: seq<Region>, gone: seq<Region>, r: Region)
    ensures Kept(sels, gone + [r]) == if r.Empty() then Kept(sels, gone) else Remove(Kept(sels, gone), r)
    decreases |sels|
  {
    if sels != [] {
      KeptRemove(sels[1..], gone, r);
      var x := sels[0];
      assert (x in gone + [r]) <==> (x in gone || x == r);
      if !r.Empty() {
        RemoveConcat(if x.Empty() || x !in gone then [x] else [], Kept(sels[1..], gone), r);
      }
    }
  }

  lemma {:induction false} KeptAll(sels: seq<Region>, gone: seq<Region>)
    requires forall i :: 0 <= i < |sels| ==> sels[i] in gone
    ensures Kept(sels, gone) == Empties(sels)
    decreases |sels|
  {
    if sels != [] {
      KeptAll(sels[1..], gone);
    }
  }

  lemma EmptiesAt(rs: seq<Region>, i: nat)
    requires i < |rs|
    ensures Empties(rs[i..]) == (if rs[i].Empty() then [rs[i]] else []) + Empties(rs[i + 1..])
  {
    assert rs[i..][1..] == rs[i + 1..];
  }

  lemma TextsAt(buf: string, rs: seq<Region>, i: nat)
    requires i < |rs|
    ensures Texts(buf, rs[i..]) == (if rs[i].Empty() then [] else [Substr(buf, rs[i])]) + Texts(buf, rs[i + 1..])
  {
    assert rs[i..][1..] == rs[i + 1..];
  }

  /** What reading region i of the loop adds. */
  lemma CollectAdvance(regions: seq<Region>, i: nat, buf: string, empties: seq<Region>, texts: seq<string>)
    requires i < |regions|
    requires empties + Empties(regions[i..]) == Empties(regions)
    requires texts + Texts(buf, regions[i..]) == Texts(buf, regions)
    ensures var r := regions[i];
      (if r.Empty() then empties + [r] else empties) + Empties(regions[i + 1..]) == Empties(regions)
      && (if r.Empty() then texts else texts + [Substr(buf, r)]) + Texts(buf, regions[i + 1..]) == Texts(buf, regions)
  {
    var region := regions[i];
    EmptiesAt(regions, i);
    TextsAt(buf, regions, i);
    if region.Empty() {
      ConcatAssoc(empties, [region], Empties(regions[i + 1..]));
    } else {
      ConcatAssoc(texts, [Substr(buf, region)], Texts(buf, regions[i + 1..]));
    }
  }

  /** What subtracting region i leaves selected. */
  lemma KeptAdvance(regions: seq<Region>, i: nat)
    requires i < |regions|
    ensures var r := regions[i];
      Kept(regions, regions[..i + 1]) == if r.Empty() then Kept(regions, regions[..i]) else Remove(Kept(regions, regions[..i]), r)
  {
    assert regions[..i + 1] == regions[..i] + [regions[i]];
    KeptRemove(regions, regions[..i], regions[i]);
  }

  /** One region of the collecting loop. */
  method CollectStep(v: View, regions: seq<Region>, i: nat, empties: seq<Region>, texts: seq<string>)
      returns (empties': seq<Region>, texts': seq<string>)
    requires i < |regions|
    requires empties + Empties(regions[i..]) == Empties(regions)
    requires texts + Texts(v.buffer, regions[i..]) == Texts(v.buffer, regions)
    requires v.sel == Kept(regions, regions[..i])
    modifies v
    ensures v.buffer == old(v.buffer)
    ensures empties' + Empties(regions[i + 1..]) == Empties(regions)
    ensures texts' + Texts(v.buffer, regions[i + 1..]) == Texts(v.buffer, regions)
    ensures v.sel == Kept(regions, regions[..i + 1])
  {
    var region := regions[i];
    CollectAdvance(regions, i, v.buffer, empties, texts);
    KeptAdvance(regions, i);
    if region.Empty() {
      empties', texts' := empties + [region], texts;
    } else {
      empties', texts' := empties, texts + [Substr(v.buffer, region)];
      v.Subtract(region);
    }
  }

  /**
   * The collecting loop of both commands: the empty regions are kept, the
   * texts of the others are read, and each of those leaves the selection set.
   */
  method Collect(v: View) returns (empties: seq<Region>, texts: seq<string>)
    modifies v
    ensures empties == Empties(old(v.sel)) && texts == Texts(old(v.buffer), old(v.sel))
    ensures v.sel == Empties(old(v.sel)) && v.buffer == old(v.buffer)
  {
    var regions := v.sel;
    empties, texts := [], [];
    KeptNone(regions);
    for i := 0 to |regions|
      invariant v.buffer == old(v.buffer)
      invariant empties + Empties(regions[i..]) == Empties(regions)
      invariant texts + Texts(v.buffer, regions[i..]) == Texts(v.buffer, regions)
      invariant v.sel == Kept(regions, regions[..i])
    {
      empties, texts := CollectStep(v, regions, i, empties, texts);
    }
    assert regions[..|regions|] == regions;
    KeptAll(regions, regions);
  }

  // ----- Python -----

  /** The line for the n-th variable: "s: {n!r}". */
  function PyLine(s: string, n: nat): string
  {
    s + ": {" + NatToString(n) + "!r}"
  }

  function PyLines(texts: seq<string>): (ls: seq<string>)
    ensures |ls| == |texts|
  {
    seq(|texts|, i requires 0 <= i < |texts| => PyLine(texts[i], i + 1))
  }

  /** The variable lines, joined by "\n". */
  function PyDebug(texts: seq<string>): string
  {
    Join(PyLines(texts), "\n")
  }

  /** Each variable has a line of its own, numbered from 1, when no variable spans lines. */
  lemma PyDebugLines(texts: seq<string>)
    requires texts != [] && forall i :: 0 <= i < |texts| ==> Lacks(texts[i], '\n')
    ensures Split(PyDebug(texts), '\n') == seq(|texts|, i requires 0 <= i < |texts| => PyLine(texts[i], i + 1))
  {
    var ls := PyLines(texts);
    forall i | 0 <= i < |ls| ensures Lacks(ls[i], '\n') {
      var digits := NatToString(i + 1);
      assert ls[i] == texts[i] + ": {" + digits + "!r}";
    }
    SplitJoin(ls, '\n');
  }

  /** The loop that builds the variable lines, a "\n" before every line but the first. */
  method BuildPyDebug(texts: seq<string>) returns (debug: string)
    ensures debug == PyDebug(texts)
  {
    debug := "";
    ghost var lines := PyLines(texts);
    for i := 0 to |texts|
      invariant debug == Join(lines[..i], "\n")
      invariant debug == [] <==> i == 0
    {
      var line := PyLine(texts[i], 1 + i);
      assert lines[..i + 1] == lines[..i] + [line];
      if debug != [] {
        JoinSnoc(lines[..i], line, "\n");
        debug := debug + "\n";
      }
      debug := debug + line;
    }
    assert lines[..|texts|] == lines;
  }

  /** The variables as the format call receives them: each one stripped. */
  function Stripped(texts: seq<string>): (ss: seq<string>)
    ensures |ss| == |texts|
  {
    seq(|texts|, i requires 0 <= i < |texts| => Strip(texts[i]))
  }

  /** The arguments of the format call: every stripped variable followed by ", ". */
  function PyArgs(stripped: seq<string>): string
  {
    Concat(seq(|stripped|, i requires 0 <= i < |stripped| => stripped[i] + ", "))
  }

  method BuildPyArgs(stripped: seq<string>) returns (args: string)
    ensures args == PyArgs(stripped)
  {
    args := "";
    ghost var parts := seq(|stripped|, i requires 0 <= i < |stripped| => stripped[i] + ", ");
    for i := 0 to |stripped|
      invariant args == Concat(parts[..i])
    {
      assert parts[..i + 1] == parts[..i] + [parts[i]];
      ConcatAppend(parts[..i], [parts[i]]);
      args := args + stripped[i] + ", ";
    }
    assert parts[..|stripped|] == parts;
  }

  /** The statement inserted at every cursor. */
  function PyOutput(puts: string, name: string, texts: seq<string>): string
  {
    if texts != [] then
      puts + "(\"\"\"=============== " + name + " at line {0} ==============="
      + "\n" + PyDebug(texts) + "\n"
      + "\"\"\".format(__import__('sys')._getframe().f_lineno - " + NatToString(1 + |texts|) + ", "
      + PyArgs(Stripped(texts)) + "))"
    else
      puts + "(\"=============== " + name + " at line {0} ===============\".format(__import__('sys')._getframe().f_lineno))"
  }

  // ----- JavaScript -----

  predicate AllWord(s: string) { |s| >= 1 && forall i :: 0 <= i < |s| ==> IsWordChar(s[i]) }

  /** re.match(r"^\w+$", s): word characters only, with "$" also matching before a final "\n". */
  predicate Bare(s: string)
  {
    AllWord(s) || (|s| >= 2 && s[|s| - 1] == '\n' && AllWord(s[..|s| - 1]))
  }

  /** The key of a labelled entry: every "'" escaped. */
  function Key(s: string): string
  {
    Replace(s, "'", "\\'")
  }

  /** The entry for one selected text: bare, or labelled by its escaped text. */
  function Entry(s: string): string
  {
    if Bare(s) then s else "'" + Key(s) + "': " + s
  }

  /** Every "'" in a key follows a backslash ... */
  lemma {:induction false} KeyQuotesEscaped(s: string)
    ensures var k := Key(s); forall i :: 0 <= i < |k| && k[i] == '\'' ==> 0 < i && k[i - 1] == '\\'
    decreases |s|
  {
    if s != [] {
      KeyQuotesEscaped(s[1..]);
      var rest := Key(s[1..]);
      var head := if s[0] == '\'' then "\\'" else [s[0]];
      assert Key(s) == head + rest;
      forall i | 0 <= i < |head + rest| && (head + rest)[i] == '\''
        ensures 0 < i && (head + rest)[i - 1] == '\\'
      {
        if i >= |head| {
          assert (head + rest)[i] == rest[i - |head|];
          if i - |head| > 0 {
            assert (head + rest)[i - 1] == rest[i - |head| - 1];
          }
        }
      }
    }
  }

  /** ... and unescaping a key gives back a text without backslashes. */
  lemma KeyUnescaped(s: string)
    requires Lacks(s, '\\')
    ensures Replace(Key(s), "\\'", "'") == s
  {
    UnescapeEscape(s, '\'');
  }

  function Entries(texts: seq<string>): (es: seq<string>)
    ensures |es| == |texts|
  {
    seq(|texts|, i requires 0 <= i < |texts| => Entry(texts[i]))
  }

  /** The entries joined by ", ", as the loop with its `first` flag does. */
  method JoinEntries(debugs: seq<string>) returns (out: string)
    ensures out == Join(debugs, ", ")
  {
    out := "";
    var first := true;
    for i := 0 to |debugs|
      invariant out == Join(debugs[..i], ", ")
      invariant first <==> i == 0
    {
      assert debugs[..i + 1] == debugs[..i] + [debugs[i]];
      if !first {
        JoinSnoc(debugs[..i], debugs[i], ", ");
        out := out + ", ";
      }
      first := false;
      out := out + debugs[i];
    }
    assert debugs[..|debugs|] == debugs;
  }

  function JsBanner(puts: string, name: string): string
  {
    puts + "('=============== " + name + " at line line_no ===============');"
  }

  function JsEntriesLine(puts: string, debugs: seq<string>): string
  {
    puts + "({ " + Join(debugs, ", ") + " })"
  }

  /** The statement before it is fitted to a cursor: built with "\n" after each line, the last one dropped. */
  function JsOutput(puts: string, name: string, debugs: seq<string>): string
  {
    var output := JsBanner(puts, name) + "\n";
    var output := if debugs != [] then output + JsEntriesLine(puts, debugs) + "\n" else output;
    output[..|output| - 1]
  }

  lemma DropNewline(x: string)
    ensures (x + "\n")[..|x + "\n"| - 1] == x
  {
  }

  /** The statement is the banner, followed by the entries on a line of their own if there are any. */
  lemma JsOutputShape(puts: string, name: string, debugs: seq<string>)
    ensures JsOutput(puts, name, debugs) ==
      JsBanner(puts, name) + (if debugs == [] then "" else "\n" + JsEntriesLine(puts, debugs))
  {
    var banner := JsBanner(puts, name);
    if debugs == [] {
      DropNewline(banner);
      assert banner + "" == banner;
    } else {
      var line := JsEntriesLine(puts, debugs);
      ConcatAssoc(banner, "\n", line);
      DropNewline(banner + "\n" + line);
    }
  }

  /** indent_at: the text of the cursor's line before the cursor. */
  function IndentAt(buf: string, r: Region): (s: string)
    ensures 0 <= r.a <= |buf| && r.Empty() ==> s == buf[LineStart(buf, r.a)..r.a] && Lacks(s, '\n')
  {
    var lineStart := Line(buf, r).Begin();
    var lineIndent := RowCol(buf, r.a).1;
    Substr(buf, Region(lineStart, lineStart + lineIndent))
  }

  /** The statement fitted to a line: every "\n" followed by the indent, and "line_no" the 1-based row. */
  function JsLineOutput(output: string, indent: string, lineNo: nat): string
  {
    Replace(Replace(output, "\n", "\n" + indent), "line_no", NatToString(lineNo))
  }

  // ----- Insertion at the cursors -----

  /** What is inserted: one text everywhere, or the JavaScript statement fitted to each cursor's line. */
  datatype Statement = Fixed(text: string) | PerLine(output: string)

  function StatementAt(st: Statement, buf: string, r: Region): string
  {
    match st
    case Fixed(text) => text
    case PerLine(output) => JsLineOutput(output, IndentAt(buf, r), RowCol(buf, r.a).0 + 1)
  }

  /** Inserting the statement at each cursor in turn, each time into the buffer as it is then. */
  function InsertAll(d: Doc, cursors: seq<Region>, st: Statement): Doc
    decreases |cursors|
  {
    if cursors == [] then d
    else
      var c := cursors[0];
      InsertAll(ReplaceIn(d, Region(c.a, c.a), StatementAt(st, d.buffer, c)), cursors[1..], st)
  }

  method InsertStep(v: View, c: Region, st: Statement)
    modifies v
    ensures Doc(v.buffer, v.sel) == ReplaceIn(old(Doc(v.buffer, v.sel)), Region(c.a, c.a), StatementAt(st, old(v.buffer), c))
  {
    var text: string;
    match st {
      case Fixed(t) =>
        text := t;
      case PerLine(output) =>
        var indent := IndentAt(v.buffer, c);
        var lineNo := RowCol(v.buffer, c.a).0 + 1;
        text := JsLineOutput(output, indent, lineNo);
    }
    v.Insert(c.a, text);
  }

  /** The insertion loop of both commands. */
  method InsertAt(v: View, cursors: seq<Region>, st: Statement)
    modifies v
    ensures Doc(v.buffer, v.sel) == InsertAll(old(Doc(v.buffer, v.sel)), cursors, st)
  {
    ghost var d0 := Doc(v.buffer, v.sel);
    for i := 0 to |cursors|
      invariant InsertAll(Doc(v.buffer, v.sel), cursors[i..], st) == InsertAll(d0, cursors, st)
    {
      assert cursors[i..][1..] == cursors[i + 1..];
      InsertStep(v, cursors[i], st);
    }
  }

  /** The statement as the command assembles it: from the variable lines once there are any. */
  method BuildPyOutput(puts: string, name: string, debugVars: seq<string>) returns (output: string)
    ensures output == PyOutput(puts, name, debugVars)
  {
    var debug := BuildPyDebug(debugVars);
    assert debug != [] <==> debugVars != [] by {
      if debugVars != [] {
        JoinHead(PyLines(debugVars), "\n");
      }
    }
    if debug != [] {
      var args := BuildPyArgs(Stripped(debugVars));
      output := puts + "(\"\"\"=============== " + name + " at line {0} ==============="
        + "\n" + debug + "\n"
        + "\"\"\".format(__import__('sys')._getframe().f_lineno - " + NatToString(1 + |debugVars|) + ", "
        + args + "))";
    } else {
      output := puts + "(\"=============== " + name + " at line {0} ===============\".format(__import__('sys')._getframe().f_lineno))";
    }
  }

  /** OdyseusTextDebuggingPythonCommand.run; the status message it shows, if any. */
  method Python(v: View, puts: string, fileName: string, viewName: string) returns (status: Option<string>)
    modifies v
    ensures var empties := Empties(old(v.sel));
      var output := PyOutput(puts, Name(fileName, viewName), Texts(old(v.buffer), old(v.sel)));
      if empties == [] then status == Some(NoCursorMessage) && v.buffer == old(v.buffer) && v.sel == []
      else status == None && Doc(v.buffer, v.sel) == InsertAll(Doc(old(v.buffer), empties), SortByEndDesc(empties), Fixed(output))
  {
    var emptyRegions, debugVars := Collect(v);
    if emptyRegions == [] {
      return Some(NoCursorMessage);
    }
    emptyRegions := SortByEndDesc(emptyRegions);
    var output := BuildPyOutput(puts, Name(fileName, viewName), debugVars);
    InsertAt(v, emptyRegions, Fixed(output));
    status := None;
  }

  lemma JoinHead(parts: seq<string>, sep: string)
    requires parts != []
    ensures parts[0] <= Join(parts, sep)
  {
  }

  /** OdyseusTextDebuggingJavaScriptCommand.run; the status message it shows, if any. */
  method JavaScript(v: View, puts: string, fileName: string, viewName: string) returns (status: Option<string>)
    modifies v
    ensures var empties := Empties(old(v.sel));
      var output := JsOutput(puts, Name(fileName, viewName), Entries(Texts(old(v.buffer), old(v.sel))));
      if empties == [] then status == Some(NoCursorMessage) && v.buffer == old(v.buffer) && v.sel == []
      else status == None && Doc(v.buffer, v.sel) == InsertAll(Doc(old(v.buffer), empties), SortByEndDesc(empties), PerLine(output))
  {
    var emptyRegions, texts := Collect(v);
    var debugs := Entries(texts);
    emptyRegions := SortByEndDesc(emptyRegions);
    if emptyRegions == [] {
      status := Some(NoCursorMessage);
    } else {
      var name := Name(fileName, viewName);
      var output := JsBanner(puts, name) + "\n";
      if debugs != [] {
        var joined := JoinEntries(debugs);
        output := output + (puts + "({ " + joined + " })") + "\n";
      }
      output := output[..|output| - 1];
      InsertAt(v, emptyRegions, PerLine(output));
      status := None;
    }
  }

  // ----- Order of the insertions -----

  /** Regions sorted by end, last first; among equal ends the earlier stays first (list.sort is stable). */
  function SortByEndDesc(rs: seq<Region>): (out: seq<Region>)
    ensures |out| == |rs|
    ensures rs == [] ==> out == []
  {
    if rs == [] then [] else InsertByEnd(rs[0], SortByEndDesc(rs[1..]))
  }

  function InsertByEnd(r: Region, sorted: seq<Region>): (out: seq<Region>)
    ensures |out| == |sorted| + 1
    ensures multiset(out) == multiset(sorted) + multiset{r}
  {
    if sorted == [] || sorted[0].End() <= r.End() then [r] + sorted
    else
      assert sorted == [sorted[0]] + sorted[1..];
      [sorted[0]] + InsertByEnd(r, sorted[1..])
  }

  predicate DescendingEnds(rs: seq<Region>)
  {
    forall i, j :: 0 <= i < j < |rs| ==> rs[i].End() >= rs[j].End()
  }

  lemma ConsDescending(x: Region, s: seq<Region>)
    requires DescendingEnds(s) && (s != [] ==> x.End() >= s[0].End())
    ensures DescendingEnds([x] + s)
  {
    var out := [x] + s;
    forall i, j | 0 <= i < j < |out| ensures out[i].End() >= out[j].End() {
      if i == 0 {
        assert s[0].End() >= s[j - 1].End() || j == 1;
      }
    }
  }

  lemma {:induction false} InsertByEndSorted(r: Region, sorted: seq<Region>)
    requires DescendingEnds(sorted)
    ensures DescendingEnds(InsertByEnd(r, sorted))
    ensures InsertByEnd(r, sorted)[0] == if sorted == [] || sorted[0].End() <= r.End() then r else sorted[0]
    decreases |sorted|
  {
    if sorted == [] || sorted[0].End() <= r.End() {
      ConsDescending(r, sorted);
    } else {
      var tail := sorted[1..];
      assert DescendingEnds(tail);
      InsertByEndSorted(r, tail);
      assert tail != [] ==> sorted[0].End() >= tail[0].End();
      ConsDescending(sorted[0], InsertByEnd(r, tail));
    }
  }

  /** The sort orders the cursors by end, last first ... */
  lemma {:induction false} SortByEndDescSorted(rs: seq<Region>)
    ensures DescendingEnds(SortByEndDesc(rs))
  {
    if rs != [] {
      SortByEndDescSorted(rs[1..]);
      InsertByEndSorted(rs[0], SortByEndDesc(rs[1..]));
    }
  }

  /** ... and keeps every one of them. */
  lemma {:induction false} SortByEndDescPermutes(rs: seq<Region>)
    ensures multiset(SortByEndDesc(rs)) == multiset(rs)
  {
    if rs != [] {
      SortByEndDescPermutes(rs[1..]);
      assert rs == [rs[0]] + rs[1..];
    }
  }

  /** Empty cursors inside the buffer, in the order of a selection set. */
  predicate Cursors(cs: seq<Region>, size: int)
  {
    SelectionSet(cs, size) && forall i :: 0 <= i < |cs| ==> cs[i].Empty()
  }

  /** Cursors inside a buffer are inside any longer one. */
  lemma CursorsWiden(cs: seq<Region>, size: int, size': int)
    requires Cursors(cs, size) && size <= size'
    ensures Cursors(cs, size')
  {
  }

  /** A region goes after the cursors of a descending list when all of them end at or after it. */
  lemma {:induction false} InsertByEndLast(r: Region, s: seq<Region>)
    requires r.Empty() && DescendingEnds(s)
    requires forall i :: 0 <= i < |s| ==> s[i].Empty() && s[i].End() >= r.End()
    ensures InsertByEnd(r, s) == s + [r]
    decreases |s|
  {
    if s == [] {
    } else if s[0].End() <= r.End() {
      forall i | 0 <= i < |s| ensures s[i] == r {
        assert s[0].End() >= s[i].End();
      }
      assert [r] + s == s + [r];
    } else {
      InsertByEndLast(r, s[1..]);
      assert s == [s[0]] + s[1..];
    }
  }

  /** Read backwards, the cursors of a selection set end later and later. */
  lemma CursorsReversed(cs: seq<Region>, size: int, p: int)
    requires Cursors(cs, size) && forall i :: 0 <= i < |cs| ==> p <= cs[i].Begin()
    ensures var s := Reversed(cs);
      DescendingEnds(s) && forall i :: 0 <= i < |s| ==> s[i].Empty() && s[i].End() >= p
  {
    var s := Reversed(cs);
    forall i, j | 0 <= i < j < |s| ensures s[i].End() >= s[j].End() {
      assert cs[|s| - 1 - j].End() <= cs[|s| - 1 - i].Begin();
    }
  }

  /** For the cursors of a selection set the sort is the reversal. */
  lemma {:induction false} SortIsReversal(cs: seq<Region>, size: int)
    requires Cursors(cs, size)
    ensures SortByEndDesc(cs) == Reversed(cs)
    decreases |cs|
  {
    if cs != [] {
      var tail := cs[1..];
      assert Cursors(tail, size);
      SortIsReversal(tail, size);
      assert forall i :: 0 <= i < |tail| ==> cs[0].End() <= tail[i].Begin();
      CursorsReversed(tail, size, cs[0].End());
      InsertByEndLast(cs[0], Reversed(tail));
    }
  }

  /** The edits the insertions amount to, one per cursor, each statement fitted to the original buffer. */
  function InsertEdits(buf: string, cs: seq<Region>, st: Statement): (es: seq<Edit>)
    ensures |es| == |cs|
  {
    seq(|cs|, i requires 0 <= i < |cs| => Edit(cs[i].a, cs[i].a, StatementAt(st, buf, cs[i])))
  }

  lemma {:induction false} LineStartPrefix(buf: string, buf': string, p: nat)
    requires p <= |buf| && p <= |buf'| && buf[..p] == buf'[..p]
    ensures LineStart(buf, p) == LineStart(buf', p)
    decreases p
  {
    if p > 0 {
      assert buf[p - 1] == buf[..p][p - 1] && buf'[p - 1] == buf'[..p][p - 1];
      if buf[p - 1] != '\n' {
        assert buf[..p - 1] == buf[..p][..p - 1] && buf'[..p - 1] == buf'[..p][..p - 1];
        LineStartPrefix(buf, buf', p - 1);
      }
    }
  }

  /** The statement for a cursor depends only on the text before the cursor. */
  lemma StatementPrefix(st: Statement, buf: string, buf': string, c: Region)
    requires c.Empty() && 0 <= c.a <= |buf| && c.a <= |buf'| && buf[..c.a] == buf'[..c.a]
    ensures StatementAt(st, buf, c) == StatementAt(st, buf', c)
  {
    if st.PerLine? {
      LineStartPrefix(buf, buf', c.a);
      var ls := LineStart(buf, c.a);
      assert buf[ls..c.a] == buf[..c.a][ls..] && buf'[ls..c.a] == buf'[..c.a][ls..];
      assert IndentAt(buf, c) == IndentAt(buf', c);
      assert RowCol(buf, c.a) == RowCol(buf', c.a);
    }
  }

  /** Edits at ascending points inside the buffer are in order. */
  lemma {:induction false} PointEditsOrdered(es: seq<Edit>, from: int, size: int)
    requires forall i :: 0 <= i < |es| ==> from <= es[i].begin == es[i].end <= size
    requires forall i, j :: 0 <= i < j < |es| ==> es[i].end <= es[j].begin
    ensures Ordered(es, from, size)
    decreases |es|
  {
    if es != [] {
      PointEditsOrdered(es[1..], es[0].end, size);
    }
  }

  lemma InsertEditsOrdered(buf: string, cs: seq<Region>, st: Statement)
    requires Cursors(cs, |buf|)
    ensures Ordered(InsertEdits(buf, cs, st), 0, |buf|)
  {
    PointEditsOrdered(InsertEdits(buf, cs, st), 0, |buf|);
  }

  lemma InsertEditsPrefix(buf: string, buf': string, cs: seq<Region>, st: Statement, p: nat)
    requires p <= |buf| && p <= |buf'| && buf[..p] == buf'[..p]
    requires forall i :: 0 <= i < |cs| ==> cs[i].Empty() && 0 <= cs[i].a <= p
    ensures InsertEdits(buf, cs, st) == InsertEdits(buf', cs, st)
  {
    forall i | 0 <= i < |cs| ensures StatementAt(st, buf, cs[i]) == StatementAt(st, buf', cs[i]) {
      var q := cs[i].a;
      assert buf[..q] == buf[..p][..q] && buf'[..q] == buf'[..p][..q];
      StatementPrefix(st, buf, buf', cs[i]);
    }
  }

  lemma InsertEditsSnoc(buf: string, cs: seq<Region>, c: Region, st: Statement)
    ensures InsertEdits(buf, cs + [c], st) == InsertEdits(buf, cs, st) + [Edit(c.a, c.a, StatementAt(st, buf, c))]
  {
  }

  /** One insertion, in front of the text the insertions before the cursor left alone. */
  lemma InsertOneSplice(buf: string, init: seq<Region>, c: Region, st: Statement)
    requires Cursors(init + [c], |buf|)
    ensures var text := StatementAt(st, buf, c);
      var buf' := ReplaceRegion(buf, Region(c.a, c.a), text);
      Cursors(init, |buf'|) && Ordered(InsertEdits(buf', init, st), 0, |buf'|)
      && Ordered(InsertEdits(buf, init + [c], st), 0, |buf|)
      && Splice(buf', InsertEdits(buf', init, st)) == Splice(buf, InsertEdits(buf, init + [c], st))
  {
    var cs := init + [c];
    var p := c.a;
    var text := StatementAt(st, buf, c);
    var buf' := ReplaceRegion(buf, Region(p, p), text);
    assert c == cs[|cs| - 1] && 0 <= p <= |buf|;
    assert buf' == buf[..p] + (text + buf[p..]);
    assert forall i :: 0 <= i < |init| ==> init[i] == cs[i];
    assert Cursors(init, p);
    CursorsWiden(init, p, |buf'|);
    assert buf'[..p] == buf[..p];
    InsertEditsOrdered(buf', init, st);
    InsertEditsPrefix(buf, buf', init, st, p);
    InsertEditsSnoc(buf, init, c, st);
    var e := Edit(p, p, text);
    var r := InsertEdits(buf, init, st);
    InsertEditsOrdered(buf, cs, st);
    SpliceFromSnoc(buf, r, e, 0);
    SpliceFromAppend(buf[..p], text + buf[p..], r, 0);
  }

  /**
   * Inserting at cursors from the last to the first, each time into the current
   * buffer, is the one splice of all the insertions into the original buffer.
   */
  lemma {:induction false} InsertAllIsSplice(d: Doc, cs: seq<Region>, st: Statement)
    requires Cursors(cs, |d.buffer|)
    ensures Ordered(InsertEdits(d.buffer, cs, st), 0, |d.buffer|)
    ensures InsertAll(d, Reversed(cs), st).buffer == Splice(d.buffer, InsertEdits(d.buffer, cs, st))
    decreases |cs|
  {
    InsertEditsOrdered(d.buffer, cs, st);
    if cs != [] {
      var init := cs[..|cs| - 1];
      var c := cs[|cs| - 1];
      assert cs == init + [c];
      assert Reversed(cs)[0] == c && Reversed(cs)[1..] == Reversed(init);
      var text := StatementAt(st, d.buffer, c);
      var d' := ReplaceIn(d, Region(c.a, c.a), text);
      assert d'.buffer == ReplaceRegion(d.buffer, Region(c.a, c.a), text);
      InsertOneSplice(d.buffer, init, c, st);
      assert InsertAll(d, Reversed(cs), st) == InsertAll(d', Reversed(init), st);
      InsertAllIsSplice(d', init, st);
    }
  }

  /**
   * What both commands do to the buffer: the statement goes in at every empty
   * cursor, fitted to the original text before that cursor, all at once.
   */
  lemma InsertedAtEmpties(buf: string, sels: seq<Region>, st: Statement)
    requires SelectionSet(sels, |buf|)
    ensures var es := Empties(sels);
      Ordered(InsertEdits(buf, es, st), 0, |buf|)
      && InsertAll(Doc(buf, es), SortByEndDesc(es), st).buffer == Splice(buf, InsertEdits(buf, es, st))
  {
    var es := Empties(sels);
    EmptiesSelectionSet(sels, |buf|);
    SortIsReversal(es, |buf|);
    InsertAllIsSplice(Doc(buf, es), es, st);
  }
}
