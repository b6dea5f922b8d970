/**
 * Case conversion of every selection (snake_case, camelCase, PascalCase and
 * the other styles of the case-conversion library): the text is converted
 * without its surrounding whitespace, which is put back around the result.
 * The library itself is not part of this model: its parser and conversion
 * functions are parameters.
 */
module CaseConversion {
  import opened Wrappers
  import opened Seqs
  import opened Strings
  import opened Regions
  import opened Edits
  import opened Host

  /** The acronym list handed to the library; None stands for False. */
  type Acronyms = Option<seq<string>>

  /** A conversion function of the library; Err is an exception it raises. */
  type CaseFunc = (string, bool, Acronyms) -> Result<string>

  /**
   * The library as seen from here: parse_case's case name and separator, the
   * three conversions toggle_case uses, and the module's functions by name.
   */
  datatype Library = Library(
    parse: (string, bool, Acronyms) -> (string, string),
    snakecase: CaseFunc,
    camelcase: CaseFunc,
    pascalcase: CaseFunc,
    functions: map<string, CaseFunc>)

  /** toggle_case: PascalCase to snake_case, snake_case to camelCase, camelCase to PascalCase. */
  function ToggleCase(lib: Library, text: string, detect: bool, acronyms: Acronyms): Result<string>
  {
    var (case_, sep) := lib.parse(text, detect, acronyms);
    if case_ == "pascal" && sep == [] then lib.snakecase(text, detect, acronyms)
    else if case_ == "lower" && sep == "_" then lib.camelcase(text, detect, acronyms)
    else if case_ == "camel" && sep == [] then lib.pascalcase(text, detect, acronyms)
    else Ok(text)
  }

  /** Only the three recognised shapes are converted; any other text comes back as it is. */
  lemma ToggleCaseOtherwiseUnchanged(lib: Library, text: string, detect: bool, acronyms: Acronyms)
    ensures var (case_, sep) := lib.parse(text, detect, acronyms);
      ToggleCase(lib, text, detect, acronyms) != Ok(text) ==>
        (case_ == "pascal" && sep == []) || (case_ == "lower" && sep == "_") || (case_ == "camel" && sep == [])
  {
  }

  function ToggleCaseFunc(lib: Library): CaseFunc
  {
    (text, detect, acronyms) => ToggleCase(lib, text, detect, acronyms)
  }

  /** The func argument of run_on_selections: a function name, a function, or None. */
  datatype FuncArg = Named(name: string) | Given(f: CaseFunc) | NoFunc

  /** The function to run, or the message of the exception raised before any selection is touched. */
  function ResolveFunc(lib: Library, func: FuncArg): (r: Result<CaseFunc>)
    ensures func.Named? ==> (r.Ok? <==> func.name in lib.functions)
    ensures func.NoFunc? ==> r == Err("No case function defined.")
  {
    match func
    case Named(name) =>
      if name in lib.functions then Ok(lib.functions[name])
      else Err("No valid case function defined. <" + name + ">")
    case Given(f) => Ok(f)
    case NoFunc => Err("No case function defined.")
  }

  /** The settings run_on_selections falls back on. */
  datatype Settings = Settings(detectAcronyms: bool, useAcronymsList: bool, acronyms: seq<string>)

  /** detect_acronyms and the acronym list: arguments win over settings; no list unless use_list. */
  function Options(detectArg: Option<bool>, useListArg: Option<bool>, acronymsArg: Option<seq<string>>, s: Settings): (r: (bool, Acronyms))
    ensures r.0 == detectArg.GetOr(s.detectAcronyms)
    ensures r.1.Some? <==> useListArg.GetOr(s.useAcronymsList)
    ensures r.1.Some? ==> r.1.value == acronymsArg.GetOr(s.acronyms)
  {
    var useList := useListArg.GetOr(s.useAcronymsList);
    (detectArg.GetOr(s.detectAcronyms), if useList then Some(acronymsArg.GetOr(s.acronyms)) else None)
  }

  /** The whitespace before the text: text[:len(text) - len(text.lstrip())]. */
  function Leading(text: string): string
  {
    text[..|text| - |LStrip(text)|]
  }

  /** The whitespace after the text as written: text[len(text.rstrip()):]. */
  function TrailingAsWritten(text: string): string
  {
    text[|RStrip(text)|..]
  }

  /** The whitespace after the stripped text: what follows the leading whitespace and the stripped text. */
  function Trailing(text: string): string
  {
    var n := |Leading(text)| + |Strip(text)|;
    assert n <= |text| by { StripAround(text); }
    text[n..]
  }

  /** The text minus its surrounding whitespace sits between the leading and trailing whitespace. */
  lemma StripAround(text: string)
    ensures |Leading(text)| + |Strip(text)| <= |text|
    ensures Strip(text) == text[|Leading(text)|..|Leading(text)| + |Strip(text)|]
    ensures AllSpace(Leading(text))
    ensures AllSpace(text[|Leading(text)| + |Strip(text)|..])
  {
    var l := LStrip(text);
    var r := RStrip(l);
    var n := |text| - |l|;
    assert l == text[n..];
    assert r == l[..|r|] && l[|r|..] == text[n + |r|..];
  }

  /** The replacement as written: the leading whitespace, the converted text, the trailing whitespace. */
  function NewTextAsWritten(text: string, f: CaseFunc, detect: bool, acronyms: Acronyms): Result<string>
  {
    match f(Strip(text), detect, acronyms)
    case Ok(t) => Ok(Leading(text) + t + TrailingAsWritten(text))
    case Err(e) => Err(e)
  }

  /** The replacement with the trailing whitespace taken after the stripped text. */
  function NewText(text: string, f: CaseFunc, detect: bool, acronyms: Acronyms): Result<string>
  {
    match f(Strip(text), detect, acronyms)
    case Ok(t) => Ok(Leading(text) + t + Trailing(text))
    case Err(e) => Err(e)
  }

  /**
   * The whitespace around the text is kept exactly: the replacement is the
   * text with its stripped part swapped for the converted one, and a
   * conversion that changes nothing leaves the text as it was.
   */
  lemma NewTextKeepsWhitespace(text: string, f: CaseFunc, detect: bool, acronyms: Acronyms)
    ensures Leading(text) + Strip(text) + Trailing(text) == text
    ensures AllSpace(Leading(text)) && AllSpace(Trailing(text))
    ensures f(Strip(text), detect, acronyms) == Ok(Strip(text)) ==> NewText(text, f, detect, acronyms) == Ok(text)
  {
    StripAround(text);
    var lead, core, trail := Leading(text), Strip(text), Trailing(text);
    var n := |lead|;
    var m := n + |core|;
    assert lead == text[..n] && core == text[n..m] && trail == text[m..];
    SliceThree(text, n, m);
  }

  /** rstrip() is the prefix that ends in a non-space and is followed only by whitespace. */
  lemma {:induction false} RStripIs(s: string, m: nat)
    requires m <= |s| && (m == 0 || !IsSpace(s[m - 1])) && AllSpace(s[m..])
    ensures RStrip(s) == s[..m]
    decreases |s|
  {
    if m < |s| {
      assert IsSpace(s[|s| - 1]) by { assert s[m..][|s| - 1 - m] == s[|s| - 1]; }
      var t := s[..|s| - 1];
      assert t[m..] == s[m..|s| - 1];
      RStripIs(t, m);
      assert t[..m] == s[..m];
    }
  }

  /** For a text that is not all whitespace the two trailing parts agree. */
  lemma TrailingAgrees(text: string)
    requires !AllSpace(text)
    ensures TrailingAsWritten(text) == Trailing(text)
  {
    StripAround(text);
    var l := LStrip(text);
    assert l != [];
    var core := Strip(text);
    assert core != [];
    var m := |Leading(text)| + |core|;
    assert text[m - 1] == core[|core| - 1];
    RStripIs(text, m);
  }

  /**
   * As written, a selection of whitespace only comes back doubled: both the
   * leading and the trailing part are the whole text.
   */
  lemma WhitespaceDoubled(f: CaseFunc, detect: bool, acronyms: Acronyms)
    requires f([], detect, acronyms) == Ok([])
    ensures NewTextAsWritten(" ", f, detect, acronyms) == Ok("  ")
    ensures NewText(" ", f, detect, acronyms) == Ok(" ")
  {
    var t := " ";
    assert IsSpace(t[0]);
    assert LStrip(t) == [] by { assert LStrip(t) == LStrip(t[1..]) && t[1..] == []; }
    assert RStrip(t) == [] by { assert RStrip(t) == RStrip(t[..0]) && t[..0] == []; }
    assert Strip(t) == [];
    assert Leading(t) == t by { assert t[..1] == t; }
    assert TrailingAsWritten(t) == t by { assert t[0..] == t; }
    assert Trailing(t) == [];
    assert t + [] + t == "  ";
    assert t + [] + [] == t;
  }

  /** A report shown in the message panel: a title and a body. */
  datatype Report = Report(title: string, body: string)

  /** One pass of the selection loop: an empty selection converts the word around it. */
  function Step(d: Doc, k: nat, f: CaseFunc, detect: bool, acronyms: Acronyms, wordOf: (string, Region) -> Region): (res: (Doc, seq<Report>))
    requires k < |d.sel|
    ensures |res.0.sel| == |d.sel|
  {
    var region := if d.sel[k].Size() != 0 then d.sel[k] else wordOf(d.buffer, d.sel[k]);
    var text := Substr(d.buffer, region);
    match NewText(text, f, detect, acronyms)
    case Err(e) => (d, [Report("run_on_selections: Error", e)])
    case Ok(t) => (if t != text then ReplaceIn(d, region, t) else d, [])
  }

  /** Passes k, ..., |sel| - 1, adding their reports to `shown`. */
  function Steps(d: Doc, k: nat, f: CaseFunc, detect: bool, acronyms: Acronyms, wordOf: (string, Region) -> Region, shown: seq<Report>): (Doc, seq<Report>)
    decreases |d.sel| - k
  {
    if k >= |d.sel| then (d, shown)
    else
      var (d', m) := Step(d, k, f, detect, acronyms, wordOf);
      Steps(d', k + 1, f, detect, acronyms, wordOf, shown + m)
  }

  /**
   * A failing selection is reported and changes nothing, and the loop goes
   * on with the next one; a text the conversion leaves alone is not replaced.
   */
  lemma StepFails(d: Doc, k: nat, f: CaseFunc, detect: bool, acronyms: Acronyms, wordOf: (string, Region) -> Region)
    requires k < |d.sel|
    ensures var region := if d.sel[k].Size() != 0 then d.sel[k] else wordOf(d.buffer, d.sel[k]);
      var r := NewText(Substr(d.buffer, region), f, detect, acronyms);
      var (d', m) := Step(d, k, f, detect, acronyms, wordOf);
      (r.Err? ==> d' == d && m == [Report("run_on_selections: Error", r.error)])
      && (r.Ok? ==> m == [] && (r.value == Substr(d.buffer, region) ==> d' == d))
  {
  }

  /**
   * run_on_selections: `raised` is the exception raised before the loop (a
   * function name the library does not have, or no function).
   */
  method RunOnSelections(v: View, lib: Library, func: FuncArg, detectArg: Option<bool>, useListArg: Option<bool>,
                         acronymsArg: Option<seq<string>>, settings: Settings, wordOf: (string, Region) -> Region)
    returns (raised: Option<string>, reports: seq<Report>)
    modifies v
    ensures var r := ResolveFunc(lib, func);
      r.Err? ==> raised == Some(r.error) && reports == [] && v.buffer == old(v.buffer) && v.sel == old(v.sel)
    ensures var r := ResolveFunc(lib, func); var (detect, acronyms) := Options(detectArg, useListArg, acronymsArg, settings);
      r.Ok? ==> raised == None && (Doc(v.buffer, v.sel), reports) == Steps(old(Doc(v.buffer, v.sel)), 0, r.value, detect, acronyms, wordOf, [])
  {
    reports := [];
    var resolved := ResolveFunc(lib, func);
    if resolved.Err? {
      return Some(resolved.error), [];
    }
    raised := None;
    var caseFunc := resolved.value;
    var (detect, acronyms) := Options(detectArg, useListArg, acronymsArg, settings);
    ghost var d0 := Doc(v.buffer, v.sel);
    var k := 0;
    while k < |v.sel|
      invariant |v.sel| == |d0.sel| && k <= |v.sel|
      invariant Steps(Doc(v.buffer, v.sel), k, caseFunc, detect, acronyms, wordOf, reports)
                == Steps(d0, 0, caseFunc, detect, acronyms, wordOf, [])
      decreases |v.sel| - k
    {
      var m := RunStep(v, k, caseFunc, detect, acronyms, wordOf);
      reports := reports + m;
      k := k + 1;
    }
  }

  /** One pass of the loop in run_on_selections. */
  method RunStep(v: View, k: nat, f: CaseFunc, detect: bool, acronyms: Acronyms, wordOf: (string, Region) -> Region)
    returns (m: seq<Report>)
    requires k < |v.sel|
    modifies v
    ensures (Doc(v.buffer, v.sel), m) == Step(old(Doc(v.buffer, v.sel)), k, f, detect, acronyms, wordOf)
  {
    var s := v.sel[k];
    var region := if s.Size() != 0 then s else wordOf(v.buffer, s);
    var text := Substr(v.buffer, region);
    var leading := Leading(text);
    var trailing := Trailing(text);
    var converted := f(Strip(text), detect, acronyms);
    if converted.Err? {
      return [Report("run_on_selections: Error", converted.error)];
    }
    var newText := leading + converted.value + trailing;
    if newText != text {
      v.Replace(region, newText);
    }
    m := [];
  }

  /** OdyseusToggleSnakeCamelPascalCommand.run. */
  method ToggleSnakeCamelPascal(v: View, lib: Library, detectArg: Option<bool>, useListArg: Option<bool>,
                                acronymsArg: Option<seq<string>>, settings: Settings, wordOf: (string, Region) -> Region)
    returns (reports: seq<Report>)
    modifies v
    ensures var (detect, acronyms) := Options(detectArg, useListArg, acronymsArg, settings);
      (Doc(v.buffer, v.sel), reports) == Steps(old(Doc(v.buffer, v.sel)), 0, ToggleCaseFunc(lib), detect, acronyms, wordOf, [])
  {
    var raised;
    raised, reports := RunOnSelections(v, lib, Given(ToggleCaseFunc(lib)), detectArg, useListArg, acronymsArg, settings, wordOf);
  }

  /** OdyseusConvertCaseCommand.run: an exception raised before the loop is reported. */
  method ConvertCase(v: View, lib: Library, caseFunc: FuncArg, detectArg: Option<bool>, useListArg: Option<bool>,
                     acronymsArg: Option<seq<string>>, settings: Settings, wordOf: (string, Region) -> Region)
    returns (reports: seq<Report>)
    modifies v
    ensures var r := ResolveFunc(lib, caseFunc);
      r.Err? ==> reports == [Report("OdyseusConvertCaseCommand: Error", r.error)]
                 && v.buffer == old(v.buffer) && v.sel == old(v.sel)
    ensures var r := ResolveFunc(lib, caseFunc); var (detect, acronyms) := Options(detectArg, useListArg, acronymsArg, settings);
      r.Ok? ==> (Doc(v.buffer, v.sel), reports) == Steps(old(Doc(v.buffer, v.sel)), 0, r.value, detect, acronyms, wordOf, [])
  {
    var raised;
    raised, reports := RunOnSelections(v, lib, caseFunc, detectArg, useListArg, acronymsArg, settings, wordOf);
    if raised.Some? {
      reports := [Report("OdyseusConvertCaseCommand: Error", raised.value)];
    }
  }
}
