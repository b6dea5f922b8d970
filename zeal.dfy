/**
 * Search with Zeal: the language of the view is read off its scope name,
 * the word to look up is found by a scan for delimiters around the cursor,
 * and Zeal is launched with the query "docset:word", the docset chosen
 * through the user's language mapping.
 */
module SearchWithZeal {
  import opened Wrappers
  import opened Strings
  import opened Seqs
  import opened Regions
  import Json

  // ----- The language of a scope -----

  /** `s.split()[0]`: the first whitespace-separated word, None when there is none. */
  function FirstWord(s: string): (w: Option<string>)
    ensures w.None? <==> AllSpace(s)
    ensures w.Some? ==> w.value != [] && forall j :: 0 <= j < |w.value| ==> !IsSpace(w.value[j])
  {
    var t := LStrip(s);
    LStripEmptyIffAllSpace(s);
    if t == [] then None else Some(t[..WordLength(t)])
  }

  /** The scope markers tested after the component rules, in their order: a later one wins. */
  const Overrides: seq<(string, string)> := [
    ("source.css.less", "less"), ("source.scss", "scss"), ("source.sass", "sass"),
    ("source.actionscript.2", "actionscript"), ("source.cmake", "cmake"), ("source.python", "python")]

  /** The language of the last marker in `overrides` that occurs in the scope. */
  function LastOverride(scope: string, overrides: seq<(string, string)>): Option<string>
  {
    if overrides == [] then None
    else
      var last := overrides[|overrides| - 1];
      if HasSubstring(scope, last.0) then Some(last.1)
      else LastOverride(scope, overrides[..|overrides| - 1])
  }

  /**
   * No override exactly when no marker occurs; otherwise the language of a
   * marker that occurs with none after it in the list.
   */
  lemma {:induction false} LastOverrideMeaning(scope: string, overrides: seq<(string, string)>)
    ensures LastOverride(scope, overrides).None? <==> forall i :: 0 <= i < |overrides| ==> !HasSubstring(scope, overrides[i].0)
    ensures LastOverride(scope, overrides).Some? ==>
      exists i :: 0 <= i < |overrides| && HasSubstring(scope, overrides[i].0)
                  && LastOverride(scope, overrides).value == overrides[i].1
                  && forall j :: i < j < |overrides| ==> !HasSubstring(scope, overrides[j].0)
    decreases |overrides|
  {
    if overrides != [] {
      var n := |overrides| - 1;
      var init := overrides[..n];
      if !HasSubstring(scope, overrides[n].0) {
        LastOverrideMeaning(scope, init);
        forall i | 0 <= i < n ensures init[i] == overrides[i] {
          PrefixElement(overrides, n, i);
        }
      }
    }
  }

  /** The refinement of "html" by the other components: php, then js, then css. */
  function HtmlLanguage(comps: seq<string>): (l: string)
    ensures "php" in comps ==> l == "php"
    ensures "php" !in comps && "js" in comps ==> l == "javascript"
    ensures "php" !in comps && "js" !in comps && "css" in comps ==> l == "css"
    ensures "php" !in comps && "js" !in comps && "css" !in comps ==> l == "html"
  {
    if "php" in comps then "php" else if "js" in comps then "javascript" else if "css" in comps then "css" else "html"
  }

  /**
   * The language named by the dot-separated components of the scope: the last
   * component, or the one before it for "basic", refined for "html", with
   * "js" named "javascript".  None where the source raises IndexError: an
   * empty last component, or "basic" alone.
   */
  function Base(comps: seq<string>): (l: Option<string>)
    requires comps != []
    ensures l.None? <==> comps[|comps| - 1] == [] || (comps[|comps| - 1] == "basic" && |comps| < 2)
  {
    var last := comps[|comps| - 1];
    if last == [] || (last == "basic" && |comps| < 2) then None
    else
      var named := if last == "basic" then comps[|comps| - 2] else last;
      var refined := if named == "html" then HtmlLanguage(comps) else named;
      Some(if refined == "js" then "javascript" else refined)
  }

  /** The language of one scope: its base language, unless a marker overrides it. */
  function ScopeLanguage(scope: string): Option<string>
  {
    var b := Base(Split(scope, '.'));
    if b.None? then None
    else if LastOverride(scope, Overrides).Some? then LastOverride(scope, Overrides)
    else b
  }

  /** The language of a scope name: that of its first scope; none for a blank name. */
  function Language(scopeName: string): Option<string>
  {
    match FirstWord(scopeName)
    case None => None
    case Some(scope) => ScopeLanguage(scope)
  }

  /** The six-marker list unfolded: the tests of the source, the last one first. */
  lemma OverridesChain(scope: string)
    ensures LastOverride(scope, Overrides) ==
      if HasSubstring(scope, "source.python") then Some("python")
      else if HasSubstring(scope, "source.cmake") then Some("cmake")
      else if HasSubstring(scope, "source.actionscript.2") then Some("actionscript")
      else if HasSubstring(scope, "source.sass") then Some("sass")
      else if HasSubstring(scope, "source.scss") then Some("scss")
      else if HasSubstring(scope, "source.css.less") then Some("less")
      else None
  {
    LastOverrideSix(scope, Overrides);
  }

  /** Six markers unfolded, the last one tried first. */
  lemma LastOverrideSix(scope: string, os: seq<(string, string)>)
    requires |os| == 6
    ensures LastOverride(scope, os) ==
      if HasSubstring(scope, os[5].0) then Some(os[5].1)
      else if HasSubstring(scope, os[4].0) then Some(os[4].1)
      else if HasSubstring(scope, os[3].0) then Some(os[3].1)
      else if HasSubstring(scope, os[2].0) then Some(os[2].1)
      else if HasSubstring(scope, os[1].0) then Some(os[1].1)
      else if HasSubstring(scope, os[0].0) then Some(os[0].1)
      else None
  {
    var none: seq<(string, string)> := [];
    LastOverrideSnoc(scope, none, os[0]);
    LastOverrideSnoc(scope, os[..1], os[1]);
    LastOverrideSnoc(scope, os[..2], os[2]);
    LastOverrideSnoc(scope, os[..3], os[3]);
    LastOverrideSnoc(scope, os[..4], os[4]);
    LastOverrideSnoc(scope, os[..5], os[5]);
    assert none == os[..0];
    PrefixSnoc(os, 0);
    PrefixSnoc(os, 1);
    PrefixSnoc(os, 2);
    PrefixSnoc(os, 3);
    PrefixSnoc(os, 4);
    PrefixSnoc(os, 5);
    assert os[..6] == os;
  }

  /** One more marker at the end of the list is tried first. */
  lemma LastOverrideSnoc(scope: string, os: seq<(string, string)>, x: (string, string))
    ensures LastOverride(scope, os + [x]) == if HasSubstring(scope, x.0) then Some(x.1) else LastOverride(scope, os)
  {
    assert (os + [x])[..|os|] == os;
  }

  /** get_language_from_scope: `lang` is reassigned by each rule in turn. */
  method LanguageFromScope(scopeName: string) returns (lang: Option<string>)
    ensures lang == Language(scopeName)
  {
    var first := FirstWord(scopeName);
    if first.None? {
      return None;
    }
    StripUnchanged(first.value);
    var scope := Strip(first.value);
    var base := BaseStep(Split(scope, '.'));
    if base.None? {
      return None;
    }
    var l := OverrideStep(scope, base.value);
    lang := Some(l);
  }

  /** The component rules of get_language_from_scope; None where the source raises IndexError. */
  method BaseStep(getlang: seq<string>) returns (lang: Option<string>)
    requires getlang != []
    ensures lang == Base(getlang)
  {
    var l := getlang[|getlang| - 1];
    if l == [] {
      return None;
    }
    if l == "basic" {
      if |getlang| < 2 {
        return None;
      }
      l := getlang[|getlang| - 2];
    }
    if l == "html" {
      if "php" in getlang {
        l := "php";
      } else if "js" in getlang {
        l := "javascript";
      } else if "css" in getlang {
        l := "css";
      }
    }
    if l == "js" {
      l := "javascript";
    }
    lang := Some(l);
  }

  /** The marker tests of get_language_from_scope, each overriding the ones before it. */
  method OverrideStep(scope: string, base: string) returns (l: string)
    ensures LastOverride(scope, Overrides).Some? ==> l == LastOverride(scope, Overrides).value
    ensures LastOverride(scope, Overrides).None? ==> l == base
  {
    l := base;
    if HasSubstring(scope, "source.css.less") {
      l := "less";
    }
    if HasSubstring(scope, "source.scss") {
      l := "scss";
    }
    if HasSubstring(scope, "source.sass") {
      l := "sass";
    }
    if HasSubstring(scope, "source.actionscript.2") {
      l := "actionscript";
    }
    if HasSubstring(scope, "source.cmake") {
      l := "cmake";
    }
    if HasSubstring(scope, "source.python") {
      l := "python";
    }
    OverridesChain(scope);
  }

  /** No marker occurs in the scope. */
  predicate NoMarker(scope: string)
  {
    forall j :: 0 <= j < |Overrides| ==> !HasSubstring(scope, Overrides[j].0)
  }

  /** The marker that occurs last in the list decides, whatever the components say. */
  lemma MarkerWins(scope: string, i: nat)
    requires Base(Split(scope, '.')).Some?
    requires i < |Overrides| && HasSubstring(scope, Overrides[i].0)
    requires forall j :: i < j < |Overrides| ==> !HasSubstring(scope, Overrides[j].0)
    ensures ScopeLanguage(scope) == Some(Overrides[i].1)
  {
    LastOverrideMeaning(scope, Overrides);
    var o :| 0 <= o < |Overrides| && HasSubstring(scope, Overrides[o].0) && LastOverride(scope, Overrides).value == Overrides[o].1
             && forall j :: o < j < |Overrides| ==> !HasSubstring(scope, Overrides[j].0);
    assert o == i;
  }

  /** Without markers, an ordinary last component is the language. */
  lemma LastComponent(scope: string)
    requires var comps := Split(scope, '.'); var last := comps[|comps| - 1];
      last != [] && last != "basic" && last != "html" && last != "js"
    requires NoMarker(scope)
    ensures var comps := Split(scope, '.'); ScopeLanguage(scope) == Some(comps[|comps| - 1])
  {
    BaseLast(Split(scope, '.'));
    NoMarkerNone(scope);
  }

  /** Without markers, "basic" gives way to the component before it. */
  lemma BasicFallsBack(scope: string)
    requires var comps := Split(scope, '.');
      comps[|comps| - 1] == "basic" && |comps| >= 2 && comps[|comps| - 2] != "html" && comps[|comps| - 2] != "js"
    requires NoMarker(scope)
    ensures var comps := Split(scope, '.'); ScopeLanguage(scope) == Some(comps[|comps| - 2])
  {
    BaseBasic(Split(scope, '.'));
    NoMarkerNone(scope);
  }

  /** "html" becomes php, javascript or css when one of them is a component, tested in that order. */
  lemma HtmlRefines(scope: string)
    requires var comps := Split(scope, '.'); comps[|comps| - 1] == "html"
    requires NoMarker(scope)
    ensures ScopeLanguage(scope) == Some(HtmlLanguage(Split(scope, '.')))
  {
    BaseHtml(Split(scope, '.'));
    NoMarkerNone(scope);
  }

  lemma NoMarkerNone(scope: string)
    requires NoMarker(scope)
    ensures LastOverride(scope, Overrides).None?
  {
    LastOverrideMeaning(scope, Overrides);
  }

  lemma BaseLast(comps: seq<string>)
    requires comps != []
    requires var last := comps[|comps| - 1]; last != [] && last != "basic" && last != "html" && last != "js"
    ensures Base(comps) == Some(comps[|comps| - 1])
  {
  }

  lemma BaseBasic(comps: seq<string>)
    requires |comps| >= 2 && comps[|comps| - 1] == "basic"
    requires comps[|comps| - 2] != "html" && comps[|comps| - 2] != "js"
    ensures Base(comps) == Some(comps[|comps| - 2])
  {
  }

  lemma BaseHtml(comps: seq<string>)
    requires comps != [] && comps[|comps| - 1] == "html"
    ensures Base(comps) == Some(HtmlLanguage(comps))
  {
    assert HtmlLanguage(comps) != "js";
  }

  /** An empty last component ("source.") raises in the source: no language. */
  lemma EmptyComponent(scope: string)
    requires var comps := Split(scope, '.'); comps[|comps| - 1] == []
    ensures ScopeLanguage(scope).None?
  {
    assert Base(Split(scope, '.')).None?;
  }

  /** A blank scope name raises in the source: no language. */
  lemma BlankScopeName(scopeName: string)
    requires AllSpace(scopeName)
    ensures Language(scopeName).None?
  {
  }

  // ----- The word around the cursor -----

  /** The rule-type characters "." and "#", which end a word but are not skipped. */
  const RuleType: set<char> := {'.', '#'}
  /** The delimiters of get_css_class_or_id. */
  const CssDelims: set<char> := {' ', '"', '\'', '<', '>', '(', ')', '/', '\n', ':'}
  /** The delimiters of selection_erlang: those of CSS without ":". */
  const ErlangDelims: set<char> := {' ', '"', '\'', '<', '>', '(', ')', '/', '\n'}

  /** `get_sym(pos) in d`: a position outside the buffer reads as "", which is in no set. */
  predicate SymIn(buf: string, pos: int, d: set<char>)
  {
    0 <= pos < |buf| && buf[pos] in d
  }

  /** The first loop: back over delimiters. */
  function SkipDelims(buf: string, pos: int, delims: set<char>): (p: int)
    ensures p <= pos && !SymIn(buf, p, delims)
    decreases pos + 1
  {
    if SymIn(buf, pos, delims) then SkipDelims(buf, pos - 1, delims) else pos
  }

  /** The second loop: back to the scope's start or a delimiter, whichever comes first. */
  function Back(buf: string, pos: int, lo: int, all: set<char>): (p: int)
    ensures pos <= lo ==> p == pos
    ensures pos > lo ==> lo <= p <= pos && (p == lo || SymIn(buf, p, all))
    ensures forall j :: p < j <= pos ==> !SymIn(buf, j, all)
    decreases pos - lo
  {
    if pos > lo && !SymIn(buf, pos, all) then Back(buf, pos - 1, lo, all) else pos
  }

  /** The third loop: forward to the scope's end or a delimiter. */
  function Forward(buf: string, pos: int, hi: int, all: set<char>): (p: int)
    ensures pos >= hi ==> p == pos
    ensures pos < hi ==> pos <= p <= hi && (p == hi || SymIn(buf, p, all))
    ensures forall j :: pos <= j < p ==> !SymIn(buf, j, all)
    decreases hi - pos
  {
    if pos < hi && !SymIn(buf, pos, all) then Forward(buf, pos + 1, hi, all) else pos
  }

  function WordStart(buf: string, cur: int, scope: Region, delims: set<char>): int
  {
    var all := delims + RuleType;
    var left := Back(buf, SkipDelims(buf, cur, delims), scope.a, all);
    if SymIn(buf, left, all) then left + 1 else left
  }

  function WordEnd(buf: string, cur: int, scope: Region, delims: set<char>): int
  {
    Forward(buf, cur, scope.b, delims + RuleType)
  }

  /**
   * get_css_class_or_id (with CssDelims and the extracted scope) and
   * selection_erlang (with ErlangDelims and the line): the text between the
   * cursor's scans to the left and to the right.
   */
  method ScanWord(buf: string, cur: int, scope: Region, delims: set<char>) returns (word: string)
    ensures word == Substr(buf, Region(WordStart(buf, cur, scope, delims), WordEnd(buf, cur, scope, delims)))
  {
    var all := delims + RuleType;
    var left := cur;
    while SymIn(buf, left, delims)
      invariant SkipDelims(buf, left, delims) == SkipDelims(buf, cur, delims)
      decreases left + 1
    {
      left := left - 1;
    }
    ghost var skipped := left;
    while left > scope.a && !SymIn(buf, left, all)
      invariant Back(buf, left, scope.a, all) == Back(buf, skipped, scope.a, all)
      decreases left - scope.a
    {
      left := left - 1;
    }
    if SymIn(buf, left, all) {
      left := left + 1;
    }
    var right := cur;
    while right < scope.b && !SymIn(buf, right, all)
      invariant Forward(buf, right, scope.b, all) == Forward(buf, cur, scope.b, all)
      decreases scope.b - right
    {
      right := right + 1;
    }
    word := Substr(buf, Region(left, right));
  }

  /**
   * On a word character inside the scope, the scan yields the whole run of
   * non-delimiters around the cursor, cut at the scope's bounds.
   */
  lemma WordAroundCursor(buf: string, cur: int, scope: Region, delims: set<char>)
    requires 0 <= scope.a <= cur < scope.b <= |buf|
    requires buf[cur] !in delims + RuleType
    ensures var l, r := WordStart(buf, cur, scope, delims), WordEnd(buf, cur, scope, delims);
      scope.a <= l <= cur < r <= scope.b
      && Substr(buf, Region(l, r)) == buf[l..r]
      && (forall j :: l <= j < r ==> buf[j] !in delims + RuleType)
      && (l == scope.a || buf[l - 1] in delims + RuleType)
      && (r == scope.b || buf[r] in delims + RuleType)
  {
    var all := delims + RuleType;
    assert SkipDelims(buf, cur, delims) == cur;
    var b := Back(buf, cur, scope.a, all);
    var l := WordStart(buf, cur, scope, delims);
    var r := WordEnd(buf, cur, scope, delims);
    assert !SymIn(buf, cur, all);
    assert l <= cur;
    assert r > cur;
    forall j | l <= j < r ensures buf[j] !in all {
      assert !SymIn(buf, j, all);
    }
  }

  /** get_word: the scan the detected language calls for, else the host's word under the selection. */
  function GetWord(language: string, cssWord: string, erlangWord: string, selectionWord: Option<string>): (w: Option<string>)
    ensures language in {"css", "scss", "sass", "less"} ==> w == Some(cssWord)
    ensures language == "erlang" ==> w == Some(erlangWord)
    ensures language !in {"css", "scss", "sass", "less", "erlang"} ==> w == selectionWord
  {
    if language == "css" || language == "scss" || language == "sass" || language == "less" then Some(cssWord)
    else if language == "erlang" then Some(erlangWord)
    else selectionWord
  }

  // ----- Launching Zeal -----

  /** What open_zeal does: a message without an executable, else the command line. */
  datatype Launch = NoExecutable | Open(cmd: seq<string>)

  /** The query: the text alone for the prompt or without a docset, else "docset:text". */
  function Query(lang: string, text: string, join: bool): (q: string)
    ensures join || lang == [] ==> q == text
    ensures !join && lang != [] ==> StartsWith(q, lang + ":") && EndsWith(q, text) && |q| == |lang| + 1 + |text|
  {
    if join || lang == [] then text else lang + ":" + text
  }

  /** Zeal reads "docset:text" back at its first ":": a docset without ":" and the text come out. */
  lemma QueryParts(lang: string, text: string)
    requires lang != [] && Lacks(lang, ':')
    ensures var parts := Split(Query(lang, text, false), ':');
      parts[0] == lang && Join(parts[1..], ":") == text
  {
    assert lang + ":" + text == lang + [':'] + text;
    SplitAtSeparator(lang, text, ':');
    JoinSplit(text, ':');
    assert Split(Query(lang, text, false), ':')[1..] == Split(text, ':');
  }

  /** open_zeal: `zealExec` is the executable found for this platform, "" when none is. */
  function OpenZeal(zealExec: string, lang: string, text: string, join: bool): (l: Launch)
    ensures zealExec == [] <==> l.NoExecutable?
    ensures l.Open? ==> l.cmd == [zealExec, Query(lang, text, join)]
  {
    if zealExec == [] then NoExecutable else Open([zealExec, Query(lang, text, join)])
  }

  // ----- The language mapping -----

  /** One entry of the language_mapping setting: its title and its "lang" and "zeal_lang" keys. */
  datatype Mapping = Mapping(title: string, lang: string, zealLang: string)

  /** The entries whose "lang" is the detected language, in the mapping's order. */
  function Matching(mapping: seq<Mapping>, language: string): (items: seq<Mapping>)
    ensures |items| <= |mapping|
    ensures forall i :: 0 <= i < |items| ==> items[i].lang == language && items[i] in mapping
    ensures forall m :: m in mapping && m.lang == language ==> m in items
  {
    if mapping == [] then []
    else
      var last := mapping[|mapping| - 1];
      var front := mapping[..|mapping| - 1];
      assert forall m :: m in mapping ==> m in front || m == last;
      Matching(front, language) + (if last.lang == language then [last] else [])
  }

  /** The loop of the selection command that collects `items`. */
  method MatchingItems(mapping: seq<Mapping>, language: string) returns (items: seq<Mapping>)
    ensures items == Matching(mapping, language)
  {
    items := [];
    for k := 0 to |mapping|
      invariant items == Matching(mapping[..k], language)
    {
      assert mapping[..k + 1][..k] == mapping[..k];
      if mapping[k].lang == language {
        items := items + [mapping[k]];
      }
    }
    assert mapping[..|mapping|] == mapping;
  }

  /** Python's order on strings: code point by code point, a proper prefix first. */
  predicate LexLe(a: string, b: string)
    decreases |a|
  {
    a == [] || (b != [] && (a[0] < b[0] || (a[0] == b[0] && LexLe(a[1..], b[1..]))))
  }

  lemma {:induction false} LexTotal(a: string, b: string)
    ensures LexLe(a, b) || LexLe(b, a)
    decreases |a|
  {
    if a != [] && b != [] && a[0] == b[0] {
      LexTotal(a[1..], b[1..]);
    }
  }

  predicate SortedByTitle(s: seq<Mapping>)
  {
    forall i :: 0 <= i < |s| - 1 ==> LexLe(s[i].title, s[i + 1].title)
  }

  function Insert(x: Mapping, s: seq<Mapping>): (r: seq<Mapping>)
    requires SortedByTitle(s)
    ensures SortedByTitle(r) && multiset(r) == multiset(s) + multiset{x}
    ensures r != [] && (r[0] == x || (s != [] && r[0] == s[0]))
  {
    if s == [] || LexLe(x.title, s[0].title) then
      SortedCons(x, s);
      [x] + s
    else
      LexTotal(x.title, s[0].title);
      var rest := Insert(x, s[1..]);
      InsertBehind(x, s, rest);
      [s[0]] + rest
  }

  lemma SortedCons(x: Mapping, s: seq<Mapping>)
    requires SortedByTitle(s) && (s == [] || LexLe(x.title, s[0].title))
    ensures SortedByTitle([x] + s)
  {
    var r := [x] + s;
    forall i | 0 <= i < |r| - 1 ensures LexLe(r[i].title, r[i + 1].title) {
      if i > 0 {
        assert r[i] == s[i - 1] && r[i + 1] == s[i];
      }
    }
  }

  /** The entry goes behind the first one: the first stays in front of the rest. */
  lemma InsertBehind(x: Mapping, s: seq<Mapping>, rest: seq<Mapping>)
    requires s != [] && SortedByTitle(s) && LexLe(s[0].title, x.title)
    requires SortedByTitle(rest) && multiset(rest) == multiset(s[1..]) + multiset{x}
    requires rest != [] && (rest[0] == x || (s[1..] != [] && rest[0] == s[1..][0]))
    ensures SortedByTitle([s[0]] + rest) && multiset([s[0]] + rest) == multiset(s) + multiset{x}
    ensures [s[0]] + rest != [] && ([s[0]] + rest)[0] == s[0]
  {
    assert s == [s[0]] + s[1..];
    if rest[0] != x {
      assert LexLe(s[0].title, s[1].title);
    }
    SortedCons(s[0], rest);
  }

  /** sorted(items.items(), key=itemgetter(0)): ordered by title, the same entries. */
  function SortByTitle(s: seq<Mapping>): (r: seq<Mapping>)
    ensures SortedByTitle(r) && multiset(r) == multiset(s) && |r| == |s|
  {
    if s == [] then []
    else
      assert s == [s[0]] + s[1..];
      Insert(s[0], SortByTitle(s[1..]))
  }

  /** The quick panel rows: the title and "Language: " with the entry's lang. */
  function Entries(items: seq<Mapping>): (rows: seq<(string, string)>)
    ensures |rows| == |items| && forall i :: 0 <= i < |items| ==> rows[i] == (items[i].title, "Language: " + items[i].lang)
  {
    seq(|items|, i requires 0 <= i < |items| => (items[i].title, "Language: " + items[i].lang))
  }

  /** The popup list for several matching entries, sorted by title when sort_mapping is set. */
  function Popup(items: seq<Mapping>, sortMapping: bool): (rows: seq<(string, string)>)
    ensures |rows| == |items|
    ensures sortMapping ==> rows == Entries(SortByTitle(items))
    ensures sortMapping ==> forall i :: 0 <= i < |rows| - 1 ==> LexLe(rows[i].0, rows[i + 1].0)
    ensures !sortMapping ==> rows == Entries(items)
  {
    if sortMapping then Entries(SortByTitle(items)) else Entries(items)
  }

  /** The rows of two runs of entries, one after the other. */
  lemma EntriesAppend(a: seq<Mapping>, b: seq<Mapping>)
    ensures Entries(a + b) == Entries(a) + Entries(b)
  {
  }

  /** Entries of the same entries in another order are the same rows in another order. */
  lemma {:induction false} EntriesPermute(s: seq<Mapping>, t: seq<Mapping>)
    requires multiset(s) == multiset(t)
    ensures multiset(Entries(s)) == multiset(Entries(t))
    decreases |s|
  {
    if s == [] {
      assert |t| == |multiset(t)| == 0;
    } else {
      var x := s[0];
      assert x in multiset(t);
      var j :| 0 <= j < |t| && t[j] == x;
      var t' := t[..j] + t[j + 1..];
      assert t == t[..j] + [x] + t[j + 1..];
      assert s == [x] + s[1..];
      assert multiset(t') == multiset(t) - multiset{x};
      assert multiset(s[1..]) == multiset(s) - multiset{x};
      EntriesPermute(s[1..], t');
      EntriesAppend([x], s[1..]);
      EntriesAppend(t[..j], [x]);
      EntriesAppend(t[..j] + [x], t[j + 1..]);
      EntriesAppend(t[..j], t[j + 1..]);
    }
  }

  /**
   * Whatever order the dictionary is iterated in, the popup shows one row
   * per matching entry: the rows are the entries' rows, in some order.
   */
  lemma PopupPermutes(items: seq<Mapping>, sortMapping: bool)
    ensures multiset(Popup(items, sortMapping)) == multiset(Entries(items))
  {
    if sortMapping {
      EntriesPermute(SortByTitle(items), items);
    }
  }

  /** `items[title]`: the entry with that title. */
  function Lookup(items: seq<Mapping>, title: string): (m: Option<Mapping>)
    ensures m.Some? ==> m.value in items && m.value.title == title
    ensures m.None? <==> forall i :: 0 <= i < |items| ==> items[i].title != title
  {
    if items == [] then None
    else if items[0].title == title then Some(items[0])
    else
      var m := Lookup(items[1..], title);
      assert forall i :: 1 <= i < |items| ==> items[i] == items[1..][i - 1];
      m
  }

  /** The titles of a mapping are distinct, as the keys of a dictionary are. */
  predicate DistinctTitles(s: seq<Mapping>)
  {
    forall i, j :: 0 <= i < |s| && 0 <= j < |s| && s[i].title == s[j].title ==> i == j
  }

  // ----- The selection command -----

  /** What the selection command does for one region, in order. */
  datatype Effect =
    | Status(message: string)               // a status-bar message
    | Zeal(launch: Launch)                  // open_zeal
    | QuickPanel(rows: seq<(string, string)>)
    | MissingTitle(title: string)           // `items[title]` raises KeyError

  /**
   * One region of OdyseusSearchWithZealSelectionCommand.run, the region's
   * text (or the word about it) given: a sole matching entry opens Zeal at
   * once, several fill the popup; then, for a non-empty text, the quick
   * panel is shown, or with a "title" argument that entry is opened.
   */
  function RegionEffects(language: string, text: Option<string>, mapping: seq<Mapping>, sortMapping: bool,
                         title: Option<string>, zealExec: string): (e: seq<Effect>)
    ensures text.None? ==> e == [Status("No word was selected.")]
  {
    var items := Matching(mapping, language);
    var first :=
      if text.None? then [Status("No word was selected.")]
      else if |items| == 1 then [Zeal(OpenZeal(zealExec, items[0].zealLang, text.value, false))]
      else if |items| == 0 then [Status("No Zeal mapping was found for " + language + " language.")]
      else [];
    var rows := if text.Some? && |items| > 1 then Popup(items, sortMapping) else [];
    var after :=
      if text.None? || text.value == [] then []
      else match title
        case None => [QuickPanel(rows)]
        case Some(t) =>
          match Lookup(items, t)
          case Some(m) => [Zeal(OpenZeal(zealExec, m.zealLang, text.value, false))]
          case None => [MissingTitle(t)];
    first + after
  }

  /** Exactly one matching entry: Zeal opens with its docset, and an empty quick panel follows. */
  lemma SoleEntryOpens(language: string, text: string, mapping: seq<Mapping>, sortMapping: bool, zealExec: string)
    requires text != [] && |Matching(mapping, language)| == 1
    ensures var m := Matching(mapping, language)[0];
      m in mapping && m.lang == language
      && RegionEffects(language, Some(text), mapping, sortMapping, None, zealExec)
         == [Zeal(OpenZeal(zealExec, m.zealLang, text, false)), QuickPanel([])]
  {
  }

  /** Several matching entries: only the quick panel, holding a row for each of them. */
  lemma SeveralEntriesPopup(language: string, text: string, mapping: seq<Mapping>, sortMapping: bool, zealExec: string)
    requires text != [] && |Matching(mapping, language)| > 1
    ensures var e := RegionEffects(language, Some(text), mapping, sortMapping, None, zealExec);
      |e| == 1 && e[0].QuickPanel?
      && (sortMapping ==> e[0].rows == Entries(SortByTitle(Matching(mapping, language))))
      && (!sortMapping ==> e[0].rows == Entries(Matching(mapping, language)))
      && (sortMapping ==> forall i :: 0 <= i < |e[0].rows| - 1 ==> LexLe(e[0].rows[i].0, e[0].rows[i + 1].0))
  {
  }

  /** No matching entry: a status message, and an empty quick panel. */
  lemma NoEntry(language: string, text: string, mapping: seq<Mapping>, sortMapping: bool, zealExec: string)
    requires text != [] && forall j :: 0 <= j < |mapping| ==> mapping[j].lang != language
    ensures RegionEffects(language, Some(text), mapping, sortMapping, None, zealExec)
      == [Status("No Zeal mapping was found for " + language + " language."), QuickPanel([])]
  {
  }

  /** The quick panel's callback: -1 is a dismissal, otherwise the picked row's entry is opened. */
  function Callback(items: seq<Mapping>, rows: seq<(string, string)>, idx: int, text: string, zealExec: string): (l: Option<Launch>)
    requires -1 <= idx < |rows|
    ensures idx == -1 ==> l.None?
  {
    if idx == -1 then None
    else match Lookup(items, rows[idx].0)
      case Some(m) => Some(OpenZeal(zealExec, m.zealLang, text, false))
      case None => None
  }

  /** Picking a row of the popup opens Zeal with the docset of that row's own entry. */
  lemma PickOpensEntry(language: string, mapping: seq<Mapping>, sortMapping: bool, idx: nat, text: string, zealExec: string)
    requires DistinctTitles(mapping)
    requires idx < |Matching(mapping, language)|
    ensures var items := Matching(mapping, language);
      var rows := Popup(items, sortMapping);
      exists m :: m in items && rows[idx] == (m.title, "Language: " + m.lang)
                  && Callback(items, rows, idx, text, zealExec) == Some(OpenZeal(zealExec, m.zealLang, text, false))
  {
    var items := Matching(mapping, language);
    var rows := Popup(items, sortMapping);
    var ordered := if sortMapping then SortByTitle(items) else items;
    var m := ordered[idx];
    assert m in multiset(ordered);
    assert m in items;
    assert rows[idx] == (m.title, "Language: " + m.lang);
    var found := Lookup(items, m.title);
    assert found.Some?;
    var a :| 0 <= a < |mapping| && mapping[a] == found.value;
    var b :| 0 <= b < |mapping| && mapping[b] == m;
    assert a == b;
  }

  /** OdyseusSearchWithZealSelectionCommand.run over the selections, with each region's text and the word at the cursor given. */
  function RunEffects(texts: seq<string>, word: Option<string>, language: string, mapping: seq<Mapping>, sortMapping: bool,
                      title: Option<string>, zealExec: string): (e: seq<Effect>)
    ensures texts == [] ==> e == []
  {
    if texts == [] then []
    else
      var t := texts[|texts| - 1];
      RunEffects(texts[..|texts| - 1], word, language, mapping, sortMapping, title, zealExec)
      + RegionEffects(language, if t != [] then Some(t) else word, mapping, sortMapping, title, zealExec)
  }

  /**
   * The loop of the selection command: a region's own text, or the word at
   * the cursor for an empty one, is looked up.  `texts` are the texts of the
   * regions and `word` what get_word gives.
   */
  method SelectionCommand(texts: seq<string>, word: Option<string>, language: string, mapping: seq<Mapping>,
                          sortMapping: bool, title: Option<string>, zealExec: string) returns (effects: seq<Effect>)
    ensures effects == RunEffects(texts, word, language, mapping, sortMapping, title, zealExec)
  {
    effects := [];
    for k := 0 to |texts|
      invariant effects == RunEffects(texts[..k], word, language, mapping, sortMapping, title, zealExec)
    {
      var text := if texts[k] != [] then Some(texts[k]) else word;
      var here := RegionStep(text, language, mapping, sortMapping, title, zealExec);
      PrefixSnoc(texts, k);
      assert texts[..k + 1][..k] == texts[..k] && texts[..k + 1][k] == texts[k];
      effects := effects + here;
    }
    assert texts[..|texts|] == texts;
  }

  /** The body of the loop for one region's text. */
  method RegionStep(text: Option<string>, language: string, mapping: seq<Mapping>, sortMapping: bool,
                    title: Option<string>, zealExec: string) returns (effects: seq<Effect>)
    ensures effects == RegionEffects(language, text, mapping, sortMapping, title, zealExec)
  {
    var items := MatchingItems(mapping, language);
    var first: seq<Effect> := [];
    var rows: seq<(string, string)> := [];
    if text.None? {
      first := [Status("No word was selected.")];
    } else if |items| > 1 {
      rows := Popup(items, sortMapping);
    } else if |items| == 1 {
      first := [Zeal(OpenZeal(zealExec, items[0].zealLang, text.value, false))];
    } else {
      first := [Status("No Zeal mapping was found for " + language + " language.")];
    }
    var after: seq<Effect> := [];
    if text.Some? && text.value != [] {
      if title.None? {
        after := [QuickPanel(rows)];
      } else {
        var m := Lookup(items, title.value);
        after := if m.Some? then [Zeal(OpenZeal(zealExec, m.value.zealLang, text.value, false))] else [MissingTitle(title.value)];
      }
    }
    effects := first + after;
  }

  /**
   * OdyseusSearchWithZealSelectionCommand.is_visible: a boolean setting
   * decides; otherwise the command shows when an entry's "lang" is the
   * detected language in lower case.
   */
  method SelectionVisible(setting: Json.Value, detected: string, mapping: seq<Mapping>) returns (visible: bool)
    ensures setting.Bool? ==> visible == setting.b
    ensures !setting.Bool? ==> (visible <==> exists j :: 0 <= j < |mapping| && mapping[j].lang == Lower(detected))
  {
    if setting.Bool? {
      return setting.b;
    }
    var lang := Lower(detected);
    for j := 0 to |mapping|
      invariant forall i :: 0 <= i < j ==> mapping[i].lang != lang
    {
      if lang == mapping[j].lang {
        return true;
      }
    }
    return false;
  }

  // ----- The search prompt -----

  /** A stripped text has no whitespace at either end. */
  lemma StripEnds(s: string)
    ensures var t := Strip(s); t != [] ==> !IsSpace(t[0]) && !IsSpace(t[|t| - 1])
  {
    var l := LStrip(s);
    var t := RStrip(l);
    if t != [] {
      assert t[0] == l[0];
    }
  }

  /** Stripping twice is stripping once: the remembered text is already stripped. */
  lemma StripTwice(s: string)
    ensures Strip(Strip(s)) == Strip(s)
  {
    StripEnds(s);
    StripUnchanged(Strip(s));
  }

  /** OdyseusSearchWithZealCommand: the text last typed into its prompt. */
  class SearchPrompt {
    var lastText: string

    constructor()
      ensures lastText == []
    {
      lastText := [];
    }

    /** The remembered text is "" or a text without whitespace at its ends. */
    ghost predicate Valid()
      reads this
    {
      lastText != [] ==> !IsSpace(lastText[0]) && !IsSpace(lastText[|lastText| - 1])
    }

    /** run: the prompt opens with the remembered text. */
    method Run() returns (initial: string)
      requires Valid()
      ensures initial == lastText && Strip(initial) == initial
    {
      StripUnchanged(lastText);
      initial := lastText;
    }

    /** _ody_on_change: a non-blank text is remembered stripped; a blank one leaves it. */
    method OnChange(text: string)
      modifies this
      ensures Strip(text) == [] ==> lastText == old(lastText)
      ensures Strip(text) != [] ==> lastText == Strip(text)
      ensures old(Valid()) ==> Valid()
    {
      StripEnds(text);
      var stripped := Strip(text);
      if stripped == [] {
        return;
      }
      lastText := stripped;
    }

    /** _ody_after_input: a blank submit forgets the text; any other searches it as typed. */
    method AfterInput(text: string, zealExec: string) returns (launch: Option<Launch>)
      modifies this
      ensures Strip(text) == [] ==> lastText == [] && launch.None?
      ensures Strip(text) != [] ==> lastText == old(lastText) && launch == Some(OpenZeal(zealExec, "", text, true))
      ensures old(Valid()) ==> Valid()
    {
      if Strip(text) == [] {
        lastText := [];
        return None;
      }
      launch := Some(OpenZeal(zealExec, "", text, true));
    }
  }
}
