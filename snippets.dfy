/**
 * The snippets-to-completions script: every .sublime-snippet file of a
 * folder becomes a completion, a trigger with its contents, and the
 * completions are grouped by the scope of their snippet.
 */
module SnippetsToCompletions {
  import opened Strings
  import opened Seqs

  /** The value xmltodict gives an element: its text, or None for an empty one. */
  datatype Element = Text(text: string) | Empty

  /** A parsed snippet: its child elements by tag. */
  type Snippet = map<string, Element>

  /** What `snippet_json.get(key, default)` gives when the default is "" or False. */
  datatype Field = Missing | Present(e: Element)

  function GetField(s: Snippet, key: string): (f: Field)
    ensures key in s <==> f.Present?
    ensures key in s ==> f.e == s[key]
  {
    if key in s then Present(s[key]) else Missing
  }

  /** The truth of a field: a non-empty text. */
  predicate Truthy(f: Field)
  {
    f.Present? && f.e.Text? && f.e.text != []
  }

  /** `"%s" % value` of a field: a missing one is the default "", an empty element "None". */
  function Format(f: Field): (s: string)
    ensures f.Present? && f.e.Text? ==> s == f.e.text
    ensures f.Missing? ==> s == []
    ensures f.Present? && f.e.Empty? ==> s == "None"
  {
    match f
    case Missing => []
    case Present(Text(t)) => t
    case Present(Empty) => "None"
  }

  /** A completion: its trigger and its contents. */
  datatype Completion = Completion(trigger: string, contents: Field)

  /** format_snippet: the scope (False when missing) and the completion. */
  function FormatSnippet(s: Snippet): (r: (Field, Completion))
    ensures r.0 == GetField(s, "scope") && r.1.contents == GetField(s, "content")
    ensures StartsWith(r.1.trigger, Format(GetField(s, "tabTrigger")))
    ensures Truthy(GetField(s, "description")) ==>
      r.1.trigger == Format(GetField(s, "tabTrigger")) + "\t" + GetField(s, "description").e.text
    ensures !Truthy(GetField(s, "description")) ==> r.1.trigger == Format(GetField(s, "tabTrigger"))
  {
    var description := GetField(s, "description");
    var tail := if Truthy(description) then "\t" + description.e.text else [];
    (GetField(s, "scope"), Completion(Format(GetField(s, "tabTrigger")) + tail, GetField(s, "content")))
  }

  /** A trigger with a description splits back at its tab into the tab trigger and the description. */
  lemma TriggerParts(s: Snippet)
    requires Truthy(GetField(s, "description")) && Lacks(GetField(s, "description").e.text, '\t')
    requires Lacks(Format(GetField(s, "tabTrigger")), '\t')
    ensures Split(FormatSnippet(s).1.trigger, '\t') == [Format(GetField(s, "tabTrigger")), GetField(s, "description").e.text]
  {
    var t := Format(GetField(s, "tabTrigger"));
    var d := GetField(s, "description").e.text;
    assert t + "\t" + d == t + ['\t'] + d;
    SplitAtSeparator(t, d, '\t');
    SplitLacking(d, '\t');
  }

  /** Only a completion with a truthy scope, trigger and contents is emitted. */
  predicate Emitted(r: (Field, Completion))
  {
    Truthy(r.0) && r.1.trigger != [] && Truthy(r.1.contents)
  }

  /** The scope's text, the key of the completion's group. */
  function Scope(r: (Field, Completion)): string
    requires Emitted(r)
  {
    r.0.e.text
  }

  /** The file names of the listing that end in ".sublime-snippet", in order. */
  function SnippetFiles(names: seq<string>): (files: seq<string>)
    ensures forall i :: 0 <= i < |files| ==> files[i] in names && EndsWith(files[i], ".sublime-snippet")
    ensures forall n :: n in names && EndsWith(n, ".sublime-snippet") ==> n in files
    ensures |files| <= |names|
  {
    if names == [] then []
    else
      var rest := SnippetFiles(names[1..]);
      assert forall n :: n in names ==> n == names[0] || n in names[1..];
      (if EndsWith(names[0], ".sublime-snippet") then [names[0]] else []) + rest
  }

  /** An emitted completion appended to its scope's list, the list created on first use. */
  function AddCompletion(g: map<string, seq<Completion>>, r: (Field, Completion)): (h: map<string, seq<Completion>>)
    ensures !Emitted(r) ==> h == g
    ensures Emitted(r) ==> h.Keys == g.Keys + {Scope(r)}
  {
    if !Emitted(r) then g
    else g[Scope(r) := (if Scope(r) in g then g[Scope(r)] else []) + [r.1]]
  }

  /** The groups after the snippets in order. */
  function Grouped(snippets: seq<Snippet>): (g: map<string, seq<Completion>>)
  {
    if snippets == [] then map[]
    else AddCompletion(Grouped(snippets[..|snippets| - 1]), FormatSnippet(snippets[|snippets| - 1]))
  }

  /** The independent reading: a scope's completions, in file order. */
  function InScope(snippets: seq<Snippet>, scope: string): (cs: seq<Completion>)
  {
    if snippets == [] then []
    else
      var r := FormatSnippet(snippets[|snippets| - 1]);
      InScope(snippets[..|snippets| - 1], scope) + (if Emitted(r) && Scope(r) == scope then [r.1] else [])
  }

  /**
   * A scope is a key exactly when some snippet emits a completion in it, and
   * its list holds that scope's completions in file order.
   */
  lemma {:induction false} GroupedByScope(snippets: seq<Snippet>, scope: string)
    ensures scope in Grouped(snippets) <==> InScope(snippets, scope) != []
    ensures scope in Grouped(snippets) ==> Grouped(snippets)[scope] == InScope(snippets, scope)
    decreases |snippets|
  {
    if snippets != [] {
      GroupedByScope(snippets[..|snippets| - 1], scope);
    }
  }

  /** A snippet whose completion passes the filter, is `c` and sits under `scope`. */
  predicate EmitsIn(s: Snippet, scope: string, c: Completion)
  {
    var r := FormatSnippet(s);
    Emitted(r) && Scope(r) == scope && r.1 == c
  }

  /** Every completion in a group came from a snippet with that scope and passed the filter. */
  lemma {:induction false} InScopeEmitted(snippets: seq<Snippet>, scope: string, c: Completion)
    requires c in InScope(snippets, scope)
    ensures exists i :: 0 <= i < |snippets| && EmitsIn(snippets[i], scope, c)
    decreases |snippets|
  {
    var n := |snippets| - 1;
    var init := snippets[..n];
    var r := FormatSnippet(snippets[n]);
    var last := if Emitted(r) && Scope(r) == scope then [r.1] else [];
    assert InScope(snippets, scope) == InScope(init, scope) + last;
    if c in InScope(init, scope) {
      InScopeEmitted(init, scope, c);
      var i :| 0 <= i < n && EmitsIn(init[i], scope, c);
      PrefixElement(snippets, n, i);
    } else {
      assert c in last;
      assert EmitsIn(snippets[n], scope, c);
    }
  }

  /** Every completion in the output has a trigger and contents and sits under its own snippet's scope. */
  lemma OutputEmitted(snippets: seq<Snippet>, scope: string, c: Completion)
    requires scope in Grouped(snippets) && c in Grouped(snippets)[scope]
    ensures c.trigger != [] && Truthy(c.contents)
    ensures exists i :: 0 <= i < |snippets| && GetField(snippets[i], "scope") == Present(Text(scope))
  {
    GroupedByScope(snippets, scope);
    InScopeEmitted(snippets, scope, c);
  }

  /**
   * The script's main loop over the folder listing: each snippet file is
   * read (`read` stands for read_xml and xmltodict) and its completion
   * appended to the list of its scope, the list created on first use.
   */
  method Convert(names: seq<string>, read: string -> Snippet) returns (snippetsJson: map<string, seq<Completion>>)
    ensures snippetsJson == Grouped(Reads(SnippetFiles(names), read))
  {
    var snippetFiles := SnippetFiles(names);
    snippetsJson := map[];
    for k := 0 to |snippetFiles|
      invariant snippetsJson == Grouped(Reads(snippetFiles[..k], read))
    {
      ReadsSnoc(snippetFiles, k, read);
      snippetsJson := Add(snippetsJson, FormatSnippet(read(snippetFiles[k])));
    }
    assert snippetFiles[..|snippetFiles|] == snippetFiles;
  }

  /** The body of the loop for one file. */
  method Add(snippetsJson: map<string, seq<Completion>>, r: (Field, Completion)) returns (g: map<string, seq<Completion>>)
    ensures g == AddCompletion(snippetsJson, r)
  {
    var scope, completion := r.0, r.1;
    g := snippetsJson;
    if Truthy(scope) && completion.trigger != [] && Truthy(completion.contents) {
      if scope.e.text !in g {
        g := g[scope.e.text := []];
      }
      g := g[scope.e.text := g[scope.e.text] + [completion]];
    }
  }

  lemma ReadsSnoc(files: seq<string>, k: nat, read: string -> Snippet)
    requires k < |files|
    ensures var rs := Reads(files[..k + 1], read);
      rs != [] && rs[..|rs| - 1] == Reads(files[..k], read) && rs[|rs| - 1] == read(files[k])
  {
    assert files[..k + 1][..k] == files[..k];
  }

  /** The parsed snippets of the files, in order. */
  function Reads(files: seq<string>, read: string -> Snippet): (s: seq<Snippet>)
    ensures |s| == |files| && forall i :: 0 <= i < |files| ==> s[i] == read(files[i])
  {
    seq(|files|, i requires 0 <= i < |files| => read(files[i]))
  }
}
