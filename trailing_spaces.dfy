/**
 * Trailing spaces: the regions of trailing whitespace the host's regular
 * expression search finds are filtered by scope and by the current line,
 * highlighted (only when they differ from the last highlighted list), and
 * deleted from the last to the first.
 */
module TrailingSpaces {
  import opened Wrappers
  import opened Strings
  import opened Regions
  import opened Edits
  import opened Host
  import opened Seqs

  const DefaultMaxSize := 1048576
  const TooBigMessage := "File is too big, trailing spaces handling disabled."
  const NothingMessage := "No trailing spaces to delete!"

  // ----- Finding -----

  /**
   * The regions found that do not begin in an ignored scope; `inScope` is the
   * host's view.match_selector against the joined scope_ignore entries, which
   * is only asked when that join is not empty.
   */
  function Unignored(found: seq<Region>, scopeIgnore: seq<string>, inScope: int -> bool): (kept: seq<Region>)
    ensures |kept| <= |found|
    ensures forall r :: r in kept <==> r in found && (Join(scopeIgnore, "|") == [] || !inScope(r.Begin()))
  {
    if found == [] then []
    else
      var r := found[0];
      (if Join(scopeIgnore, "|") == [] || !inScope(r.Begin()) then [r] else [])
      + Unignored(found[1..], scopeIgnore, inScope)
  }

  /** Leaving out regions keeps the found regions in order and apart. */
  lemma {:induction false} UnignoredInOrder(found: seq<Region>, scopeIgnore: seq<string>, inScope: int -> bool, size: int)
    requires SelectionSet(found, size)
    ensures SelectionSet(Unignored(found, scopeIgnore, inScope), size)
    decreases |found|
  {
    if found != [] {
      var tail := found[1..];
      assert SelectionSet(tail, size);
      UnignoredInOrder(tail, scopeIgnore, inScope, size);
      var rest := Unignored(tail, scopeIgnore, inScope);
      forall j | 0 <= j < |rest| ensures found[0].End() <= rest[j].Begin() {
        assert rest[j] in tail;
      }
    }
  }

  /** Regions to delete and regions to highlight. */
  datatype Found = Found(matched: seq<Region>, highlightable: seq<Region>)

  /**
   * find_trailing_spaces.  `found` is what view.find_all returned for the
   * configured expression, `offender` what view.find returned searching from
   * the start of the first selection's line.  Nothing is found without a view
   * or without a selection.
   */
  function FindTrailingSpaces(hasView: bool, buf: string, sels: seq<Region>, found: seq<Region>,
                              scopeIgnore: seq<string>, inScope: int -> bool,
                              includeCurrentLine: bool, offender: Option<Region>): (r: Option<Found>)
    ensures r.None? <==> !hasView || sels == []
    ensures r.Some? ==> r.value.matched == Unignored(found, scopeIgnore, inScope)
    ensures r.Some? && includeCurrentLine ==> r.value.highlightable == r.value.matched
    ensures r.Some? && !includeCurrentLine && OnCurrentLine(buf, sels, offender) ==>
      forall x :: x in r.value.highlightable <==> x in r.value.matched && x != offender.value
    ensures r.Some? && !OnCurrentLine(buf, sels, offender) ==> r.value.highlightable == r.value.matched
  {
    if !hasView || sels == [] then None
    else
      var matched := Unignored(found, scopeIgnore, inScope);
      if includeCurrentLine then Some(Found(matched, matched))
      else if OnCurrentLine(buf, sels, offender) then Some(Found(matched, Remove(matched, offender.value)))
      else Some(Found(matched, matched))
  }

  /** The offender intersects the line of the first selection's end. */
  predicate OnCurrentLine(buf: string, sels: seq<Region>, offender: Option<Region>)
  {
    sels != [] && offender.Some? && Line(buf, Region(sels[0].b, sels[0].b)).Intersects(offender.value)
  }

  /** What is highlighted is always among what would be deleted, and the offender on the current line is not. */
  lemma HighlightableMatched(hasView: bool, buf: string, sels: seq<Region>, found: seq<Region>,
                             scopeIgnore: seq<string>, inScope: int -> bool,
                             includeCurrentLine: bool, offender: Option<Region>)
    requires hasView && sels != []
    ensures var r := FindTrailingSpaces(hasView, buf, sels, found, scopeIgnore, inScope, includeCurrentLine, offender);
      r.Some?
      && (forall x :: x in r.value.highlightable ==> x in r.value.matched && x in found)
      && (!includeCurrentLine && OnCurrentLine(buf, sels, offender) ==> offender.value !in r.value.highlightable)
  {
  }

  // ----- Which views -----

  /** The lower-cased file name of the view's syntax, or "" when it has none. */
  function ViewSyntax(syntax: Option<string>): (name: string)
    ensures forall i :: 0 <= i < |name| ==> name[i] != '/' && !('A' <= name[i] <= 'Z')
    ensures syntax.None? || syntax.value == [] ==> name == []
  {
    if syntax.Some? && syntax.value != [] then
      var parts := Split(syntax.value, '/');
      var last := parts[|parts| - 1];
      assert forall j :: 0 <= j < |last| ==> last[j] != '/';
      Lower(last)
    else []
  }

  /**
   * ignore_view: no view, a scratch view or a widget is ignored; so is a view
   * whose syntax file name contains one of the syntax_ignore entries, both
   * lower-cased.
   */
  function IgnoreView(hasView: bool, scratch: bool, widget: bool, syntax: Option<string>,
                      syntaxIgnore: seq<string>): (ignored: bool)
    ensures !hasView || scratch || widget ==> ignored
    ensures hasView && !scratch && !widget ==>
      (ignored <==> ViewSyntax(syntax) != [] && exists i :: 0 <= i < |syntaxIgnore| && HasSubstring(ViewSyntax(syntax), Lower(syntaxIgnore[i])))
  {
    if !hasView || scratch || widget then true
    else
      var name := ViewSyntax(syntax);
      name != [] && AnyIn(name, syntaxIgnore)
  }

  /** Some entry, lower-cased, is part of the name. */
  function AnyIn(name: string, entries: seq<string>): (r: bool)
    ensures r <==> exists i :: 0 <= i < |entries| && HasSubstring(name, Lower(entries[i]))
  {
    if entries == [] then false
    else if HasSubstring(name, Lower(entries[0])) then true
    else
      var r := AnyIn(name, entries[1..]);
      assert forall i :: 1 <= i < |entries| ==> entries[1..][i - 1] == entries[i];
      r
  }

  /** A view is never ignored for lack of an entry: its syntax must contain one. */
  lemma NoEntriesNoIgnore(syntax: Option<string>)
    ensures !IgnoreView(true, false, false, syntax, [])
  {
  }

  /** max_size_exceeded, with file_max_size defaulting to 1048576. */
  function MaxSizeExceeded(size: nat, fileMaxSize: Option<int>): (exceeded: bool)
    ensures fileMaxSize.None? ==> (exceeded <==> size > DefaultMaxSize)
    ensures fileMaxSize.Some? ==> (exceeded <==> size > fileMaxSize.value)
  {
    size > (if fileMaxSize.Some? then fileMaxSize.value else DefaultMaxSize)
  }

  // ----- Highlighting -----

  /**
   * The plugin's Storage, which remembers the list last highlighted, and the
   * regions the view shows under the plugin's key.  The remembered list is
   * global in the plugin; the shown regions belong to the one view modelled
   * here, as the host keeps them per view.
   */
  class Highlighter {
    var prevHighlightable: Option<seq<Region>>
    var shown: seq<Region>

    constructor()
      ensures prevHighlightable == None && shown == []
    {
      prevHighlightable := None;
      shown := [];
    }

    /** The list remembered is the list shown. */
    predicate InSync()
      reads this
    {
      prevHighlightable.Some? ==> shown == prevHighlightable.value
    }

    /**
     * highlight_trailing_spaces_regions: a list equal to the one remembered
     * changes nothing; any other replaces what is shown and is remembered.
     */
    method Highlight(regions: seq<Region>)
      modifies this
      ensures old(prevHighlightable) == Some(regions) ==> prevHighlightable == old(prevHighlightable) && shown == old(shown)
      ensures old(prevHighlightable) != Some(regions) ==> prevHighlightable == Some(regions) && shown == regions
      ensures old(InSync()) ==> InSync() && shown == regions
    {
      if prevHighlightable == Some(regions) {
        return;
      }
      prevHighlightable := Some(regions);
      shown := [];
      shown := regions;
    }

    /**
     * match_trailing_spaces: ignored views and views over the size limit are
     * left alone, the latter with a message; otherwise the highlightable
     * regions found are highlighted.
     */
    method Match(ignored: bool, size: nat, fileMaxSize: Option<int>, found: Option<Found>) returns (status: Option<string>)
      modifies this
      ensures ignored ==> status == None && unchanged(this)
      ensures !ignored && MaxSizeExceeded(size, fileMaxSize) ==> status == Some(TooBigMessage) && unchanged(this)
      ensures !ignored && !MaxSizeExceeded(size, fileMaxSize) && found.None? ==> status == None && unchanged(this)
      ensures !ignored && !MaxSizeExceeded(size, fileMaxSize) && found.Some? ==>
        status == None && (old(InSync()) ==> InSync() && shown == found.value.highlightable)
    {
      if ignored {
        return None;
      }
      if MaxSizeExceeded(size, fileMaxSize) {
        return Some(TooBigMessage);
      }
      if found.None? {
        return None;
      }
      Highlight(found.value.highlightable);
      status := None;
    }
  }

  // ----- Deleting -----

  /** Erasing each region in turn, each time in the buffer as it is then. */
  function EraseAll(d: Doc, rs: seq<Region>): Doc
    decreases |rs|
  {
    if rs == [] then d else EraseAll(ReplaceIn(d, rs[0], []), rs[1..])
  }

  /** The deletions of the regions, at their places. */
  function Deletions(rs: seq<Region>): (es: seq<Edit>)
    ensures |es| == |rs|
    ensures forall i :: 0 <= i < |rs| ==> es[i] == Edit(rs[i].Begin(), rs[i].End(), [])
  {
    if rs == [] then [] else [Edit(rs[0].Begin(), rs[0].End(), [])] + Deletions(rs[1..])
  }

  lemma {:induction false} EraseAllBuffer(d: Doc, rs: seq<Region>)
    ensures EraseAll(d, rs).buffer == ApplyInOrder(d.buffer, Deletions(rs))
    decreases |rs|
  {
    if rs != [] {
      var es := Deletions(rs);
      assert es[1..] == Deletions(rs[1..]);
      assert ReplaceRegion(d.buffer, EditRegion(es[0]), []) == ReplaceRegion(d.buffer, rs[0], []);
      EraseAllBuffer(ReplaceIn(d, rs[0], []), rs[1..]);
    }
  }

  lemma DeletionsReversed(rs: seq<Region>)
    ensures Deletions(Reversed(rs)) == Reversed(Deletions(rs))
  {
  }

  lemma {:induction false} DeletionsOrdered(rs: seq<Region>, from: int, size: int)
    requires SelectionSet(rs, size) && forall i :: 0 <= i < |rs| ==> from <= rs[i].Begin()
    ensures Ordered(Deletions(rs), from, size)
    decreases |rs|
  {
    if rs != [] {
      var tail := rs[1..];
      assert SelectionSet(tail, size);
      DeletionsOrdered(tail, rs[0].End(), size);
      assert Deletions(rs)[1..] == Deletions(tail);
    }
  }

  /**
   * Erasing regions that are in order and apart from the last to the first
   * removes exactly those regions of the original buffer: each erase leaves
   * the offsets of the regions before it as they were.
   */
  lemma ErasedIsSplice(d: Doc, rs: seq<Region>)
    requires SelectionSet(rs, |d.buffer|)
    ensures Ordered(Deletions(rs), 0, |d.buffer|)
    ensures EraseAll(d, Reversed(rs)).buffer == Splice(d.buffer, Deletions(rs))
    ensures |EraseAll(d, Reversed(rs)).buffer| == |d.buffer| - Sizes(rs)
  {
    DeletionsDelta(rs);
    DeletionsOrdered(rs, 0, |d.buffer|);
    EraseAllBuffer(d, Reversed(rs));
    DeletionsReversed(rs);
    ReversedIsSplice(d.buffer, Deletions(rs));
    SpliceFromLength(d.buffer, Deletions(rs), 0);
  }

  /** Every deletion shrinks the buffer by its region's size. */
  lemma {:induction false} DeletionsDelta(rs: seq<Region>)
    ensures Delta(Deletions(rs)) + Sizes(rs) == 0
    decreases |rs|
  {
    if rs != [] {
      assert Deletions(rs)[1..] == Deletions(rs[1..]);
      DeletionsDelta(rs[1..]);
    }
  }

  function Sizes(rs: seq<Region>): nat
  {
    if rs == [] then 0 else rs[0].Size() + Sizes(rs[1..])
  }

  method EraseStep(v: View, r: Region)
    modifies v
    ensures Doc(v.buffer, v.sel) == ReplaceIn(old(Doc(v.buffer, v.sel)), r, [])
  {
    v.Replace(r, []);
  }

  /**
   * delete_trailing_regions: the regions found are reversed and erased one by
   * one; the number erased is returned.
   */
  method DeleteTrailingRegions(v: View, regions: Option<seq<Region>>) returns (deleted: nat)
    modifies v
    ensures regions.None? || regions.value == [] ==> deleted == 0 && unchanged(v)
    ensures regions.Some? && regions.value != [] ==>
      deleted == |regions.value| && Doc(v.buffer, v.sel) == EraseAll(old(Doc(v.buffer, v.sel)), Reversed(regions.value))
  {
    if regions.None? || regions.value == [] {
      return 0;
    }
    var rs := Reversed(regions.value);
    ghost var d0 := Doc(v.buffer, v.sel);
    for i := 0 to |rs|
      invariant EraseAll(d0, rs) == EraseAll(Doc(v.buffer, v.sel), rs[i..])
    {
      assert rs[i..][1..] == rs[i + 1..];
      EraseStep(v, rs[i]);
    }
    assert rs[|rs|..] == [];
    deleted := |rs|;
  }

  /** The status message: the count of regions deleted, "regions" only for more than one. */
  function DeleteMessage(deleted: nat): (msg: string)
    ensures deleted == 0 ==> msg == NothingMessage
    ensures deleted > 0 ==> StartsWith(msg, "Deleted " + NatToString(deleted) + " trailing spaces region")
  {
    if deleted == 0 then NothingMessage
    else "Deleted " + NatToString(deleted) + " trailing spaces region" + (if deleted > 1 then "s" else "")
  }

  lemma PluralTail(head: string, plural: bool)
    ensures EndsWith(head + " trailing spaces region" + (if plural then "s" else ""), "regions") <==> plural
  {
    var m := head + " trailing spaces region" + (if plural then "s" else "");
    if plural {
      assert m[|m| - 7..] == "regions";
    } else {
      assert m[|m| - 7..] == " region";
    }
  }

  /** The plural is used exactly when more than one region was deleted. */
  lemma DeleteMessagePlural(deleted: nat)
    requires deleted > 0
    ensures EndsWith(DeleteMessage(deleted), "regions") <==> deleted > 1
    ensures deleted == 1 ==> DeleteMessage(deleted) == "Deleted 1 trailing spaces region"
  {
    PluralTail("Deleted " + NatToString(deleted), deleted > 1);
    if deleted == 1 {
      DeleteMessageOne();
    }
  }

  lemma DeleteMessageOne()
    ensures DeleteMessage(1) == "Deleted 1 trailing spaces region"
  {
    assert NatToString(1) == "1";
  }

  /**
   * OdyseusTsDeleteTrailingSpacesCommand.run: a buffer over the size limit
   * is left alone; otherwise the regions found are deleted and counted in the
   * message.
   */
  method DeleteCommand(v: View, fileMaxSize: Option<int>, regions: Option<seq<Region>>) returns (message: string)
    modifies v
    ensures MaxSizeExceeded(|old(v.buffer)|, fileMaxSize) ==> message == TooBigMessage && unchanged(v)
    ensures !MaxSizeExceeded(|old(v.buffer)|, fileMaxSize) && (regions.None? || regions.value == []) ==>
      message == NothingMessage && unchanged(v)
    ensures !MaxSizeExceeded(|old(v.buffer)|, fileMaxSize) && regions.Some? && regions.value != [] ==>
      message == DeleteMessage(|regions.value|)
      && Doc(v.buffer, v.sel) == EraseAll(old(Doc(v.buffer, v.sel)), Reversed(regions.value))
  {
    if MaxSizeExceeded(|v.buffer|, fileMaxSize) {
      return TooBigMessage;
    }
    var deleted := DeleteTrailingRegions(v, regions);
    message := DeleteMessage(deleted);
  }
}
