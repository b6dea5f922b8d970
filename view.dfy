/**
 * The host editor's view as the commands see it: the buffer text and the
 * selection set, both changed in place by the view's methods.  Its replace
 * moves every selection end at or after the end of the replaced region
 * along with the text that follows it, so a selection that was the
 * replaced region covers the new text, as in the host.
 */
module Host {
  import opened Regions
  import opened Edits

  /** The host keeps its selections inside the buffer, sorted and not overlapping. */
  predicate SelectionSet(sels: seq<Region>, size: int)
  {
    (forall i :: 0 <= i < |sels| ==> 0 <= sels[i].Begin() && sels[i].End() <= size)
    && (forall i, j :: 0 <= i < j < |sels| ==> sels[i].End() <= sels[j].Begin())
  }

  /**
   * Where an offset ends up when r is replaced by text that is `growth`
   * characters longer: at or after the end of r it moves with the text
   * after r, before it it stays.
   */
  function MovePoint(p: int, r: Region, growth: int): int
  {
    if p >= r.End() then p + growth else p
  }

  /**
   * Where a selection ends up: each end moves as an offset does, so a
   * selection equal to r covers the new text afterwards, one after r moves
   * along, and one ending before the end of r stays where it is.
   */
  function Adjust(s: Region, r: Region, growth: int): (s': Region)
    ensures s.Begin() >= r.End() ==> s' == Shift(s, growth)
    ensures s.End() < r.End() ==> s' == s
  {
    Region(MovePoint(s.a, r, growth), MovePoint(s.b, r, growth))
  }

  function AdjustAll(sels: seq<Region>, r: Region, growth: int): (out: seq<Region>)
    ensures |out| == |sels|
  {
    seq(|sels|, j requires 0 <= j < |sels| => Adjust(sels[j], r, growth))
  }

  /** The buffer and selection set as values, for the specifications of loops over selections. */
  datatype Doc = Doc(buffer: string, sel: seq<Region>)

  /** What view.replace does to them. */
  function ReplaceIn(d: Doc, r: Region, text: string): (d': Doc)
    ensures |d'.sel| == |d.sel|
  {
    var buffer := ReplaceRegion(d.buffer, r, text);
    Doc(buffer, AdjustAll(d.sel, r, |buffer| - |d.buffer|))
  }

  /**
   * A non-empty selection that is the replaced region covers the new text
   * afterwards, keeping its direction; selections after it move by the
   * growth.  (An empty one, a caret, moves past the inserted text.)
   */
  lemma ReplacedSelectionCovers(buf: string, r: Region, text: string, later: Region)
    requires 0 <= r.Begin() < r.End() <= |buf| && later.Begin() >= r.End()
    ensures var d' := ReplaceIn(Doc(buf, [r, later]), r, text);
      var growth := |text| - r.Size();
      d'.sel == [Region(if r.a <= r.b then r.a else r.a + growth, if r.a <= r.b then r.b + growth else r.b), Shift(later, growth)]
      && Substr(d'.buffer, d'.sel[0]) == text
  {
    var d' := ReplaceIn(Doc(buf, [r, later]), r, text);
    var b := r.Begin();
    assert d'.buffer == buf[..b] + text + buf[r.End()..];
    assert |d'.buffer| - |buf| == |text| - r.Size();
    assert d'.buffer[b..b + |text|] == text;
  }

  /** The regions of a set other than r, in order. */
  function Remove(sels: seq<Region>, r: Region): (out: seq<Region>)
    ensures |out| <= |sels|
    ensures forall x :: x in out <==> x in sels && x != r
  {
    if sels == [] then []
    else (if sels[0] == r then [] else [sels[0]]) + Remove(sels[1..], r)
  }

  class View {
    var buffer: string
    var sel: seq<Region>

    constructor(buffer: string, sel: seq<Region>)
      ensures this.buffer == buffer && this.sel == sel
    {
      this.buffer := buffer;
      this.sel := sel;
    }

    /** view.replace(edit, r, text). */
    method Replace(r: Region, text: string)
      modifies this
      ensures buffer == ReplaceRegion(old(buffer), r, text)
      ensures sel == AdjustAll(old(sel), r, |buffer| - |old(buffer)|)
      ensures Doc(buffer, sel) == ReplaceIn(old(Doc(buffer, sel)), r, text)
    {
      var growth := |text| - (Clamp(r.End(), |buffer|) - Clamp(r.Begin(), |buffer|));
      buffer := ReplaceRegion(buffer, r, text);
      sel := AdjustAll(sel, r, growth);
    }

    /** view.erase(edit, r). */
    method Erase(r: Region)
      modifies this
      ensures buffer == ReplaceRegion(old(buffer), r, [])
      ensures sel == AdjustAll(old(sel), r, |buffer| - |old(buffer)|)
    {
      Replace(r, []);
    }

    /**
     * A host command that sets a new selection set of its own making
     * (expand_selection); the new set is given.
     */
    method SetSel(s: seq<Region>)
      modifies this
      ensures sel == s && buffer == old(buffer)
    {
      sel := s;
    }

    /** view.insert(edit, p, text). */
    method Insert(p: int, text: string)
      modifies this
      ensures Doc(buffer, sel) == ReplaceIn(old(Doc(buffer, sel)), Region(p, p), text)
    {
      Replace(Region(p, p), text);
    }

    /**
     * view.sel().subtract(r), for a region of the set: the regions equal to
     * it leave the set (cutting a partial overlap is not modelled).
     */
    method Subtract(r: Region)
      modifies this
      ensures sel == Remove(old(sel), r) && buffer == old(buffer)
    {
      sel := Remove(sel, r);
    }

    /** view.sel().clear(). */
    method ClearSel()
      modifies this
      ensures sel == [] && buffer == old(buffer)
    {
      sel := [];
    }

    /** view.sel().add(r); the host's merging of overlapping selections is not modelled. */
    method AddSel(r: Region)
      modifies this
      ensures sel == old(sel) + [r] && buffer == old(buffer)
    {
      sel := sel + [r];
    }
  }

  /** The edit that replaces a selection by a text. */
  function SelectionEdit(s: Region, text: string): (e: Edit)
    ensures EditRegion(e).Begin() == s.Begin() && EditRegion(e).End() == s.End()
  {
    Edit(s.Begin(), s.End(), text)
  }

  /** Edits laid over the first |es| selections of a selection set are ordered up to p. */
  lemma {:induction false} SelectionEditsOrdered(sels: seq<Region>, es: seq<Edit>, from: int, p: int)
    requires |es| <= |sels|
    requires forall i :: 0 <= i < |es| ==> es[i].begin == sels[i].Begin() && es[i].end == sels[i].End()
    requires forall i, j :: 0 <= i < j < |sels| ==> sels[i].End() <= sels[j].Begin()
    requires es != [] ==> from <= sels[0].Begin()
    requires forall i :: 0 <= i < |es| ==> sels[i].End() <= p
    ensures Ordered(es, from, p)
    decreases |es|
  {
    if es != [] {
      assert sels[0].Begin() <= sels[0].End();
      if |es| > 1 {
        assert sels[0].End() <= sels[1].Begin();
      }
      SelectionEditsOrdered(sels[1..], es[1..], sels[0].End(), p);
    }
  }

  /** Edits laid over all the selections of a selection set are ordered. */
  lemma SelectionEditsOrderedAll(sels: seq<Region>, es: seq<Edit>, size: int)
    requires SelectionSet(sels, size) && |es| == |sels|
    requires forall i :: 0 <= i < |es| ==> es[i].begin == sels[i].Begin() && es[i].end == sels[i].End()
    ensures Ordered(es, 0, size)
  {
    SelectionEditsOrdered(sels, es, 0, size);
  }

  /**
   * The commands that rewrite every selection in turn, replacing its text t by
   * f(t): the edit for selection k, and the edits for the first k selections.
   */
  function RewriteEdit(buf: string, sels: seq<Region>, f: string -> string, k: nat): Edit
    requires k < |sels|
  {
    SelectionEdit(sels[k], f(Substr(buf, sels[k])))
  }

  function RewriteEdits(buf: string, sels: seq<Region>, f: string -> string, k: nat): (es: seq<Edit>)
    requires k <= |sels|
    ensures |es| == k && forall i :: 0 <= i < k ==> es[i] == RewriteEdit(buf, sels, f, i)
  {
    if k == 0 then [] else RewriteEdits(buf, sels, f, k - 1) + [RewriteEdit(buf, sels, f, k - 1)]
  }

  /** The buffer once every selection's text t has been replaced by f(t). */
  function Rewrite(buf: string, sels: seq<Region>, f: string -> string): string
    requires SelectionSet(sels, |buf|)
  {
    var es := RewriteEdits(buf, sels, f, |sels|);
    SelectionEditsOrderedAll(sels, es, |buf|);
    Splice(buf, es)
  }

  /**
   * The region that covers the k-th rewritten text in the final buffer: it
   * starts where the k-th selection started, moved by the growth of the edits
   * before it.
   */
  function NewRegion(buf: string, sels: seq<Region>, f: string -> string, k: nat): Region
    requires k < |sels|
  {
    var b := sels[k].Begin() + Delta(RewriteEdits(buf, sels, f, k));
    Region(b, b + |f(Substr(buf, sels[k]))|)
  }

  function NewRegions(buf: string, sels: seq<Region>, f: string -> string, k: nat): (rs: seq<Region>)
    requires k <= |sels|
    ensures |rs| == k && forall i :: 0 <= i < k ==> rs[i] == NewRegion(buf, sels, f, i)
  {
    if k == 0 then [] else NewRegions(buf, sels, f, k - 1) + [NewRegion(buf, sels, f, k - 1)]
  }

  /**
   * The state after k steps of such a loop, which reads each selection from
   * the live selection set: the buffer is the original with the first k edits
   * applied in order, and selection k and those after it have moved by the
   * growth of those edits.
   */
  ghost predicate Rewritten(orig: string, sels: seq<Region>, f: string -> string, k: nat, buf: string, cur: seq<Region>)
  {
    k <= |sels| && |cur| == |sels|
    && buf == ApplyInOrder(orig, Shifted(RewriteEdits(orig, sels, f, k), 0))
    && (forall j :: k <= j < |sels| ==> cur[j] == Shift(sels[j], Delta(RewriteEdits(orig, sels, f, k))))
  }

  /** What the k-th step reads: the k-th selection, moved, shows the original text. */
  lemma ReadStep(orig: string, sels: seq<Region>, f: string -> string, k: nat, buf: string, cur: seq<Region>)
    requires SelectionSet(sels, |orig|) && Rewritten(orig, sels, f, k, buf, cur) && k < |sels|
    ensures |buf| == |orig| + Delta(RewriteEdits(orig, sels, f, k))
    ensures cur[k] == Shift(sels[k], Delta(RewriteEdits(orig, sels, f, k)))
    ensures 0 <= cur[k].Begin() && cur[k].End() <= |buf|
    ensures Substr(buf, cur[k]) == Substr(orig, sels[k])
  {
    var done := RewriteEdits(orig, sels, f, k);
    SelectionEditsOrdered(sels, done, 0, sels[k].Begin());
    ReadAfterEdits(orig, done, sels[k].Begin(), sels[k]);
    OrderedWiden(done, 0, sels[k].Begin(), |orig|);
    ApplyShiftedLength(orig, done);
  }

  /**
   * The k-th step: replacing the moved k-th selection by f of its text
   * extends the rewrite by one edit.
   */
  lemma ReplaceStep(orig: string, sels: seq<Region>, f: string -> string, k: nat, buf: string, cur: seq<Region>)
    requires SelectionSet(sels, |orig|) && Rewritten(orig, sels, f, k, buf, cur) && k < |sels|
    ensures var buf' := ReplaceRegion(buf, cur[k], f(Substr(buf, cur[k])));
      Rewritten(orig, sels, f, k + 1, buf', AdjustAll(cur, cur[k], |buf'| - |buf|))
  {
    ReadStep(orig, sels, f, k, buf, cur);
    assert forall j :: k < j < |sels| ==> sels[k].End() <= sels[j].Begin();
    ReplaceStepFrom(orig, sels, f, k, buf, cur);
  }

  lemma ReplaceStepFrom(orig: string, sels: seq<Region>, f: string -> string, k: nat, buf: string, cur: seq<Region>)
    requires Rewritten(orig, sels, f, k, buf, cur) && k < |sels|
    requires 0 <= cur[k].Begin() && cur[k].End() <= |buf| && Substr(buf, cur[k]) == Substr(orig, sels[k])
    requires forall j :: k < j < |sels| ==> sels[k].End() <= sels[j].Begin()
    ensures var buf' := ReplaceRegion(buf, cur[k], f(Substr(buf, cur[k])));
      Rewritten(orig, sels, f, k + 1, buf', AdjustAll(cur, cur[k], |buf'| - |buf|))
  {
    var done := RewriteEdits(orig, sels, f, k);
    var e := RewriteEdit(orig, sels, f, k);
    var text := f(Substr(buf, cur[k]));
    assert e.text == text;
    var buf' := ReplaceRegion(buf, cur[k], text);
    var growth := |buf'| - |buf|;
    assert growth == Growth(e);
    assert RewriteEdits(orig, sels, f, k + 1) == done + [e];
    assert buf' == ApplyInOrder(orig, Shifted(done + [e], 0)) by {
      ReplaceStepBuffer(orig, done, e, buf, cur[k]);
    }
    DeltaSnoc(done, e);
    ReplaceStepMoves(sels, k, cur, Delta(done), growth);
  }

  lemma ReplaceStepBuffer(orig: string, done: seq<Edit>, e: Edit, buf: string, c: Region)
    requires buf == ApplyInOrder(orig, Shifted(done, 0))
    requires c.Begin() == e.begin + Delta(done) && c.End() == e.end + Delta(done)
    ensures ReplaceRegion(buf, c, e.text) == ApplyInOrder(orig, Shifted(done + [e], 0))
  {
    ShiftedSnoc(done, e, 0);
    ApplyInOrderSnoc(orig, Shifted(done, 0), Edit(e.begin + Delta(done), e.end + Delta(done), e.text));
  }

  /** The selections after the k-th move by the growth of the k-th edit. */
  lemma ReplaceStepMoves(sels: seq<Region>, k: nat, cur: seq<Region>, delta: int, growth: int)
    requires k < |sels| == |cur|
    requires forall j :: k < j < |sels| ==> sels[k].End() <= sels[j].Begin()
    requires forall j :: k <= j < |sels| ==> cur[j] == Shift(sels[j], delta)
    ensures forall j :: k + 1 <= j < |sels| ==>
      AdjustAll(cur, cur[k], growth)[j] == Shift(sels[j], delta + growth)
  {
    var out := AdjustAll(cur, cur[k], growth);
    forall j | k + 1 <= j < |sels| ensures out[j] == Shift(sels[j], delta + growth)
    {
      assert out[j] == Adjust(cur[j], cur[k], growth);
      assert cur[j].Begin() >= cur[k].End();
    }
  }

  /** After the last step the buffer is the simultaneous splice of all the edits. */
  lemma RewriteDone(orig: string, sels: seq<Region>, f: string -> string, buf: string, cur: seq<Region>)
    requires SelectionSet(sels, |orig|) && Rewritten(orig, sels, f, |sels|, buf, cur)
    ensures buf == Rewrite(orig, sels, f)
  {
    var es := RewriteEdits(orig, sels, f, |sels|);
    SelectionEditsOrdered(sels, es, 0, |orig|);
    ShiftedIsSplice(orig, es);
  }

  lemma RewriteEditsPrefix(buf: string, sels: seq<Region>, f: string -> string, k: nat, n: nat)
    requires k <= n <= |sels|
    ensures RewriteEdits(buf, sels, f, n)[..k] == RewriteEdits(buf, sels, f, k)
  {
  }

  /** In the rewritten buffer, the k-th new region covers exactly f of the k-th selection's text. */
  lemma NewRegionCovers(buf: string, sels: seq<Region>, f: string -> string, k: nat)
    requires SelectionSet(sels, |buf|) && k < |sels|
    ensures var r := NewRegion(buf, sels, f, k);
      0 <= r.Begin() && r.End() <= |Rewrite(buf, sels, f)|
      && Substr(Rewrite(buf, sels, f), r) == f(Substr(buf, sels[k]))
  {
    var es := RewriteEdits(buf, sels, f, |sels|);
    SelectionEditsOrderedAll(sels, es, |buf|);
    SpliceReadsEdit(buf, es, k);
    RewriteEditsPrefix(buf, sels, f, k, |sels|);
    assert es[k] == RewriteEdit(buf, sels, f, k);
  }

  /** The new regions are again a selection set of the rewritten buffer, one per selection. */
  lemma NewRegionsSelectionSet(buf: string, sels: seq<Region>, f: string -> string)
    requires SelectionSet(sels, |buf|)
    ensures |NewRegions(buf, sels, f, |sels|)| == |sels|
    ensures SelectionSet(NewRegions(buf, sels, f, |sels|), |Rewrite(buf, sels, f)|)
  {
    var rs := NewRegions(buf, sels, f, |sels|);
    forall i | 0 <= i < |rs| ensures 0 <= rs[i].Begin() && rs[i].End() <= |Rewrite(buf, sels, f)| {
      NewRegionCovers(buf, sels, f, i);
    }
    forall i, j | 0 <= i < j < |rs| ensures rs[i].End() <= rs[j].Begin() {
      NewRegionsApart(buf, sels, f, i, j);
    }
  }

  lemma NewRegionsApart(buf: string, sels: seq<Region>, f: string -> string, i: nat, j: nat)
    requires SelectionSet(sels, |buf|) && i < j < |sels|
    ensures NewRegion(buf, sels, f, i).End() <= NewRegion(buf, sels, f, j).Begin()
  {
    var es := RewriteEdits(buf, sels, f, j);
    RewriteEditsPrefix(buf, sels, f, i, j);
    DeltaSplitAt(es, i);
    assert es[i] == RewriteEdit(buf, sels, f, i);
    BetweenOrdered(buf, sels, f, i, j);
    DeltaLowerBound(es[i + 1..], sels[i].End(), sels[j].Begin());
  }

  /** The edits strictly between selections i and j lie between them. */
  lemma BetweenOrdered(buf: string, sels: seq<Region>, f: string -> string, i: nat, j: nat)
    requires SelectionSet(sels, |buf|) && i < j < |sels|
    ensures sels[i].End() <= sels[j].Begin()
    ensures Ordered(RewriteEdits(buf, sels, f, j)[i + 1..], sels[i].End(), sels[j].Begin())
  {
    var mid := RewriteEdits(buf, sels, f, j)[i + 1..];
    var rest := sels[i + 1..];
    assert forall m :: 0 <= m < |mid| ==> mid[m] == RewriteEdit(buf, sels, f, i + 1 + m);
    assert forall m :: 0 <= m < |mid| ==> rest[m] == sels[i + 1 + m];
    SelectionEditsOrdered(rest, mid, sels[i].End(), sels[j].Begin());
  }

  /** Where the line holding offset p starts: just after the "\n" before p, or 0. */
  function LineStart(buf: string, p: nat): (start: nat)
    requires p <= |buf|
    ensures start <= p
    ensures start == 0 || buf[start - 1] == '\n'
    ensures forall i :: start <= i < p ==> buf[i] != '\n'
  {
    if p == 0 || buf[p - 1] == '\n' then p else LineStart(buf, p - 1)
  }

  /** Where the line holding offset p ends: at the first "\n" from p on, or the buffer's end. */
  function LineEnd(buf: string, p: nat): (end: nat)
    requires p <= |buf|
    ensures p <= end <= |buf|
    ensures end == |buf| || buf[end] == '\n'
    ensures forall i :: p <= i < end ==> buf[i] != '\n'
    decreases |buf| - p
  {
    if p == |buf| || buf[p] == '\n' then p else LineEnd(buf, p + 1)
  }

  /** view.line(r): from the start of the line of r's begin to the end of the line of r's end. */
  function Line(buf: string, r: Region): (l: Region)
    ensures 0 <= l.a <= l.b <= |buf| && l.Begin() == l.a
  {
    var b := Clamp(r.Begin(), |buf|);
    var e := Clamp(r.End(), |buf|);
    Region(LineStart(buf, b), LineEnd(buf, e))
  }

  /** view.rowcol(p): the number of line breaks before p, and p's distance from its line's start. */
  function RowCol(buf: string, p: int): (rc: (nat, nat))
  {
    var q := Clamp(p, |buf|);
    (CountNewlines(buf[..q]), q - LineStart(buf, q))
  }

  function CountNewlines(s: string): nat
  {
    if s == [] then 0 else (if s[|s| - 1] == '\n' then 1 else 0) + CountNewlines(s[..|s| - 1])
  }
}
