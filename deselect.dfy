/**
 * Collapsing the selection set to a single caret at the `b` end of its first
 * region.
 */
module Deselect {
  import opened Wrappers
  import opened Regions
  import opened Host

  /**
   * The selection set the command leaves, or None when there is no first
   * selection to read (the command then raises IndexError before changing
   * anything).
   */
  function Deselected(sels: seq<Region>): (r: Option<seq<Region>>)
    ensures r.Some? <==> sels != []
    ensures r.Some? ==> |r.value| == 1 && r.value[0].Empty() && r.value[0].Begin() == sels[0].b
  {
    if sels == [] then None else Some([Region(sels[0].b, sels[0].b)])
  }

  /** Deselecting twice leaves what deselecting once did. */
  lemma DeselectedIdempotent(sels: seq<Region>)
    requires sels != []
    ensures Deselected(Deselected(sels).value) == Deselected(sels)
  {
  }

  /** OdyseusDeselectCommand.run; `raised` reports the IndexError of an empty selection set. */
  method Run(v: View) returns (raised: bool)
    modifies v
    ensures raised <==> Deselected(old(v.sel)).None?
    ensures v.buffer == old(v.buffer)
    ensures !raised ==> v.sel == Deselected(old(v.sel)).value
    ensures raised ==> v.sel == old(v.sel)
  {
    if |v.sel| == 0 {
      return true;
    }
    var end := v.sel[0].b;
    var pt := Region(end, end);
    v.ClearSel();
    v.AddSel(pt);
    return false;
  }
}
