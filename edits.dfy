/**
 * Several replacements in one buffer.  The plugins either apply replacements
 * from the first to the last, shifting each by how much the earlier ones
 * grew or shrank the buffer, or apply them from the last to the first so that
 * earlier offsets stay valid.  Both are proved equal to the simultaneous
 * splice of the replacements into the original buffer.
 */
module Edits {
  import opened Regions
  import opened Seqs

  /** Replace buf[begin..end] by text. */
  datatype Edit = Edit(begin: int, end: int, text: string)

  /** How much an edit grows the buffer. */
  function Growth(e: Edit): int { |e.text| - (e.end - e.begin) }

  /** Edits in increasing order, disjoint, all at or after `from` and inside a buffer of `size`. */
  predicate Ordered(es: seq<Edit>, from: int, size: int)
  {
    es == [] || (from <= es[0].begin <= es[0].end <= size && Ordered(es[1..], es[0].end, size))
  }

  lemma {:induction false} OrderedWeaken(es: seq<Edit>, from: int, from': int, size: int)
    requires Ordered(es, from, size) && from' <= from
    ensures Ordered(es, from', size)
  {
  }

  /** The buffer from `pos` on with every edit spliced in at its original place. */
  function SpliceFrom(buf: string, es: seq<Edit>, pos: nat): string
    requires pos <= |buf| && Ordered(es, pos, |buf|)
    decreases |es|
  {
    if es == [] then buf[pos..]
    else buf[pos..es[0].begin] + es[0].text + SpliceFrom(buf, es[1..], es[0].end)
  }

  /** All edits at once, each at its place in the original buffer. */
  function Splice(buf: string, es: seq<Edit>): string
    requires Ordered(es, 0, |buf|)
  {
    SpliceFrom(buf, es, 0)
  }

  /** The host's replace: the region is clamped to the buffer first. */
  function ReplaceRegion(buf: string, r: Region, text: string): (out: string)
    ensures 0 <= r.Begin() && r.End() <= |buf| ==>
              out == buf[..r.Begin()] + text + buf[r.End()..]
  {
    var b := Clamp(r.Begin(), |buf|);
    var e := Clamp(r.End(), |buf|);
    buf[..b] + text + buf[e..]
  }

  function EditRegion(e: Edit): Region { Region(e.begin, e.end) }

  /** Each edit applied to the result of the previous one, at the offsets it carries. */
  function ApplyInOrder(buf: string, es: seq<Edit>): string
    decreases |es|
  {
    if es == [] then buf
    else ApplyInOrder(ReplaceRegion(buf, EditRegion(es[0]), es[0].text), es[1..])
  }

  /** Each edit moved by the total growth of the edits before it, starting from `delta`. */
  function Shifted(es: seq<Edit>, delta: int): (out: seq<Edit>)
    ensures |out| == |es|
    decreases |es|
  {
    if es == [] then []
    else
      [Edit(es[0].begin + delta, es[0].end + delta, es[0].text)]
      + Shifted(es[1..], delta + Growth(es[0]))
  }

  /**
   * Applying the shifted edits from the first on, to a buffer whose prefix P
   * stands for the part already rewritten, gives P followed by the splice.
   */
  lemma {:induction false} ShiftedFrom(orig: string, es: seq<Edit>, pos: nat, p: string)
    requires pos <= |orig| && Ordered(es, pos, |orig|)
    ensures ApplyInOrder(p + orig[pos..], Shifted(es, |p| - pos)) == p + SpliceFrom(orig, es, pos)
    decreases |es|
  {
    if es == [] {
      assert Shifted(es, |p| - pos) == [];
    } else {
      var e := es[0];
      var p' := p + orig[pos..e.begin] + e.text;
      var applied := ApplyInOrder(p + orig[pos..], Shifted(es, |p| - pos));
      var next := ApplyInOrder(p' + orig[e.end..], Shifted(es[1..], |p'| - e.end));
      var rest := SpliceFrom(orig, es[1..], e.end);
      ShiftedFirst(orig, es, pos, p, p', p + orig[pos..], Shifted(es, |p| - pos),
                   p' + orig[e.end..], Shifted(es[1..], |p'| - e.end));
      assert applied == next;
      ShiftedFrom(orig, es[1..], e.end, p');
      assert next == p' + rest;
      SpliceFirst(orig, es, pos, p, p');
      assert p + SpliceFrom(orig, es, pos) == p' + rest;
    }
  }

  /** Applying the first shifted edit moves its text into the rewritten prefix. */
  lemma ShiftedFirst(orig: string, es: seq<Edit>, pos: nat, p: string, p': string,
                     cur: string, s: seq<Edit>, next: string, t: seq<Edit>)
    requires pos <= |orig| && Ordered(es, pos, |orig|) && es != []
    requires p' == p + orig[pos..es[0].begin] + es[0].text
    requires cur == p + orig[pos..] && s == Shifted(es, |p| - pos)
    requires next == p' + orig[es[0].end..] && t == Shifted(es[1..], |p'| - es[0].end)
    ensures ApplyInOrder(cur, s) == ApplyInOrder(next, t)
  {
    var e := es[0];
    var k := |p'| - e.end;
    assert k == |p| - pos + Growth(e) by {
      assert pos <= e.begin <= e.end <= |orig|;
      assert |p'| == |p| + (e.begin - pos) + |e.text|;
    }
    ShiftedCons(es, |p| - pos, k);
    assert EditRegion(s[0]) == Region(e.begin + (|p| - pos), e.end + (|p| - pos)) && s[0].text == e.text;
    ReplaceAfterPrefix(p, orig, pos, e);
    ApplyInOrderStep(cur, s, next, t);
  }

  /** ApplyInOrder applies the first edit, then the rest. */
  lemma ApplyInOrderStep(buf: string, es: seq<Edit>, first: string, rest: seq<Edit>)
    requires es != [] && first == ReplaceRegion(buf, EditRegion(es[0]), es[0].text) && rest == es[1..]
    ensures ApplyInOrder(buf, es) == ApplyInOrder(first, rest)
  {
  }

  lemma ShiftedCons(es: seq<Edit>, d: int, d': int)
    requires es != [] && d' == d + Growth(es[0])
    ensures Shifted(es, d)[0] == Edit(es[0].begin + d, es[0].end + d, es[0].text)
    ensures Shifted(es, d)[1..] == Shifted(es[1..], d')
  {
    ConsTail(Edit(es[0].begin + d, es[0].end + d, es[0].text), Shifted(es[1..], d + Growth(es[0])));
  }

  /** An edit of the original, moved past a rewritten prefix, replaces the same text after it. */
  lemma ReplaceAfterPrefix(p: string, orig: string, pos: nat, e: Edit)
    requires pos <= e.begin <= e.end <= |orig|
    ensures ReplaceRegion(p + orig[pos..], Region(e.begin + (|p| - pos), e.end + (|p| - pos)), e.text)
            == (p + orig[pos..e.begin] + e.text) + orig[e.end..]
  {
    var cur := p + orig[pos..];
    var d := |p| - pos;
    assert cur[..e.begin + d] == p + orig[pos..e.begin];
    assert cur[e.end + d..] == orig[e.end..];
  }

  /** The splice from an edit on is its gap and text followed by the splice from its end. */
  lemma SpliceFirst(orig: string, es: seq<Edit>, pos: nat, p: string, p': string)
    requires pos <= |orig| && Ordered(es, pos, |orig|) && es != []
    requires p' == p + orig[pos..es[0].begin] + es[0].text
    ensures p + SpliceFrom(orig, es, pos) == p' + SpliceFrom(orig, es[1..], es[0].end)
  {
    var e := es[0];
    var gap := orig[pos..e.begin];
    var rest := SpliceFrom(orig, es[1..], e.end);
    assert SpliceFrom(orig, es, pos) == gap + e.text + rest;
    ConcatAssoc(gap, e.text, rest);
    ConcatAssoc(p, gap, e.text);
    ConcatAssoc(p + gap, e.text, rest);
    ConcatAssoc(p, gap + e.text, rest);
    ConcatAssoc(p, gap, e.text + rest);
  }

  /** Shifted application equals the simultaneous splice. */
  lemma {:induction false} ShiftedIsSplice(orig: string, es: seq<Edit>)
    requires Ordered(es, 0, |orig|)
    ensures ApplyInOrder(orig, Shifted(es, 0)) == Splice(orig, es)
  {
    var empty: string := [];
    ShiftedFrom(orig, es, 0, empty);
    assert empty + orig[0..] == orig;
    assert empty + SpliceFrom(orig, es, 0) == Splice(orig, es);
  }

  /** Splicing into a buffer only touches what lies before the last edit's end. */
  lemma {:induction false} SpliceFromAppend(buf: string, tail: string, es: seq<Edit>, pos: nat)
    requires pos <= |buf| && Ordered(es, pos, |buf|)
    ensures Ordered(es, pos, |buf + tail|)
    ensures SpliceFrom(buf + tail, es, pos) == SpliceFrom(buf, es, pos) + tail
    decreases |es|
  {
    var bt := buf + tail;
    if es == [] {
      assert bt[pos..] == buf[pos..] + tail;
    } else {
      SpliceFromAppend(buf, tail, es[1..], es[0].end);
      assert bt[pos..es[0].begin] == buf[pos..es[0].begin];
    }
  }

  /** Edits ordered up to `size` split into those before the last one and the last one. */
  lemma {:induction false} SpliceFromSnoc(buf: string, es: seq<Edit>, e: Edit, pos: nat)
    requires pos <= |buf| && Ordered(es + [e], pos, |buf|)
    ensures pos <= e.begin <= e.end <= |buf| && Ordered(es, pos, e.begin)
    ensures SpliceFrom(buf, es + [e], pos) == SpliceFrom(buf[..e.begin], es, pos) + e.text + buf[e.end..]
    decreases |es|
  {
    OrderedSnoc(es, e, pos, |buf|);
    var front := buf[..e.begin];
    if es == [] {
      assert [e][1..] == [];
      assert SpliceFrom(buf, [e], pos) == buf[pos..e.begin] + e.text + buf[e.end..];
      assert SpliceFrom(front, [], pos) == buf[pos..e.begin];
    } else {
      var f, rest := es[0], es[1..];
      assert (es + [e])[0] == f && (es + [e])[1..] == rest + [e];
      SpliceFromSnoc(buf, rest, e, f.end);
      var tail' := SpliceFrom(front, rest, f.end);
      var head, last := buf[pos..f.begin] + f.text, e.text + buf[e.end..];
      assert front[pos..f.begin] == buf[pos..f.begin];
      assert SpliceFrom(front, es, pos) == head + tail';
      ConcatAssoc(tail', e.text, buf[e.end..]);
      assert SpliceFrom(buf, es + [e], pos) == head + (tail' + last);
      ConcatAssoc(head, tail', last);
      ConcatAssoc(head + tail', e.text, buf[e.end..]);
    }
  }

  /** The last of several ordered edits comes after the others. */
  lemma {:induction false} OrderedSnoc(es: seq<Edit>, e: Edit, pos: int, size: int)
    requires Ordered(es + [e], pos, size)
    ensures pos <= e.begin <= e.end <= size && Ordered(es, pos, e.begin)
    decreases |es|
  {
    if es == [] {
      assert es + [e] == [e];
    } else {
      assert (es + [e])[0] == es[0] && (es + [e])[1..] == es[1..] + [e];
      OrderedSnoc(es[1..], e, es[0].end, size);
    }
  }

  /** Applying the edits from the last to the first, unshifted, equals the splice. */
  lemma {:induction false} ReversedIsSplice(buf: string, es: seq<Edit>)
    requires Ordered(es, 0, |buf|)
    ensures ApplyInOrder(buf, Reversed(es)) == Splice(buf, es)
    decreases |es|
  {
    if es != [] {
      var n := |es|;
      var e := es[n - 1];
      var init := es[..n - 1];
      assert es == init + [e];
      SpliceFromSnoc(buf, init, e, 0);
      var head, tail := buf[..e.begin], e.text + buf[e.end..];
      var buf' := head + tail;
      ConcatAssoc(head, e.text, buf[e.end..]);
      assert ReplaceRegion(buf, EditRegion(e), e.text) == buf';
      ReversedSnoc(init, e);
      ConsTail(e, Reversed(init));
      ApplyInOrderStep(buf, Reversed(es), buf', Reversed(init));
      SpliceFromAppend(head, tail, init, 0);
      ReversedIsSplice(buf', init);
      ConcatAssoc(SpliceFrom(head, init, 0), e.text, buf[e.end..]);
    }
  }

  /** An edit that writes back exactly the text it replaces can be left out. */
  lemma {:induction false} SpliceDropIdentity(buf: string, es: seq<Edit>, pos: nat, k: nat)
    requires pos <= |buf| && Ordered(es, pos, |buf|) && k < |es|
    requires 0 <= es[k].begin <= es[k].end <= |buf| && es[k].text == buf[es[k].begin..es[k].end]
    ensures Ordered(es[..k] + es[k + 1..], pos, |buf|)
    ensures SpliceFrom(buf, es[..k] + es[k + 1..], pos) == SpliceFrom(buf, es, pos)
    decreases |es|
  {
    var d := es[..k] + es[k + 1..];
    if k == 0 {
      assert d == es[1..];
      SpliceDropFirstIdentity(buf, es, pos);
    } else {
      var rest := es[1..][..k - 1] + es[1..][k..];
      SpliceDropIdentity(buf, es[1..], es[0].end, k - 1);
      assert d == [es[0]] + rest;
      ConsTail(es[0], rest);
      assert d[0] == es[0] && d[1..] == rest;
      assert SpliceFrom(buf, d, pos) == buf[pos..es[0].begin] + es[0].text + SpliceFrom(buf, rest, es[0].end);
    }
  }

  /** The case of the first edit: the text before the next edit is put back together. */
  lemma SpliceDropFirstIdentity(buf: string, es: seq<Edit>, pos: nat)
    requires pos <= |buf| && Ordered(es, pos, |buf|) && es != []
    requires 0 <= es[0].begin <= es[0].end <= |buf| && es[0].text == buf[es[0].begin..es[0].end]
    ensures Ordered(es[1..], pos, |buf|)
    ensures SpliceFrom(buf, es[1..], pos) == SpliceFrom(buf, es, pos)
  {
    var e := es[0];
    OrderedWeaken(es[1..], e.end, pos, |buf|);
    var x := buf[pos..e.begin] + e.text;
    assert SpliceFrom(buf, es, pos) == x + SpliceFrom(buf, es[1..], e.end);
    if es[1..] == [] {
      SuffixParts(buf, pos, e.begin, e.end);
    } else {
      var f := es[1];
      var b := buf[e.end..f.begin];
      var more := SpliceFrom(buf, es[1..][1..], f.end);
      SliceParts(buf, pos, e.begin, e.end, f.begin);
      assert SpliceFrom(buf, es[1..], pos) == (x + b) + f.text + more;
      assert SpliceFrom(buf, es[1..], e.end) == b + f.text + more;
      RegroupFour(x, b, f.text, more);
    }
  }

  /** The total growth of a list of edits. */
  function Delta(es: seq<Edit>): int
    decreases |es|
  {
    if es == [] then 0 else Growth(es[0]) + Delta(es[1..])
  }

  lemma {:induction false} DeltaSnoc(es: seq<Edit>, e: Edit)
    ensures Delta(es + [e]) == Delta(es) + Growth(e)
    decreases |es|
  {
    if es == [] {
      assert [e][1..] == [];
    } else {
      assert (es + [e])[1..] == es[1..] + [e];
      DeltaSnoc(es[1..], e);
    }
  }

  /** Shifting one more edit moves it by the growth of all the edits before it. */
  lemma {:induction false} ShiftedSnoc(es: seq<Edit>, e: Edit, delta: int)
    ensures Shifted(es + [e], delta)
      == Shifted(es, delta) + [Edit(e.begin + delta + Delta(es), e.end + delta + Delta(es), e.text)]
    decreases |es|
  {
    if es == [] {
      assert [e][1..] == [];
    } else {
      assert (es + [e])[1..] == es[1..] + [e];
      ShiftedSnoc(es[1..], e, delta + Growth(es[0]));
    }
  }

  lemma {:induction false} ApplyInOrderSnoc(buf: string, es: seq<Edit>, e: Edit)
    ensures ApplyInOrder(buf, es + [e]) == ReplaceRegion(ApplyInOrder(buf, es), EditRegion(e), e.text)
    decreases |es|
  {
    if es == [] {
      assert [e][1..] == [];
    } else {
      assert (es + [e])[1..] == es[1..] + [e];
      ApplyInOrderSnoc(ReplaceRegion(buf, EditRegion(es[0]), es[0].text), es[1..], e);
    }
  }

  /** The splice grows the buffer by the total growth of its edits. */
  lemma {:induction false} SpliceFromLength(buf: string, es: seq<Edit>, pos: nat)
    requires pos <= |buf| && Ordered(es, pos, |buf|)
    ensures |SpliceFrom(buf, es, pos)| == |buf| - pos + Delta(es)
    decreases |es|
  {
    if es != [] {
      SpliceFromLength(buf, es[1..], es[0].end);
    }
  }

  /**
   * After in-order application of edits that all lie before p, the text from p
   * on sits unchanged Delta(es) characters further: a later selection, shifted
   * by that much, still reads what it read in the original buffer.
   */
  lemma ReadAfterEdits(orig: string, es: seq<Edit>, p: nat, r: Region)
    requires p <= r.Begin() && r.End() <= |orig| && Ordered(es, 0, p)
    ensures 0 <= r.Begin() + Delta(es)
    ensures Substr(ApplyInOrder(orig, Shifted(es, 0)), Shift(r, Delta(es))) == Substr(orig, r)
  {
    var head := orig[..p];
    assert orig == head + orig[p..];
    SpliceFromAppend(head, orig[p..], es, 0);
    ShiftedIsSplice(orig, es);
    SpliceFromLength(head, es, 0);
    var out := ApplyInOrder(orig, Shifted(es, 0));
    var sh := SpliceFrom(head, es, 0);
    var tail := orig[p..];
    assert out == sh + tail;
    assert |sh| == p + Delta(es);
    var b, e := r.Begin() + Delta(es), r.End() + Delta(es);
    assert |sh| <= b <= e <= |out|;
    SliceOfAppend(sh, tail, b, e);
    SliceOfSuffix(orig, p, r.Begin(), r.End());
    assert b - |sh| == r.Begin() - p && e - |sh| == r.End() - p;
    var s := Shift(r, Delta(es));
    assert s.Begin() == b && s.End() == e;
    assert Substr(out, s) == out[b..e];
    assert Substr(orig, r) == orig[r.Begin()..r.End()];
  }

  lemma SliceOfSuffix(t: string, p: nat, b: int, e: int)
    requires p <= b <= e <= |t|
    ensures t[p..][b - p..e - p] == t[b..e]
  {
  }

  lemma SliceOfAppend(a: string, t: string, b: int, e: int)
    requires |a| <= b <= e <= |a| + |t|
    ensures (a + t)[b..e] == t[b - |a|..e - |a|]
  {
  }

  lemma {:induction false} OrderedWiden(es: seq<Edit>, from: int, size: int, size': int)
    requires Ordered(es, from, size) && size <= size'
    ensures Ordered(es, from, size')
    decreases |es|
  {
    if es != [] {
      OrderedWiden(es[1..], es[0].end, size, size');
    }
  }

  /** In-order application of the shifted edits grows the buffer by their total growth. */
  lemma ApplyShiftedLength(orig: string, es: seq<Edit>)
    requires Ordered(es, 0, |orig|)
    ensures |ApplyInOrder(orig, Shifted(es, 0))| == |orig| + Delta(es)
  {
    ShiftedIsSplice(orig, es);
    SpliceFromLength(orig, es, 0);
  }

  /**
   * The splice is the splice of the edits before edit k into the text before
   * it, then edit k's text, then the splice of the edits after it.
   */
  lemma {:induction false} SpliceSplit(buf: string, es: seq<Edit>, pos: nat, k: nat)
    requires pos <= |buf| && Ordered(es, pos, |buf|) && k < |es|
    ensures pos <= es[k].begin <= es[k].end <= |buf|
    ensures Ordered(es[..k], pos, es[k].begin) && Ordered(es[k + 1..], es[k].end, |buf|)
    ensures SpliceFrom(buf, es, pos)
      == SpliceFrom(buf[..es[k].begin], es[..k], pos) + es[k].text + SpliceFrom(buf, es[k + 1..], es[k].end)
    decreases k
  {
    var e := es[0];
    if k == 0 {
      assert es[1..] == es[k + 1..];
      assert buf[..e.begin][pos..] == buf[pos..e.begin];
    } else {
      SpliceSplit(buf, es[1..], e.end, k - 1);
      assert es[1..][..k - 1] == es[..k][1..];
      assert es[1..][k - 1 + 1..] == es[k + 1..];
      var h := buf[..es[k].begin];
      assert h[pos..e.begin] == buf[pos..e.begin];
      var a := SpliceFrom(h, es[1..][..k - 1], e.end);
      var b := es[k].text;
      var c := SpliceFrom(buf, es[k + 1..], es[k].end);
      assert SpliceFrom(h, es[..k], pos) == buf[pos..e.begin] + e.text + a;
      ConcatAssoc(buf[pos..e.begin] + e.text, a, b);
      ConcatAssoc(buf[pos..e.begin] + e.text, a + b, c);
      ConcatAssoc(buf[pos..e.begin] + e.text + a, b, c);
    }
  }

  /** In the splice, edit k's text sits at its begin moved by the growth of the edits before it. */
  lemma SpliceReadsEdit(buf: string, es: seq<Edit>, k: nat)
    requires Ordered(es, 0, |buf|) && k < |es|
    ensures 0 <= es[k].begin + Delta(es[..k])
    ensures es[k].begin + Delta(es[..k]) + |es[k].text| <= |Splice(buf, es)|
    ensures Splice(buf, es)[es[k].begin + Delta(es[..k])..es[k].begin + Delta(es[..k]) + |es[k].text|] == es[k].text
  {
    SpliceSplit(buf, es, 0, k);
    var h := buf[..es[k].begin];
    SpliceFromLength(h, es[..k], 0);
  }

  /** Edits inside [from, to] can shrink the buffer by at most to - from. */
  lemma {:induction false} DeltaLowerBound(es: seq<Edit>, from: int, to: int)
    requires Ordered(es, from, to) && from <= to
    ensures Delta(es) >= from - to
    decreases |es|
  {
    if es != [] {
      DeltaLowerBound(es[1..], es[0].end, to);
    }
  }

  lemma {:induction false} DeltaSplitAt(es: seq<Edit>, i: nat)
    requires i < |es|
    ensures Delta(es) == Delta(es[..i]) + Growth(es[i]) + Delta(es[i + 1..])
    decreases i
  {
    if i == 0 {
      assert es[..0] == [] && es[1..] == es[i + 1..];
    } else {
      var tail := es[1..];
      DeltaSplitAt(tail, i - 1);
      assert tail[i - 1] == es[i] && tail[i..] == es[i + 1..];
      assert es[..i][0] == es[0] && es[..i][1..] == tail[..i - 1];
      assert Delta(es[..i]) == Growth(es[0]) + Delta(tail[..i - 1]);
    }
  }
}
