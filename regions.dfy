/**
 * The host editor's regions.  A region is a pair of offsets (a, b) into the
 * buffer; a is where the selection started and b where the caret is, so b may
 * be smaller than a.  Offsets are plain integers: the plugins build regions that
 * reach one character past either end of the buffer.
 */
module Regions {
  datatype Region = Region(a: int, b: int)
  {
    function Begin(): (r: int)
      ensures r <= a && r <= b && (r == a || r == b)
    {
      if a <= b then a else b
    }

    function End(): (r: int)
      ensures r >= a && r >= b && (r == a || r == b)
    {
      if a <= b then b else a
    }

    predicate Empty() { a == b }

    function Size(): (n: nat)
      ensures n == 0 <==> Empty()
    {
      End() - Begin()
    }

    /** A point lies in a region when it is between its ends, both ends included. */
    predicate ContainsPoint(p: int) { Begin() <= p <= End() }

    predicate ContainsRegion(r: Region) { Begin() <= r.Begin() && r.End() <= End() }

    /**
     * The host's intersection test: two equal regions intersect; otherwise an
     * end of one must lie strictly inside the other.
     */
    predicate Intersects(r: Region)
    {
      (Begin() == r.Begin() && End() == r.End())
      || (Begin() < r.Begin() && r.Begin() < End())
      || (Begin() < r.End() && r.End() < End())
      || (r.Begin() < Begin() && Begin() < r.End())
      || (r.Begin() < End() && End() < r.End())
    }
  }

  /** An offset clamped to the buffer, as the host clamps every region it reads. */
  function Clamp(p: int, size: nat): (r: nat)
    ensures r <= size
    ensures 0 <= p <= size ==> r == p
  {
    if p < 0 then 0 else if p > size then size else p
  }

  /** The text a region covers, clamped to the buffer. */
  function Substr(buf: string, r: Region): (s: string)
    ensures 0 <= r.Begin() && r.End() <= |buf| ==> s == buf[r.Begin()..r.End()]
    ensures |s| <= |buf|
  {
    buf[Clamp(r.Begin(), |buf|)..Clamp(r.End(), |buf|)]
  }

  /** Shifts a region by a number of characters, as the host does to the
   *  selections that follow an edit. */
  function Shift(r: Region, delta: int): (s: Region)
    ensures s.Begin() == r.Begin() + delta && s.End() == r.End() + delta
    ensures s.Size() == r.Size()
  {
    Region(r.a + delta, r.b + delta)
  }
}
