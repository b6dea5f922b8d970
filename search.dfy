/**
 * Literal search in a buffer: what the host's find and find_all do with a
 * pattern that is an escaped literal, optionally wrapped in the word-boundary
 * look-arounds (?<!\w) and (?!\w), and optionally case-insensitive.
 */
module Search {
  import opened Strings
  import opened Regions
  import opened Wrappers

  /** The regular-expression word class \w, on ASCII. */
  predicate IsWordChar(c: char)
  {
    ('a' <= c <= 'z') || ('A' <= c <= 'Z') || ('0' <= c <= '9') || c == '_'
  }

  /** pat occurs at offset i; with wholeWord no word character touches it. */
  predicate MatchAt(text: string, pat: string, i: int, wholeWord: bool, ignoreCase: bool)
  {
    0 <= i && i + |pat| <= |text|
    && (if ignoreCase then Lower(text[i..i + |pat|]) == Lower(pat) else text[i..i + |pat|] == pat)
    && (wholeWord ==>
          (i == 0 || !IsWordChar(text[i - 1]))
          && (i + |pat| == |text| || !IsWordChar(text[i + |pat|])))
  }

  /** The first occurrence that starts at or after `from`. */
  function FindFrom(text: string, pat: string, from: nat, wholeWord: bool, ignoreCase: bool): (r: Option<Region>)
    ensures r.Some? ==> from <= r.value.a && r.value.b == r.value.a + |pat|
                        && MatchAt(text, pat, r.value.a, wholeWord, ignoreCase)
    ensures r.Some? ==> forall j :: from <= j < r.value.a ==> !MatchAt(text, pat, j, wholeWord, ignoreCase)
    ensures r.None? ==> forall j :: from <= j ==> !MatchAt(text, pat, j, wholeWord, ignoreCase)
    decreases |text| + 1 - from
  {
    if from > |text| then None
    else if MatchAt(text, pat, from, wholeWord, ignoreCase) then Some(Region(from, from + |pat|))
    else FindFrom(text, pat, from + 1, wholeWord, ignoreCase)
  }

  /** An occurrence region of pat in text. */
  predicate Occurrence(text: string, pat: string, r: Region, wholeWord: bool, ignoreCase: bool)
  {
    r.b == r.a + |pat| && MatchAt(text, pat, r.a, wholeWord, ignoreCase)
  }

  /** Regions in strictly increasing order, each ending before the next begins. */
  predicate Increasing(rs: seq<Region>)
  {
    |rs| <= 1 || (rs[0].b <= rs[1].a && rs[0].a < rs[1].a && Increasing(rs[1..]))
  }

  /**
   * All occurrences from `from` on, left to right and not overlapping; after an
   * empty occurrence the scan moves on by one character.
   */
  function FindAllFrom(text: string, pat: string, from: nat, wholeWord: bool, ignoreCase: bool): (rs: seq<Region>)
    ensures forall k :: 0 <= k < |rs| ==> from <= rs[k].a && Occurrence(text, pat, rs[k], wholeWord, ignoreCase)
    ensures Increasing(rs)
    decreases |text| + 1 - from
  {
    var first := FindFrom(text, pat, from, wholeWord, ignoreCase);
    if first.None? then []
    else
      var r := first.value;
      assert Occurrence(text, pat, r, wholeWord, ignoreCase);
      var next: nat := if pat == [] then r.a + 1 else r.b;
      var rest := FindAllFrom(text, pat, next, wholeWord, ignoreCase);
      var rs := [r] + rest;
      assert rs[1..] == rest;
      rs
  }

  function FindAll(text: string, pat: string, wholeWord: bool, ignoreCase: bool): seq<Region>
  {
    FindAllFrom(text, pat, 0, wholeWord, ignoreCase)
  }
}
