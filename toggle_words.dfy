/**
 * Toggling a word through its group (true -> false -> true, ...): the word
 * under each selection, or around each caret, that equals a group word as
 * written, in lower case, capitalized or in upper case is replaced by the next
 * word of its group in the same form.
 */
module ToggleWords {
  import opened Wrappers
  import opened Strings
  import opened Regions
  import opened Edits
  import opened Search
  import opened Host

  /** What one region comes to: a replacement, or the word no group knows. */
  datatype Outcome = Replaced(region: Region, text: string) | NotFound(word: string)

  /** The status message for a word without toggles. */
  function CantFind(word: string): string
  {
    "ToggleWords: Can't find toggles for '" + word + "'"
  }

  /** A word matches a group word written as is, lower, capitalized or upper. */
  predicate Matches(word: string, cur: string)
  {
    word == cur || word == Lower(cur) || word == Capitalize(cur) || word == Upper(cur)
  }

  /** The next word, in the form in which `word` matched `cur` (the forms are tried in that order). */
  function Converted(word: string, cur: string, next: string): string
  {
    if word == cur then next
    else if word == Lower(cur) then Lower(next)
    else if word == Capitalize(cur) then Capitalize(next)
    else Upper(next)
  }

  /**
   * The inner loop over the case-insensitive occurrences of a group word on
   * the caret's line (found in the line's text, offset by where the line
   * starts): the last one that contains the caret becomes the word and region.
   */
  function LastContaining(buf: string, lineBegin: int, finds: seq<Region>, i: nat, cursor: int, word: string, region: Region): (res: (string, Region))
    requires i <= |finds|
    decreases |finds| - i
  {
    if i == |finds| then (word, region)
    else
      var found := Shift(finds[i], lineBegin);
      if found.ContainsPoint(cursor) then LastContaining(buf, lineBegin, finds, i + 1, cursor, Substr(buf, found), found)
      else LastContaining(buf, lineBegin, finds, i + 1, cursor, word, region)
  }

  /**
   * The word and region the occurrence loop leaves are the ones it started
   * with when no occurrence contains the caret, and otherwise the last
   * occurrence that does, with its text.
   */
  lemma {:induction false} LastContainingIsLast(buf: string, lineBegin: int, finds: seq<Region>, i: nat, cursor: int, word: string, region: Region)
    requires i <= |finds|
    ensures var res := LastContaining(buf, lineBegin, finds, i, cursor, word, region);
      if forall j :: i <= j < |finds| ==> !Shift(finds[j], lineBegin).ContainsPoint(cursor) then res == (word, region)
      else exists j :: i <= j < |finds| && res.1 == Shift(finds[j], lineBegin) && res.1.ContainsPoint(cursor)
                       && res.0 == Substr(buf, res.1)
                       && forall j' :: j < j' < |finds| ==> !Shift(finds[j'], lineBegin).ContainsPoint(cursor)
    decreases |finds| - i
  {
    if i < |finds| {
      var found := Shift(finds[i], lineBegin);
      if found.ContainsPoint(cursor) {
        LastContainingIsLast(buf, lineBegin, finds, i + 1, cursor, Substr(buf, found), found);
      } else {
        LastContainingIsLast(buf, lineBegin, finds, i + 1, cursor, word, region);
      }
    }
  }

  /** Where a caret looks for group word `cur`: every case-insensitive occurrence on its line. */
  function LineFinds(buf: string, region: Region, cur: string): seq<Region>
  {
    FindAll(Substr(buf, Line(buf, region)), cur, false, true)
  }

  /** The word and region after looking for `cur` (for a caret only). */
  function Relocate(buf: string, cur: string, cursor: int, word: string, region: Region): (string, Region)
  {
    if cursor != -1 then LastContaining(buf, Line(buf, region).a, LineFinds(buf, region, cur), 0, cursor, word, region)
    else (word, region)
  }

  /** One (group, word) pass of the nested loops: a replacement, or the word and region carried on. */
  datatype Try = Hit(region: Region, text: string) | Miss(word: string, at: Region)

  function Attempt(buf: string, cur: string, next: string, cursor: int, word: string, region: Region): Try
  {
    var (word', region') := Relocate(buf, cur, cursor, word, region);
    if Matches(word', cur) then Hit(region', Converted(word', cur, next)) else Miss(word', region')
  }

  /** The nested loops of _ody_toggle_word from group g, word w on. */
  function Scan(buf: string, groups: seq<seq<string>>, g: nat, w: nat, cursor: int, word: string, region: Region): Outcome
    decreases |groups| - g, if g < |groups| then |groups[g]| - w else 0
  {
    if g >= |groups| then NotFound(word)
    else if w >= |groups[g]| then Scan(buf, groups, g + 1, 0, cursor, word, region)
    else
      match Attempt(buf, groups[g][w], groups[g][(w + 1) % |groups[g]|], cursor, word, region)
      case Hit(r, text) => Replaced(r, text)
      case Miss(word', region') => Scan(buf, groups, g, w + 1, cursor, word', region')
  }

  /** _ody_toggle_word: a replacement (and no message), or the status message. */
  method ToggleWord(v: View, region0: Region, groups: seq<seq<string>>, cursor: int) returns (message: Option<string>)
    modifies v
    ensures var o := Scan(old(v.buffer), groups, 0, 0, cursor, Substr(old(v.buffer), region0), region0);
      if o.Replaced? then Doc(v.buffer, v.sel) == ReplaceIn(old(Doc(v.buffer, v.sel)), o.region, o.text) && message == None
      else Doc(v.buffer, v.sel) == old(Doc(v.buffer, v.sel)) && message == Some(CantFind(o.word))
  {
    ghost var buf := v.buffer;
    ghost var target := Scan(buf, groups, 0, 0, cursor, Substr(buf, region0), region0);
    var editorWord := Substr(v.buffer, region0);
    var region := region0;
    for g := 0 to |groups|
      invariant v.buffer == buf && v.sel == old(v.sel)
      invariant Scan(buf, groups, g, 0, cursor, editorWord, region) == target
    {
      var hit, word', region' := TryGroup(v, groups, g, cursor, editorWord, region, target);
      if hit {
        return None;
      }
      editorWord, region := word', region';
    }
    assert target == NotFound(editorWord);
    message := Some(CantFind(editorWord));
  }

  /** The inner loop of _ody_toggle_word, over the words of group g. */
  method TryGroup(v: View, groups: seq<seq<string>>, g: nat, cursor: int, word: string, region: Region, ghost target: Outcome)
    returns (hit: bool, word': string, region': Region)
    requires g < |groups| && Scan(v.buffer, groups, g, 0, cursor, word, region) == target
    modifies v
    ensures hit ==> target.Replaced? && Doc(v.buffer, v.sel) == ReplaceIn(old(Doc(v.buffer, v.sel)), target.region, target.text)
    ensures !hit ==> (v.buffer == old(v.buffer) && v.sel == old(v.sel)
                      && Scan(old(v.buffer), groups, g + 1, 0, cursor, word', region') == target)
  {
    ghost var buf := v.buffer;
    var group := groups[g];
    word', region' := word, region;
    for w := 0 to |group|
      invariant v.buffer == buf && v.sel == old(v.sel)
      invariant Scan(buf, groups, g, w, cursor, word', region') == target
    {
      var found, nextWord, nextRegion := TryWord(v, group[w], group[(w + 1) % |group|], cursor, word', region');
      if found {
        return true, nextWord, nextRegion;
      }
      word', region' := nextWord, nextRegion;
    }
    hit := false;
  }

  /** One pass of the inner loop of _ody_toggle_word: replace and stop, or carry on. */
  method TryWord(v: View, cur: string, next: string, cursor: int, word: string, region: Region)
    returns (hit: bool, word': string, region': Region)
    modifies v
    ensures var t := Attempt(old(v.buffer), cur, next, cursor, word, region);
      hit == t.Hit?
      && (t.Hit? ==> Doc(v.buffer, v.sel) == ReplaceIn(old(Doc(v.buffer, v.sel)), t.region, t.text))
      && (t.Miss? ==> v.buffer == old(v.buffer) && v.sel == old(v.sel) && word' == t.word && region' == t.at)
  {
    word', region' := FindAtCaret(v.buffer, cur, cursor, word, region);
    hit := true;
    var text := [];
    if word' == cur {
      text := next;
    } else if word' == Lower(cur) {
      text := Lower(next);
    } else if word' == Capitalize(cur) {
      text := Capitalize(next);
    } else if word' == Upper(cur) {
      text := Upper(next);
    } else {
      hit := false;
    }
    if hit {
      v.Replace(region', text);
    }
  }

  /** The occurrence loop of _ody_toggle_word, for a caret (cursor != -1). */
  method FindAtCaret(buf: string, cur: string, cursor: int, word: string, region: Region) returns (word': string, region': Region)
    ensures (word', region') == Relocate(buf, cur, cursor, word, region)
  {
    word', region' := word, region;
    if cursor != -1 {
      var lineRegion := Line(buf, region);
      var line := Substr(buf, lineRegion);
      var lineBegin := lineRegion.a;
      var finds := FindAll(line, cur, false, true);
      word', region' := ScanFinds(buf, lineBegin, finds, cursor, word, region);
    }
  }

  /** The loop over the occurrences on the caret's line. */
  method ScanFinds(buf: string, lineBegin: int, finds: seq<Region>, cursor: int, word: string, region: Region)
    returns (word': string, region': Region)
    ensures (word', region') == LastContaining(buf, lineBegin, finds, 0, cursor, word, region)
  {
    word', region' := word, region;
    for i := 0 to |finds|
      invariant LastContaining(buf, lineBegin, finds, i, cursor, word', region')
                == LastContaining(buf, lineBegin, finds, 0, cursor, word, region)
    {
      var found := Region(lineBegin + finds[i].a, lineBegin + finds[i].b);
      if found.ContainsPoint(cursor) {
        word' := Substr(buf, found);
        region' := found;
      }
    }
  }

  /** The region a selection is toggled in and the caret position (-1 for a selection). */
  function Target(buf: string, r: Region, wordOf: (string, Region) -> Region): (Region, int)
  {
    if r.a != r.b then (r, -1) else (wordOf(buf, r), r.a)
  }

  /** One pass of run on the live k-th selection; view.word is `wordOf`. */
  function Step(d: Doc, k: nat, groups: seq<seq<string>>, wordOf: (string, Region) -> Region): (res: (Doc, seq<string>))
    requires k < |d.sel|
    ensures |res.0.sel| == |d.sel|
  {
    var (region, cursor) := Target(d.buffer, d.sel[k], wordOf);
    match Scan(d.buffer, groups, 0, 0, cursor, Substr(d.buffer, region), region)
    case Replaced(r, text) => (ReplaceIn(d, r, text), [])
    case NotFound(word) => (d, [CantFind(word)])
  }

  /** Passes k, ..., |sel| - 1, adding the status messages they show to `shown`. */
  function Steps(d: Doc, k: nat, groups: seq<seq<string>>, wordOf: (string, Region) -> Region, shown: seq<string>): (Doc, seq<string>)
    decreases |d.sel| - k
  {
    if k >= |d.sel| then (d, shown)
    else
      var (d', m) := Step(d, k, groups, wordOf);
      Steps(d', k + 1, groups, wordOf, shown + m)
  }

  /** OdyseusToggleWordCommand.run; an empty toggle_words setting does nothing. */
  method Run(v: View, groups: seq<seq<string>>, wordOf: (string, Region) -> Region) returns (messages: seq<string>)
    modifies v
    ensures groups == [] ==> v.buffer == old(v.buffer) && v.sel == old(v.sel) && messages == []
    ensures (Doc(v.buffer, v.sel), messages) == if groups == [] then (old(Doc(v.buffer, v.sel)), [])
                                               else Steps(old(Doc(v.buffer, v.sel)), 0, groups, wordOf, [])
  {
    messages := [];
    if groups == [] {
      return;
    }
    ghost var d0 := Doc(v.buffer, v.sel);
    var k := 0;
    while k < |v.sel|
      invariant |v.sel| == |d0.sel| && k <= |v.sel|
      invariant Steps(Doc(v.buffer, v.sel), k, groups, wordOf, messages) == Steps(d0, 0, groups, wordOf, [])
      decreases |v.sel| - k
    {
      var m := RunStep(v, k, groups, wordOf);
      messages := messages + m;
      k := k + 1;
    }
  }

  /** One pass of the loop in run. */
  method RunStep(v: View, k: nat, groups: seq<seq<string>>, wordOf: (string, Region) -> Region) returns (m: seq<string>)
    requires k < |v.sel|
    modifies v
    ensures (Doc(v.buffer, v.sel), m) == Step(old(Doc(v.buffer, v.sel)), k, groups, wordOf)
  {
    var region := v.sel[k];
    var textRegion, cursorPos;
    if region.a != region.b {
      textRegion, cursorPos := region, -1;
    } else {
      textRegion, cursorPos := wordOf(v.buffer, region), region.a;
    }
    var message := ToggleWord(v, textRegion, groups, cursorPos);
    m := if message.Some? then [message.value] else [];
  }

  /** A group's (word, next word) pairs; the last word's next is the first. */
  function GroupPairs(group: seq<string>): (ps: seq<(string, string)>)
    ensures |ps| == |group|
    ensures forall i :: 0 <= i < |group| ==> ps[i] == (group[i], group[(i + 1) % |group|])
  {
    seq(|group|, i requires 0 <= i < |group| => (group[i], group[(i + 1) % |group|]))
  }

  /** Every group's pairs, group by group. */
  function Pairs(groups: seq<seq<string>>): seq<(string, string)>
  {
    if groups == [] then [] else GroupPairs(groups[0]) + Pairs(groups[1..])
  }

  /** Reference: the first pair whose word matches decides the replacement. */
  function FirstToggle(word: string, region: Region, ps: seq<(string, string)>): Outcome
  {
    if ps == [] then NotFound(word)
    else if Matches(word, ps[0].0) then Replaced(region, Converted(word, ps[0].0, ps[0].1))
    else FirstToggle(word, region, ps[1..])
  }

  /** The pairs the nested loops still visit from group g, word w on. */
  function PairsFrom(groups: seq<seq<string>>, g: nat, w: nat): seq<(string, string)>
    requires g < |groups| ==> w <= |groups[g]|
  {
    if g >= |groups| then [] else GroupPairs(groups[g])[w..] + Pairs(groups[g + 1..])
  }

  /**
   * For a selection (no caret), the nested loops replace the region by the
   * first matching pair's next word, in the matched form, and report the
   * word when no pair matches.
   */
  lemma {:induction false} ScanSelected(buf: string, groups: seq<seq<string>>, g: nat, w: nat, word: string, region: Region)
    requires g < |groups| ==> w <= |groups[g]|
    ensures Scan(buf, groups, g, w, -1, word, region) == FirstToggle(word, region, PairsFrom(groups, g, w))
    decreases |groups| - g, if g < |groups| then |groups[g]| - w else 0
  {
    if g < |groups| {
      if w == |groups[g]| {
        ScanSelected(buf, groups, g + 1, 0, word, region);
        PairsFromNextGroup(groups, g);
      } else {
        var cur, next := groups[g][w], groups[g][(w + 1) % |groups[g]|];
        PairsFromNextWord(groups, g, w);
        assert Attempt(buf, cur, next, -1, word, region)
               == if Matches(word, cur) then Hit(region, Converted(word, cur, next)) else Miss(word, region);
        ScanSelected(buf, groups, g, w + 1, word, region);
      }
    }
  }

  lemma PairsFromNextGroup(groups: seq<seq<string>>, g: nat)
    requires g < |groups|
    ensures PairsFrom(groups, g, |groups[g]|) == PairsFrom(groups, g + 1, 0)
  {
    assert GroupPairs(groups[g])[|groups[g]|..] == [];
    if g + 1 < |groups| {
      assert groups[g + 1..][1..] == groups[g + 2..];
      assert GroupPairs(groups[g + 1])[0..] == GroupPairs(groups[g + 1]);
    } else {
      assert groups[g + 1..] == [];
    }
  }

  lemma PairsFromNextWord(groups: seq<seq<string>>, g: nat, w: nat)
    requires g < |groups| && w < |groups[g]|
    ensures PairsFrom(groups, g, w) != []
    ensures PairsFrom(groups, g, w)[0] == (groups[g][w], groups[g][(w + 1) % |groups[g]|])
    ensures PairsFrom(groups, g, w)[1..] == PairsFrom(groups, g, w + 1)
  {
    var gp := GroupPairs(groups[g]);
    var rest := Pairs(groups[g + 1..]);
    assert gp[w..] == [gp[w]] + gp[w + 1..];
    var ps := gp[w..] + rest;
    assert ps == PairsFrom(groups, g, w);
    assert ps[0] == gp[w];
    assert ps[1..] == gp[w + 1..] + rest by {
      var t := gp[w + 1..] + rest;
      assert |ps[1..]| == |t|;
      forall k | 0 <= k < |t| ensures ps[1..][k] == t[k] {
        if k < |gp[w + 1..]| {
          assert ps[k + 1] == gp[w..][k + 1];
        }
      }
    }
  }

  lemma ScanSelectedAll(buf: string, groups: seq<seq<string>>, word: string, region: Region)
    ensures Scan(buf, groups, 0, 0, -1, word, region) == FirstToggle(word, region, Pairs(groups))
  {
    ScanSelected(buf, groups, 0, 0, word, region);
    if groups != [] {
      assert GroupPairs(groups[0])[0..] == GroupPairs(groups[0]);
    }
  }

  predicate IsLower(s: string) { Lower(s) == s }

  /** A lower-case word matches a lower-case group word only when they are the same word. */
  lemma MatchesLower(word: string, cur: string)
    requires IsLower(word) && IsLower(cur)
    ensures Matches(word, cur) <==> word == cur
  {
    if word == Capitalize(cur) && cur != [] {
      assert word[0] == UpperChar(cur[0]) && LowerChar(word[0]) == word[0];
      assert word[1..] == Lower(cur[1..]) == cur[1..] by {
        assert Lower(cur)[1..] == Lower(cur[1..]);
      }
      assert word == [word[0]] + word[1..] && cur == [cur[0]] + cur[1..];
    }
    if word == Upper(cur) {
      assert |word| == |cur|;
      forall i | 0 <= i < |cur| ensures word[i] == cur[i] {
        assert word[i] == UpperChar(cur[i]) && LowerChar(word[i]) == word[i] && LowerChar(cur[i]) == cur[i];
      }
    }
  }

  /** In a list of pairs whose words are distinct and lower case, the one for word k is found first. */
  lemma {:induction false} FirstToggleDistinct(ps: seq<(string, string)>, k: nat, region: Region)
    requires k < |ps|
    requires forall i :: 0 <= i < |ps| ==> IsLower(ps[i].0)
    requires forall i, j :: 0 <= i < j < |ps| ==> ps[i].0 != ps[j].0
    ensures FirstToggle(ps[k].0, region, ps) == Replaced(region, ps[k].1)
    decreases k
  {
    MatchesLower(ps[k].0, ps[0].0);
    if k > 0 {
      FirstToggleDistinct(ps[1..], k - 1, region);
    }
  }

  /**
   * With one group of distinct lower-case words, toggling a selected group
   * word gives the next word of the group, the last giving the first.
   */
  lemma ToggleCycles(buf: string, group: seq<string>, k: nat, region: Region)
    requires k < |group|
    requires forall i :: 0 <= i < |group| ==> IsLower(group[i])
    requires forall i, j :: 0 <= i < j < |group| ==> group[i] != group[j]
    ensures Scan(buf, [group], 0, 0, -1, group[k], region) == Replaced(region, group[(k + 1) % |group|])
  {
    ScanSelectedAll(buf, [group], group[k], region);
    PairsOne(group);
    GroupToggle(group, k, region);
  }

  lemma PairsOne(group: seq<string>)
    ensures Pairs([group]) == GroupPairs(group)
  {
    assert [group][1..] == [];
  }

  lemma GroupToggle(group: seq<string>, k: nat, region: Region)
    requires k < |group|
    requires forall i :: 0 <= i < |group| ==> IsLower(group[i])
    requires forall i, j :: 0 <= i < j < |group| ==> group[i] != group[j]
    ensures FirstToggle(group[k], region, GroupPairs(group)) == Replaced(region, group[(k + 1) % |group|])
  {
    var ps := GroupPairs(group);
    assert forall i :: 0 <= i < |ps| ==> ps[i].0 == group[i];
    FirstToggleDistinct(ps, k, region);
  }
}
