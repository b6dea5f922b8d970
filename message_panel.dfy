/**
 * The message panel: an output panel to which time-stamped messages are
 * appended.  The file paths of the messages, written as Markdown links
 * "[File](path)" or at the end of a heading "# … ](path)", become regions
 * of the panel that open the file on a double click.
 */
module MessagePanel {
  import opened Wrappers
  import opened Strings
  import opened Regions
  import opened Seqs
  import Host

  const PluginName := "OdyseusSublimePlugins"
  const PanelName := PluginName + "MessagePanel"
  /** The name of the output panel, and the key of its path regions. */
  const OutputPanel := "output." + PanelName

  // ----- Appending a message -----

  /** The text OdyseusDisplayMessageInPanelCommand appends: the stamped message, stripped, and one line break. */
  function Appended(timestamp: string, msg: string): (t: string)
    ensures StartsWith(t, "**" + timestamp + "**") && EndsWith(t, "\n")
    ensures |t| >= 2 && !IsSpace(t[|t| - 2])
  {
    var stamped := "**" + timestamp + "**\n" + msg;
    StampedStrip(timestamp, msg);
    Strip(stamped) + "\n"
  }

  /** The stamp starts with "*", so stripping only cuts whitespace at the end, and never into the stamp. */
  lemma StampedStrip(timestamp: string, msg: string)
    ensures var s := Strip("**" + timestamp + "**\n" + msg);
      StartsWith(s, "**" + timestamp + "**") && s != [] && !IsSpace(s[|s| - 1])
  {
    var stamp := "**" + timestamp + "**";
    StampParts(timestamp, msg);
    assert stamp[0] == '*' && stamp[|stamp| - 1] == '*';
    StripKeeps(stamp, "\n" + msg);
  }

  lemma StampParts(timestamp: string, msg: string)
    ensures "**" + timestamp + "**\n" + msg == ("**" + timestamp + "**") + ("\n" + msg)
  {
    var a := "**" + timestamp;
    assert "**\n" == "**" + "\n";
    ConcatAssoc(a, "**", "\n");
    ConcatAssoc(a + "**", "\n", msg);
  }

  /** Stripping a string whose head starts and ends in a non-space keeps the head. */
  lemma StripKeeps(head: string, tail: string)
    requires head != [] && !IsSpace(head[0]) && !IsSpace(head[|head| - 1])
    ensures var s := Strip(head + tail); StartsWith(s, head) && s != [] && !IsSpace(s[|s| - 1])
  {
    assert (head + tail)[0] == head[0];
    assert LStrip(head + tail) == head + tail;
    RStripKeeps(head, tail);
  }

  /** Right-stripping a string whose head ends in a non-space keeps the head. */
  lemma {:induction false} RStripKeeps(head: string, tail: string)
    requires head != [] && !IsSpace(head[|head| - 1])
    ensures StartsWith(RStrip(head + tail), head)
    ensures var r := RStrip(head + tail); r != [] && !IsSpace(r[|r| - 1])
  {
    var s := head + tail;
    var r := RStrip(s);
    assert s[|head| - 1] == head[|head| - 1];
    assert r == s[..|r|];
    assert s[..|head|] == head;
  }

  /** The panel: its text, the regions of the paths in it, and its view id. */
  class Panel {
    const id: int
    var buffer: string
    var links: seq<Region>

    constructor(id: int)
      ensures this.id == id && buffer == [] && links == []
    {
      this.id := id;
      buffer := [];
      links := [];
    }
  }

  /** The plugin's global state: the id of the panel last written to. */
  class Plugin {
    var panelId: int

    constructor()
      ensures panelId == 0
    {
      panelId := 0;
    }

    /**
     * OdyseusDisplayMessageInPanelCommand.run: the message is appended to the
     * panel, the panel's id recorded, and the path regions recomputed from
     * the host's matches of the link pattern in the new text.
     */
    method Display(panel: Panel, timestamp: string, msg: string, findLinks: string -> seq<Link>)
      modifies this, panel
      ensures panel.buffer == old(panel.buffer) + Appended(timestamp, msg)
      ensures panelId == panel.id
      ensures panel.links == PathRegions(findLinks(panel.buffer))
    {
      panelId := panel.id;
      panel.links := [];
      panel.buffer := panel.buffer + Appended(timestamp, msg);
      panel.links := GetPathRegions(findLinks(panel.buffer));
    }
  }

  /** __odyseus_clear_message_panel_content: the text and the path regions go. */
  method Clear(panel: Panel)
    modifies panel
    ensures panel.buffer == [] && panel.links == []
  {
    panel.links := [];
    panel.buffer := [];
  }

  // ----- Path regions -----

  /** One match of the link pattern: its region and its second group, the path. */
  datatype Link = Link(region: Region, path: string)

  /**
   * What the host promises of a match of `^(\[File\]\(|#.*?\]\()(.*?)\)$`:
   * the matched text is in the buffer and ends with the path and ")".
   */
  predicate Matched(buf: string, m: Link)
  {
    0 <= m.region.Begin() && m.region.End() <= |buf| && EndsWith(Substr(buf, m.region), m.path + ")")
  }

  /** The region of the path: the len(path) characters before the closing ")". */
  function PathRegion(m: Link): (r: Region)
    ensures r.Size() == |m.path| && r.End() == m.region.End() - 1
  {
    Region(m.region.End() - |m.path| - 1, m.region.End() - 1)
  }

  /** The path region of a match covers exactly the path. */
  lemma PathRegionText(buf: string, m: Link)
    requires Matched(buf, m)
    ensures var r := PathRegion(m); m.region.Begin() <= r.Begin() && r.End() < m.region.End()
    ensures Substr(buf, PathRegion(m)) == m.path
  {
    var t := Substr(buf, m.region);
    var p := m.path + ")";
    var r := PathRegion(m);
    assert t[|t| - |p|..] == p;
    assert t == buf[m.region.Begin()..m.region.End()];
    forall i | 0 <= i < |m.path| ensures buf[r.Begin() + i] == m.path[i] {
      assert buf[r.Begin() + i] == t[|t| - |p| + i];
      assert p[i] == m.path[i];
    }
  }

  function PathRegions(ms: seq<Link>): (out: seq<Region>)
    ensures |out| == |ms| && forall i :: 0 <= i < |ms| ==> out[i] == PathRegion(ms[i])
  {
    seq(|ms|, i requires 0 <= i < |ms| => PathRegion(ms[i]))
  }

  /** Every path region of the host's matches holds its path. */
  lemma PathRegionsText(buf: string, ms: seq<Link>)
    requires forall i :: 0 <= i < |ms| ==> Matched(buf, ms[i])
    ensures forall i :: 0 <= i < |ms| ==> Substr(buf, PathRegions(ms)[i]) == ms[i].path
  {
    forall i | 0 <= i < |ms| ensures Substr(buf, PathRegions(ms)[i]) == ms[i].path {
      PathRegionText(buf, ms[i]);
    }
  }

  /** _ody_get_modified_paths_regions: the loop that builds the path regions. */
  method GetPathRegions(ms: seq<Link>) returns (modRegions: seq<Region>)
    ensures modRegions == PathRegions(ms)
  {
    modRegions := [];
    for i := 0 to |ms|
      invariant modRegions == PathRegions(ms[..i])
    {
      var r := ms[i].region;
      modRegions := modRegions + [Region(r.End() - |ms[i].path| - 1, r.End() - 1)];
      assert ms[..i + 1] == ms[..i] + [ms[i]];
    }
    assert ms[..|ms|] == ms;
  }

  // ----- Opening a path -----

  /** get_cursor_pos: the begin of the first selection, or -1 without one. */
  function CursorPos(sels: seq<Region>): (p: int)
    ensures sels == [] ==> p == -1
    ensures sels != [] ==> p == sels[0].Begin()
  {
    if sels == [] then -1 else sels[0].Begin()
  }

  /** The test of _ody_on_double_click: the cursor, and the whole selection, inside the region. */
  predicate Opens(region: Region, selection: Region, cursor: int)
  {
    region.Begin() <= cursor <= region.End()
    && selection.Begin() >= region.Begin() && selection.End() <= region.End()
  }

  /** As the cursor is the selection's begin, the rule is containment of the selection. */
  lemma OpensIsContainment(region: Region, sels: seq<Region>)
    requires sels != []
    ensures Opens(region, sels[0], CursorPos(sels)) <==> region.ContainsRegion(sels[0])
  {
  }

  /** The index of the first path region the double click opens. */
  function FirstOpening(regions: seq<Region>, selection: Region, cursor: int): (k: Option<nat>)
    ensures k.Some? ==> k.value < |regions| && Opens(regions[k.value], selection, cursor)
    ensures k.Some? ==> forall j :: 0 <= j < k.value ==> !Opens(regions[j], selection, cursor)
    ensures k.None? ==> forall j :: 0 <= j < |regions| ==> !Opens(regions[j], selection, cursor)
  {
    if regions == [] then None
    else if Opens(regions[0], selection, cursor) then Some(0)
    else
      match FirstOpening(regions[1..], selection, cursor)
      case None => None
      case Some(k) => Some(k + 1)
  }

  /**
   * _ody_on_double_click and _ody_open_file: the stripped text of the first
   * path region holding the selection is opened when that path exists.
   */
  method OnDoubleClick(buf: string, sels: seq<Region>, regions: seq<Region>, pathExists: string -> bool)
      returns (target: Option<string>)
    requires sels != []
    ensures var k := FirstOpening(regions, sels[0], CursorPos(sels));
      target == if k.Some? && pathExists(Strip(Substr(buf, regions[k.value]))) then Some(Strip(Substr(buf, regions[k.value]))) else None
  {
    var selection := sels[0];
    var cursor := CursorPos(sels);
    ghost var k := FirstOpening(regions, selection, cursor);
    for i := 0 to |regions|
      invariant forall j :: 0 <= j < i ==> !Opens(regions[j], selection, cursor)
    {
      var region := regions[i];
      if region.Begin() <= cursor <= region.End() && selection.Begin() >= region.Begin() && selection.End() <= region.End() {
        assert k == Some(i);
        var path := Strip(Substr(buf, region));
        target := if pathExists(path) then Some(path) else None;
        return;
      }
    }
    assert k.None?;
    target := None;
  }

  /**
   * on_text_command's test for a double click: a drag_select by words in
   * the panel, with a selection.
   */
  predicate DoubleClick(commandName: string, args: map<string, string>, hasView: bool,
                        sels: seq<Region>, viewId: int, panelId: int)
  {
    commandName == "drag_select" && "by" in args && args["by"] == "words"
    && hasView && sels != [] && viewId == panelId
  }

  /** on_hover: the stripped text of the first path region meeting the hovered line, in the panel, for hovering text. */
  function HoverPath(buf: string, regions: seq<Region>, point: int, overText: bool, viewId: int, panelId: int): (p: Option<string>)
    ensures !overText || viewId != panelId ==> p.None?
    ensures p.Some? ==> exists i :: 0 <= i < |regions| && regions[i].Intersects(Host.Line(buf, Region(point, point)))
                                   && (forall j :: 0 <= j < i ==> !regions[j].Intersects(Host.Line(buf, Region(point, point))))
                                   && p.value == Strip(Substr(buf, regions[i]))
    ensures overText && viewId == panelId ==>
              (p.None? <==> forall i :: 0 <= i < |regions| ==> !regions[i].Intersects(Host.Line(buf, Region(point, point))))
  {
    if overText && viewId == panelId then FirstMeeting(buf, regions, Host.Line(buf, Region(point, point))) else None
  }

  function FirstMeeting(buf: string, regions: seq<Region>, line: Region): (p: Option<string>)
    ensures p.Some? ==> exists i :: 0 <= i < |regions| && regions[i].Intersects(line)
                                   && (forall j :: 0 <= j < i ==> !regions[j].Intersects(line))
                                   && p.value == Strip(Substr(buf, regions[i]))
    ensures p.None? <==> forall i :: 0 <= i < |regions| ==> !regions[i].Intersects(line)
  {
    match FirstMeetingFrom(regions, line, 0)
    case None => None
    case Some(k) => Some(Strip(Substr(buf, regions[k])))
  }

  /** The index of the first region from `from` on that meets the line. */
  function FirstMeetingFrom(regions: seq<Region>, line: Region, from: nat): (k: Option<nat>)
    requires from <= |regions|
    requires forall j :: 0 <= j < from ==> !regions[j].Intersects(line)
    ensures k.Some? ==> from <= k.value < |regions| && regions[k.value].Intersects(line)
                        && forall j :: 0 <= j < k.value ==> !regions[j].Intersects(line)
    ensures k.None? <==> forall i :: 0 <= i < |regions| ==> !regions[i].Intersects(line)
    decreases |regions| - from
  {
    if from == |regions| then None
    else if regions[from].Intersects(line) then Some(from)
    else FirstMeetingFrom(regions, line, from + 1)
  }

  // ----- The panel in its window -----

  /** A window's state as these commands see it: the panel it shows, if any. */
  datatype Window = Window(activePanel: Option<string>)

  /** panel_is_active: false without a window. */
  function PanelIsActive(window: Option<Window>): (b: bool)
    ensures window.None? ==> !b
    ensures b <==> window.Some? && window.value.activePanel == Some(OutputPanel)
  {
    if window.None? then false else window.value.activePanel == Some(OutputPanel)
  }

  /** OdyseusToggleMessagePanelCommand: the window command that hides or shows the panel. */
  function Toggle(window: Window): (cmd: string)
    ensures cmd == "hide_panel" <==> window.activePanel == Some(OutputPanel)
    ensures cmd == "hide_panel" || cmd == "show_panel"
  {
    if PanelIsActive(Some(window)) then "hide_panel" else "show_panel"
  }
}
