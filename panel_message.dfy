/**
 * display_message_in_panel: the package-wide helper that formats a titled
 * message, with an optional file link and body, and sends it to the
 * message panel of a window, or to an error dialog when there is none.
 */
module PanelMessage {
  import opened Wrappers
  import opened Strings

  /** Where the message goes: the active window, a view (in a window or not, with its file path), or a given window. */
  datatype Target = ActiveWindow | OfView(inWindow: bool, viewPath: string) | OfWindow

  /** What the helper does. */
  datatype Sent = Dropped | Nothing | ToPanel(text: string) | ErrorDialog(text: string)

  /** A view's own file path replaces the argument; "" stands for no path. */
  function PathOf(target: Target, filePath: string): (p: string)
    ensures target.OfView? ==> p == target.viewPath
    ensures !target.OfView? ==> p == filePath
  {
    if target.OfView? then target.viewPath else filePath
  }

  /** Whether the message has a window to go to. */
  predicate HasWindow(target: Target)
  {
    !target.OfView? || target.inWindow
  }

  function TitleLine(title: string, debug: bool): (t: string)
    ensures StartsWith(t, "# ") && (debug ==> StartsWith(t, "# DEBUG::"))
    ensures EndsWith(t, title)
  {
    "# " + (if debug then "DEBUG::" else "") + title
  }

  function FileLink(path: string): (t: string)
    ensures StartsWith(t, "[File](") && EndsWith(t, path + ")")
  {
    "[File](" + path + ")"
  }

  /** The heading: the title line, the file link, or both merged with " - "; "" when neither. */
  function Heading(title: string, path: string, debug: bool): (h: string)
    ensures title != [] ==> StartsWith(h, TitleLine(title, debug))
    ensures title != [] && path != [] ==> h == TitleLine(title, debug) + " - " + FileLink(path)
    ensures title == [] ==> h == if path == [] then [] else FileLink(path)
    ensures title == [] && path == [] <==> h == []
  {
    if title != [] && path != [] then TitleLine(title, debug) + " - " + FileLink(path)
    else if title != [] then TitleLine(title, debug)
    else if path != [] then FileLink(path)
    else []
  }

  /**
   * The message text, when there is anything to say: the heading and the
   * body block "\n" + body + "\n", one line break apart.
   */
  function Message(title: string, body: string, path: string, debug: bool): (m: Option<string>)
    ensures m.None? <==> title == [] && path == [] && body == []
    ensures m.Some? ==> StartsWith(m.value, Heading(title, path, debug))
    ensures m.Some? && body != [] ==> EndsWith(m.value, "\n" + body + "\n")
    ensures m.Some? && body == [] ==> m.value == Heading(title, path, debug)
    ensures m.Some? && body != [] && Heading(title, path, debug) != [] ==>
      m.value == Heading(title, path, debug) + "\n\n" + body + "\n"
  {
    var h := Heading(title, path, debug);
    if h == [] && body == [] then None
    else if body == [] then Some(h)
    else if h == [] then Some("\n" + body + "\n")
    else Some(h + "\n" + ("\n" + body + "\n"))
  }

  /** What is sent for a message: the panel text ends in a "***" rule, the dialog shows the bare text. */
  function Deliver(hasWindow: bool, m: Option<string>): (s: Sent)
    ensures m.None? <==> s.Nothing?
    ensures m.Some? && hasWindow ==> s == ToPanel(m.value + "\n***")
    ensures m.Some? && !hasWindow ==> s == ErrorDialog(m.value)
  {
    match m
    case None => Nothing
    case Some(text) => if hasWindow then ToPanel(text + "\n***") else ErrorDialog(text)
  }

  /**
   * display_message_in_panel: a debug message is dropped unless the logging
   * level is "debug" in any case; otherwise the parts are collected in a
   * list, the title and link merged, and their join sent.
   */
  method DisplayMessage(target: Target, title: string, body: string, filePath: string, debug: bool, loggingLevel: string)
      returns (sent: Sent)
    ensures debug && Lower(loggingLevel) != "debug" ==> sent == Dropped
    ensures !(debug && Lower(loggingLevel) != "debug") ==>
      sent == Deliver(HasWindow(target), Message(title, body, PathOf(target, filePath), debug))
  {
    if debug && Lower(loggingLevel) != "debug" {
      return Dropped;
    }
    var path := filePath;
    var window := true;
    match target {
      case ActiveWindow =>
      case OfView(inWindow, viewPath) =>
        window := inWindow;
        path := viewPath;
      case OfWindow =>
    }
    var msg: seq<string> := [];
    if title != [] {
      msg := msg + ["# " + (if debug then "DEBUG::" else "") + title];
    }
    if path != [] {
      msg := msg + ["[File](" + path + ")"];
    }
    if title != [] && path != [] {
      JoinPair(msg[0], msg[1], " - ");
      msg := [Join(msg, " - ")];
    }
    assert |msg| <= 1 && (msg == [] <==> Heading(title, path, debug) == []);
    assert msg != [] ==> msg[0] == Heading(title, path, debug);
    var head := msg;
    if body != [] {
      msg := msg + ["\n" + body + "\n"];
      if head != [] {
        JoinPair(head[0], "\n" + body + "\n", "\n");
      }
    }
    if msg != [] {
      var text := Join(msg, "\n");
      if window {
        sent := ToPanel(text + "\n***");
      } else {
        sent := ErrorDialog(text);
      }
    } else {
      sent := Nothing;
    }
  }

  lemma JoinPair(a: string, b: string, sep: string)
    ensures Join([a, b], sep) == a + sep + b
  {
    assert [a, b][1..] == [b];
  }

  /** In the panel, every message ends in the rule, and a titled one begins with its title line. */
  lemma PanelText(title: string, body: string, path: string, debug: bool)
    requires title != []
    ensures var s := Deliver(true, Message(title, body, path, debug));
      s.ToPanel? && StartsWith(s.text, TitleLine(title, debug)) && EndsWith(s.text, "\n***")
  {
    var m := Message(title, body, path, debug).value;
    var h := Heading(title, path, debug);
    var t := TitleLine(title, debug);
    assert t <= h <= m;
    assert (m + "\n***")[..|t|] == m[..|t|];
  }
}
