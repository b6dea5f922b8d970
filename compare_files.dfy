/**
 * Compare open files: the last three files activated are remembered, most
 * recent first, and the two- and three-way comparison commands hand them to
 * an external diff tool.
 */
module CompareFiles {
  import opened Wrappers

  /** What a comparison command does. */
  datatype Comparison =
    | NoTool                               // "Please try again after you have command line tools installed."
    | WrongCount(message: string)          // fewer recorded files than the comparison needs
    | Launched(argv: seq<string>)          // the diff tool and the files, most recent first

  /** _selected_files_base_error_msg formatted with the number of files. */
  function CountMessage(threeWay: bool): (m: string)
    ensures m != []
  {
    var number := if threeWay then "THREE" else "TWO";
    "You must have activated **" + number + "** files to compare.\nPlease select **" + number
      + "** tabs to compare and try again."
  }

  /** The module globals _file_a, _file_b, _file_c and _recording. */
  class History {
    var a: Option<string>
    var b: Option<string>
    var c: Option<string>
    var recording: bool

    constructor()
      ensures a.None? && b.None? && c.None? && !recording
    {
      a, b, c := None, None, None;
      recording := false;
    }

    /** No file appears twice in a row in the history. */
    ghost predicate NoRepeat()
      reads this
    {
      (a.Some? && b.Some? ==> a != b) && (b.Some? && c.Some? ==> b != c)
    }

    /**
     * record_active_file: the history shifts by one, or is emptied with
     * `reset`; while a recording is under way a call does nothing.
     */
    method Record(lastFile: string, reset: bool)
      modifies this
      ensures old(recording) ==> a == old(a) && b == old(b) && c == old(c) && recording
      ensures !old(recording) && reset ==> a.None? && b.None? && c.None? && !recording
      ensures !old(recording) && !reset ==>
        a == Some(lastFile) && b == old(a) && c == old(b) && !recording
    {
      if recording {
        return;
      }
      recording := true;
      c := if reset then None else b;
      b := if reset then None else a;
      a := if reset then None else Some(lastFile);
      recording := false;
    }

    /**
     * OdyseusCompareFileListener.on_activated: a view with a file path is
     * recorded unless it is the file recorded last.
     */
    method OnActivated(path: string)
      modifies this
      requires !recording
      ensures path != [] && old(a) != Some(path) ==> a == Some(path) && b == old(a) && c == old(b)
      ensures path == [] || old(a) == Some(path) ==> a == old(a) && b == old(b) && c == old(c)
      ensures !recording
      ensures old(NoRepeat()) ==> NoRepeat()
    {
      if path != [] && a != Some(path) {
        Record(path, false);
      }
    }

    /**
     * run_comparison: with a diff tool, the two (three) most recent files are
     * launched in it and the history is emptied; with fewer files an error is
     * shown and the history kept.  `diffExec` is the tool found in the exec
     * map for this platform, "" when none is.
     */
    method RunComparison(threeWay: bool, diffExec: string) returns (r: Comparison)
      modifies this
      requires !recording
      ensures diffExec == [] ==> r == NoTool
      ensures diffExec != [] && threeWay ==>
        if old(a).Some? && old(b).Some? && old(c).Some?
        then r == Launched([diffExec, old(a).value, old(b).value, old(c).value])
        else r == WrongCount(CountMessage(true))
      ensures diffExec != [] && !threeWay ==>
        if old(a).Some? && old(b).Some?
        then r == Launched([diffExec, old(a).value, old(b).value])
        else r == WrongCount(CountMessage(false))
      ensures r.Launched? ==> a.None? && b.None? && c.None?
      ensures !r.Launched? ==> a == old(a) && b == old(b) && c == old(c)
      ensures !recording
    {
      if diffExec == [] {
        return NoTool;
      }
      var correctCount := true;
      if threeWay {
        if a.Some? && b.Some? && c.Some? {
          r := Launched([diffExec, a.value, b.value, c.value]);
        } else {
          correctCount := false;
        }
      } else {
        if a.Some? && b.Some? {
          r := Launched([diffExec, a.value, b.value]);
        } else {
          correctCount := false;
        }
      }
      if !correctCount {
        r := WrongCount(CountMessage(threeWay));
      } else {
        Record("", true);
      }
    }
  }

  /**
   * Two different files activated one after the other are the two the
   * two-way comparison launches, the latest first; afterwards a second
   * comparison finds no files.
   */
  method CompareTwoAfterActivating(first: string, second: string, diffExec: string)
      returns (r: Comparison, again: Comparison)
    requires first != [] && second != [] && first != second && diffExec != []
    ensures r == Launched([diffExec, second, first])
    ensures again == WrongCount(CountMessage(false))
  {
    var h := new History();
    h.OnActivated(first);
    h.OnActivated(second);
    r := h.RunComparison(false, diffExec);
    again := h.RunComparison(false, diffExec);
  }

  /** Activating the same file twice records it once: three-way needs three different activations. */
  method SameFileTwice(path: string, other: string, diffExec: string) returns (r: Comparison)
    requires path != [] && other != [] && path != other && diffExec != []
    ensures r == WrongCount(CountMessage(true))
  {
    var h := new History();
    h.OnActivated(other);
    h.OnActivated(path);
    h.OnActivated(path);
    r := h.RunComparison(true, diffExec);
  }
}
