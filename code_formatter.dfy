/**
 * The code formatter: the text of the whole file, or of every non-empty
 * selection, goes through an external command; the results are gathered
 * from the formatting jobs as they finish and written back, the selections
 * from the first to the last, each moved by what the replacements before it
 * added to or removed from the buffer.
 */
module CodeFormatter {
  import opened Wrappers
  import opened Strings
  import opened Regions
  import opened Edits
  import opened Host
  import opened Seqs

  const ErrorTitle := "OdyseusCodeFormatterCommand Error:"

  // ----- What to format -----

  /** The whole_file_not_allowed setting: a boolean, or the syntaxes it names. */
  datatype NotAllowed = Flag(value: bool) | Syntaxes(names: seq<string>)

  /**
   * _ody_format_whole_file_allowed; `syntaxMatches` is the host's answer to
   * whether the view's syntax is among the names.
   */
  function WholeFileAllowed(setting: NotAllowed, syntaxMatches: bool): (allowed: bool)
    ensures setting.Flag? ==> (allowed <==> !setting.value)
    ensures setting.Syntaxes? ==> (allowed <==> !syntaxMatches)
  {
    match setting
    case Flag(value) => !value
    case Syntaxes(_) => !syntaxMatches
  }

  /** The whole file is formatted when asked to, or for a single empty caret where that is allowed. */
  predicate FormatsWholeFile(ignoreSelection: bool, sels: seq<Region>, allowed: bool)
  {
    ignoreSelection || (|sels| == 1 && sels[0].Empty() && allowed)
  }

  /** What OdyseusCodeFormatterCommand.run starts. */
  datatype Start = NoCommand(title: string, body: string) | WholeFileJob(job: Job) | SelectionJobsOf(jobs: seq<Job>)

  /**
   * OdyseusCodeFormatterCommand.run for an enabled command: without a command
   * an error panel; the whole buffer as one job; or one job per selection
   * with text in it.
   */
  function StartJobs(command: string, cmdId: string, ignoreSelection: bool, allowed: bool,
                     buf: string, sels: seq<Region>): (st: Start)
    ensures st.NoCommand? <==> command == []
    ensures st.WholeFileJob? <==> command != [] && FormatsWholeFile(ignoreSelection, sels, allowed)
    ensures st.WholeFileJob? ==> st.job == Job(buf, None, Alive)
    ensures st.SelectionJobsOf? ==> st.jobs == SelectionJobs(buf, sels)
  {
    if command == [] then
      NoCommand("OdyseusCodeFormatterCommand: No command set or found.", "cmd_id: `" + cmdId + "`")
    else if FormatsWholeFile(ignoreSelection, sels, allowed) then WholeFileJob(Job(buf, None, Alive))
    else SelectionJobsOf(SelectionJobs(buf, sels))
  }

  /** A selection formatting job is started for every selection with text in it, in order. */
  function SelectionJobs(buf: string, sels: seq<Region>): (jobs: seq<Job>)
    ensures |jobs| <= |sels|
    ensures forall i :: 0 <= i < |jobs| ==> jobs[i].text != [] && jobs[i].state == Alive && jobs[i].region.Some?
  {
    if sels == [] then []
    else
      var text := Substr(buf, sels[0]);
      (if text != [] then [Job(text, Some(sels[0]), Alive)] else []) + SelectionJobs(buf, sels[1..])
  }

  /** Every job holds the text of its selection, inside the buffer and after `from`. */
  lemma {:induction false} SelectionJobsWithin(buf: string, sels: seq<Region>, from: int)
    requires SelectionSet(sels, |buf|) && forall i :: 0 <= i < |sels| ==> from <= sels[i].Begin()
    ensures Within(SelectionJobs(buf, sels), from, |buf|) && HoldTheirText(buf, SelectionJobs(buf, sels))
    decreases |sels|
  {
    if sels != [] {
      var tail := sels[1..];
      assert SelectionSet(tail, |buf|);
      SelectionJobsWithin(buf, tail, from);
    }
  }

  /** For a selection set the jobs' selections keep their order and do not overlap. */
  lemma {:induction false} SelectionJobsApart(buf: string, sels: seq<Region>)
    requires SelectionSet(sels, |buf|)
    ensures JobsApart(SelectionJobs(buf, sels))
    decreases |sels|
  {
    if sels != [] {
      var tail := sels[1..];
      assert SelectionSet(tail, |buf|);
      SelectionJobsApart(buf, tail);
      SelectionJobsWithin(buf, tail, sels[0].End());
    }
  }

  // ----- One job -----

  /** What happens to a formatting job: still running, failed with an error text, or formatted. */
  datatype State = Alive | Failed(error: string) | Formatted(content: string)

  /** A ThreadCall: the text sent to the command, the selection it came from (none for the whole file) and its state. */
  datatype Job = Job(text: string, region: Option<Region>, state: State)

  /** What the external command did: exited with its output and error output, or could not be run. */
  datatype Process = Exited(stdout: string, stderr: string) | Raised(message: string)

  /** The error text of a job. */
  function ErrorReport(cwd: string, cmd: seq<string>, stderr: string): string
  {
    "Working directory: `" + cwd + "`\nCommand `" + Join(cmd, " ") + "`\n```\n" + stderr + "\n```"
  }

  /** The line terminators a trailing one of which is dropped from a selection's result. */
  predicate IsTerminator(t: string) { t == "\r" || t == "\r\n" || t == "\n" }

  /** re.sub(r"(\r|\r\n|\n)\Z", "", s): exactly one trailing line terminator goes. */
  function StripTerminator(s: string): (r: string)
    ensures exists t :: (t == [] || IsTerminator(t)) && s == r + t
    ensures |s| >= 2 && s[|s| - 2..] == "\r\n" ==> r == s[..|s| - 2]
    ensures s != [] && s[|s| - 1] == '\r' ==> r == s[..|s| - 1]
    ensures s != [] && s[|s| - 1] == '\n' && !(|s| >= 2 && s[|s| - 2] == '\r') ==> r == s[..|s| - 1]
    ensures (s == [] || (s[|s| - 1] != '\r' && s[|s| - 1] != '\n')) ==> r == s
  {
    var n := |s|;
    if n >= 2 && s[n - 2..] == "\r\n" then
      assert s == s[..n - 2] + "\r\n";
      s[..n - 2]
    else if n >= 1 && (s[n - 1] == '\r' || s[n - 1] == '\n') then
      assert s == s[..n - 1] + [s[n - 1]];
      s[..n - 1]
    else
      assert s == s + [];
      s
  }

  /** A result that does not end with a line terminator is left alone, so stripping twice strips once. */
  lemma StripTerminatorOnce(s: string)
    requires s == [] || (s[|s| - 1] != '\r' && s[|s| - 1] != '\n')
    ensures StripTerminator(s + "\n") == s && StripTerminator(s + "\r\n") == s && StripTerminator(s + "\r") == s
  {
    assert (s + "\r\n")[|s + "\r\n"| - 2..] == "\r\n";
    assert (s + "\r\n")[..|s|] == s;
    assert (s + "\n")[..|s|] == s;
    assert (s + "\r")[..|s|] == s;
  }

  /**
   * ThreadCall.run: the checks before the command is run, then the command's
   * outcome; a selection's result loses one trailing line terminator.  The
   * text is sent as UTF-8, whose only whitespace bytes are the ASCII ones, so
   * testing its bytes for whitespace is testing its characters for ASCII
   * whitespace.
   */
  function RunJob(cmd: seq<string>, cwd: string, job: Job, process: Process): (st: State)
    ensures st != Alive
    ensures st.Formatted? <==> cmd != [] && !AsciiBlank(job.text) && process.Exited? && process.stderr == []
    ensures AsciiBlank(job.text) && cmd != [] ==> st == Failed(ErrorReport(cwd, cmd, "Empty STDIN."))
    ensures st.Formatted? && job.region.Some? && !job.region.value.Empty() ==> st.content == StripTerminator(process.stdout)
    ensures st.Formatted? && (job.region.None? || job.region.value.Empty()) ==> st.content == process.stdout
  {
    if cmd == [] then Failed(ErrorReport(cwd, cmd, "No command defined."))
    else if AsciiBlank(job.text) then Failed(ErrorReport(cwd, cmd, "Empty STDIN."))
    else
      match process
      case Raised(message) => Failed(ErrorReport(cwd, cmd, message))
      case Exited(stdout, stderr) =>
        if stderr != [] then Failed(ErrorReport(cwd, cmd, stderr))
        else if job.region.Some? && !job.region.value.Empty() then Formatted(StripTerminator(stdout))
        else Formatted(stdout)
  }

  // ----- Waiting for the jobs -----

  function Alives(jobs: seq<Job>): (r: seq<Job>)
    ensures |r| <= |jobs| && forall i :: 0 <= i < |r| ==> r[i].state == Alive
  {
    if jobs == [] then []
    else (if jobs[0].state == Alive then [jobs[0]] else []) + Alives(jobs[1..])
  }

  function Successes(jobs: seq<Job>): (r: seq<Job>)
    ensures |r| <= |jobs| && forall i :: 0 <= i < |r| ==> r[i].state.Formatted?
  {
    if jobs == [] then []
    else (if jobs[0].state.Formatted? then [jobs[0]] else []) + Successes(jobs[1..])
  }

  function Failures(jobs: seq<Job>): nat
  {
    if jobs == [] then 0 else (if jobs[0].state.Failed? then 1 else 0) + Failures(jobs[1..])
  }

  /** The error of the last failed job of the round, or the error carried from the rounds before. */
  function LastError(jobs: seq<Job>, before: Option<string>): Option<string>
    decreases |jobs|
  {
    if jobs == [] then before
    else LastError(jobs[1..], if jobs[0].state.Failed? then Some(jobs[0].state.error) else before)
  }

  /** Every job of a round is carried on, collected or counted as failed, exactly once. */
  lemma {:induction false} RoundPartitions(jobs: seq<Job>)
    ensures |Alives(jobs)| + |Successes(jobs)| + Failures(jobs) == |jobs|
    decreases |jobs|
  {
    if jobs != [] {
      RoundPartitions(jobs[1..]);
    }
  }

  /** Rounds fold from the first job on: the error after a + b is the error after b, starting from a's. */
  lemma {:induction false} LastErrorAppend(a: seq<Job>, b: seq<Job>, before: Option<string>)
    ensures LastError(a + b, before) == LastError(b, LastError(a, before))
    decreases |a|
  {
    if a == [] {
      assert a + b == b;
    } else {
      assert (a + b)[0] == a[0] && (a + b)[1..] == a[1..] + b;
      LastErrorAppend(a[1..], b, if a[0].state.Failed? then Some(a[0].state.error) else before);
    }
  }

  /** With no failed job the earlier error stays. */
  lemma {:induction false} LastErrorNoFailure(jobs: seq<Job>, before: Option<string>)
    requires forall i :: 0 <= i < |jobs| ==> !jobs[i].state.Failed?
    ensures LastError(jobs, before) == before
    decreases |jobs|
  {
    if jobs != [] {
      assert !jobs[0].state.Failed?;
      LastErrorNoFailure(jobs[1..], before);
    }
  }

  /** The error kept is that of the last job that failed. */
  lemma LastErrorIsLast(jobs: seq<Job>, before: Option<string>, k: nat)
    requires k < |jobs| && jobs[k].state.Failed? && forall i :: k < i < |jobs| ==> !jobs[i].state.Failed?
    ensures LastError(jobs, before) == Some(jobs[k].state.error)
  {
    assert jobs == jobs[..k] + jobs[k..];
    LastErrorAppend(jobs[..k], jobs[k..], before);
    var rest := jobs[k..];
    assert rest[1..] == jobs[k + 1..];
    LastErrorNoFailure(jobs[k + 1..], Some(jobs[k].state.error));
  }

  /** The outcome of one round of _ody_handle_threads. */
  datatype Round = Wait(next: seq<Job>, process: seq<Job>, lastError: Option<string>)
                 | Callback(process: seq<Job>, lastError: Option<string>)

  method HandleStep(job: Job, next: seq<Job>, process: seq<Job>, lastError: Option<string>)
      returns (next': seq<Job>, process': seq<Job>, lastError': Option<string>)
    ensures next' == next + (if job.state == Alive then [job] else [])
    ensures process' == process + (if job.state.Formatted? then [job] else [])
    ensures lastError' == if job.state.Failed? then Some(job.state.error) else lastError
  {
    next', process', lastError' := next, process, lastError;
    if job.state == Alive {
      next' := next' + [job];
      return;
    }
    if job.state.Failed? {
      lastError' := Some(job.state.error);
      return;
    }
    process' := process' + [job];
  }

  /** The state of the loop of _ody_handle_threads after the first i jobs. */
  predicate Handled(jobs: seq<Job>, process: seq<Job>, lastError: Option<string>, i: nat,
                    next: seq<Job>, done: seq<Job>, err: Option<string>)
    requires i <= |jobs|
  {
    next + Alives(jobs[i..]) == Alives(jobs)
    && done + Successes(jobs[i..]) == process + Successes(jobs)
    && LastError(jobs[i..], err) == LastError(jobs, lastError)
  }

  lemma HandledAdvance(jobs: seq<Job>, process: seq<Job>, lastError: Option<string>, i: nat,
                       next: seq<Job>, done: seq<Job>, err: Option<string>,
                       next': seq<Job>, done': seq<Job>, err': Option<string>)
    requires i < |jobs| && Handled(jobs, process, lastError, i, next, done, err)
    requires next' == next + (if jobs[i].state == Alive then [jobs[i]] else [])
    requires done' == done + (if jobs[i].state.Formatted? then [jobs[i]] else [])
    requires err' == if jobs[i].state.Failed? then Some(jobs[i].state.error) else err
    ensures Handled(jobs, process, lastError, i + 1, next', done', err')
  {
    assert jobs[i..][1..] == jobs[i + 1..];
    var a := if jobs[i].state == Alive then [jobs[i]] else [];
    var f := if jobs[i].state.Formatted? then [jobs[i]] else [];
    assert Alives(jobs[i..]) == a + Alives(jobs[i + 1..]);
    assert Successes(jobs[i..]) == f + Successes(jobs[i + 1..]);
    ConcatAssoc(next, a, Alives(jobs[i + 1..]));
    ConcatAssoc(done, f, Successes(jobs[i + 1..]));
  }

  /**
   * One round of _ody_handle_threads: running jobs wait for the next round,
   * formatted ones join those to process, failed ones leave their error; the
   * callback comes once no job is running.
   */
  method HandleThreads(jobs: seq<Job>, process: seq<Job>, lastError: Option<string>) returns (round: Round)
    ensures Alives(jobs) == [] ==> round == Callback(process + Successes(jobs), LastError(jobs, lastError))
    ensures Alives(jobs) != [] ==> round == Wait(Alives(jobs), process + Successes(jobs), LastError(jobs, lastError))
  {
    var next: seq<Job> := [];
    var done := process;
    var err := lastError;
    assert jobs[0..] == jobs;
    for i := 0 to |jobs|
      invariant Handled(jobs, process, lastError, i, next, done, err)
    {
      var next', done', err' := HandleStep(jobs[i], next, done, err);
      HandledAdvance(jobs, process, lastError, i, next, done, err, next', done', err');
      next, done, err := next', done', err';
    }
    assert jobs[|jobs|..] == [];
    if next != [] {
      round := Wait(next, done, err);
    } else {
      round := Callback(done, err);
    }
  }

  /** What _ody_handle_thread does with the whole-file job. */
  datatype Next = Poll | Proceed | ShowError(title: string, body: string)

  function HandleThread(job: Job): (n: Next)
    ensures n == Poll <==> job.state == Alive
    ensures n == Proceed <==> job.state.Formatted?
  {
    match job.state
    case Alive => Poll
    case Formatted(_) => Proceed
    case Failed(error) => ShowError(ErrorTitle, error)
  }

  // ----- Writing the results back -----

  /** What the command does once the results are in. */
  datatype Reply = Panel(title: string, body: string)
                 | Status(message: string)
                 | UpdateText(text: string, save: bool)
                 | UpdateRegions(regions: seq<Edit>)

  /**
   * _ody_replace_file: nothing when the result is the text sent (the UTF-8
   * bytes are equal exactly when the strings are); otherwise the whole file
   * gets the result, and is saved if asked.
   */
  function ReplaceFile(job: Job, save: bool): (r: Reply)
    requires job.state.Formatted?
    ensures r == Status("No formatting required") <==> job.state.content == job.text
    ensures r.UpdateText? <==> job.state.content != job.text
    ensures r.UpdateText? ==> r.text == job.state.content && r.save == save
  {
    if job.text == job.state.content then Status("No formatting required")
    else UpdateText(job.state.content, save)
  }

  /** Jobs of selections, formatted. */
  predicate Processed(jobs: seq<Job>)
  {
    forall i :: 0 <= i < |jobs| ==> jobs[i].region.Some? && jobs[i].state.Formatted?
  }

  function Begin(j: Job): int
    requires j.region.Some?
  {
    j.region.value.Begin()
  }

  /** sorted(jobs, key=region.begin()): stable, so jobs with equal begins keep their order. */
  function SortByBegin(jobs: seq<Job>): (out: seq<Job>)
    requires Processed(jobs)
    ensures |out| == |jobs| && Processed(out)
    ensures multiset(out) == multiset(jobs)
  {
    if jobs == [] then []
    else
      assert jobs == [jobs[0]] + jobs[1..];
      InsertByBegin(jobs[0], SortByBegin(jobs[1..]))
  }

  function InsertByBegin(j: Job, sorted: seq<Job>): (out: seq<Job>)
    requires j.region.Some? && j.state.Formatted? && Processed(sorted)
    ensures |out| == |sorted| + 1 && Processed(out)
    ensures multiset(out) == multiset(sorted) + multiset{j}
  {
    if sorted == [] || Begin(j) <= Begin(sorted[0]) then [j] + sorted
    else
      assert sorted == [sorted[0]] + sorted[1..];
      [sorted[0]] + InsertByBegin(j, sorted[1..])
  }

  predicate AscendingBegins(jobs: seq<Job>)
    requires Processed(jobs)
  {
    forall i, j :: 0 <= i < j < |jobs| ==> Begin(jobs[i]) <= Begin(jobs[j])
  }

  lemma ConsAscending(x: Job, s: seq<Job>)
    requires x.region.Some? && x.state.Formatted? && Processed(s) && AscendingBegins(s)
    requires s != [] ==> Begin(x) <= Begin(s[0])
    ensures AscendingBegins([x] + s)
  {
    var out := [x] + s;
    forall i, j | 0 <= i < j < |out| ensures Begin(out[i]) <= Begin(out[j]) {
      if i == 0 && j > 1 {
        assert Begin(s[0]) <= Begin(s[j - 1]);
      }
    }
  }

  lemma {:induction false} InsertByBeginSorted(x: Job, sorted: seq<Job>)
    requires x.region.Some? && x.state.Formatted? && Processed(sorted) && AscendingBegins(sorted)
    ensures AscendingBegins(InsertByBegin(x, sorted))
    ensures InsertByBegin(x, sorted)[0] == if sorted == [] || Begin(x) <= Begin(sorted[0]) then x else sorted[0]
    decreases |sorted|
  {
    if sorted == [] || Begin(x) <= Begin(sorted[0]) {
      ConsAscending(x, sorted);
    } else {
      var tail := sorted[1..];
      InsertByBeginSorted(x, tail);
      ConsAscending(sorted[0], InsertByBegin(x, tail));
    }
  }

  /** The jobs are taken in the order of their selections' begins. */
  lemma {:induction false} SortByBeginSorted(jobs: seq<Job>)
    requires Processed(jobs)
    ensures AscendingBegins(SortByBegin(jobs))
  {
    if jobs != [] {
      SortByBeginSorted(jobs[1..]);
      InsertByBeginSorted(jobs[0], SortByBegin(jobs[1..]));
    }
  }

  /**
   * The replacements issued for jobs taken in order, each moved by `offset`
   * plus what the earlier ones added; a job whose result is its text is
   * skipped.  The growth of a replacement is counted in characters here.
   */
  function UpdateList(jobs: seq<Job>, offset: int): seq<Edit>
    requires Processed(jobs)
    decreases |jobs|
  {
    if jobs == [] then []
    else
      var j := jobs[0];
      var formatted := j.state.content;
      if j.text == formatted then UpdateList(jobs[1..], offset)
      else
        [Edit(j.region.value.Begin() + offset, j.region.value.End() + offset, formatted)]
        + UpdateList(jobs[1..], offset + |formatted| - |j.text|)
  }

  /** As written: the growth subtracts the length of the text in UTF-8 bytes. */
  function UpdateListAsWritten(jobs: seq<Job>, offset: int): seq<Edit>
    requires Processed(jobs)
    decreases |jobs|
  {
    if jobs == [] then []
    else
      var j := jobs[0];
      var formatted := j.state.content;
      if j.text == formatted then UpdateListAsWritten(jobs[1..], offset)
      else
        [Edit(j.region.value.Begin() + offset, j.region.value.End() + offset, formatted)]
        + UpdateListAsWritten(jobs[1..], offset + |formatted| - Utf8Length(j.text))
  }

  /** The number of bytes of a character in UTF-8. */
  function Utf8Size(c: char): nat
  {
    if c < '\U{80}' then 1 else if c < '\U{800}' then 2 else if c < '\U{10000}' then 3 else 4
  }

  function Utf8Length(s: string): (n: nat)
    ensures n >= |s|
  {
    if s == [] then 0 else Utf8Size(s[0]) + Utf8Length(s[1..])
  }

  predicate Ascii(s: string) { forall i :: 0 <= i < |s| ==> s[i] < '\U{80}' }

  lemma {:induction false} Utf8LengthAscii(s: string)
    requires Ascii(s)
    ensures Utf8Length(s) == |s|
    decreases |s|
  {
    if s != [] {
      Utf8LengthAscii(s[1..]);
    }
  }

  /** With ASCII texts the two offsets agree. */
  lemma {:induction false} AsWrittenAscii(jobs: seq<Job>, offset: int)
    requires Processed(jobs) && forall i :: 0 <= i < |jobs| ==> Ascii(jobs[i].text)
    ensures UpdateListAsWritten(jobs, offset) == UpdateList(jobs, offset)
    decreases |jobs|
  {
    if jobs != [] {
      Utf8LengthAscii(jobs[0].text);
      var formatted := jobs[0].state.content;
      AsWrittenAscii(jobs[1..], offset);
      AsWrittenAscii(jobs[1..], offset + |formatted| - |jobs[0].text|);
    }
  }

  /** The edits of the jobs whose result differs, at their selections in the original buffer. */
  function ChangedEdits(jobs: seq<Job>): seq<Edit>
    requires Processed(jobs)
  {
    if jobs == [] then []
    else
      var j := jobs[0];
      (if j.text == j.state.content then [] else [Edit(j.region.value.Begin(), j.region.value.End(), j.state.content)])
      + ChangedEdits(jobs[1..])
  }

  predicate Within(jobs: seq<Job>, from: int, size: int)
  {
    forall i :: 0 <= i < |jobs| ==> jobs[i].region.Some? && from <= jobs[i].region.value.Begin() && jobs[i].region.value.End() <= size
  }

  predicate JobsApart(jobs: seq<Job>)
  {
    forall i, j :: 0 <= i < j < |jobs| && jobs[i].region.Some? && jobs[j].region.Some?
      ==> jobs[i].region.value.End() <= jobs[j].region.value.Begin()
  }

  /** Each job holds the text its selection covers. */
  predicate HoldTheirText(buf: string, jobs: seq<Job>)
  {
    forall i :: 0 <= i < |jobs| ==> jobs[i].region.Some? && jobs[i].text == Substr(buf, jobs[i].region.value)
  }

  /** Each job's text is as long as its selection. */
  predicate SizesMatch(jobs: seq<Job>)
    requires Processed(jobs)
  {
    forall i :: 0 <= i < |jobs| ==> |jobs[i].text| == jobs[i].region.value.End() - jobs[i].region.value.Begin()
  }

  lemma HeldTextsMatch(buf: string, jobs: seq<Job>)
    requires Processed(jobs) && Within(jobs, 0, |buf|) && HoldTheirText(buf, jobs)
    ensures SizesMatch(jobs)
  {
  }

  /** With every job's text as long as its selection, the offsets are the shifts of the edits. */
  lemma {:induction false} UpdateListShifted(jobs: seq<Job>, offset: int)
    requires Processed(jobs) && SizesMatch(jobs)
    ensures UpdateList(jobs, offset) == Shifted(ChangedEdits(jobs), offset)
    decreases |jobs|
  {
    if jobs != [] {
      var j := jobs[0];
      var tail := jobs[1..];
      assert SizesMatch(tail);
      var formatted := j.state.content;
      if j.text == formatted {
        assert ChangedEdits(jobs) == ChangedEdits(tail);
        UpdateListShifted(tail, offset);
      } else {
        var e := Edit(j.region.value.Begin(), j.region.value.End(), formatted);
        var es := ChangedEdits(jobs);
        assert es == [e] + ChangedEdits(tail);
        assert es[0] == e && es[1..] == ChangedEdits(tail);
        assert |j.text| == e.end - e.begin;
        UpdateListShifted(tail, offset + Growth(e));
      }
    }
  }

  lemma {:induction false} ChangedOrdered(jobs: seq<Job>, from: int, size: int)
    requires Processed(jobs) && Within(jobs, from, size) && JobsApart(jobs)
    ensures Ordered(ChangedEdits(jobs), from, size)
    decreases |jobs|
  {
    if jobs != [] {
      var j := jobs[0];
      var tail := jobs[1..];
      assert JobsApart(tail);
      assert Within(tail, from, size);
      assert Within(tail, j.region.value.End(), size);
      ChangedOrdered(tail, from, size);
      ChangedOrdered(tail, j.region.value.End(), size);
      if j.text == j.state.content {
        assert ChangedEdits(jobs) == ChangedEdits(tail);
      } else {
        var e := Edit(j.region.value.Begin(), j.region.value.End(), j.state.content);
        assert ChangedEdits(jobs) == [e] + ChangedEdits(tail);
        assert ([e] + ChangedEdits(tail))[1..] == ChangedEdits(tail);
      }
    }
  }

  /**
   * Applying the issued replacements one after the other replaces every
   * selection whose result differs by that result, all at one time, in the
   * buffer the selections were read from.
   */
  lemma SelectionsApplied(buf: string, jobs: seq<Job>)
    requires Processed(jobs) && Within(jobs, 0, |buf|) && JobsApart(jobs) && HoldTheirText(buf, jobs)
    ensures Ordered(ChangedEdits(jobs), 0, |buf|)
    ensures ApplyInOrder(buf, UpdateList(jobs, 0)) == Splice(buf, ChangedEdits(jobs))
  {
    ChangedOrdered(jobs, 0, |buf|);
    HeldTextsMatch(buf, jobs);
    UpdateListShifted(jobs, 0);
    ShiftedIsSplice(buf, ChangedEdits(jobs));
  }

  /** Two jobs whose selections do not overlap, in one order or the other. */
  predicate Disjoint(x: Job, y: Job)
  {
    x.region.Some? && y.region.Some?
    && (x.region.value.End() <= y.region.value.Begin() || y.region.value.End() <= x.region.value.Begin())
  }

  /**
   * Jobs of different selections of a selection set, in any order: every
   * selection has text, so is not empty, and no two overlap.
   */
  predicate Separate(jobs: seq<Job>)
  {
    (forall i :: 0 <= i < |jobs| ==> jobs[i].region.Some? && !jobs[i].region.value.Empty())
    && (forall i, j :: 0 <= i < |jobs| && 0 <= j < |jobs| && i != j ==> Disjoint(jobs[i], jobs[j]))
  }

  /** The jobs started for a selection set are separate. */
  lemma SelectionJobsSeparate(buf: string, sels: seq<Region>)
    requires SelectionSet(sels, |buf|)
    ensures Separate(SelectionJobs(buf, sels))
  {
    var jobs := SelectionJobs(buf, sels);
    SelectionJobsWithin(buf, sels, 0);
    SelectionJobsApart(buf, sels);
    forall i | 0 <= i < |jobs| ensures !jobs[i].region.value.Empty() {
      assert jobs[i].text == Substr(buf, jobs[i].region.value);
    }
  }

  /** A value at two places of a sequence is there at least twice. */
  lemma TwoPlaces<T>(b: seq<T>, i: nat, j: nat)
    requires i < j < |b| && b[i] == b[j]
    ensures multiset(b)[b[i]] >= 2
  {
    assert b == b[..j] + [b[j]] + b[j + 1..];
    assert b[..j][i] == b[i];
    assert multiset(b[..j])[b[i]] >= 1;
  }

  /** A value there at least twice is at two places. */
  lemma TwoCopies<T>(a: seq<T>, x: T) returns (p: nat, q: nat)
    requires multiset(a)[x] >= 2
    ensures p < |a| && q < |a| && p != q && a[p] == x && a[q] == x
  {
    assert x in multiset(a);
    p :| 0 <= p < |a| && a[p] == x;
    assert a == a[..p] + [a[p]] + a[p + 1..];
    var rest := a[..p] + a[p + 1..];
    assert multiset(a) == multiset(rest) + multiset{x};
    assert x in multiset(rest);
    var k :| 0 <= k < |rest| && rest[k] == x;
    q := if k < p then k else k + 1;
  }

  /** Finishing in another order keeps the jobs separate. */
  lemma SeparatePermutes(a: seq<Job>, b: seq<Job>)
    requires multiset(a) == multiset(b) && Separate(a)
    ensures Separate(b)
  {
    forall i | 0 <= i < |b| ensures b[i].region.Some? && !b[i].region.value.Empty() {
      assert b[i] in multiset(a);
    }
    forall i, j | 0 <= i < |b| && 0 <= j < |b| && i != j ensures Disjoint(b[i], b[j]) {
      assert b[i] in multiset(a) && b[j] in multiset(a);
      var p :| 0 <= p < |a| && a[p] == b[i];
      var q :| 0 <= q < |a| && a[q] == b[j];
      if p == q {
        if i < j { TwoPlaces(b, i, j); } else { TwoPlaces(b, j, i); }
        var p', q' := TwoCopies(a, b[i]);
        assert Disjoint(a[p'], a[q']);
      } else {
        assert Disjoint(a[p], a[q]);
      }
    }
  }

  /** Finishing in another order keeps every job inside the buffer, holding its text. */
  lemma HeldPermutes(buf: string, a: seq<Job>, b: seq<Job>)
    requires multiset(a) == multiset(b) && Processed(a) && Within(a, 0, |buf|) && HoldTheirText(buf, a)
    ensures Processed(b) && Within(b, 0, |buf|) && HoldTheirText(buf, b)
  {
    forall i | 0 <= i < |b|
      ensures b[i].region.Some? && b[i].state.Formatted? && 0 <= b[i].region.value.Begin()
        && b[i].region.value.End() <= |buf| && b[i].text == Substr(buf, b[i].region.value)
    {
      assert b[i] in multiset(a);
      var p :| 0 <= p < |a| && a[p] == b[i];
    }
  }

  /** Separate jobs sorted by their begins are in the order of their selections. */
  lemma SortedApart(jobs: seq<Job>)
    requires Processed(jobs) && Separate(jobs) && AscendingBegins(jobs)
    ensures JobsApart(jobs)
  {
    forall i, j | 0 <= i < j < |jobs| ensures jobs[i].region.value.End() <= jobs[j].region.value.Begin() {
      assert Disjoint(jobs[i], jobs[j]);
      assert Begin(jobs[i]) <= Begin(jobs[j]);
    }
  }

  /**
   * Whatever order the selection jobs finish in, the replacements
   * _ody_replace_selections issues, applied one after the other, replace every
   * selection whose result differs by that result, all in the buffer the
   * selections were read from.
   */
  lemma FinishedSelectionsApplied(buf: string, done: seq<Job>)
    requires Processed(done) && Within(done, 0, |buf|) && HoldTheirText(buf, done) && Separate(done)
    ensures var sorted := SortByBegin(done);
      Ordered(ChangedEdits(sorted), 0, |buf|)
      && ApplyInOrder(buf, UpdateList(sorted, 0)) == Splice(buf, ChangedEdits(sorted))
  {
    var sorted := SortByBegin(done);
    SortByBeginSorted(done);
    SeparatePermutes(done, sorted);
    HeldPermutes(buf, done, sorted);
    SortedApart(sorted);
    SelectionsApplied(buf, sorted);
  }

  /** The buffer, the two selections and their results that show the byte-count offset going wrong. */
  function ExampleJobs(): (jobs: seq<Job>)
    ensures Processed(jobs)
  {
    [Job("é", Some(Region(0, 1)), Formatted("e")), Job("a", Some(Region(2, 3)), Formatted("b"))]
  }

  lemma ExampleIsSelections()
    ensures Within(ExampleJobs(), 0, |"éxa"|) && JobsApart(ExampleJobs()) && HoldTheirText("éxa", ExampleJobs())
  {
    assert Substr("éxa", Region(0, 1)) == "é";
    assert Substr("éxa", Region(2, 3)) == "a";
  }

  lemma ExampleSplice()
    ensures Ordered(ChangedEdits(ExampleJobs()), 0, 3) && Splice("éxa", ChangedEdits(ExampleJobs())) == "exb"
  {
    var buf := "éxa";
    var es := ChangedEdits(ExampleJobs());
    assert es == [Edit(0, 1, "e"), Edit(2, 3, "b")];
    assert es[1..][1..] == [];
    assert SpliceFrom(buf, es[1..], 1) == buf[1..2] + "b" + buf[3..];
    assert Splice(buf, es) == buf[0..0] + "e" + SpliceFrom(buf, es[1..], 1);
  }

  lemma ExampleAsWritten()
    ensures ApplyInOrder("éxa", UpdateListAsWritten(ExampleJobs(), 0)) == "eba"
  {
    var jobs := ExampleJobs();
    assert Utf8Length("é") == 2;
    var w := UpdateListAsWritten(jobs, 0);
    assert w == [Edit(0, 1, "e"), Edit(1, 2, "b")];
    assert ReplaceRegion("éxa", Region(0, 1), "e") == "exa";
    assert ReplaceRegion("exa", Region(1, 2), "b") == "eba";
    assert ApplyInOrder("eba", w[2..]) == "eba";
    assert ApplyInOrder("exa", w[1..]) == ApplyInOrder("eba", w[2..]);
  }

  /**
   * As written, a two-byte character in the first selection moves the second
   * replacement one character too far to the left: "éxa" becomes "eba"; the
   * replacements as intended give "exb".
   */
  lemma OffsetCountsBytes()
    ensures var buf := "éxa"; var jobs := ExampleJobs();
      Processed(jobs) && Within(jobs, 0, |buf|) && JobsApart(jobs) && HoldTheirText(buf, jobs)
      && Ordered(ChangedEdits(jobs), 0, |buf|)
      && ApplyInOrder(buf, UpdateList(jobs, 0)) == Splice(buf, ChangedEdits(jobs)) == "exb"
      && ApplyInOrder(buf, UpdateListAsWritten(jobs, 0)) == "eba"
  {
    ExampleIsSelections();
    ExampleSplice();
    ExampleAsWritten();
    SelectionsApplied("éxa", ExampleJobs());
  }

  /** One job of the loop of _ody_replace_selections. */
  method UpdateStep(job: Job, offset: int) returns (region: Option<Edit>, offset': int)
    requires job.region.Some? && job.state.Formatted?
    ensures job.text == job.state.content ==> region == None && offset' == offset
    ensures job.text != job.state.content ==>
      region == Some(Edit(job.region.value.Begin() + offset, job.region.value.End() + offset, job.state.content))
      && offset' == offset + |job.state.content| - |job.text|
  {
    var formatted := job.state.content;
    if job.text == formatted {
      return None, offset;
    }
    var r := job.region.value;
    if offset != 0 {
      region := Some(Edit(r.Begin() + offset, r.End() + offset, formatted));
    } else {
      region := Some(Edit(r.Begin(), r.End(), formatted));
    }
    offset' := offset + |formatted| - |job.text|;
  }

  lemma UpdateListAt(sorted: seq<Job>, i: nat, offset: int, region: Option<Edit>, offset': int)
    requires Processed(sorted) && i < |sorted|
    requires var job := sorted[i];
      (job.text == job.state.content ==> region == None && offset' == offset)
      && (job.text != job.state.content ==>
        region == Some(Edit(job.region.value.Begin() + offset, job.region.value.End() + offset, job.state.content))
        && offset' == offset + |job.state.content| - |job.text|)
    ensures UpdateList(sorted[i..], offset)
      == (if region.Some? then [region.value] else []) + UpdateList(sorted[i + 1..], offset')
  {
    assert sorted[i..][1..] == sorted[i + 1..];
  }

  /** The loop of _ody_replace_selections, over the jobs in order of their begins. */
  method Updates(sorted: seq<Job>) returns (regions: seq<Edit>)
    requires Processed(sorted)
    ensures regions == UpdateList(sorted, 0)
  {
    var offset := 0;
    regions := [];
    for i := 0 to |sorted|
      invariant regions + UpdateList(sorted[i..], offset) == UpdateList(sorted, 0)
    {
      var region, offset' := UpdateStep(sorted[i], offset);
      UpdateListAt(sorted, i, offset, region, offset');
      ghost var before := regions;
      if region.Some? {
        regions := regions + [region.value];
        ConcatAssoc(before, [region.value], UpdateList(sorted[i + 1..], offset'));
      }
      offset := offset';
    }
  }

  /** _ody_replace_selections: the error of the round if there was one, else the replacements, if any. */
  method ReplaceSelections(jobs: seq<Job>, lastError: Option<string>) returns (reply: Reply)
    requires Processed(jobs)
    ensures lastError.Some? && lastError.value != [] ==> reply == Panel(ErrorTitle, lastError.value)
    ensures !(lastError.Some? && lastError.value != []) ==>
      var regions := UpdateList(SortByBegin(jobs), 0);
      reply == if regions != [] then UpdateRegions(regions) else Status("Nothing to format")
  {
    if lastError.Some? && lastError.value != [] {
      return Panel(ErrorTitle, lastError.value);
    }
    var regions := Updates(SortByBegin(jobs));
    if regions != [] {
      reply := UpdateRegions(regions);
    } else {
      reply := Status("Nothing to format");
    }
  }

  /** With no job whose result differs nothing is issued. */
  lemma {:induction false} NothingChanged(jobs: seq<Job>, offset: int)
    requires Processed(jobs) && forall i :: 0 <= i < |jobs| ==> jobs[i].text == jobs[i].state.content
    ensures UpdateList(jobs, offset) == []
    decreases |jobs|
  {
    if jobs != [] {
      NothingChanged(jobs[1..], offset);
    }
  }

  // ----- OdyseusUpdateContentCommand -----

  /** The whole-view text: a final "\n" added when the view wants one at the end of the file. */
  function EofText(text: string, ensureNewline: bool): (r: string)
    ensures r == text || r == text + "\n"
    ensures ensureNewline ==> EndsWith(r, "\n")
    ensures !ensureNewline ==> r == text
  {
    if ensureNewline && !EndsWith(text, "\n") then text + "\n" else text
  }

  lemma EofTextIdempotent(text: string, ensureNewline: bool)
    ensures EofText(EofText(text, ensureNewline), ensureNewline) == EofText(text, ensureNewline)
  {
  }

  method ReplaceAll(v: View, regions: seq<Edit>)
    modifies v
    ensures v.buffer == ApplyInOrder(old(v.buffer), regions)
  {
    ghost var b0 := v.buffer;
    for i := 0 to |regions|
      invariant v.buffer == ApplyInOrder(b0, regions[..i])
    {
      assert regions[..i + 1] == regions[..i] + [regions[i]];
      ApplyInOrderSnoc(b0, regions[..i], regions[i]);
      v.Replace(Region(regions[i].begin, regions[i].end), regions[i].text);
    }
    assert regions[..|regions|] == regions;
  }

  /**
   * OdyseusUpdateContentCommand.run: a non-empty text replaces the whole view
   * (the host's merge of old and new text is taken to yield the new text);
   * otherwise the regions are replaced one after the other.
   */
  method UpdateContent(v: View, text: string, regions: seq<Edit>, ensureNewline: bool)
    modifies v
    ensures text != [] ==> v.buffer == EofText(text, ensureNewline)
    ensures text == [] ==> v.buffer == ApplyInOrder(old(v.buffer), regions)
  {
    if text != [] {
      v.Replace(Region(0, |v.buffer|), EofText(text, ensureNewline));
    } else if regions != [] {
      ReplaceAll(v, regions);
    }
  }
}
