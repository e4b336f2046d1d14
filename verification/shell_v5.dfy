/**
 * The main loop of Assignment01/myshellv5.c: record the line, strip a
 * trailing `&`, split on spaces, run the builtins `cd`, `exit`, `jobs`,
 * `kill` and `help` in the shell itself, fork for anything else, and
 * register a background child in the job table. This version has no `!`
 * expansion: a `!` line is only kept out of the history.
 */
module ShellV5 {
  import opened Text
  import opened History
  import opened Input
  import opened Jobs

  datatype Builtin =
    | ChangeDirectory(dir: Option<string>)   // None: "cd: missing argument"
    | ExitShell
    | ListJobs
    | KillJob(index: Option<int>)            // zero-based; None: "kill: missing job number"
    | Help

  /** is_builtin_command. */
  predicate IsBuiltin(args: seq<string>)
    requires |args| > 0
  {
    args[0] == "cd" || args[0] == "exit" || args[0] == "jobs" || args[0] == "kill" || args[0] == "help"
  }

  /** execute_builtin_command: the action the first word selects, with its
      argument when one was given; None for anything that is not a builtin. */
  function BuiltinFor(args: seq<string>): (r: Option<Builtin>)
    requires |args| > 0
    ensures r.Some? <==> IsBuiltin(args)
    ensures args[0] == "cd" ==> r == Some(ChangeDirectory(if |args| >= 2 then Some(args[1]) else None))
    ensures args[0] == "exit" ==> r == Some(ExitShell)
    ensures args[0] == "jobs" ==> r == Some(ListJobs)
    ensures args[0] == "kill" ==> r == Some(KillJob(if |args| >= 2 then Some(Atoi(args[1]) - 1) else None))
    ensures args[0] == "help" ==> r == Some(Help)
  {
    if args[0] == "cd" then Some(ChangeDirectory(if |args| >= 2 then Some(args[1]) else None))
    else if args[0] == "exit" then Some(ExitShell)
    else if args[0] == "jobs" then Some(ListJobs)
    else if args[0] == "kill" then Some(KillJob(if |args| >= 2 then Some(Atoi(args[1]) - 1) else None))
    else if args[0] == "help" then Some(Help)
    else None
  }

  datatype Outcome =
    | NothingToRun                                  // no tokens
    | RanBuiltin(action: Builtin, signalled: Option<int>)  // signalled: the pid `kill` targets
    | ForkFailed                                    // "Fork failed", exit(1)
    | InChild(argv: seq<string>)                    // the child execvp's argv
    | Waited(pid: int)                              // foreground child, waited for
    | Started(pid: int, number: Option<nat>)        // background child; None: table full

  /** The command text the source copies into the job table, as written:
      `input` after the `strtok` loop, which has cut it after its first
      word. */
  function RegisteredAsWritten(text: string): (r: string)
    ensures |r| <= |text| && r == text[..|r|]
  {
    FirstCut(text, ArgDelims, false)
  }

  /** The job command a background line is recorded under: the line with
      its `&` removed (the corrected behaviour; see RegisteredAsWritten). */
  function Registered(text: string): (r: string)
    ensures Argv(r) == Argv(text)
  {
    text
  }

  /** One line of input, given the job table `js` and the result `forkPid`
      of the `fork` the line would cause: the outcome and the job table
      after it. */
  function Dispatch(js: seq<Job>, line: string, forkPid: int): (r: (Outcome, seq<Job>))
    requires |line| > 0
    ensures r.1 == js || (r.0.Started? && r.0.number == Some(|js| + 1) && |js| < MaxJobs &&
                          r.1 == js + [Job(forkPid, Registered(StripBackground(line).1))])
    ensures r.0.Started? ==> line[|line| - 1] == '&' && r.0.pid == forkPid > 0
    // a line without words runs nothing
    ensures Argv(StripBackground(line).1) == [] ==> r == (NothingToRun, js)
    // a builtin runs in the shell; `kill` signals the pid kill_job picks
    ensures var args := Argv(StripBackground(line).1);
      args != [] && IsBuiltin(args) ==>
        r.1 == js && r.0.RanBuiltin? && BuiltinFor(args) == Some(r.0.action) &&
        r.0.signalled == (if r.0.action.KillJob? && r.0.action.index.Some?
                          then KillTargetOf(js, r.0.action.index.value) else None)
    // anything else forks
    ensures var args := Argv(StripBackground(line).1);
      args != [] && !IsBuiltin(args) && forkPid < 0 ==> r == (ForkFailed, js)
    ensures var args := Argv(StripBackground(line).1);
      args != [] && !IsBuiltin(args) && forkPid == 0 ==> r == (InChild(args), js)
    ensures var args := Argv(StripBackground(line).1);
      args != [] && !IsBuiltin(args) && forkPid > 0 && !StripBackground(line).0 ==>
        r == (Waited(forkPid), js)
    ensures var args := Argv(StripBackground(line).1);
      args != [] && !IsBuiltin(args) && forkPid > 0 && StripBackground(line).0 ==>
        r == if |js| < MaxJobs
             then (Started(forkPid, Some(|js| + 1)), js + [Job(forkPid, Registered(StripBackground(line).1))])
             else (Started(forkPid, None), js)
  {
    var (bg, text) := StripBackground(line);
    var args := Argv(text);
    if args == [] then (NothingToRun, js)
    else
      match BuiltinFor(args)
      case Some(b) =>
        var target := if b.KillJob? && b.index.Some? then KillTargetOf(js, b.index.value) else None;
        (RanBuiltin(b, target), js)
      case None =>
        if forkPid < 0 then (ForkFailed, js)
        else if forkPid == 0 then (InChild(args), js)
        else if !bg then (Waited(forkPid), js)
        else if |js| < MaxJobs then (Started(forkPid, Some(|js| + 1)), js + [Job(forkPid, Registered(text))])
        else (Started(forkPid, None), js)
  }

  /** A builtin never forks and never touches the job table, whatever `fork`
      would have returned; a trailing `&` does not send it to the background. */
  lemma BuiltinsDoNotFork(js: seq<Job>, line: string, forkPid: int, other: int)
    requires |line| > 0
    requires var args := Argv(StripBackground(line).1); args != [] && IsBuiltin(args)
    ensures Dispatch(js, line, forkPid).0.RanBuiltin?
    ensures Dispatch(js, line, forkPid) == Dispatch(js, line, other)
    ensures Dispatch(js, line, forkPid).1 == js
  {
  }

  /** A started background job is listed under the number announced for
      it, with the command that ran, word for word. */
  lemma StartedJobIsListed(js: seq<Job>, line: string, forkPid: int)
    requires |line| > 0
    requires Dispatch(js, line, forkPid).0.Started? && Dispatch(js, line, forkPid).0.number.Some?
    ensures var (out, js') := Dispatch(js, line, forkPid);
      var n := out.number.value;
      1 <= n <= |js'| && JobLines(js')[n - 1].1 == forkPid &&
      Argv(JobLines(js')[n - 1].2) == Argv(StripBackground(line).1)
  {
  }

  /** The words of `kill N`. */
  lemma KillLineWords(n: nat)
    ensures |"kill " + DecimalString(n)| > 0
    ensures StripBackground("kill " + DecimalString(n)) == (false, "kill " + DecimalString(n))
    ensures Argv("kill " + DecimalString(n)) == ["kill", DecimalString(n)]
  {
    var d := DecimalString(n);
    assert d[|d| - 1] in d;
    assert ("kill " + d)[|"kill " + d| - 1] == d[|d| - 1];
    assert IsToken("kill", ArgDelims);
    assert IsToken(d, ArgDelims);
    assert Join(["kill", d], ' ') == "kill " + d by {
      assert ["kill", d][1..] == [d];
    }
    TokenizeJoin(["kill", d], ' ', ArgDelims);
  }

  /** `kill N`, with N the number a background job was announced under,
      signals that job's pid. */
  lemma KillStartedJob(js: seq<Job>, line: string, forkPid: int, later: int)
    requires |line| > 0
    requires Dispatch(js, line, forkPid).0.Started? && Dispatch(js, line, forkPid).0.number.Some?
    ensures var (out, js') := Dispatch(js, line, forkPid);
      var n := out.number.value;
      Dispatch(js', "kill " + DecimalString(n), later).0 == RanBuiltin(KillJob(Some(n - 1)), Some(forkPid))
  {
    var (out, js') := Dispatch(js, line, forkPid);
    var n := out.number.value;
    KillLineWords(n);
    AtoiDecimal(n, []);
    assert DecimalString(n) + [] == DecimalString(n);
  }

  /** Whatever the words of a background line, the command stored as
      written splits to its first word alone. */
  lemma AsWrittenKeepsFirstWord(text: string)
    requires Argv(text) != []
    ensures Argv(RegisteredAsWritten(text)) == [Argv(text)[0]]
  {
    FirstCutTokens(text, ArgDelims);
  }

  /** `sleep 10 &` is listed by `jobs` as just `sleep` in the source. */
  lemma AsWrittenDropsArguments()
    ensures RegisteredAsWritten("sleep 10 ") == "sleep"
    ensures Argv(RegisteredAsWritten("sleep 10 ")) != Argv(Registered("sleep 10 "))
  {
    SleepCut();
    SleepWords();
    AsWrittenKeepsFirstWord("sleep 10 ");
  }

  lemma SleepCut()
    ensures FirstCut("sleep 10 ", ArgDelims, false) == "sleep"
  {
    var s := "sleep 10 ";
    assert s[5] == ' ' && s[..5] == "sleep";
    assert FirstCut(s[5..], ArgDelims, true) == [];
    assert FirstCut(s[4..], ArgDelims, true) == "p";
    assert FirstCut(s[3..], ArgDelims, true) == "ep";
    assert FirstCut(s[2..], ArgDelims, true) == "eep";
    assert FirstCut(s[1..], ArgDelims, true) == "leep";
  }

  lemma SleepWords()
    ensures Argv("sleep 10 ") == ["sleep", "10"]
  {
    assert Join(["sleep", "10"], ' ') == "sleep 10" by {
      assert ["sleep", "10"][1..] == ["10"];
    }
    assert IsToken("sleep", ArgDelims) && IsToken("10", ArgDelims);
    TokenizeJoin(["sleep", "10"], ' ', ArgDelims);
    assert "sleep 10 " == "sleep 10" + " ";
    TrailingDelim("sleep 10", ' ', ArgDelims);
  }

  class Shell {
    const history: HistoryBuffer
    const jobs: JobTable

    ghost predicate Valid()
      reads this, history, history.slots, jobs, jobs.jobs
    {
      history.Valid() && jobs.Valid()
    }

    constructor ()
      ensures Valid() && fresh(history) && fresh(history.slots) && fresh(jobs) && fresh(jobs.jobs)
      ensures history.Entries() == [] && jobs.Contents() == []
    {
      history := new HistoryBuffer();
      jobs := new JobTable();
    }

    /** One iteration of the loop after `fgets`; `forkPid` is what `fork`
        returns if the line reaches it. */
    method HandleLine(line: string, forkPid: int) returns (outcome: Outcome)
      requires Valid() && |line| > 0
      modifies history, history.slots, jobs, jobs.jobs
      ensures Valid() && history.slots == old(history.slots) && jobs.jobs == old(jobs.jobs)
      ensures history.Entries() ==
                if Recordable(line) then Recorded(old(history.Entries()), line)
                else old(history.Entries())
      ensures (outcome, jobs.Contents()) == Dispatch(old(jobs.Contents()), line, forkPid)
    {
      if Recordable(line) {
        history.Add(line);
      }
      var input := line;
      var bg := false;
      if input[|input| - 1] == '&' {
        bg := true;
        input := input[..|input| - 1];
      }
      var args := SplitArgs(input);
      if |args| == 0 {
        return NothingToRun;
      }
      var builtin := BuiltinFor(args);
      if builtin.Some? {
        var target := None;
        if builtin.value.KillJob? && builtin.value.index.Some? {
          target := jobs.KillTarget(builtin.value.index.value);
        }
        return RanBuiltin(builtin.value, target);
      }
      if forkPid < 0 {
        return ForkFailed;
      }
      if forkPid == 0 {
        return InChild(args);
      }
      if bg {
        var number := jobs.Register(forkPid, Registered(input));
        return Started(forkPid, number);
      }
      return Waited(forkPid);
    }

    /** sigchld_handler, run when the children in `finished` have exited. */
    method ChildrenExited(finished: set<int>) returns (reaped: seq<Job>)
      requires Valid()
      modifies jobs, jobs.jobs
      ensures Valid() && jobs.jobs == old(jobs.jobs)
      ensures jobs.Contents() == Survivors(old(jobs.Contents()), finished)
      ensures reaped == Reaped(old(jobs.Contents()), finished)
      ensures history.Entries() == old(history.Entries())
    {
      reaped := jobs.Reap(finished);
    }
  }
}
