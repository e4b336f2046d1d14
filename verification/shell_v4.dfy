/**
 * The main loop of Assignment01/myshellv4.c around `fork`/`execvp`: record
 * the line, expand a `!` reference against the history, strip a trailing
 * `&`, split the result on spaces. The numbers `!N` and `!-N` are read
 * with atoi and resolved through `get_history_index`; they name buffer
 * slots, which the shift on overflow renumbers.
 */
module ShellV4 {
  import opened Text
  import opened History
  import opened Input

  /** get_history_index: a negative index counts back from the count. */
  function GetHistoryIndex(count: nat, index: int): (r: int)
    ensures index >= 0 ==> r == index
    ensures index < 0 ==> r == count + index
    ensures 0 <= count + index && index < 0 ==> 0 <= r < count
    ensures count + index < 0 ==> r < 0
  {
    if index < 0 then count + index else index
  }

  predicate IsReference(line: string)
  {
    |line| > 0 && line[0] == '!'
  }

  /** The index `main` computes from a `!` line before get_history_index:
      `!-N` gives -N, `!N` gives N-1 (so `!0`, and `!` alone, give -1). */
  function ReferenceIndex(line: string): int
    requires IsReference(line)
  {
    if |line| > 1 && line[1] == '-' then -Atoi(line[2..]) else Atoi(line[1..]) - 1
  }

  /** The line that replaces `line`, or None when a reference is out of
      range and the line is discarded. Only indices in [0, count) are read. */
  function Expand(h: seq<string>, line: string): (r: Option<string>)
    ensures !IsReference(line) ==> r == Some(line)
    ensures IsReference(line) && r.Some? ==> r.value in h
  {
    if IsReference(line) then
      var i := GetHistoryIndex(|h|, ReferenceIndex(line));
      if 0 <= i < |h| then Some(h[i]) else None
    else Some(line)
  }

  /** `!N` is slot N (counting from 1); past the count it is rejected. */
  lemma ExpandAbsolute(h: seq<string>, n: nat, rest: string)
    requires 1 <= n
    requires rest == [] || !IsDigit(rest[0])
    ensures Expand(h, "!" + DecimalString(n) + rest) == if n <= |h| then Some(h[n - 1]) else None
  {
    var line := "!" + DecimalString(n) + rest;
    assert DecimalString(n)[0] in DecimalString(n);
    assert line[1] == DecimalString(n)[0];
    assert line[1..] == DecimalString(n) + rest;
    AtoiDecimal(n, rest);
  }

  /** `!-N` is the N-th entry back from the newest; past the count it is
      rejected. */
  lemma ExpandRelative(h: seq<string>, n: nat, rest: string)
    requires 1 <= n
    requires rest == [] || !IsDigit(rest[0])
    ensures Expand(h, "!-" + DecimalString(n) + rest) == if n <= |h| then Some(h[|h| - n]) else None
  {
    var line := "!-" + DecimalString(n) + rest;
    assert line[1] == '-';
    assert line[2..] == DecimalString(n) + rest;
    AtoiDecimal(n, rest);
  }

  /** `!0`, a bare `!`, or `!` followed by anything atoi reads as 0 (and not
      starting with `-`) resolves to the newest entry. */
  lemma ExpandZeroIsNewest(h: seq<string>, rest: string)
    requires rest == [] || rest[0] != '-'
    requires Atoi(rest) == 0
    ensures Expand(h, "!" + rest) == if |h| > 0 then Some(h[|h| - 1]) else None
  {
    var line := "!" + rest;
    assert line[1..] == rest;
    if |line| > 1 {
      assert line[1] == rest[0];
    }
  }

  /** `!-` followed by what atoi reads as 0 resolves to slot 1, the oldest
      entry: get_history_index leaves the index 0 unchanged. */
  lemma ExpandMinusZeroIsOldest(h: seq<string>, rest: string)
    requires Atoi(rest) == 0
    ensures Expand(h, "!-" + rest) == if |h| > 0 then Some(h[0]) else None
  {
    var line := "!-" + rest;
    assert line[1] == '-' && line[2..] == rest;
  }

  /** Every number `print_history` shows, typed after `!`, brings back the
      entry shown beside it. */
  lemma ListedNumbersExpand(h: seq<string>, k: nat)
    requires k < |h|
    ensures Expand(h, "!" + DecimalString(Numbered(h)[k].0)) == Some(Numbered(h)[k].1)
  {
    ExpandAbsolute(h, k + 1, []);
    assert "!" + DecimalString(k + 1) + [] == "!" + DecimalString(k + 1);
  }

  /** Once more than ten lines have been recorded, `!N` no longer names the
      N-th line typed: after the run `cmds`, `!N` is the N-th of the last ten. */
  lemma AbsoluteAfterEviction(cmds: seq<string>, n: nat)
    requires |cmds| >= HistorySize && 1 <= n <= HistorySize
    ensures Expand(RecordAll([], cmds), "!" + DecimalString(n)) == Some(cmds[|cmds| - HistorySize + n - 1])
  {
    RecordAllKeepsLastTen([], cmds);
    assert [] + cmds == cmds;
    ExpandAbsolute(RecordAll([], cmds), n, []);
    assert "!" + DecimalString(n) + [] == "!" + DecimalString(n);
  }

  datatype Outcome =
    | NotInHistory                                  // "No such command in history."; line dropped
    | NothingToRun                                  // no tokens: nothing is forked
    | Run(argv: seq<string>, background: bool)      // fork and execvp argv[0]

  /** What the loop does with `line`, given the history `h` after recording. */
  function LineOutcome(h: seq<string>, line: string): Outcome
    requires |line| > 0
    requires forall e :: e in h ==> Recordable(e)
  {
    match Expand(h, line)
    case None => NotInHistory
    case Some(cmd) =>
      assert cmd == line || Recordable(cmd);
      var (bg, text) := StripBackground(cmd);
      if Argv(text) == [] then NothingToRun else Run(Argv(text), bg)
  }

  /** The `&` check runs on the expanded line: a recalled `cmd &` runs in
      the background even though the `!` line itself had no `&`. */
  lemma RecalledBackground(h: seq<string>, k: nat)
    requires forall e :: e in h ==> Recordable(e)
    requires k < |h| && |h[k]| > 0 && h[k][|h[k]| - 1] == '&' && Argv(h[k][..|h[k]| - 1]) != []
    ensures LineOutcome(h, "!" + DecimalString(k + 1)) == Run(Argv(h[k][..|h[k]| - 1]), true)
  {
    ExpandAbsolute(h, k + 1, []);
    assert "!" + DecimalString(k + 1) + [] == "!" + DecimalString(k + 1);
  }

  class Shell {
    const history: HistoryBuffer
    var jobNumber: nat

    ghost predicate Valid()
      reads this, history, history.slots
    {
      history.Valid() && forall e :: e in history.Entries() ==> Recordable(e)
    }

    constructor ()
      ensures Valid() && fresh(history) && fresh(history.slots)
      ensures history.Entries() == [] && jobNumber == 0
    {
      history := new HistoryBuffer();
      jobNumber := 0;
    }

    /** One iteration of the loop after `fgets`, up to the fork. */
    method ReadLine(line: string) returns (outcome: Outcome)
      requires Valid() && |line| > 0
      modifies this, history, history.slots
      ensures Valid() && history.slots == old(history.slots)
      ensures history.Entries() ==
                if Recordable(line) then Recorded(old(history.Entries()), line)
                else old(history.Entries())
      ensures outcome == LineOutcome(history.Entries(), line)
      ensures jobNumber == old(jobNumber) + (if outcome.Run? && outcome.background then 1 else 0)
    {
      if Recordable(line) {
        history.Add(line);
        assert forall e :: e in history.Entries() ==> e in old(history.Entries()) || e == line;
      }
      var input := line;
      if line[0] == '!' {
        var index;
        if |line| > 1 && line[1] == '-' {
          index := -Atoi(line[2..]);
        } else {
          index := Atoi(line[1..]) - 1;
        }
        index := GetHistoryIndex(history.count, index);
        if 0 <= index < history.count {
          input := history.slots[index];
          assert input == history.Entries()[index];
          assert Recordable(input);
          assert Expand(history.Entries(), line) == Some(input);
        } else {
          return NotInHistory;
        }
      }
      assert Expand(history.Entries(), line) == Some(input);
      var bg := false;
      if input[|input| - 1] == '&' {
        bg := true;
        input := input[..|input| - 1];
      }
      var argv := SplitArgs(input);
      if |argv| > 0 {
        if bg {
          jobNumber := jobNumber + 1;
        }
        outcome := Run(argv, bg);
      } else {
        outcome := NothingToRun;
      }
    }
  }
}
