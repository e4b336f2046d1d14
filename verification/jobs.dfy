/**
 * The background-job table of Assignment01/myshellv5.c: a fixed array of
 * at most one hundred jobs and a count. Jobs are appended when started,
 * removed by the SIGCHLD handler once `waitpid` reports them finished (the
 * later jobs shift down), listed by `jobs` and targeted by `kill N`, where
 * N is the number the listing shows.
 */
module Jobs {
  import opened Text

  const MaxJobs: nat := 100

  datatype Job = Job(pid: int, command: string)

  /** The jobs the SIGCHLD handler keeps, in their order: those whose pid
      `waitpid` does not report finished. */
  function Survivors(js: seq<Job>, finished: set<int>): (r: seq<Job>)
    ensures |r| <= |js|
  {
    if js == [] then []
    else
      var last := js[|js| - 1];
      Survivors(js[..|js| - 1], finished) + (if last.pid in finished then [] else [last])
  }

  /** The jobs the handler removes and announces with `[Finished]`, in order. */
  function Reaped(js: seq<Job>, finished: set<int>): (r: seq<Job>)
    ensures |r| <= |js|
  {
    if js == [] then []
    else
      var last := js[|js| - 1];
      Reaped(js[..|js| - 1], finished) + (if last.pid in finished then [last] else [])
  }

  /** A job survives exactly when it was in the table and is not finished. */
  lemma {:induction false} SurvivorsExactly(js: seq<Job>, finished: set<int>, j: Job)
    ensures j in Survivors(js, finished) <==> j in js && j.pid !in finished
  {
    if js != [] {
      SurvivorsExactly(js[..|js| - 1], finished, j);
      assert js == js[..|js| - 1] + [js[|js| - 1]];
    }
  }

  /** Reaping loses no job and invents none: the survivors and the reaped
      jobs together are the table before. */
  lemma {:induction false} ReapPartitions(js: seq<Job>, finished: set<int>)
    ensures multiset(Survivors(js, finished)) + multiset(Reaped(js, finished)) == multiset(js)
  {
    if js != [] {
      ReapPartitions(js[..|js| - 1], finished);
      assert js == js[..|js| - 1] + [js[|js| - 1]];
    }
  }

  /** The survivors keep their relative order. */
  lemma {:induction false} SurvivorsInOrder(js: seq<Job>, finished: set<int>)
    ensures IsSubseq(Survivors(js, finished), js)
  {
    if js != [] {
      var init, last := js[..|js| - 1], js[|js| - 1];
      SurvivorsInOrder(init, finished);
      assert js == init + [last];
      SurvivorsAppend(init, last, finished);
      if last.pid in finished {
        assert Survivors(js, finished) == Survivors(init, finished);
        SubseqExtend(Survivors(init, finished), init, [last]);
      } else {
        SubseqAppend(Survivors(init, finished), init, last);
      }
    }
  }

  /** A table with no finished job is left as it is. */
  lemma {:induction false} NothingFinished(js: seq<Job>, finished: set<int>)
    requires forall i :: 0 <= i < |js| ==> js[i].pid !in finished
    ensures Survivors(js, finished) == js
    ensures Reaped(js, finished) == []
  {
    if js != [] {
      var init := js[..|js| - 1];
      NothingFinished(init, finished);
      assert js == init + [js[|js| - 1]];
    }
  }

  /** A second pass with the same report removes nothing more. */
  lemma ReapIdempotent(js: seq<Job>, finished: set<int>)
    ensures Survivors(Survivors(js, finished), finished) == Survivors(js, finished)
    ensures Reaped(Survivors(js, finished), finished) == []
  {
    var s := Survivors(js, finished);
    forall i | 0 <= i < |s|
      ensures s[i].pid !in finished
    {
      SurvivorsExactly(js, finished, s[i]);
    }
    NothingFinished(Survivors(js, finished), finished);
  }

  lemma SurvivorsAppend(js: seq<Job>, x: Job, finished: set<int>)
    ensures Survivors(js + [x], finished) == Survivors(js, finished) + (if x.pid in finished then [] else [x])
    ensures Reaped(js + [x], finished) == Reaped(js, finished) + (if x.pid in finished then [x] else [])
  {
    assert (js + [x])[..|js + [x]| - 1] == js;
  }

  /** What `print_jobs` prints: each job's number, from 1, its pid and its
      command. */
  function JobLines(js: seq<Job>): (r: seq<(nat, int, string)>)
    ensures |r| == |js|
    ensures forall i :: 0 <= i < |js| ==> r[i] == (i + 1, js[i].pid, js[i].command)
  {
    seq(|js|, i requires 0 <= i < |js| => (i + 1, js[i].pid, js[i].command))
  }

  /** The pid `kill_job` signals for a zero-based index, or None for
      "Invalid job number.". */
  function KillTargetOf(js: seq<Job>, index: int): (r: Option<int>)
    ensures r.Some? <==> 0 <= index < |js|
    ensures r.Some? ==> exists j :: j in js && j.pid == r.value
  {
    if 0 <= index < |js| then
      assert js[index] in js;
      Some(js[index].pid)
    else None
  }

  /** Typing `kill N` for a number N the listing shows signals the pid
      listed beside it. */
  lemma KillListedNumber(js: seq<Job>, k: nat)
    requires k < |js|
    ensures KillTargetOf(js, Atoi(DecimalString(JobLines(js)[k].0)) - 1) == Some(JobLines(js)[k].1)
  {
    AtoiDecimal(k + 1, []);
    assert DecimalString(k + 1) + [] == DecimalString(k + 1);
  }

  lemma PrefixStep(js: seq<Job>, k: nat, finished: set<int>)
    requires k < |js|
    ensures Survivors(js[..k + 1], finished) == Survivors(js[..k], finished) + (if js[k].pid in finished then [] else [js[k]])
    ensures Reaped(js[..k + 1], finished) == Reaped(js[..k], finished) + (if js[k].pid in finished then [js[k]] else [])
  {
    assert js[..k + 1] == js[..k] + [js[k]];
    SurvivorsAppend(js[..k], js[k], finished);
  }

  /** The handler's walk over the table `orig` after examining its first
      `k` jobs: the table `c` holds the survivors so far followed by the jobs
      not yet examined, the cursor `i` is just past those survivors, and
      `reaped` holds the finished jobs seen so far. */
  ghost predicate Walked(orig: seq<Job>, finished: set<int>, k: nat, c: seq<Job>, i: nat, reaped: seq<Job>)
  {
    && k <= |orig|
    && c == Survivors(orig[..k], finished) + orig[k..]
    && i == |Survivors(orig[..k], finished)|
    && reaped == Reaped(orig[..k], finished)
  }

  lemma WalkStart(orig: seq<Job>, finished: set<int>)
    ensures Walked(orig, finished, 0, orig, 0, [])
  {
    assert orig[..0] == [] && orig[0..] == orig;
  }

  /** A finished job under the cursor is removed from the table. */
  lemma WalkRemove(orig: seq<Job>, finished: set<int>, k: nat, c: seq<Job>, i: nat, reaped: seq<Job>)
    requires Walked(orig, finished, k, c, i, reaped) && i < |c| && c[i].pid in finished
    ensures k < |orig|
    ensures Walked(orig, finished, k + 1, c[..i] + c[i + 1..], i, reaped + [c[i]])
  {
    assert c[i] == orig[k];
    PrefixStep(orig, k, finished);
    assert c[..i] == Survivors(orig[..k], finished);
    assert c[i + 1..] == orig[k + 1..];
  }

  /** A running job under the cursor stays; the cursor moves past it. */
  lemma WalkKeep(orig: seq<Job>, finished: set<int>, k: nat, c: seq<Job>, i: nat, reaped: seq<Job>)
    requires Walked(orig, finished, k, c, i, reaped) && i < |c| && c[i].pid !in finished
    ensures k < |orig|
    ensures Walked(orig, finished, k + 1, c, i + 1, reaped)
  {
    assert c[i] == orig[k];
    PrefixStep(orig, k, finished);
    assert orig[k..] == [orig[k]] + orig[k + 1..];
    assert c == (Survivors(orig[..k], finished) + [orig[k]]) + orig[k + 1..];
  }

  /** Once the cursor reaches the end, every job has been examined. */
  lemma WalkEnd(orig: seq<Job>, finished: set<int>, k: nat, c: seq<Job>, i: nat, reaped: seq<Job>)
    requires Walked(orig, finished, k, c, i, reaped) && i == |c|
    ensures c == Survivors(orig, finished) && reaped == Reaped(orig, finished)
  {
    assert |orig[k..]| == 0;
    assert orig[..k] == orig;
  }

  class JobTable {
    var jobs: array<Job>
    var count: nat

    ghost predicate Valid()
      reads this
    {
      jobs.Length == MaxJobs && count <= MaxJobs
    }

    /** The running background jobs, oldest first. */
    function Contents(): (r: seq<Job>)
      reads this, jobs
      requires Valid()
      ensures |r| == count <= MaxJobs
    {
      jobs[..count]
    }

    constructor ()
      ensures Valid() && fresh(jobs)
      ensures Contents() == []
    {
      jobs := new Job[MaxJobs](_ => Job(0, []));
      count := 0;
    }

    /** The parent's bookkeeping after starting a background job: append it
        and report its number, or refuse with "Max background jobs reached.". */
    method Register(pid: int, command: string) returns (number: Option<nat>)
      requires Valid()
      modifies this, jobs
      ensures Valid() && jobs == old(jobs)
      ensures old(count) < MaxJobs ==> Contents() == old(Contents()) + [Job(pid, command)] && number == Some(count)
      ensures old(count) >= MaxJobs ==> Contents() == old(Contents()) && number == None
    {
      if count < MaxJobs {
        jobs[count] := Job(pid, command);
        count := count + 1;
        number := Some(count);
        assert jobs[..count] == old(jobs[..count]) + [Job(pid, command)];
      } else {
        number := None;
      }
    }

    /** The inner loop of the handler: shift the later jobs down over job `i`. */
    method RemoveAt(i: nat)
      requires Valid() && i < count
      modifies this, jobs
      ensures Valid() && jobs == old(jobs)
      ensures Contents() == old(Contents()[..i] + Contents()[i + 1..])
    {
      var j := i;
      while j < count - 1
        invariant i <= j <= count - 1
        invariant jobs == old(jobs) && count == old(count)
        invariant forall k :: 0 <= k < i ==> jobs[k] == old(jobs[k])
        invariant forall k :: i <= k < j ==> jobs[k] == old(jobs[k + 1])
        invariant forall k :: j <= k < count ==> jobs[k] == old(jobs[k])
      {
        jobs[j] := jobs[j + 1];
        j := j + 1;
      }
      count := count - 1;
      assert jobs[..count] == old(jobs[..count][..i] + jobs[..count][i + 1..]);
    }

    /** sigchld_handler: walk the table, removing every job whose pid
        `waitpid` reports finished in `finished`, and return them in the
        order they are announced. */
    method Reap(finished: set<int>) returns (reaped: seq<Job>)
      requires Valid()
      modifies this, jobs
      ensures Valid() && jobs == old(jobs)
      ensures Contents() == Survivors(old(Contents()), finished)
      ensures reaped == Reaped(old(Contents()), finished)
    {
      ghost var orig := Contents();
      ghost var c, k := orig, 0;
      reaped := [];
      var i := 0;
      WalkStart(orig, finished);
      while i < count
        invariant Valid() && jobs == old(jobs) && Contents() == c
        invariant Walked(orig, finished, k, c, i, reaped)
        decreases |orig| - k
      {
        var job := jobs[i];
        assert job == c[i];
        if job.pid in finished {
          WalkRemove(orig, finished, k, c, i, reaped);
          reaped := reaped + [job];
          RemoveAt(i);
          c := c[..i] + c[i + 1..];
        } else {
          WalkKeep(orig, finished, k, c, i, reaped);
          i := i + 1;
        }
        k := k + 1;
      }
      WalkEnd(orig, finished, k, c, i, reaped);
    }

    /** print_jobs. */
    method Listing() returns (lines: seq<(nat, int, string)>)
      requires Valid()
      ensures lines == JobLines(Contents())
    {
      lines := [];
      var i := 0;
      while i < count
        invariant 0 <= i <= count
        invariant lines == JobLines(Contents()[..i])
      {
        lines := lines + [(i + 1, jobs[i].pid, jobs[i].command)];
        i := i + 1;
      }
      assert Contents()[..i] == Contents();
    }

    /** kill_job: the pid to signal for a zero-based index, or None when
        the index is outside the table. */
    method KillTarget(index: int) returns (target: Option<int>)
      requires Valid()
      ensures target == KillTargetOf(Contents(), index)
    {
      if index < 0 || index >= count {
        return None;
      }
      target := Some(jobs[index].pid);
    }
  }
}
