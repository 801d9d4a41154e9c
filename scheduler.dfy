/** The scheduler client: the `sesctl` command lines the workflow issues, an
    abstract runner standing for the command-line tool, and the job updates
    built on it. Every command is issued one at a time; a command that exits
    with a non-zero code aborts what follows and nothing already done is
    undone. */
module Scheduler {
  import opened Wrappers
  import opened Seqs
  import opened Nodes

  /** The error a failing command raises: the command and its combined output. */
  datatype CommandError = CommandFailed(command: string, output: string)

  /** Lists the scheduler's jobs as `job_id job_name` lines. */
  const ListCommand: string := "sesctl stat | tail -n +3 | awk '{print $1, $2}'"

  function SubmitCommand(filePath: string): string
  {
    "sesctl submit --file-path " + filePath
  }

  function SuspendCommand(jobId: string): string
  {
    "sesctl rm --suspend " + jobId
  }

  function EditCommand(jobId: string, filePath: string): string
  {
    "sesctl edit " + jobId + " --file-path " + filePath
  }

  function ResubmitCommand(jobId: string): string
  {
    "sesctl submit --job-id " + jobId
  }

  /** A new job is submitted from its file. */
  function SubmitCommands(filePath: string): seq<string>
  {
    [SubmitCommand(filePath)]
  }

  /** An existing job is suspended, edited from its file, then submitted again. */
  function ResubmitCommands(jobId: string, filePath: string): seq<string>
  {
    [SuspendCommand(jobId), EditCommand(jobId, filePath), ResubmitCommand(jobId)]
  }

  /** What `update_job` issues for one row: a submit for a row without a job
      id, the three-step resubmit for a row with one. */
  function JobCommands(row: Node): seq<string>
  {
    match row.jobId
    case Unassigned => SubmitCommands(JobFilePath(row))
    case Assigned(id) => ResubmitCommands(id, JobFilePath(row))
  }

  /** The commands `f` gives each row, row after row. */
  function Concat<R, C>(rows: seq<R>, f: R -> seq<C>): seq<C>
    decreases |rows|
  {
    if rows == [] then [] else Concat(rows[..|rows| - 1], f) + f(rows[|rows| - 1])
  }

  /** The commands `update_job` issues for the whole table, row after row,
      when none of them fails. */
  function Plan(rows: seq<Node>): seq<string>
  {
    Concat(rows, JobCommands)
  }

  /** What running a command sequence does: the commands actually issued and
      whether all of them succeeded. */
  datatype Trace<C> = Trace(issued: seq<C>, ok: bool)

  /** Runs `cmds` in order when the `j`-th command of the run exits with
      `code(j)` and the first of them is the `n`-th. Issuing stops right after
      the first failing command. */
  function Execute<C>(cmds: seq<C>, code: nat -> int, n: nat): Trace<C>
    decreases |cmds|
  {
    if cmds == [] then Trace([], true)
    else if code(n) != 0 then Trace([cmds[0]], false)
    else
      var rest := Execute(cmds[1..], code, n + 1);
      Trace([cmds[0]] + rest.issued, rest.ok)
  }

  /** What a run means: the issued commands are a prefix of the sequence; the
      run succeeds iff every command exits zero, and then all were issued;
      otherwise the last one issued is the first that failed. */
  lemma {:induction false} ExecuteMeaning<C>(cmds: seq<C>, code: nat -> int, n: nat)
    ensures var t := Execute(cmds, code, n);
      && |t.issued| <= |cmds| && t.issued == cmds[..|t.issued|]
      && (t.ok <==> forall j :: n <= j < n + |cmds| ==> code(j) == 0)
      && (t.ok ==> t.issued == cmds)
      && (!t.ok ==> t.issued != [] && code(n + |t.issued| - 1) != 0 &&
                    (forall j :: n <= j < n + |t.issued| - 1 ==> code(j) == 0))
    decreases |cmds|
  {
    if cmds != [] && code(n) == 0 {
      ExecuteMeaning(cmds[1..], code, n + 1);
      assert [cmds[0]] + cmds[1..] == cmds;
    }
  }

  /** A run that failed issued at least its failing command; one that
      succeeded issued everything. */
  lemma {:induction false} ExecuteOk<C>(cmds: seq<C>, code: nat -> int, n: nat)
    ensures !Execute(cmds, code, n).ok ==> Execute(cmds, code, n).issued != []
    ensures Execute(cmds, code, n).ok ==> Execute(cmds, code, n).issued == cmds
    decreases |cmds|
  {
    if cmds != [] && code(n) == 0 {
      ExecuteOk(cmds[1..], code, n + 1);
      assert [cmds[0]] + cmds[1..] == cmds;
    }
  }

  lemma ExecuteCons<C>(c: C, rest: seq<C>, code: nat -> int, n: nat)
    ensures Execute([c] + rest, code, n) ==
      if code(n) != 0 then Trace([c], false)
      else Trace([c] + Execute(rest, code, n + 1).issued, Execute(rest, code, n + 1).ok)
  {
    assert ([c] + rest)[1..] == rest;
  }

  /** Running two sequences one after the other: the second starts only if
      the first succeeded. */
  lemma {:induction false} ExecuteAppend<C>(a: seq<C>, b: seq<C>, code: nat -> int, n: nat)
    ensures Execute(a + b, code, n) ==
      if Execute(a, code, n).ok
      then Trace(a + Execute(b, code, n + |a|).issued, Execute(b, code, n + |a|).ok)
      else Execute(a, code, n)
    decreases |a|
  {
    if a == [] {
      assert a + b == b;
    } else if code(n) == 0 {
      var tail := Execute(a[1..], code, n + 1);
      var second := Execute(b, code, n + |a|);
      assert (a + b)[1..] == a[1..] + b;
      ExecuteAppend(a[1..], b, code, n + 1);
      assert Execute(a + b, code, n).issued == [a[0]] + Execute(a[1..] + b, code, n + 1).issued;
      assert Execute(a, code, n) == Trace([a[0]] + tail.issued, tail.ok);
      if tail.ok {
        assert [a[0]] + (a[1..] + second.issued) == a + second.issued;
      }
    }
  }

  lemma ConcatSnoc<R, C>(rows: seq<R>, row: R, f: R -> seq<C>)
    ensures Concat(rows + [row], f) == Concat(rows, f) + f(row)
  {
    assert (rows + [row])[..|rows|] == rows;
  }

  /** The commands of a table are those of its first part followed by those of the rest. */
  lemma {:induction false} ConcatAppend<R, C>(a: seq<R>, b: seq<R>, f: R -> seq<C>)
    ensures Concat(a + b, f) == Concat(a, f) + Concat(b, f)
    decreases |b|
  {
    if b == [] {
      assert a + b == a;
    } else {
      var last := b[|b| - 1];
      var front := b[..|b| - 1];
      assert a + b == (a + front) + [last];
      assert b == front + [last];
      ConcatSnoc(a + front, last, f);
      ConcatSnoc(front, last, f);
      ConcatAppend(a, front, f);
    }
  }

  /** The commands of row `k` sit between those of the rows before and after it. */
  lemma ConcatAt<R, C>(rows: seq<R>, k: nat, f: R -> seq<C>)
    requires k < |rows|
    ensures Concat(rows, f) == (Concat(rows[..k], f) + f(rows[k])) + Concat(rows[k + 1..], f)
  {
    var before, here, after := rows[..k], rows[k], rows[k + 1..];
    Decompose(rows, k);
    ConcatAppend(before + [here], after, f);
    ConcatSnoc(before, here, f);
  }

  /** If the commands of row `k` fail after all earlier rows succeeded, the
      run issued exactly the earlier rows' commands and row `k`'s up to the
      failing one: no later row is touched, and nothing earlier is undone. */
  lemma FailureStopsAtRow<R, C>(rows: seq<R>, k: nat, f: R -> seq<C>, code: nat -> int, n: nat)
    requires k < |rows|
    requires Execute(Concat(rows[..k], f), code, n).ok
    requires !Execute(f(rows[k]), code, n + |Concat(rows[..k], f)|).ok
    ensures Execute(Concat(rows, f), code, n) ==
      Trace(Concat(rows[..k], f) + Execute(f(rows[k]), code, n + |Concat(rows[..k], f)|).issued, false)
  {
    var done, cmds, later := Concat(rows[..k], f), f(rows[k]), Concat(rows[k + 1..], f);
    ConcatAt(rows, k, f);
    var step := Execute(cmds, code, n + |done|);
    ExecuteAppend(done, cmds, code, n);
    var upTo := Execute(done + cmds, code, n);
    assert upTo == Trace(done + step.issued, false);
    ExecuteAppend(done + cmds, later, code, n);
  }

  /** If the commands of row `i` succeed after all earlier rows succeeded,
      the rows up to `i` succeed together. */
  lemma ConcatStep<R, C>(rows: seq<R>, i: nat, f: R -> seq<C>, code: nat -> int, n: nat)
    requires i < |rows|
    requires Execute(Concat(rows[..i], f), code, n).ok
    requires Execute(f(rows[i]), code, n + |Concat(rows[..i], f)|).ok
    ensures Concat(rows[..i + 1], f) == Concat(rows[..i], f) + f(rows[i])
    ensures Execute(Concat(rows[..i + 1], f), code, n).ok
  {
    TakeOneMore(rows, i);
    ConcatSnoc(rows[..i], rows[i], f);
    ExecuteAppend(Concat(rows[..i], f), f(rows[i]), code, n);
  }

  /** A table whose rows have no job id yet is submitted row by row, one
      `submit --file-path` each, and nothing is suspended or edited. */
  lemma {:induction false} FreshRowsAreSubmitted(rows: seq<Node>)
    requires forall i :: 0 <= i < |rows| ==> rows[i].jobId == Unassigned
    ensures Plan(rows) == seq(|rows|, i requires 0 <= i < |rows| => SubmitCommand(JobFilePath(rows[i])))
    decreases |rows|
  {
    if rows != [] {
      var front := rows[..|rows| - 1];
      FreshRowsAreSubmitted(front);
      assert forall i :: 0 <= i < |front| ==> front[i] == rows[i];
    }
  }

  /** The known gap of the resubmit sequence: when the edit fails, the job has
      been suspended and is never submitted again. */
  lemma SuspendedWhenEditFails(jobId: string, filePath: string, code: nat -> int, n: nat)
    requires code(n) == 0 && code(n + 1) != 0
    ensures Execute(ResubmitCommands(jobId, filePath), code, n) ==
      Trace([SuspendCommand(jobId), EditCommand(jobId, filePath)], false)
  {
    var cmds := ResubmitCommands(jobId, filePath);
    assert cmds[1..][1..] == [ResubmitCommand(jobId)];
  }

  /** A row without a job id is only ever submitted from its file; a row with
      one is never submitted from its file, only resubmitted under its id. */
  lemma JobCommandsByRow(row: Node)
    ensures row.jobId == Unassigned <==> |JobCommands(row)| == 1
    ensures row.jobId == Unassigned ==> JobCommands(row)[0] == SubmitCommand(row.jobName + ".yaml")
    ensures row.jobId.Assigned? ==>
      JobCommands(row) == [SuspendCommand(row.jobId.id), EditCommand(row.jobId.id, row.jobName + ".yaml"),
                           ResubmitCommand(row.jobId.id)]
  {
  }

  /** The error a run reports: none when it succeeded, otherwise the last
      command issued (the one that failed, by `ExecuteMeaning`) with its output. */
  function Verdict(t: Trace<string>, output: nat -> string, n: nat): Outcome<CommandError>
  {
    if t.ok || t.issued == [] then Pass
    else Fail(CommandFailed(t.issued[|t.issued| - 1], output(n + |t.issued| - 1)))
  }

  /** The command-line tool as seen by the workflow. The `n`-th command of the
      run exits with `code(n)` and prints `output(n)`; `issued` records every
      command sent so far, oldest first. */
  class Runner {
    const code: nat -> int
    const output: nat -> string
    var issued: seq<string>

    constructor (code: nat -> int, output: nat -> string)
      ensures this.code == code && this.output == output && issued == []
    {
      this.code := code;
      this.output := output;
      issued := [];
    }

    /** Issues one command (`sesctl_call`): returns its output, or fails with
        the command and its output when it exits non-zero. */
    method Call(command: string) returns (r: Result<string, CommandError>)
      modifies this
      ensures issued == old(issued) + [command]
      ensures r == if code(|old(issued)|) == 0 then Ok(output(|old(issued)|))
                   else Err(CommandFailed(command, output(|old(issued)|)))
    {
      var n := |issued|;
      issued := issued + [command];
      if code(n) != 0 {
        return Err(CommandFailed(command, output(n)));
      }
      return Ok(output(n));
    }
  }

  method SubmitJob(runner: Runner, filePath: string) returns (r: Outcome<CommandError>)
    modifies runner
    ensures var t := Execute(SubmitCommands(filePath), runner.code, |old(runner.issued)|);
      runner.issued == old(runner.issued) + t.issued && r == Verdict(t, runner.output, |old(runner.issued)|)
  {
    var result := runner.Call(SubmitCommand(filePath));
    if result.Err? {
      return Fail(result.error);
    }
    return Pass;
  }

  method ResubmitJob(runner: Runner, jobId: string, filePath: string) returns (r: Outcome<CommandError>)
    modifies runner
    ensures var t := Execute(ResubmitCommands(jobId, filePath), runner.code, |old(runner.issued)|);
      runner.issued == old(runner.issued) + t.issued && r == Verdict(t, runner.output, |old(runner.issued)|)
  {
    ghost var n := |runner.issued|;
    ghost var cmds := ResubmitCommands(jobId, filePath);
    assert cmds == [SuspendCommand(jobId)] + ([EditCommand(jobId, filePath)] + [ResubmitCommand(jobId)]);
    ExecuteCons(SuspendCommand(jobId), [EditCommand(jobId, filePath)] + [ResubmitCommand(jobId)], runner.code, n);
    ExecuteCons(EditCommand(jobId, filePath), [ResubmitCommand(jobId)], runner.code, n + 1);
    ExecuteCons(ResubmitCommand(jobId), [], runner.code, n + 2);
    assert [ResubmitCommand(jobId)] + [] == [ResubmitCommand(jobId)];
    var result := runner.Call(SuspendCommand(jobId));
    if result.Err? {
      return Fail(result.error);
    }
    result := runner.Call(EditCommand(jobId, filePath));
    if result.Err? {
      return Fail(result.error);
    }
    result := runner.Call(ResubmitCommand(jobId));
    if result.Err? {
      return Fail(result.error);
    }
    return Pass;
  }

  /** The commands of one row of `update_job`: submit or resubmit by its job id. */
  method UpdateJob(runner: Runner, row: Node) returns (r: Outcome<CommandError>)
    modifies runner
    ensures var t := Execute(JobCommands(row), runner.code, |old(runner.issued)|);
      runner.issued == old(runner.issued) + t.issued && r == Verdict(t, runner.output, |old(runner.issued)|)
  {
    var filePath := JobFilePath(row);
    if row.jobId == Unassigned {
      r := SubmitJob(runner, filePath);
    } else {
      r := ResubmitJob(runner, row.jobId.id, filePath);
    }
  }

  /** The exit of `UpdateJobs` at the first row whose commands fail: the
      run so far is the whole table's run, and its error is that row's. */
  lemma AbortedRun(rows: seq<Node>, i: nat, code: nat -> int, output: nat -> string, n: nat)
    requires i < |rows|
    requires Execute(Plan(rows[..i]), code, n).ok
    requires !Execute(JobCommands(rows[i]), code, n + |Plan(rows[..i])|).ok
    ensures var step := Execute(JobCommands(rows[i]), code, n + |Plan(rows[..i])|);
      var t := Execute(Plan(rows), code, n);
      t.issued == Plan(rows[..i]) + step.issued &&
      Verdict(t, output, n) == Verdict(step, output, n + |Plan(rows[..i])|)
  {
    var step := Execute(JobCommands(rows[i]), code, n + |Plan(rows[..i])|);
    FailureStopsAtRow(rows, i, JobCommands, code, n);
    ExecuteOk(JobCommands(rows[i]), code, n + |Plan(rows[..i])|);
    VerdictAfter(Plan(rows[..i]), step, output, n);
  }

  /** The loop step of `UpdateJobs` when a row's commands all succeed. */
  lemma RowSucceeded(rows: seq<Node>, i: nat, code: nat -> int, n: nat)
    requires i < |rows|
    requires Execute(Plan(rows[..i]), code, n).ok
    requires Execute(JobCommands(rows[i]), code, n + |Plan(rows[..i])|).ok
    ensures Plan(rows[..i + 1]) == Plan(rows[..i]) + JobCommands(rows[i])
    ensures Execute(Plan(rows[..i + 1]), code, n).ok
  {
    ConcatStep(rows, i, JobCommands, code, n);
  }

  /** A failure inside a longer run is reported as the same failing command. */
  lemma VerdictAfter(before: seq<string>, t: Trace<string>, output: nat -> string, n: nat)
    requires !t.ok && t.issued != []
    ensures Verdict(Trace(before + t.issued, false), output, n) == Verdict(t, output, n + |before|)
  {
    assert (before + t.issued)[|before + t.issued| - 1] == t.issued[|t.issued| - 1];
  }

  /** Submits or resubmits the job of every row, in table order (`update_job`).
      Writing each job file before its commands is not modelled. */
  method UpdateJobs(runner: Runner, table: array<Node>) returns (r: Outcome<CommandError>)
    modifies runner
    ensures var t := Execute(Plan(table[..]), runner.code, |old(runner.issued)|);
      runner.issued == old(runner.issued) + t.issued && r == Verdict(t, runner.output, |old(runner.issued)|)
  {
    ghost var n := |runner.issued|;
    ghost var rows := table[..];
    var i := 0;
    while i < table.Length
      invariant 0 <= i <= table.Length
      invariant runner.issued == old(runner.issued) + Plan(rows[..i])
      invariant Execute(Plan(rows[..i]), runner.code, n).ok
    {
      var row := table[i];
      assert row == rows[i];
      ghost var before := runner.issued;
      r := UpdateJob(runner, row);
      ghost var step := Execute(JobCommands(row), runner.code, |before|);
      assert |before| == n + |Plan(rows[..i])|;
      AppendAssoc(old(runner.issued), Plan(rows[..i]), step.issued);
      ExecuteOk(JobCommands(row), runner.code, |before|);
      if r.Fail? {
        AbortedRun(rows, i, runner.code, runner.output, n);
        assert table[..] == rows;
        return;
      }
      assert step.ok;
      RowSucceeded(rows, i, runner.code, n);
      i := i + 1;
    }
    assert rows[..i] == rows && table[..] == rows;
    ghost var t := Execute(Plan(rows), runner.code, n);
    ExecuteOk(Plan(rows), runner.code, n);
    assert t.ok && t.issued == Plan(rows);
    return Pass;
  }
}
