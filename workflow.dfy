/** One run of the workflow, as the script's top level performs it: load the
    nodes, look for smoke, record a detection, resolve existing job ids,
    choose the interval, then submit or resubmit every node's job. Any error
    ends the run at once. */
module Workflow {
  import opened Wrappers
  import opened Nodes
  import opened JobListing
  import opened Wildfire
  import opened Interval
  import opened Smoke
  import opened Scheduler

  /** Why a run stopped early. */
  datatype RunError = Listing(listingError: ListingError) | Update(commandError: CommandError)

  /** The table as loaded, before any job id is known. */
  function Loaded(vsns: seq<string>): (rows: seq<Node>)
    ensures |rows| == |vsns|
  {
    seq(|vsns|, i requires 0 <= i < |vsns| => NewNode(vsns[i]))
  }

  /** Some station shows a tile above the threshold. */
  predicate SmokeSeen(stations: seq<StationReadings>, threshold: real)
  {
    exists s :: 0 <= s < |stations| && StationShowsSmoke(stations[s], threshold)
  }

  /** A run over the station ids `vsns` and the already decoded telemetry
      `stations`. `markTime` is the clock when a detection is recorded and
      `checkTime` the clock when the wildfire state is read. */
  method RunWorkflow(runner: Runner, state: WildfireFile, vsns: seq<string>,
                     stations: seq<StationReadings>, markTime: int, checkTime: int)
    returns (table: array<Node>, r: Outcome<RunError>)
    modifies runner, state
    ensures fresh(table) && table.Length == |vsns|
    ensures state.stamp == if SmokeSeen(stations, CallSiteThreshold) then Some(markTime) else old(state.stamp)
    ensures var n := |old(runner.issued)|;
      runner.code(n) != 0 ==>
        r == Fail(Listing(ListFailed(CommandFailed(ListCommand, runner.output(n))))) &&
        runner.issued == old(runner.issued) + [ListCommand]
    ensures var n := |old(runner.issued)|; var p := ParseListing(runner.output(n));
      runner.code(n) == 0 && p.bad.Some? ==>
        r == Fail(Listing(CannotSplit(p.bad.value))) && runner.issued == old(runner.issued) + [ListCommand]
    ensures var n := |old(runner.issued)|; var p := ParseListing(runner.output(n));
      var active := IsWildfireActive(state.stamp, checkTime, DefaultWindow);
      runner.code(n) == 0 && p.bad.None? ==>
        var rows := WithInterval(FillAll(Loaded(vsns), p.entries), active);
        var t := Execute(Plan(rows), runner.code, n + 1);
        && table[..] == rows
        && runner.issued == old(runner.issued) + [ListCommand] + t.issued
        && r == match Verdict(t, runner.output, n + 1)
                case Pass => Pass
                case Fail(e) => Fail(Update(e))
  {
    table := LoadNodes(vsns);
    assert table[..] == Loaded(vsns);
    var smoke, perStation := GetSmokeData(stations, CallSiteThreshold);
    if smoke {
      state.SetWildfireActive(markTime);
    }
    r := ScheduleJobs(runner, state, table, checkTime);
  }

  /** The second half of a run, once the table is loaded and any detection
      recorded: resolve the existing job ids, set every row's interval from
      the wildfire state read at `checkTime`, then submit or resubmit every
      job. */
  method ScheduleJobs(runner: Runner, state: WildfireFile, table: array<Node>, checkTime: int)
    returns (r: Outcome<RunError>)
    modifies runner, table
    ensures var n := |old(runner.issued)|;
      runner.code(n) != 0 ==>
        r == Fail(Listing(ListFailed(CommandFailed(ListCommand, runner.output(n))))) &&
        runner.issued == old(runner.issued) + [ListCommand] && table[..] == old(table[..])
    ensures var n := |old(runner.issued)|; var p := ParseListing(runner.output(n));
      runner.code(n) == 0 && p.bad.Some? ==>
        r == Fail(Listing(CannotSplit(p.bad.value))) && runner.issued == old(runner.issued) + [ListCommand] &&
        table[..] == FillAll(old(table[..]), p.entries)
    ensures var n := |old(runner.issued)|; var p := ParseListing(runner.output(n));
      var active := IsWildfireActive(state.stamp, checkTime, DefaultWindow);
      runner.code(n) == 0 && p.bad.None? ==>
        var rows := WithInterval(FillAll(old(table[..]), p.entries), active);
        var t := Execute(Plan(rows), runner.code, n + 1);
        && table[..] == rows
        && runner.issued == old(runner.issued) + [ListCommand] + t.issued
        && r == match Verdict(t, runner.output, n + 1)
                case Pass => Pass
                case Fail(e) => Fail(Update(e))
  {
    ghost var n := |runner.issued|;
    ghost var start := table[..];
    var filled := FillJobIdsIfExists(runner, table);
    if filled.Fail? {
      return Fail(Listing(filled.error));
    }
    ghost var p := ParseListing(runner.output(n));
    assert runner.code(n) == 0 && p.bad.None?;
    assert table[..] == FillAll(start, p.entries);
    var active := IsWildfireActive(state.stamp, checkTime, DefaultWindow);
    ApplyIntervalPolicy(table, active);
    ghost var rows := table[..];
    assert rows == WithInterval(FillAll(start, p.entries), active);
    var updated := UpdateJobs(runner, table);
    if updated.Fail? {
      return Fail(Update(updated.error));
    }
    return Pass;
  }

  /** With no earlier detection and none in this run, every node gets the
      30-minute interval. */
  lemma QuietRunIsSlow(vsns: seq<string>, es: seq<Entry>, checkTime: int, i: nat)
    requires i < |vsns|
    ensures WithInterval(FillAll(Loaded(vsns), es), IsWildfireActive(None, checkTime, DefaultWindow))[i].interval
            == Some(SlowInterval)
  {
    EveryRowGetsCadence(FillAll(Loaded(vsns), es), false, i);
  }

  /** A detection recorded less than an hour before the state is read gives
      every node the 5-minute interval. */
  lemma DetectionIsFast(vsns: seq<string>, es: seq<Entry>, markTime: int, checkTime: int, i: nat)
    requires i < |vsns| && checkTime < markTime + DefaultWindow
    ensures WithInterval(FillAll(Loaded(vsns), es), IsWildfireActive(Some(markTime), checkTime, DefaultWindow))[i].interval
            == Some(FastInterval)
  {
    EveryRowGetsCadence(FillAll(Loaded(vsns), es), true, i);
  }

  /** A node whose job the listing does not name keeps its row as loaded. */
  lemma UnlistedNodeUnchanged(vsns: seq<string>, es: seq<Entry>, k: nat)
    requires k < |vsns|
    requires !Lists(es, JobName(vsns[k]))
    ensures FillAll(Loaded(vsns), es)[k] == NewNode(vsns[k])
  {
    FillAllAt(Loaded(vsns), es, k);
  }

  /** When the scheduler lists no job of these nodes, every node is submitted
      as a new job from its own file, in table order. */
  lemma UnknownNodesAreSubmitted(vsns: seq<string>, es: seq<Entry>, active: bool)
    requires forall i :: 0 <= i < |vsns| ==> !Lists(es, JobName(vsns[i]))
    ensures Plan(WithInterval(FillAll(Loaded(vsns), es), active)) ==
            seq(|vsns|, i requires 0 <= i < |vsns| => SubmitCommand(JobName(vsns[i]) + ".yaml"))
  {
    var rows := WithInterval(FillAll(Loaded(vsns), es), active);
    forall k | 0 <= k < |rows|
      ensures rows[k].jobId == Unassigned && rows[k].jobName == JobName(vsns[k])
    {
      UnlistedNodeUnchanged(vsns, es, k);
      EveryRowGetsCadence(FillAll(Loaded(vsns), es), active, k);
    }
    FreshRowsAreSubmitted(rows);
  }
}
