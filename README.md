# Wildfire smoke-detection workflow, modelled in Dafny

`wildfire-workflow.py` is a periodic job. It runs smoke detection on a fleet of
Sage edge nodes through the `sesctl` scheduler client. One run does the following:

- loads the node list and derives each node's job name `wildfire-<vsn>`;
- checks the last hour of tile probabilities for smoke and, on a detection,
  records the time in a state file;
- asks the scheduler which jobs already exist and writes their ids into the
  node table;
- picks the detection interval (every 5 minutes while a wildfire is active,
  every 30 minutes otherwise);
- submits a new job for every node without one, and suspends, edits and
  resubmits the job of every node that has one.

Any failing scheduler command ends the run.

The model states these decision rules over abstract inputs and proves their
properties. Each module follows one part of the script:

- `Text` (`text.dfy`): Python's `str.split(sep)` for a one-character separator.
  Empty pieces are kept. `Split` is proved against `Join` in both directions.
- `Nodes` (`nodes.dfy`): the node table row (`Node`); the job-id sentinel `-1`
  as `JobId.Unassigned`; the job-name derivation; `LoadNodes`, which builds
  the table as an `array<Node>`.
- `JobListing` (`joblisting.dfy`): `fill_job_id_if_exists`. Lines are parsed
  by `ParseLines` and applied to the table in place by `FillJobIds`.
  `FillAll` is the specification of the resulting table and `LastId` says
  which id wins.
- `Wildfire` (`wildfire.dfy`): the decay rule `is_wildfire_active` as
  `IsWildfireActive`, over an optional integer timestamp. The state file is a
  class whose `SetWildfireActive` records the time.
- `Interval` (`interval.dfy`): the two cadence strings, `ChooseInterval`, and
  `ApplyIntervalPolicy`, which sets the column in place.
- `Smoke` (`smoke.dfy`): the aggregation loop of `get_smoke_data_from_sage`
  over already decoded readings.
- `Scheduler` (`scheduler.dfy`): the command lines; `Runner`, an abstract
  stand-in for `sesctl_call`; `SubmitJob`, `ResubmitJob` and `UpdateJobs`.
  - `Runner` has a fixed exit code `code(n)` and output `output(n)` for the
    `n`-th call of a run, and records every command it is given.
  - `Plan` lists the commands of a table when none fails.
  - `Execute` is the pure semantics of issuing a command list and stopping
    at the first non-zero exit.
  - `Verdict` is the error such a run raises.
- `Workflow` (`workflow.dfy`): the script's top level, `RunWorkflow`. It
  calls `ScheduleJobs` for the part after the detection is recorded.
- `Wrappers` and `Seqs`: `Option`, `Result`, `Outcome`, and small sequence
  facts.

The specification functions `Join`, `FillAll`, `Assign`, `WithInterval`,
`Plan`, `Concat`, `JobCommands`, `Execute`, `Verdict`, `ParseListing`,
`IsWildfireActive` and `ChooseInterval` are pinned down by the lemmas listed
below, so they have no rows of their own.

## Model

| member | source | states |
|---|---|---|
| `Text.Split` | wildfire-workflow.py:48-51 | splitting gives at least one piece, no piece contains the separator, and joining the pieces with it gives back the text |
| `Text.SplitCount` | wildfire-workflow.py:51-52 | there is exactly one more piece than there are separators, so `len(sp) == 2` means exactly one space |
| `Text.SplitJoin` | wildfire-workflow.py:51 | splitting undoes joining separator-free pieces |
| `Nodes.JobNameRoundTrip` | wildfire-workflow.py:138 | a job name decodes to a station exactly when it is `wildfire-` followed by that station |
| `Nodes.JobNameInjective` | wildfire-workflow.py:138 | two stations share a job name only if they are the same station |
| `Nodes.NewNode` | wildfire-workflow.py:136-138 | a freshly loaded row's job name decodes to its station, its job id is the sentinel and it has no interval yet |
| `Nodes.LoadNodes` | wildfire-workflow.py:136-138 | the new table has one row per station, in order, each as `NewNode` describes |
| `JobListing.ParseLines` | wildfire-workflow.py:48-53 | no error is reported exactly when every line is empty or splits on a space into two tokens |
| `JobListing.ParseLinesSound` | wildfire-workflow.py:48-54 | every pair read is the text of some line, there are no more pairs than lines, and a reported line is a malformed line of the listing |
| `JobListing.ParseLinesSkipsEmpty` | wildfire-workflow.py:49-50 | an empty line anywhere in the listing can be removed without changing what is parsed |
| `JobListing.ParseLinesStops` | wildfire-workflow.py:52-53 | once a malformed line is read, the lines after it change nothing |
| `JobListing.FirstMalformedLine` | wildfire-workflow.py:48-53 | the first malformed line is the one reported, with the pairs of the lines before it |
| `JobListing.ListingRoundTrip` | wildfire-workflow.py:46-54 | a listing printed from pairs of space- and newline-free tokens parses back to exactly those pairs, in order, with no error |
| `JobListing.LastId` | wildfire-workflow.py:54-55 | there is no winning id exactly when no pair names the job |
| `JobListing.LastIdIsLast` | wildfire-workflow.py:48-55 | the winning id comes from a pair naming the job, and no later pair names it |
| `JobListing.FillAllAt` | wildfire-workflow.py:54-55 | after filling, a row named by some pair holds the id of the last such pair, a row named by none is unchanged, and only the job id changes |
| `JobListing.AssignInPlace` | wildfire-workflow.py:55 | the table after one pair equals `Assign` of the table before |
| `JobListing.FillJobIds` | wildfire-workflow.py:48-56 | the table ends as `FillAll` of the pairs parsed before the first malformed line, and the call fails with that line exactly when there is one |
| `JobListing.FillJobIdsIfExists` | wildfire-workflow.py:45-56 | issues the listing command; a non-zero exit fails with the command and its output and leaves the table as it was; otherwise the table is filled as `FillJobIds` states |
| `Wildfire.NeverMarkedIsInactive` | wildfire-workflow.py:111-119 | without a stored timestamp the check is false, whatever the clock and window |
| `Wildfire.ActiveWindow` | wildfire-workflow.py:114-117 | with a stored timestamp `t` the check holds exactly when `now < t + since_second` |
| `Wildfire.DecayBoundary` | wildfire-workflow.py:114-117 | active one second before the window closes, inactive when exactly `since_second` seconds have passed and one second after |
| `Wildfire.ExpiryIsPermanent` | wildfire-workflow.py:109-119 | once the check is false it stays false at every later time for the same stored state |
| `Wildfire.WildfireFile.SetWildfireActive` | wildfire-workflow.py:101-104 | the stored timestamp becomes the detection time, overwriting any earlier one |
| `Wildfire.MarkThenCheck` | wildfire-workflow.py:101-119 | a detection recorded at `markTime` keeps the check true exactly while `checkTime < markTime + since_second` |
| `Interval.ChooseIntervalReveals` | wildfire-workflow.py:149-154 | the 5-minute string is chosen exactly when active and the 30-minute string exactly when not |
| `Interval.EveryRowGetsCadence` | wildfire-workflow.py:149-154 | every row gets the 5-minute interval iff active and the 30-minute interval iff not, and its other columns are unchanged |
| `Interval.ApplyIntervalPolicy` | wildfire-workflow.py:149-154 | the table after the assignment equals `WithInterval` of the table before |
| `Smoke.SmokeTiles` | wildfire-workflow.py:90-91 | the tiles reported are exactly those strictly above the threshold, in increasing order |
| `Smoke.SmokeTilesNonEmpty` | wildfire-workflow.py:90-92 | a reading counts as a detection exactly when some tile is strictly above the threshold |
| `Smoke.ScanStation` | wildfire-workflow.py:87-93 | a station is flagged exactly when one of its readings shows smoke |
| `Smoke.GetSmokeData` | wildfire-workflow.py:85-98 | the result is true iff some reading of some station has a tile strictly above the threshold, and each station's flag is false when all its tiles are at or below it |
| `Smoke.ThresholdExamples` | wildfire-workflow.py:91 | at threshold 0.7 a tile of 0.8 is smoke, while tiles of 0.6, or exactly 0.7, are not |
| `Scheduler.Runner.Call` | wildfire-workflow.py:18-40 | records the command; returns the call's output on a zero exit code and fails with the command and its output otherwise |
| `Scheduler.SubmitJob` | wildfire-workflow.py:59-62 | issues exactly what `Execute` issues for the one submit command and fails exactly as its verdict says |
| `Scheduler.ResubmitJob` | wildfire-workflow.py:65-74 | issues the suspend, edit and resubmit commands in order, stopping after the first that fails, and fails with that command |
| `Scheduler.UpdateJob` | wildfire-workflow.py:126-132 | issues the submit sequence for a row with the sentinel id and the resubmit sequence for any other row |
| `Scheduler.JobCommandsByRow` | wildfire-workflow.py:59-74 | a sentinel row yields exactly one `sesctl submit --file-path <job_name>.yaml`; any other row yields exactly suspend, edit, resubmit under its id |
| `Scheduler.ExecuteMeaning` | wildfire-workflow.py:36-37 | the issued commands are a prefix of the list; the run succeeds iff every exit code is zero, and then all were issued; otherwise the last one issued is the first that failed |
| `Scheduler.ExecuteAppend` | wildfire-workflow.py:123-132 | running two command lists in a row runs the second only if the first succeeded |
| `Scheduler.SuspendedWhenEditFails` | wildfire-workflow.py:65-71 | when the edit fails after the suspend succeeded, exactly those two commands were issued and the job stays suspended |
| `Scheduler.FailureStopsAtRow` | wildfire-workflow.py:123-132 | when a row's commands fail after all earlier rows succeeded, the run issued the earlier rows' commands and that row's up to the failing one, and nothing later |
| `Scheduler.FreshRowsAreSubmitted` | wildfire-workflow.py:129-130 | a table whose rows all carry the sentinel is submitted row by row from each row's own file |
| `Scheduler.UpdateJobs` | wildfire-workflow.py:122-132 | issues what `Execute` issues for the table's `Plan`, in table order, and fails with the first failing command and its output |
| `Workflow.RunWorkflow` | wildfire-workflow.py:135-157 | a whole run: the timestamp is set exactly when some station shows smoke at 0.7; a failing listing command or a malformed line ends the run after the listing command; otherwise the table is the loaded table filled and given one interval, and the jobs' commands follow in table order |
| `Workflow.ScheduleJobs` | wildfire-workflow.py:144-157 | the same for the second half of a run, stated in terms of the table as it was before the listing |
| `Workflow.QuietRunIsSlow` | wildfire-workflow.py:149-154 | with no stored timestamp every node gets the 30-minute interval |
| `Workflow.DetectionIsFast` | wildfire-workflow.py:139-151 | a detection recorded less than an hour before the check gives every node the 5-minute interval |
| `Workflow.UnlistedNodeUnchanged` | wildfire-workflow.py:137-144 | a node whose job the listing does not name keeps the sentinel row it was loaded with |
| `Workflow.UnknownNodesAreSubmitted` | wildfire-workflow.py:135-157 | when the listing names none of the nodes' jobs, the run's commands are one `submit --file-path wildfire-<vsn>.yaml` per node, in table order |

## Left out

- Process execution in `sesctl_call` (wildfire-workflow.py:18-40) is not
  modelled: the shell, the environment copy of `SES_HOST`/`SES_USER_TOKEN`,
  and the one-second sleep. `Runner` stands for it. The exit code and output
  of each call are parameters of the run.
- The check for `err != None` (wildfire-workflow.py:38-39) has no counterpart.
  Standard error is merged into standard output, so nothing is ever reported
  there and the branch cannot be taken.
- The error text holds `stat` as a Python bytes literal. The model keeps the
  command's output as a string, and `stat.decode()` is treated as the same
  string. Decoding errors are not modelled.
- The telemetry query, JSON decoding and numpy `squeeze`/`argwhere`
  (wildfire-workflow.py:79-91) are not modelled. `GetSmokeData` takes each
  station's readings already decoded into a flat sequence of tile values, in
  grouping order.
- Logging throughout is a side effect only. This includes the per-station
  "no smoke" message and the loop at wildfire-workflow.py:146-147.
- Not modelled: pandas CSV loading, the other columns of the node list, and
  the DataFrame mechanics. The table is an array of `Node` records.
- Not modelled: rendering the Jinja template and writing each job file
  (wildfire-workflow.py:124-128). Only the file's name `<job_name>.yaml`
  enters the commands.
- Time is whole seconds (`int`), not a float. The clock readings the script
  takes are the parameters `markTime` and `checkTime`.
- Not modelled: the state file's text and a failure of `float()` on
  unreadable content (wildfire-workflow.py:110-113). The file is a stored
  optional timestamp.
- `set_wildfire_active` writes the float from `time.time()` to a text file
  (wildfire-workflow.py:104). In Python that raises a TypeError. The model
  records the timestamp, which is evidently the intent, and does not
  reproduce the exception.
- The threshold is a parameter of `GetSmokeData`. `RunWorkflow` uses the
  call-site value 0.7. The default 0.5 is the constant `DefaultThreshold`.
- Workflow.RunWorkflow: on the two listing errors the table's partial
  content is not stated, because the script ends and the table is
  discarded. `Workflow.ScheduleJobs` states it.
