/** The node table: one row per monitored station, read from the node list
    and then completed in memory during one run. */
module Nodes {
  import opened Wrappers

  /** The scheduler's id for a node's job. `Unassigned` is the `-1` every row
      starts with; an id read from the scheduler's listing is kept as text. */
  datatype JobId = Unassigned | Assigned(id: string)

  /** One row of the table. `interval` is absent until the interval policy
      has been applied to the table. */
  datatype Node = Node(vsn: string, jobName: string, jobId: JobId, interval: Option<string>)

  const JobNamePrefix: string := "wildfire-"

  /** The job that runs smoke detection on station `vsn`. */
  function JobName(vsn: string): (name: string)
    ensures |name| == |JobNamePrefix| + |vsn|
  {
    JobNamePrefix + vsn
  }

  /** Recovers the station from a job name; the partner of `JobName`. */
  function StationOf(name: string): Option<string>
  {
    if |name| >= |JobNamePrefix| && name[..|JobNamePrefix|] == JobNamePrefix
    then Some(name[|JobNamePrefix|..])
    else None
  }

  /** Job names are exactly the prefixed station ids, so no two stations share one. */
  lemma JobNameRoundTrip(vsn: string, name: string)
    ensures StationOf(name) == Some(vsn) <==> name == JobName(vsn)
  {
    if StationOf(name) == Some(vsn) {
      assert name == name[..|JobNamePrefix|] + name[|JobNamePrefix|..];
    }
    if name == JobName(vsn) {
      assert name[..|JobNamePrefix|] == JobNamePrefix;
      assert name[|JobNamePrefix|..] == vsn;
    }
  }

  lemma JobNameInjective(a: string, b: string)
    ensures JobName(a) == JobName(b) <==> a == b
  {
    if JobName(a) == JobName(b) {
      JobNameRoundTrip(a, JobName(a));
      JobNameRoundTrip(b, JobName(b));
    }
  }

  /** The file the job definition of a row is written to. */
  function JobFilePath(row: Node): string
  {
    row.jobName + ".yaml"
  }

  /** A freshly loaded row: its job name derived from the station, no job id
      yet and no interval yet. */
  function NewNode(vsn: string): (row: Node)
    ensures StationOf(row.jobName) == Some(vsn)
    ensures row.jobId == Unassigned && row.interval == None
  {
    JobNameRoundTrip(vsn, JobName(vsn));
    Node(vsn, JobName(vsn), Unassigned, None)
  }

  /** Loads the table from the station ids of the node list, one row each, in
      order, then sets the job-id column to the sentinel and derives the
      job-name column. */
  method LoadNodes(vsns: seq<string>) returns (table: array<Node>)
    ensures fresh(table)
    ensures table.Length == |vsns|
    ensures forall i :: 0 <= i < |vsns| ==> table[i] == NewNode(vsns[i])
  {
    table := new Node[|vsns|](i requires 0 <= i < |vsns| => Node(vsns[i], "", Unassigned, None));
    forall i | 0 <= i < table.Length {
      table[i] := table[i].(jobId := Unassigned);
    }
    forall i | 0 <= i < table.Length {
      table[i] := table[i].(jobName := JobName(table[i].vsn));
    }
  }
}
