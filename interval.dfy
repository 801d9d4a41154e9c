/** The interval policy: how often smoke detection runs on every node. */
module Interval {
  import opened Wrappers
  import opened Nodes

  /** Every 5 minutes, the cadence while a wildfire is active. The value
      includes its surrounding double quotes, as the job template receives it. */
  const FastInterval: string := "\"5/" + "* * * * *\""

  /** Every 30 minutes, the cadence otherwise; quoted the same way. */
  const SlowInterval: string := "\"30/" + "* * * * *\""

  function ChooseInterval(active: bool): string
  {
    if active then FastInterval else SlowInterval
  }

  /** The two cadences differ, so the interval a row carries tells which
      state was seen: the policy is faithful in both directions. */
  lemma ChooseIntervalReveals(active: bool)
    ensures ChooseInterval(active) == FastInterval <==> active
    ensures ChooseInterval(active) == SlowInterval <==> !active
  {
    assert FastInterval[1] == '5' && SlowInterval[1] == '3';
  }

  /** The table with every row's interval set from the wildfire state. */
  function WithInterval(rows: seq<Node>, active: bool): (r: seq<Node>)
    ensures |r| == |rows|
  {
    seq(|rows|, i requires 0 <= i < |rows| => rows[i].(interval := Some(ChooseInterval(active))))
  }

  /** Every row gets the 5-minute cadence when the state is active and the
      30-minute one otherwise; its station, job name and job id stay as they were. */
  lemma EveryRowGetsCadence(rows: seq<Node>, active: bool, i: nat)
    requires i < |rows|
    ensures WithInterval(rows, active)[i].interval == Some(FastInterval) <==> active
    ensures WithInterval(rows, active)[i].interval == Some(SlowInterval) <==> !active
    ensures WithInterval(rows, active)[i].(interval := rows[i].interval) == rows[i]
  {
    ChooseIntervalReveals(active);
  }

  /** Sets the interval column of every row from the wildfire state, leaving
      every other column as it was. */
  method ApplyIntervalPolicy(table: array<Node>, active: bool)
    modifies table
    ensures table[..] == WithInterval(old(table[..]), active)
  {
    if active {
      forall i | 0 <= i < table.Length {
        table[i] := table[i].(interval := Some(FastInterval));
      }
    } else {
      forall i | 0 <= i < table.Length {
        table[i] := table[i].(interval := Some(SlowInterval));
      }
    }
  }
}
