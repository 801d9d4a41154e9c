/** Reading the scheduler's job listing and writing the ids it names into
    the node table (`fill_job_id_if_exists`). The listing holds one
    `job_id job_name` pair per line. */
module JobListing {
  import opened Wrappers
  import opened Seqs
  import opened Text
  import opened Nodes
  import opened Scheduler

  datatype Entry = Entry(jobId: string, jobName: string)

  /** What parsing a listing yields: the pairs of the well-formed lines read
      before the first malformed one, and that malformed line if there is one. */
  datatype Parsed = Parsed(entries: seq<Entry>, bad: Option<string>)

  /** Why filling the job ids failed: the listing command exited non-zero,
      or a line is not exactly two space-separated tokens. */
  datatype ListingError = ListFailed(cause: CommandError) | CannotSplit(line: string)

  /** A line is skipped when empty and accepted when it splits on a single
      space into exactly two tokens. */
  predicate WellFormed(line: string)
  {
    line == "" || |Split(line, ' ')| == 2
  }

  /** The line a pair comes from. */
  function FormatLine(e: Entry): string
  {
    e.jobId + " " + e.jobName
  }

  /** Reads the lines in order, skipping empty ones, and stops at the first
      malformed one. */
  function ParseLines(lines: seq<string>): (p: Parsed)
    ensures p.bad.None? <==> forall i :: 0 <= i < |lines| ==> WellFormed(lines[i])
  {
    if lines == [] then Parsed([], None)
    else
      var rest := ParseLines(lines[1..]);
      if lines[0] == "" then
        rest
      else
        var sp := Split(lines[0], ' ');
        if |sp| != 2 then
          Parsed([], Some(lines[0]))
        else
          Parsed([Entry(sp[0], sp[1])] + rest.entries, rest.bad)
  }

  /** Every pair read comes from a line of the listing, and a reported line
      is one of its lines and is malformed. */
  lemma {:induction false} ParseLinesSound(lines: seq<string>)
    ensures var p := ParseLines(lines);
      && |p.entries| <= |lines|
      && (forall k :: 0 <= k < |p.entries| ==> FormatLine(p.entries[k]) in lines)
      && (p.bad.Some? ==> p.bad.value in lines && !WellFormed(p.bad.value))
  {
    if lines != [] {
      ParseLinesSound(lines[1..]);
      if lines[0] != "" {
        var sp := Split(lines[0], ' ');
        if |sp| == 2 {
          assert Join(sp[1..], ' ') == sp[1];
          assert Join(sp, ' ') == sp[0] + [' '] + sp[1];
          assert FormatLine(Entry(sp[0], sp[1])) == lines[0];
        }
      }
    }
  }

  /** The listing as the scheduler's decoded output, split on newlines. */
  function ParseListing(text: string): Parsed
  {
    ParseLines(Split(text, '\n'))
  }

  /** Parsing extended by one more line, the step the filling loop takes. */
  lemma {:induction false} ParseLinesSnoc(lines: seq<string>, line: string)
    requires ParseLines(lines).bad.None?
    ensures ParseLines(lines + [line]) ==
      if line == "" then ParseLines(lines)
      else if |Split(line, ' ')| != 2 then Parsed(ParseLines(lines).entries, Some(line))
      else Parsed(ParseLines(lines).entries + [Entry(Split(line, ' ')[0], Split(line, ' ')[1])], None)
  {
    if lines == [] {
      assert [] + [line] == [line];
      assert [line][1..] == [];
    } else {
      assert (lines + [line])[0] == lines[0];
      assert (lines + [line])[1..] == lines[1..] + [line];
      ParseLinesSnoc(lines[1..], line);
    }
  }

  /** An empty line anywhere in the listing is skipped: removing it changes nothing. */
  lemma {:induction false} ParseLinesSkipsEmpty(a: seq<string>, b: seq<string>)
    ensures ParseLines(a + [""] + b) == ParseLines(a + b)
    decreases |a|
  {
    if a == [] {
      assert a + [""] + b == [""] + b && a + b == b;
      assert ([""] + b)[1..] == b;
    } else {
      assert (a + [""] + b)[0] == a[0] && (a + b)[0] == a[0];
      assert (a + [""] + b)[1..] == a[1..] + [""] + b;
      assert (a + b)[1..] == a[1..] + b;
      ParseLinesSkipsEmpty(a[1..], b);
    }
  }

  /** Once a malformed line has been read, later lines change nothing. */
  lemma {:induction false} ParseLinesStops(lines: seq<string>, more: seq<string>)
    requires ParseLines(lines).bad.Some?
    ensures ParseLines(lines + more) == ParseLines(lines)
  {
    assert lines != [];
    assert (lines + more)[0] == lines[0];
    assert (lines + more)[1..] == lines[1..] + more;
    if lines[0] == "" || |Split(lines[0], ' ')| == 2 {
      ParseLinesStops(lines[1..], more);
    }
  }

  /** A well-formed line extends what has been parsed by at most its own pair. */
  lemma NextLine(lines: seq<string>, i: nat, entries: seq<Entry>)
    requires i < |lines|
    requires ParseLines(lines[..i]) == Parsed(entries, None)
    ensures lines[i] == "" ==> ParseLines(lines[..i + 1]) == Parsed(entries, None)
    ensures lines[i] != "" && |Split(lines[i], ' ')| == 2 ==>
      ParseLines(lines[..i + 1]) == Parsed(entries + [Entry(Split(lines[i], ' ')[0], Split(lines[i], ' ')[1])], None)
  {
    TakeOneMore(lines, i);
    ParseLinesSnoc(lines[..i], lines[i]);
  }

  /** The first malformed line decides the outcome of the whole listing. */
  lemma FirstMalformedLine(lines: seq<string>, i: nat)
    requires i < |lines| && !WellFormed(lines[i])
    requires ParseLines(lines[..i]).bad.None?
    ensures ParseLines(lines) == Parsed(ParseLines(lines[..i]).entries, Some(lines[i]))
  {
    TakeOneMore(lines, i);
    ParseLinesSnoc(lines[..i], lines[i]);
    ParseLinesStops(lines[..i + 1], lines[i + 1..]);
    TakeAndDrop(lines, i + 1);
  }

  /** The listing a scheduler prints for these pairs, each line ended by a newline. */
  function FormatListing(es: seq<Entry>): string
  {
    if es == [] then "" else FormatLine(es[0]) + "\n" + FormatListing(es[1..])
  }

  /** Neither token contains a space or a newline. */
  predicate Plain(e: Entry)
  {
    ' ' !in e.jobId && ' ' !in e.jobName && '\n' !in e.jobId && '\n' !in e.jobName
  }

  /** Parsing recovers every pair of a listing of plain tokens, in order, with no error. */
  lemma {:induction false} ListingRoundTrip(es: seq<Entry>)
    requires forall k :: 0 <= k < |es| ==> Plain(es[k])
    ensures ParseListing(FormatListing(es)) == Parsed(es, None)
  {
    if es == [] {
      SplitWithoutSeparator("", '\n');
    } else {
      var e := es[0];
      var line := FormatLine(e);
      assert line == e.jobId + [' '] + e.jobName;
      assert '\n' !in line;
      assert FormatListing(es) == line + ['\n'] + FormatListing(es[1..]);
      SplitAfterPiece(line, '\n', FormatListing(es[1..]));
      SplitAfterPiece(e.jobId, ' ', e.jobName);
      SplitWithoutSeparator(e.jobName, ' ');
      ListingRoundTrip(es[1..]);
      var lines := Split(FormatListing(es), '\n');
      assert lines[0] == line && lines[1..] == Split(FormatListing(es[1..]), '\n');
      assert [e] + es[1..] == es;
    }
  }

  /** The table after `df.loc[df["job_name"] == e.jobName, "job_id"] = e.jobId`. */
  function Assign(rows: seq<Node>, e: Entry): (r: seq<Node>)
    ensures |r| == |rows|
  {
    seq(|rows|, i requires 0 <= i < |rows| =>
      if rows[i].jobName == e.jobName then rows[i].(jobId := Assigned(e.jobId)) else rows[i])
  }

  /** The table after assigning the pairs one after another, in listing order. */
  function FillAll(rows: seq<Node>, es: seq<Entry>): (r: seq<Node>)
    ensures |r| == |rows|
  {
    if es == [] then rows else Assign(FillAll(rows, es[..|es| - 1]), es[|es| - 1])
  }

  lemma FillAllSnoc(rows: seq<Node>, es: seq<Entry>, e: Entry)
    ensures FillAll(rows, es + [e]) == Assign(FillAll(rows, es), e)
  {
    assert (es + [e])[..|es|] == es;
  }

  /** Some pair of the listing names the job `name`. */
  predicate Lists(es: seq<Entry>, name: string)
  {
    exists j :: 0 <= j < |es| && es[j].jobName == name
  }

  /** The id of the last pair naming a job: the assignment that wins. There
      is none exactly when the listing does not name the job. */
  function LastId(es: seq<Entry>, name: string): (r: Option<string>)
    ensures r.None? <==> !Lists(es, name)
  {
    if es == [] then None
    else if es[|es| - 1].jobName == name then Some(es[|es| - 1].jobId)
    else
      var front := es[..|es| - 1];
      assert forall j :: 0 <= j < |front| ==> front[j] == es[j];
      LastId(front, name)
  }

  /** The id found is that of a pair naming the job, and no later pair names it. */
  lemma {:induction false} LastIdIsLast(es: seq<Entry>, name: string)
    requires LastId(es, name).Some?
    ensures exists j :: 0 <= j < |es| && es[j] == Entry(LastId(es, name).value, name) &&
                        (forall k :: j < k < |es| ==> es[k].jobName != name)
  {
    var n := |es| - 1;
    if es[n].jobName == name {
      assert es[n] == Entry(LastId(es, name).value, name);
    } else {
      var front := es[..n];
      LastIdIsLast(front, name);
      var j :| 0 <= j < |front| && front[j] == Entry(LastId(front, name).value, name) &&
               (forall k :: j < k < |front| ==> front[k].jobName != name);
      assert es[j] == front[j];
      assert forall k :: j < k < n ==> es[k] == front[k];
    }
  }

  /** After filling, a row whose job name some pair names holds the id of the
      last such pair; any other row keeps its id; nothing but the id changes. */
  lemma {:induction false} FillAllAt(rows: seq<Node>, es: seq<Entry>, i: nat)
    requires i < |rows|
    ensures FillAll(rows, es)[i] ==
      match LastId(es, rows[i].jobName)
      case None => rows[i]
      case Some(id) => rows[i].(jobId := Assigned(id))
  {
    if es != [] {
      FillAllAt(rows, es[..|es| - 1], i);
    }
  }

  /** Writes one pair's id into every row that carries its job name. */
  method AssignInPlace(table: array<Node>, e: Entry)
    modifies table
    ensures table[..] == Assign(old(table[..]), e)
  {
    forall k | 0 <= k < table.Length && table[k].jobName == e.jobName {
      table[k] := table[k].(jobId := Assigned(e.jobId));
    }
  }

  /** Fills the job-id column of `table` from the scheduler's decoded listing.
      Every well-formed line before the first malformed one is applied in
      place, in order; a malformed line aborts with an error, leaving the
      assignments already made. */
  method FillJobIds(table: array<Node>, listing: string) returns (r: Outcome<ListingError>)
    modifies table
    ensures table[..] == FillAll(old(table[..]), ParseListing(listing).entries)
    ensures r == match ParseListing(listing).bad
      case None => Pass
      case Some(line) => Fail(CannotSplit(line))
  {
    var lines := Split(listing, '\n');
    ghost var start := table[..];
    ghost var entries: seq<Entry> := [];
    var i := 0;
    while i < |lines|
      invariant 0 <= i <= |lines|
      invariant ParseLines(lines[..i]) == Parsed(entries, None)
      invariant table[..] == FillAll(start, entries)
    {
      var line := lines[i];
      NextLine(lines, i, entries);
      if line == "" {
        i := i + 1;
        continue;
      }
      var sp := Split(line, ' ');
      if |sp| != 2 {
        FirstMalformedLine(lines, i);
        return Fail(CannotSplit(line));
      }
      var jobId, jobName := sp[0], sp[1];
      AssignInPlace(table, Entry(jobId, jobName));
      FillAllSnoc(start, entries, Entry(jobId, jobName));
      entries := entries + [Entry(jobId, jobName)];
      i := i + 1;
    }
    assert lines[..i] == lines;
    return Pass;
  }

  /** `fill_job_id_if_exists`: asks the scheduler for its job listing and
      fills the job ids from it. When the listing command fails the table is
      left as it was. */
  method FillJobIdsIfExists(runner: Runner, table: array<Node>) returns (r: Outcome<ListingError>)
    modifies runner, table
    ensures runner.issued == old(runner.issued) + [ListCommand]
    ensures var n := |old(runner.issued)|;
      if runner.code(n) != 0 then
        r == Fail(ListFailed(CommandFailed(ListCommand, runner.output(n)))) && table[..] == old(table[..])
      else
        var p := ParseListing(runner.output(n));
        table[..] == FillAll(old(table[..]), p.entries) &&
        r == match p.bad
          case None => Pass
          case Some(line) => Fail(CannotSplit(line))
  {
    var stat := runner.Call(ListCommand);
    if stat.Err? {
      return Fail(ListFailed(stat.error));
    }
    r := FillJobIds(table, stat.value);
  }
}
