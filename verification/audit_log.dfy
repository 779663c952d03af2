/** The audit log file: opened in append mode once per run, a header row
    written only when the file is empty, then one row per substitution. */
module AuditLog {
  import opened Rewrite

  /** A row of the log file: the header (`timestamp, article_url, old_link,
      new_link, anchor_text`) or the record of one substitution. */
  datatype Line = Header | Entry(row: AuditRow)

  /** The log rows for a sequence of audit records, in order. */
  function Entries(rows: seq<AuditRow>): (lines: seq<Line>)
    ensures |lines| == |rows|
    ensures forall i :: 0 <= i < |rows| ==> lines[i] == Entry(rows[i])
  {
    seq(|rows|, i requires 0 <= i < |rows| => Entry(rows[i]))
  }

  /** Entries of two batches are the entries of their concatenation. */
  lemma EntriesAppend(a: seq<AuditRow>, b: seq<AuditRow>)
    ensures Entries(a) + Entries(b) == Entries(a + b)
  {
  }

  /** Number of header rows in a log. */
  function HeaderCount(log: seq<Line>): nat
  {
    if |log| == 0 then 0
    else HeaderCount(log[..|log| - 1]) + (if log[|log| - 1] == Header then 1 else 0)
  }

  /** Appending lines adds their headers to the count. */
  lemma {:induction false} HeaderCountAppend(a: seq<Line>, b: seq<Line>)
    ensures HeaderCount(a + b) == HeaderCount(a) + HeaderCount(b)
    decreases |b|
  {
    if |b| > 0 {
      var c := b[..|b| - 1];
      assert (a + b)[..|a + b| - 1] == a + c;
      HeaderCountAppend(a, c);
    } else {
      assert a + b == a;
    }
  }

  /** Entries hold no header. */
  lemma {:induction false} HeaderCountEntries(rows: seq<AuditRow>)
    ensures HeaderCount(Entries(rows)) == 0
    decreases |rows|
  {
    if |rows| > 0 {
      var init := rows[..|rows| - 1];
      assert Entries(rows)[..|rows| - 1] == Entries(init);
      HeaderCountEntries(init);
    }
  }

  /** The file after opening it in append mode: a header is written when it
      is empty, and otherwise nothing. */
  function Open(existing: seq<Line>): seq<Line>
  {
    if |existing| == 0 then [Header] else existing
  }

  /** One run's effect on the log: everything already there is kept, exactly
      one header is added if and only if the file was empty, and the run's
      records follow in order at the end. */
  function Session(existing: seq<Line>, rows: seq<AuditRow>): (log: seq<Line>)
    ensures |existing| <= |log| && log[..|existing|] == existing
    ensures HeaderCount(log) == HeaderCount(existing) + (if |existing| == 0 then 1 else 0)
    ensures |rows| <= |log| && log[|log| - |rows|..] == Entries(rows)
    ensures |log| == |existing| + |rows| + (if |existing| == 0 then 1 else 0)
  {
    var log := Open(existing) + Entries(rows);
    HeaderCountAppend(Open(existing), Entries(rows));
    HeaderCountEntries(rows);
    assert HeaderCount([Header]) == 1 by {
      assert [Header][..0] == [];
    }
    log
  }

  /** All records of a sequence of batches, in order. */
  function Flatten(batches: seq<seq<AuditRow>>): seq<AuditRow>
  {
    if |batches| == 0 then [] else Flatten(batches[..|batches| - 1]) + batches[|batches| - 1]
  }

  /** The log after successive runs, each writing one batch, starting from a
      missing or empty file. */
  function Sessions(batches: seq<seq<AuditRow>>): seq<Line>
  {
    if |batches| == 0 then [] else Session(Sessions(batches[..|batches| - 1]), batches[|batches| - 1])
  }

  /** Over any number of runs the header is written once, by the first run,
      even when that run records nothing; every run's records follow in
      order. */
  lemma {:induction false} HeaderOnceAcrossRuns(batches: seq<seq<AuditRow>>)
    requires |batches| > 0
    ensures Sessions(batches) == [Header] + Entries(Flatten(batches))
    decreases |batches|
  {
    var init := batches[..|batches| - 1];
    var last := batches[|batches| - 1];
    if |init| == 0 {
      assert Flatten(batches) == Flatten(init) + last;
      assert Sessions(batches) == Session([], last);
    } else {
      HeaderOnceAcrossRuns(init);
      EntriesAppend(Flatten(init), last);
      assert Sessions(batches) == Open(Sessions(init)) + Entries(last);
    }
  }
}
