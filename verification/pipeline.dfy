/** `parseInput` end to end: clear the error flag, classify every retained
    line (reporting its errors as it goes), hide the banner if nothing was
    reported, and hand the records to `calculateData`. */
module Pipeline {
  import opened Records
  import opened Reporting
  import opened Parser
  import opened Calculator

  /** The table rows that an input text produces. */
  function Rows(text: string): seq<Row> {
    Scan(ParseText(text).records).rows
  }

  /** The messages a run on an input text reports, in order: those of the
      parse, then those of the scan. */
  function Messages(text: string): seq<Message> {
    ParseText(text).errors + Scan(ParseText(text).records).errors
  }

  /** Reports the messages of one classified line, in order. */
  method ReportAll(rep: Reporter, ms: seq<Message>)
    requires rep.Valid()
    modifies rep
    ensures rep.Valid() && rep.reports == old(rep.reports) + ms
  {
    ghost var reports0 := rep.reports;
    for j := 0 to |ms|
      invariant rep.Valid() && rep.reports == reports0 + ms[..j]
    {
      rep.Report(ms[j]);
      assert ms[..j + 1] == ms[..j] + [ms[j]];
    }
    assert ms[..|ms|] == ms;
  }

  /** The `.map` of `parseInput`: classifies each line with its index and
      reports its messages. */
  method ClassifyAll(lines: seq<string>, rep: Reporter) returns (recs: seq<Record>)
    requires rep.Valid() && rep.reports == []
    modifies rep
    ensures rep.Valid()
    ensures Parsed(recs, rep.reports) == ParseLines(lines)
  {
    recs := [];
    for index := 0 to |lines|
      invariant rep.Valid()
      invariant ParseLines(lines[..index]) == Parsed(recs, rep.reports)
    {
      var c := ClassifyLine(lines[index], index);
      ReportAll(rep, c.errors);
      recs := recs + [c.record];
      assert lines[..index + 1][..index] == lines[..index];
    }
    assert lines[..|lines|] == lines;
  }

  /** `parseInput`: the output rows are those of the scan over the parsed
      records; the pass reports the parse errors and then the scan errors,
      and afterwards the banner shows the last of them, or nothing. */
  method ParseInput(text: string, rep: Reporter) returns (data: seq<Row>)
    requires rep.Valid()
    modifies rep
    ensures rep.Valid()
    ensures data == Rows(text)
    ensures rep.reports == Messages(text)
    ensures rep.shown == LastOf(rep.reports)
  {
    rep.Begin();
    var recs := ClassifyAll(Retained(text), rep);
    rep.HideIfNoError();
    var records := new Record[|recs|](i requires 0 <= i < |recs| => recs[i]);
    assert records[..] == recs;
    data := CalculateData(records, rep);
  }
}
