/** The line classifier and the parse pipeline of `parseInput`: split the text
    on newlines, drop the lines of length 0, trim the rest, and classify each
    surviving line with its 0-based index among the survivors. */
module Parser {
  import opened Numbers
  import opened Digits
  import opened Text
  import opened Decimal
  import opened Records

  /** A record and the error messages its line reports, in order. */
  datatype Classified = Classified(record: Record, errors: seq<Message>)

  /** Classification of one trimmed line: blank lines are ignored, `...` starts
      and `===` ends an RT section, one field is a distance, two fields a
      distance and a speed, any other number of fields is an error. */
  function ClassifyLine(line: string, index: nat): (c: Classified)
    ensures !c.record.Error? ==> c.record.line == index
    ensures forall k :: 0 <= k < |c.errors| ==> c.errors[k].line == index
    ensures c.record.Error? <==> CannotParseText(index) in c.errors
    ensures c.record.Error? ==> c.errors == [CannotParseText(index)]
    ensures CannotParseDistance(index) in c.errors <==> c.record.Wp? && c.record.distKm.NaN?
    ensures CannotParseSpeed(index) in c.errors ==> c.record.Wp? && c.record.speedKmh.NaN?
    ensures (c.record.Ignore? || c.record.Start? || c.record.End?) ==> c.errors == []
    ensures c.record.Ignore? <==> line == ""
    ensures c.record.Start? <==> line == "..."
    ensures c.record.End? <==> line == "==="
  {
    if line == "" then Classified(Ignore(index), [])
    else if line == "..." then Classified(Start(index), [])
    else if line == "===" then Classified(End(index), [])
    else
      var data := SplitFields(line);
      if |data| == 1 then
        var distKm := ParseFloat(data[0]);
        Classified(Wp(index, distKm, NaN),
                   if distKm.NaN? then [CannotParseDistance(index)] else [])
      else if |data| == 2 then
        var distKm := ParseFloat(data[0]);
        var speedKmh := ParseFloat(data[1]);
        Classified(Wp(index, distKm, speedKmh),
                   (if distKm.NaN? then [CannotParseDistance(index)] else []) +
                   (if speedKmh.NaN? then [CannotParseSpeed(index)] else []))
      else Classified(Error, [CannotParseText(index)])
  }

  /** A line without separators (and not a marker) is a distance-only waypoint. */
  lemma ClassifySingleField(line: string, index: nat)
    requires line != "" && line != "..." && line != "===" && NoSeparator(line)
    ensures var d := ParseFloat(line);
            ClassifyLine(line, index)
              == Classified(Wp(index, d, NaN), if d.NaN? then [CannotParseDistance(index)] else [])
  {
    SplitFieldsInterleave([line], []);
  }

  /** A line containing a separator is neither blank nor a section marker. */
  lemma NotMarker(line: string, i: nat)
    requires i < |line| && IsSeparator(line[i])
    ensures line != "" && line != "..." && line != "==="
  {
    assert !IsSeparator("..."[i % 3]) && !IsSeparator("==="[i % 3]);
  }

  /** Two fields around one run of separators give a waypoint with both values. */
  lemma ClassifyTwoFields(a: string, m: string, b: string, index: nat)
    requires NoSeparator(a) && NoSeparator(b)
    requires m != [] && AllSeparators(m)
    ensures var d, v := ParseFloat(a), ParseFloat(b);
            ClassifyLine(a + m + b, index)
              == Classified(Wp(index, d, v),
                            (if d.NaN? then [CannotParseDistance(index)] else []) +
                            (if v.NaN? then [CannotParseSpeed(index)] else []))
  {
    InterleaveSeparator([a, b], [m]);
    assert [a, b][1..] == [b] && [m][1..] == [];
    SplitFieldsInterleave([a, b], [m]);
    NotMarker(a + m + b, |a|);
  }

  /** Three or more fields make the line an error record with exactly one
      error, which names that line. */
  lemma ClassifyTooManyFields(fs: seq<string>, ms: seq<string>, index: nat)
    requires |fs| >= 3 && |ms| == |fs| - 1
    requires forall k :: 0 <= k < |fs| ==> NoSeparator(fs[k])
    requires forall k :: 0 < k < |fs| - 1 ==> fs[k] != ""
    requires forall k :: 0 <= k < |ms| ==> ms[k] != [] && AllSeparators(ms[k])
    ensures ClassifyLine(Interleave(fs, ms), index) == Classified(Error, [CannotParseText(index)])
  {
    InterleaveSeparator(fs, ms);
    NotMarker(Interleave(fs, ms), |fs[0]|);
    SplitFieldsInterleave(fs, ms);
  }

  /** A line holding a plain distance is a waypoint without speed and reports nothing. */
  lemma ClassifyDistance(n: nat, index: nat)
    ensures ClassifyLine(Show(n), index) == Classified(Wp(index, Fin(n as real), NaN), [])
  {
    var s := Show(n);
    assert NoSeparator(s) by {
      forall i | 0 <= i < |s| ensures !IsSeparator(s[i]) {
        assert IsDigit(s[i]);
      }
    }
    assert s != "..." && s != "===" by {
      assert IsDigit(s[0]);
    }
    SplitFieldsInterleave([s], []);
    ParseFloatInteger(false, n, "", s);
    assert "" + s + "" == s;
  }

  /** `.filter(line => line?.length > 0)`: the lines of length 0 removed. */
  function NonEmpty(ls: seq<string>): (r: seq<string>)
    ensures |r| <= |ls|
    ensures forall k :: 0 <= k < |r| ==> r[k] != ""
    decreases |ls|
  {
    if ls == [] then []
    else NonEmpty(ls[..|ls| - 1]) + (if ls[|ls| - 1] != "" then [ls[|ls| - 1]] else [])
  }

  /** The filter keeps every non-empty line as often as it occurs and drops
      every empty one. */
  lemma {:induction false} NonEmptyCounts(ls: seq<string>)
    ensures forall x :: x != [] ==> multiset(NonEmpty(ls))[x] == multiset(ls)[x]
    ensures |NonEmpty(ls)| == |ls| - multiset(ls)[[]]
    decreases |ls|
  {
    if ls != [] {
      var n := |ls| - 1;
      var p := NonEmpty(ls[..n]);
      var e := if ls[n] != [] then [ls[n]] else [];
      NonEmptyCounts(ls[..n]);
      assert ls == ls[..n] + [ls[n]];
      assert multiset(ls) == multiset(ls[..n]) + multiset{ls[n]};
      assert multiset(NonEmpty(ls)) == multiset(p) + multiset(e);
      forall x | x != []
        ensures multiset(NonEmpty(ls))[x] == multiset(ls)[x]
      {
      }
    }
  }

  /** So the filter adds no line and changes none. */
  lemma NonEmptyFrom(ls: seq<string>)
    ensures forall k :: 0 <= k < |NonEmpty(ls)| ==> NonEmpty(ls)[k] in ls
  {
    NonEmptyCounts(ls);
    var r := NonEmpty(ls);
    forall k | 0 <= k < |r| ensures r[k] in ls {
      assert r[k] in multiset(r);
      assert multiset(r)[r[k]] == multiset(ls)[r[k]];
    }
  }

  /** The trimmed lines that reach the classifier. */
  function Retained(text: string): (r: seq<string>)
    ensures var raw := SplitOn(text, '\n'); |r| == |raw| - multiset(raw)[[]]
  {
    NonEmptyCounts(SplitOn(text, '\n'));
    var ne := NonEmpty(SplitOn(text, '\n'));
    seq(|ne|, i requires 0 <= i < |ne| => Trim(ne[i]))
  }

  datatype Parsed = Parsed(records: seq<Record>, errors: seq<Message>)

  /** Classification of every line with its index: the records in order, and
      the messages the lines report, in the order they are reported. */
  function ParseLines(ls: seq<string>): (p: Parsed)
    ensures |p.records| == |ls|
    decreases |ls|
  {
    if ls == [] then Parsed([], [])
    else
      var p := ParseLines(ls[..|ls| - 1]);
      var c := ClassifyLine(ls[|ls| - 1], |ls| - 1);
      Parsed(p.records + [c.record], p.errors + c.errors)
  }

  /** The records of a whole input text. */
  function ParseText(text: string): Parsed {
    ParseLines(Retained(text))
  }

  /** One record per line, in order, each the classification of its line with
      its own index, so indices are consecutive from 0. */
  lemma {:induction false} ParseLinesPointwise(ls: seq<string>)
    ensures |ParseLines(ls).records| == |ls|
    ensures forall i :: 0 <= i < |ls| ==> ParseLines(ls).records[i] == ClassifyLine(ls[i], i).record
    ensures forall i :: 0 <= i < |ls| && !ParseLines(ls).records[i].Error? ==> ParseLines(ls).records[i].line == i
    decreases |ls|
  {
    if ls != [] {
      var n := |ls| - 1;
      ParseLinesPointwise(ls[..n]);
      var p := ParseLines(ls[..n]);
      var c := ClassifyLine(ls[n], n);
      var r := ParseLines(ls).records;
      assert r == p.records + [c.record];
      forall i | 0 <= i < |ls| ensures r[i] == ClassifyLine(ls[i], i).record {
        if i < n {
          assert r[i] == p.records[i] && ls[..n][i] == ls[i];
        } else {
          assert r[i] == c.record;
        }
      }
    }
  }

  /** The parse reports exactly the messages its lines report, in line order:
      each line's messages are among them, each of them is a message of the
      line it names, and lines never decrease. */
  lemma {:induction false} ParseErrorsInOrder(ls: seq<string>)
    ensures InLineOrder(ParseLines(ls).errors, |ls|)
    ensures forall i, m :: 0 <= i < |ls| && m in ClassifyLine(ls[i], i).errors ==> m in ParseLines(ls).errors
    ensures forall m :: m in ParseLines(ls).errors ==> m in ClassifyLine(ls[m.line], m.line).errors
    decreases |ls|
  {
    ParseErrorsComplete(ls);
    ParseErrorsSound(ls);
    if ls != [] {
      var n := |ls| - 1;
      ParseErrorsInOrder(ls[..n]);
      var c := ClassifyLine(ls[n], n).errors;
      assert forall k :: 0 <= k < |c| ==> c[k].line == n;
      AppendInLineOrder(ParseLines(ls[..n]).errors, c, n);
    }
  }

  /** Every message a line reports is among the messages of the parse. */
  lemma {:induction false} ParseErrorsComplete(ls: seq<string>)
    ensures forall i, m :: 0 <= i < |ls| && m in ClassifyLine(ls[i], i).errors ==> m in ParseLines(ls).errors
    decreases |ls|
  {
    if ls != [] {
      var n := |ls| - 1;
      ParseErrorsComplete(ls[..n]);
      var e := ParseLines(ls[..n]).errors;
      var c := ClassifyLine(ls[n], n).errors;
      assert ParseLines(ls).errors == e + c;
      forall i, m: Message | 0 <= i < |ls| && m in ClassifyLine(ls[i], i).errors ensures m in e + c {
        if i < n {
          assert ls[..n][i] == ls[i];
          assert m in e;
        } else {
          assert m in c;
        }
      }
    }
  }

  /** Every message of the parse is one that the line it names reports. */
  lemma {:induction false} ParseErrorsSound(ls: seq<string>)
    ensures forall m :: m in ParseLines(ls).errors ==> m.line < |ls| && m in ClassifyLine(ls[m.line], m.line).errors
    decreases |ls|
  {
    if ls != [] {
      var n := |ls| - 1;
      ParseErrorsSound(ls[..n]);
      var e := ParseLines(ls[..n]).errors;
      var c := ClassifyLine(ls[n], n).errors;
      assert ParseLines(ls).errors == e + c;
      forall m: Message | m in e ensures m.line < n && ls[m.line] == ls[..n][m.line] {
      }
    }
  }

  /** Every message names a line below `bound`, and lines never decrease. */
  predicate InLineOrder(ms: seq<Message>, bound: nat) {
    (forall k :: 0 <= k < |ms| ==> ms[k].line < bound) &&
    (forall a, b :: 0 <= a < b < |ms| ==> ms[a].line <= ms[b].line)
  }

  lemma AppendInLineOrder(p: seq<Message>, c: seq<Message>, n: nat)
    requires InLineOrder(p, n)
    requires forall k :: 0 <= k < |c| ==> c[k].line == n
    ensures InLineOrder(p + c, n + 1)
  {
    var e := p + c;
    forall k | 0 <= k < |e| ensures e[k].line < n + 1 && (k >= |p| ==> e[k].line == n) {
      if k < |p| {
        assert e[k] == p[k];
      } else {
        assert e[k] == c[k - |p|];
      }
    }
    forall a, b | 0 <= a < b < |e| ensures e[a].line <= e[b].line {
      if b < |p| {
        assert e[a] == p[a] && e[b] == p[b];
      }
    }
  }

  /** Filtering keeps the order: the filtered list of a prefix is a prefix. */
  lemma {:induction false} NonEmptyPrefix(ls: seq<string>, j: nat)
    requires j <= |ls|
    ensures NonEmpty(ls[..j]) <= NonEmpty(ls)
    decreases |ls| - j
  {
    if j < |ls| {
      NonEmptyPrefix(ls, j + 1);
      assert ls[..j + 1][..j] == ls[..j];
    } else {
      assert ls[..j] == ls;
    }
  }

  /** A raw line of length > 0 reaches the classifier, trimmed, at the index
      given by the number of non-empty raw lines before it. */
  lemma RetainedLine(text: string, j: nat)
    requires j < |SplitOn(text, '\n')| && SplitOn(text, '\n')[j] != ""
    ensures var k := |NonEmpty(SplitOn(text, '\n')[..j])|;
            k < |Retained(text)| && Retained(text)[k] == Trim(SplitOn(text, '\n')[j])
  {
    var raw := SplitOn(text, '\n');
    NonEmptyPrefix(raw, j + 1);
    assert raw[..j + 1][..j] == raw[..j];
    assert NonEmpty(raw[..j + 1]) == NonEmpty(raw[..j]) + [raw[j]];
  }

  /** A raw line made only of whitespace is not dropped: it becomes an Ignore
      record, and the records after it keep counting from there. */
  lemma WhitespaceLineIgnored(text: string, j: nat)
    requires j < |SplitOn(text, '\n')| && SplitOn(text, '\n')[j] != ""
    requires AllWhite(SplitOn(text, '\n')[j])
    ensures var k := |NonEmpty(SplitOn(text, '\n')[..j])|;
            k < |ParseText(text).records| && ParseText(text).records[k] == Ignore(k)
  {
    var k := |NonEmpty(SplitOn(text, '\n')[..j])|;
    RetainedLine(text, j);
    TrimEmptyIffWhite(SplitOn(text, '\n')[j]);
    ParseLinesPointwise(Retained(text));
  }
}
