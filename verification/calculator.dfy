/** The sequential RT calculator of `calculateData`: one forward scan over the
    records that tracks whether an RT section is open, carries the previous
    distance and speed, accumulates elapsed seconds, and emits one row per
    waypoint. */
module Calculator {
  import opened Numbers
  import opened Records
  import opened Reporting

  /** Kilometres per mile, the divisor of `distMls`. */
  const KmPerMile: real := 1.609

  /** The five running values of the scan. */
  datatype ScanState = ScanState(prevDistKm: Num, prevSpeed: Num, totalSeconds: Num, isRT: bool, isStart: bool)

  const Initial: ScanState := ScanState(Fin(0.0), Fin(0.0), Fin(0.0), false, false)

  /** The effect of one record: the next state, the row it emits, the message
      it reports, and the record as the scan leaves it in the array (a waypoint
      inside a section gets its missing speed filled in). */
  datatype Stepped = Stepped(next: ScanState, rows: seq<Row>, errors: seq<Message>, filled: Record)

  function Step(s: ScanState, rec: Record): Stepped {
    match rec
    case Ignore(_) => Stepped(s, [], [], rec)
    case Error => Stepped(s, [], [], rec)
    case Start(line) => StartStep(s, line)
    case End(line) => EndStep(s, line)
    case Wp(line, distKm, speedKmh) => WaypointStep(s, line, distKm, speedKmh)
  }

  /** `...`: opens a section (an error if one is open already) and resets the clock. */
  function StartStep(s: ScanState, line: nat): Stepped {
    Stepped(s.(isStart := true, isRT := true, totalSeconds := Fin(0.0)), [],
            if s.isRT then [AlreadyStarted(line)] else [], Start(line))
  }

  /** `===`: closes the section (an error if none is open) and resets the clock.
      The previous distance is kept. */
  function EndStep(s: ScanState, line: nat): Stepped {
    Stepped(s.(isRT := false, totalSeconds := Fin(0.0)), [],
            if s.isRT then [] else [NotStarted(line)], End(line))
  }

  /** A waypoint: outside a section a row without speed or time; inside, the
      missing speed is carried forward and the leg's time is added, except on
      the first waypoint after a start. */
  function WaypointStep(s: ScanState, line: nat, distKm: Num, speedKmh: Num): Stepped {
    var deltaKm := Sub(distKm, s.prevDistKm);
    var distMls := Div(distKm, Fin(KmPerMile));
    if !s.isRT then
      Stepped(s.(prevDistKm := distKm, totalSeconds := Fin(0.0)),
              [Row(distKm, deltaKm, distMls, Fin(0.0), Fin(0.0))], [], Wp(line, distKm, speedKmh))
    else
      var speed := if speedKmh.NaN? then s.prevSpeed else speedKmh;
      var leg := if s.isStart then Fin(0.0) else Mul(Fin(3600.0), Div(deltaKm, s.prevSpeed));
      var total := Add(s.totalSeconds, leg);
      Stepped(ScanState(distKm, speed, total, true, false),
              [Row(distKm, deltaKm, distMls, speed, if s.isStart then Fin(0.0) else total)],
              [], Wp(line, distKm, speed))
  }

  /** Blank lines and error records change nothing; only a waypoint emits a
      row, and only a marker reports. */
  lemma StepKinds(s: ScanState, rec: Record)
    ensures var t := Step(s, rec);
            && |t.rows| == (if rec.Wp? then 1 else 0)
            && (t.errors != [] ==> rec.Start? || rec.End?)
            && ((rec.Ignore? || rec.Error?) ==> t.next == s && t.filled == rec)
  {
  }

  /** A start marker opens a section and resets the clock, keeps the previous
      distance and speed, and reports exactly when a section is open already. */
  lemma StartMarker(s: ScanState, line: nat)
    ensures var t := StartStep(s, line);
            && t.next.isRT && t.next.isStart && t.next.totalSeconds == Fin(0.0)
            && t.next.prevDistKm == s.prevDistKm && t.next.prevSpeed == s.prevSpeed
            && t.rows == [] && t.filled == Start(line)
            && (t.errors == [] <==> !s.isRT)
            && (t.errors != [] ==> t.errors == [AlreadyStarted(line)])
  {
  }

  /** An end marker closes the section and resets the clock, keeps the
      previous distance and speed, and reports exactly when no section is open. */
  lemma EndMarker(s: ScanState, line: nat)
    ensures var t := EndStep(s, line);
            && !t.next.isRT && t.next.totalSeconds == Fin(0.0)
            && t.next.prevDistKm == s.prevDistKm && t.next.prevSpeed == s.prevSpeed && t.next.isStart == s.isStart
            && t.rows == [] && t.filled == End(line)
            && (t.errors == [] <==> s.isRT)
            && (t.errors != [] ==> t.errors == [NotStarted(line)])
  {
  }

  /** A waypoint emits one row at its distance, measured from the previous
      distance, and becomes the previous distance. Outside a section its row
      has no speed or time, the clock is reset and the speed carried is kept;
      inside, a missing speed is the carried one, which then becomes the
      waypoint's speed, the first waypoint after a start adds no time, and a
      later one adds 3600 × leg ÷ previous speed and shows the new total. */
  lemma WaypointFacts(s: ScanState, line: nat, distKm: Num, speedKmh: Num)
    ensures var t := WaypointStep(s, line, distKm, speedKmh);
            && |t.rows| == 1 && t.errors == []
            && t.rows[0].distKm == distKm && t.rows[0].deltaKm == Sub(distKm, s.prevDistKm)
            && t.next.prevDistKm == distKm && t.next.isRT == s.isRT
            && t.next.isStart == (s.isStart && !s.isRT)
            && t.filled.Wp? && t.filled.line == line && t.filled.distKm == distKm
            && t.filled.speedKmh == (if s.isRT && speedKmh.NaN? then s.prevSpeed else speedKmh)
            && (!s.isRT ==> t.next.prevSpeed == s.prevSpeed && t.next.totalSeconds == Fin(0.0)
                            && t.rows[0].speedKmh == Fin(0.0) && t.rows[0].time == Fin(0.0))
            && (s.isRT ==> t.next.prevSpeed == t.filled.speedKmh && t.rows[0].speedKmh == t.filled.speedKmh)
            && (s.isRT && s.isStart ==> t.rows[0].time == Fin(0.0) && t.next.totalSeconds == s.totalSeconds)
            && (s.isRT && !s.isStart ==>
                  t.next.totalSeconds == Add(s.totalSeconds, Mul(Fin(3600.0), Div(Sub(distKm, s.prevDistKm), s.prevSpeed)))
                  && t.rows[0].time == t.next.totalSeconds)
  {
  }

  /** The result of scanning a list of records. */
  datatype Scanned = Scanned(state: ScanState, rows: seq<Row>, errors: seq<Message>, filled: seq<Record>)

  /** Scanning `recs` from state `s`, one step per record. */
  function Run(s: ScanState, recs: seq<Record>): Scanned
    decreases |recs|
  {
    if recs == [] then Scanned(s, [], [], [])
    else
      var p := Run(s, recs[..|recs| - 1]);
      var t := Step(p.state, recs[|recs| - 1]);
      Scanned(t.next, p.rows + t.rows, p.errors + t.errors, p.filled + [t.filled])
  }

  /** What `calculateData` computes for a list of records. */
  function Scan(recs: seq<Record>): (r: Scanned)
    ensures |r.rows| == |Waypoints(recs)| && |r.filled| == |recs|
  {
    RowPerWaypoint(Initial, recs);
    FillOnlyMissingSpeeds(Initial, recs);
    Run(Initial, recs)
  }

  /** Scanning one more record is one more step. */
  lemma RunSnoc(s: ScanState, recs: seq<Record>, i: nat)
    requires i < |recs|
    ensures var p := Run(s, recs[..i]);
            var t := Step(p.state, recs[i]);
            Run(s, recs[..i + 1]) == Scanned(t.next, p.rows + t.rows, p.errors + t.errors, p.filled + [t.filled])
  {
    assert recs[..i + 1][..i] == recs[..i];
  }

  lemma ConcatAssoc<T>(a: seq<T>, b: seq<T>, c: seq<T>)
    ensures a + b + c == a + (b + c)
  {
  }

  /** Scanning a concatenation is scanning the second part from where the
      first left off. */
  lemma {:induction false} RunAppend(s: ScanState, a: seq<Record>, b: seq<Record>)
    ensures var ra := Run(s, a);
            var rb := Run(ra.state, b);
            Run(s, a + b) == Scanned(rb.state, ra.rows + rb.rows, ra.errors + rb.errors, ra.filled + rb.filled)
    decreases |b|
  {
    var ra := Run(s, a);
    if b == [] {
      assert a + b == a;
    } else {
      var b' := b[..|b| - 1];
      var w := b[|b| - 1];
      RunAppend(s, a, b');
      assert (a + b)[..|a + b| - 1] == a + b';
      var rb' := Run(ra.state, b');
      var t := Step(rb'.state, w);
      ConcatAssoc(ra.rows, rb'.rows, t.rows);
      ConcatAssoc(ra.errors, rb'.errors, t.errors);
      ConcatAssoc(ra.filled, rb'.filled, [t.filled]);
    }
  }

  /** The waypoint records among `recs`, in order. */
  function Waypoints(recs: seq<Record>): (ws: seq<Record>)
    ensures |ws| <= |recs|
    ensures forall k :: 0 <= k < |ws| ==> ws[k].Wp?
  {
    if recs == [] then []
    else Waypoints(recs[..|recs| - 1]) + (if recs[|recs| - 1].Wp? then [recs[|recs| - 1]] else [])
  }

  /** Exactly one row per waypoint, in input order, with the waypoint's
      distance in kilometres and in miles; markers and ignored lines emit no row. */
  lemma {:induction false} RowPerWaypoint(s: ScanState, recs: seq<Record>)
    ensures var r := Run(s, recs).rows;
            var ws := Waypoints(recs);
            && |r| == |ws|
            && forall k :: 0 <= k < |r| ==>
                 r[k].distKm == ws[k].distKm && r[k].distMls == Div(ws[k].distKm, Fin(KmPerMile))
    decreases |recs|
  {
    if recs != [] {
      var n := |recs| - 1;
      RowPerWaypoint(s, recs[..n]);
      RunSnoc(s, recs, n);
      assert recs[..n + 1] == recs;
    }
  }

  /** Each row's `deltaKm` is measured from the previous row's distance (from
      the starting distance for the first row): section markers never reset
      the previous distance. */
  lemma {:induction false} DeltaChain(s: ScanState, recs: seq<Record>)
    ensures var sc := Run(s, recs);
            var r := sc.rows;
            && (r != [] ==> r[0].deltaKm == Sub(r[0].distKm, s.prevDistKm))
            && (forall k {:trigger r[k].deltaKm} :: 0 < k < |r| ==> r[k].deltaKm == Sub(r[k].distKm, r[k - 1].distKm))
            && sc.state.prevDistKm == (if r == [] then s.prevDistKm else r[|r| - 1].distKm)
    decreases |recs|
  {
    if recs != [] {
      var n := |recs| - 1;
      DeltaChain(s, recs[..n]);
      RunSnoc(s, recs, n);
      assert recs[..n + 1] == recs;
      var p := Run(s, recs[..n]);
      var t := Step(p.state, recs[n]);
      StepDelta(p.state, recs[n]);
      var r := p.rows + t.rows;
      assert Run(s, recs).rows == r;
      if t.rows != [] {
        forall k | 0 < k < |r|
          ensures r[k].deltaKm == Sub(r[k].distKm, r[k - 1].distKm)
        {
          assert r[k - 1] == p.rows[k - 1];
          if k < |p.rows| {
            assert r[k] == p.rows[k];
          }
        }
      } else {
        assert r == p.rows;
      }
    }
  }

  /** A step emits at most one row, measured from the previous distance, and
      moves the previous distance to it. */
  lemma StepDelta(st: ScanState, rec: Record)
    ensures var t := Step(st, rec);
            || (t.rows == [] && t.next.prevDistKm == st.prevDistKm)
            || (|t.rows| == 1 && t.rows[0].deltaKm == Sub(t.rows[0].distKm, st.prevDistKm)
                && t.next.prevDistKm == t.rows[0].distKm)
  {
  }

  /** Whether a section is open after `recs`, judged from the markers alone:
      the last marker decides, whether or not it was misplaced. */
  function OpenAfter(open: bool, recs: seq<Record>): bool {
    if recs == [] then open
    else match recs[|recs| - 1]
      case Start(_) => true
      case End(_) => false
      case _ => OpenAfter(open, recs[..|recs| - 1])
  }

  /** The scan's `isRT` is set by every start and cleared by every end, the
      misplaced ones included. */
  lemma {:induction false} SectionFlag(s: ScanState, recs: seq<Record>)
    ensures Run(s, recs).state.isRT == OpenAfter(s.isRT, recs)
    decreases |recs|
  {
    if recs != [] {
      var n := |recs| - 1;
      SectionFlag(s, recs[..n]);
      RunSnoc(s, recs, n);
      assert recs[..n + 1] == recs;
    }
  }

  /** The section markers among `recs`, in order. */
  function Markers(recs: seq<Record>): (ms: seq<Record>)
    ensures |ms| <= |recs|
    ensures forall k :: 0 <= k < |ms| ==> ms[k].Start? || ms[k].End?
  {
    if recs == [] then []
    else
      var r := recs[|recs| - 1];
      Markers(recs[..|recs| - 1]) + (if r.Start? || r.End? then [r] else [])
  }

  /** Markers that open and close sections in turn, beginning with a start
      (an unclosed last section is allowed). */
  predicate Alternating(ms: seq<Record>) {
    forall k :: 0 <= k < |ms| ==> (ms[k].Start? <==> k % 2 == 0)
  }

  lemma AlternatingSnoc(ms: seq<Record>, m: Record)
    requires m.Start? || m.End?
    ensures Alternating(ms + [m]) <==> Alternating(ms) && (m.Start? <==> |ms| % 2 == 0)
  {
    if Alternating(ms) && (m.Start? <==> |ms| % 2 == 0) {
      forall k | 0 <= k < |ms| + 1
        ensures ((ms + [m])[k].Start? <==> k % 2 == 0)
      {
        if k < |ms| {
          assert (ms + [m])[k] == ms[k];
        }
      }
    }
    if Alternating(ms + [m]) {
      assert (ms + [m])[|ms|] == m;
      forall k | 0 <= k < |ms|
        ensures (ms[k].Start? <==> k % 2 == 0)
      {
        assert (ms + [m])[k] == ms[k];
      }
    }
  }

  /** A scan from the initial state reports nothing exactly when the markers
      alternate start, end, start, ...; with alternating markers a section is
      open after an odd number of them. */
  lemma {:induction false} CleanIffAlternating(recs: seq<Record>)
    ensures Scan(recs).errors == [] <==> Alternating(Markers(recs))
    ensures Alternating(Markers(recs)) ==> (Scan(recs).state.isRT <==> |Markers(recs)| % 2 == 1)
    decreases |recs|
  {
    if recs != [] {
      var n := |recs| - 1;
      var r := recs[n];
      CleanIffAlternating(recs[..n]);
      RunSnoc(Initial, recs, n);
      assert recs[..n + 1] == recs;
      var p := Scan(recs[..n]);
      if r.Start? || r.End? {
        assert Markers(recs) == Markers(recs[..n]) + [r];
        AlternatingSnoc(Markers(recs[..n]), r);
      } else {
        assert Markers(recs) == Markers(recs[..n]);
        assert Step(p.state, r).errors == [];
        assert Scan(recs).errors == p.errors;
      }
    }
  }

  /** The messages the markers of `recs` call for, judged from the markers
      alone: a start while a section is open, an end while none is. */
  function Misplaced(open: bool, recs: seq<Record>): (ms: seq<Message>)
    ensures |ms| <= |recs|
    decreases |recs|
  {
    if recs == [] then []
    else
      var n := |recs| - 1;
      var wasOpen := OpenAfter(open, recs[..n]);
      Misplaced(open, recs[..n]) +
        match recs[n]
        case Start(line) => if wasOpen then [AlreadyStarted(line)] else []
        case End(line) => if wasOpen then [] else [NotStarted(line)]
        case _ => []
  }

  /** The scan reports exactly the misplaced markers, in order: every start
      inside an open section and every end outside one, and nothing else. */
  lemma {:induction false} ErrorsAreMisplacedMarkers(s: ScanState, recs: seq<Record>)
    ensures Run(s, recs).errors == Misplaced(s.isRT, recs)
    ensures var e := Run(s, recs).errors;
            forall k :: 0 <= k < |e| ==>
              (e[k].AlreadyStarted? && Start(e[k].line) in recs) || (e[k].NotStarted? && End(e[k].line) in recs)
    decreases |recs|
  {
    if recs != [] {
      var n := |recs| - 1;
      ErrorsAreMisplacedMarkers(s, recs[..n]);
      SectionFlag(s, recs[..n]);
      RunSnoc(s, recs, n);
      assert recs[..n + 1] == recs;
      var e := Run(s, recs[..n]).errors;
      var e' := Run(s, recs).errors;
      forall k | 0 <= k < |e'|
        ensures (e'[k].AlreadyStarted? && Start(e'[k].line) in recs) || (e'[k].NotStarted? && End(e'[k].line) in recs)
      {
        if k < |e| {
          assert e'[k] == e[k];
          assert forall x :: x in recs[..n] ==> x in recs;
        } else {
          assert recs[n] in recs;
        }
      }
    }
  }

  /** Outside a section, and as long as no start follows, every row has no
      speed and no time, and no record is changed. */
  lemma {:induction false} OutsideRows(s: ScanState, recs: seq<Record>)
    requires !s.isRT
    requires forall k :: 0 <= k < |recs| ==> !recs[k].Start?
    ensures var sc := Run(s, recs);
            && !sc.state.isRT
            && sc.state.prevSpeed == s.prevSpeed && sc.state.isStart == s.isStart
            && sc.filled == recs
            && forall k :: 0 <= k < |sc.rows| ==> sc.rows[k].speedKmh == Fin(0.0) && sc.rows[k].time == Fin(0.0)
    decreases |recs|
  {
    if recs != [] {
      var n := |recs| - 1;
      OutsideRows(s, recs[..n]);
      RunSnoc(s, recs, n);
      assert recs[..n + 1] == recs;
      var p := Run(s, recs[..n]);
      var t := Step(p.state, recs[n]);
      StepOutside(p.state, recs[n]);
      var r := p.rows + t.rows;
      forall k | 0 <= k < |r|
        ensures r[k].speedKmh == Fin(0.0) && r[k].time == Fin(0.0)
      {
        if k < |p.rows| {
          assert r[k] == p.rows[k];
        } else {
          assert r[k] == t.rows[k - |p.rows|];
        }
      }
      assert p.filled + [t.filled] == recs[..n] + [recs[n]];
    }
  }

  /** A speed survives a closed stretch: after an end marker and any records
      without a start, the first waypoint of the next section that has no
      speed of its own takes the last speed seen before the end marker, and
      shows time 0. */
  lemma SpeedAcrossGap(s: ScanState, x: seq<Record>, l: nat, gap: seq<Record>, l2: nat, w: Record)
    requires forall k :: 0 <= k < |gap| ==> !gap[k].Start?
    requires w.Wp? && w.speedKmh.NaN?
    ensures var r := Run(s, x + [End(l)] + gap + [Start(l2), w]).rows;
            r != [] && r[|r| - 1].speedKmh == Run(s, x).state.prevSpeed && r[|r| - 1].time == Fin(0.0)
  {
    var y := x + [End(l)];
    RunAppend(s, x, [End(l)]);
    assert Run(Run(s, x).state, [End(l)]).state.prevSpeed == Run(s, x).state.prevSpeed by {
      assert [End(l)][..0] == [];
    }
    var st := Run(s, y).state;
    OutsideRows(st, gap);
    RunAppend(s, y, gap);
    var st2 := Run(s, y + gap).state;
    RunAppend(s, y + gap, [Start(l2), w]);
    StartThenMissingSpeed(st2, l2, w);
  }

  /** A start followed by a waypoint without speed: one row, which has the
      speed carried in and time 0. */
  lemma StartThenMissingSpeed(st: ScanState, l: nat, w: Record)
    requires w.Wp? && w.speedKmh.NaN?
    ensures var r := Run(st, [Start(l), w]).rows;
            |r| == 1 && r[0].speedKmh == st.prevSpeed && r[0].time == Fin(0.0)
  {
    RunSnoc(st, [Start(l), w], 1);
    RunSnoc(st, [Start(l), w], 0);
    assert [Start(l), w][..2] == [Start(l), w] && [Start(l), w][..1] == [Start(l)] && [Start(l), w][..0] == [];
  }

  /** Outside a section any record but a start keeps the section closed,
      stays as it is, and emits rows without speed or time. */
  lemma StepOutside(st: ScanState, rec: Record)
    requires !st.isRT && !rec.Start?
    ensures var t := Step(st, rec);
            && !t.next.isRT
            && t.next.prevSpeed == st.prevSpeed && t.next.isStart == st.isStart
            && t.filled == rec
            && forall k :: 0 <= k < |t.rows| ==> t.rows[k].speedKmh == Fin(0.0) && t.rows[k].time == Fin(0.0)
  {
  }

  /** The scan changes a record only by giving a waypoint without speed a
      speed. */
  lemma {:induction false} FillOnlyMissingSpeeds(s: ScanState, recs: seq<Record>)
    ensures var f := Run(s, recs).filled;
            && |f| == |recs|
            && forall k :: 0 <= k < |recs| ==>
                 f[k] == recs[k] || (recs[k].Wp? && recs[k].speedKmh.NaN? && f[k].Wp? && f[k] == recs[k].(speedKmh := f[k].speedKmh))
    decreases |recs|
  {
    if recs != [] {
      var n := |recs| - 1;
      FillOnlyMissingSpeeds(s, recs[..n]);
      RunSnoc(s, recs, n);
      assert recs[..n + 1] == recs;
    }
  }

  predicate AllWaypoints(ws: seq<Record>) {
    forall k :: 0 <= k < |ws| ==> ws[k].Wp?
  }

  /** The speeds the waypoints of a section end up with: a missing speed is
      the previous waypoint's, or `v0` (the speed carried from before the
      start) for the first waypoint. */
  function FilledSpeeds(v0: Num, ws: seq<Record>): (vs: seq<Num>)
    requires AllWaypoints(ws)
    ensures |vs| == |ws|
    decreases |ws|
  {
    if ws == [] then []
    else
      var p := FilledSpeeds(v0, ws[..|ws| - 1]);
      var v := ws[|ws| - 1].speedKmh;
      p + [if v.Fin? then v else if p == [] then v0 else p[|p| - 1]]
  }

  /** Seconds to cover the distance from `d0` to `d` at speed `v` km/h. */
  function LegSeconds(d0: real, d: real, v: real): real
    requires v != 0.0
  {
    3600.0 * ((d - d0) / v)
  }

  /** Seconds from distance `ds[0]` to distance `ds[k]`, when the leg that
      ends at distance j is covered at speed `vs[j - 1]`. */
  function Elapsed(ds: seq<real>, vs: seq<real>, k: nat): real
    requires k < |ds| && k <= |vs|
    requires forall j :: 0 <= j < k ==> vs[j] != 0.0
  {
    if k == 0 then 0.0 else Elapsed(ds, vs, k - 1) + LegSeconds(ds[k - 1], ds[k], vs[k - 1])
  }

  /** The first waypoint after a start: its speed is its own or the one
      carried from before, and it adds no time. */
  lemma FirstLeg(s: ScanState, x: seq<Record>, w: Record, d: real, v: real)
    requires var st := Run(s, x).state; st.isRT && st.isStart && st.totalSeconds == Fin(0.0)
    requires w.Wp? && w.distKm == Fin(d) && (if w.speedKmh.Fin? then w.speedKmh else Run(s, x).state.prevSpeed) == Fin(v)
    ensures var p := Run(s, x);
            var sc := Run(s, x + [w]);
            && sc.state == ScanState(Fin(d), Fin(v), Fin(0.0), true, false)
            && sc.rows == p.rows + [Row(Fin(d), Sub(Fin(d), p.state.prevDistKm), Div(Fin(d), Fin(KmPerMile)), Fin(v), Fin(0.0))]
  {
    assert (x + [w])[..|x|] == x;
  }

  /** A later waypoint of a section: the leg from the previous waypoint is
      covered at the previous speed. */
  lemma LaterLeg(s: ScanState, x: seq<Record>, w: Record, d0: real, v0: real, e: real, d: real, v: real)
    requires Run(s, x).state == ScanState(Fin(d0), Fin(v0), Fin(e), true, false) && v0 != 0.0
    requires w.Wp? && w.distKm == Fin(d) && (if w.speedKmh.Fin? then w.speedKmh else Fin(v0)) == Fin(v)
    ensures var p := Run(s, x);
            var sc := Run(s, x + [w]);
            var e' := e + LegSeconds(d0, d, v0);
            && sc.state == ScanState(Fin(d), Fin(v), Fin(e'), true, false)
            && sc.rows == p.rows + [Row(Fin(d), Fin(d - d0), Div(Fin(d), Fin(KmPerMile)), Fin(v), Fin(e'))]
  {
    assert (x + [w])[..|x|] == x;
  }

  lemma SnocSplit<T>(a: seq<T>, b: seq<T>)
    requires b != []
    ensures a + b == (a + b[..|b| - 1]) + [b[|b| - 1]]
  {
  }

  lemma FilledSpeedsSnoc(v0: Num, ws: seq<Record>)
    requires AllWaypoints(ws) && ws != []
    ensures var n := |ws| - 1;
            var p := FilledSpeeds(v0, ws[..n]);
            FilledSpeeds(v0, ws)
              == p + [if ws[n].speedKmh.Fin? then ws[n].speedKmh else if n == 0 then v0 else p[n - 1]]
  {
  }

  /** The rows of a section at distances `ds` with speeds `vs`. */
  predicate SectionRows(r: seq<Row>, ds: seq<real>, vs: seq<real>)
    requires |ds| >= |r| && |vs| >= |r|
    requires forall k :: 0 <= k < |r| - 1 ==> vs[k] != 0.0
  {
    forall k {:trigger r[k]} :: 0 <= k < |r| ==>
      r[k].distKm == Fin(ds[k]) && r[k].speedKmh == Fin(vs[k]) && r[k].time == Fin(Elapsed(ds, vs, k))
  }

  lemma SectionRowsSnoc(r: seq<Row>, row: Row, ds: seq<real>, vs: seq<real>)
    requires |ds| > |r| && |vs| > |r|
    requires forall k :: 0 <= k < |r| ==> vs[k] != 0.0
    requires SectionRows(r, ds, vs)
    requires row.distKm == Fin(ds[|r|]) && row.speedKmh == Fin(vs[|r|]) && row.time == Fin(Elapsed(ds, vs, |r|))
    ensures SectionRows(r + [row], ds, vs)
  {
    var r' := r + [row];
    forall k | 0 <= k < |r'|
      ensures r'[k].distKm == Fin(ds[k]) && r'[k].speedKmh == Fin(vs[k]) && r'[k].time == Fin(Elapsed(ds, vs, k))
    {
      if k < |r| {
        assert r'[k] == r[k];
      }
    }
  }

  /** Times inside a section: after a start, a run of waypoints at finite
      distances `ds` whose filled-in speeds `vs` are finite (and non-zero
      except the last) gets the filled-in speeds in its rows, time 0 on the
      first waypoint, and on each later one the elapsed seconds since the
      first. */
  lemma {:induction false} SectionTimes(s: ScanState, l: nat, ws: seq<Record>, ds: seq<real>, vs: seq<real>)
    requires AllWaypoints(ws) && |ds| >= |ws| && |vs| >= |ws|
    requires forall k :: 0 <= k < |ws| ==> ws[k].distKm == Fin(ds[k])
    requires forall k :: 0 <= k < |ws| ==> FilledSpeeds(s.prevSpeed, ws)[k] == Fin(vs[k])
    requires forall k :: 0 <= k < |ws| - 1 ==> vs[k] != 0.0
    ensures var sc := Run(s, [Start(l)] + ws);
            var r := sc.rows;
            && |r| == |ws|
            && SectionRows(r, ds, vs)
            && (ws == [] ==> sc.state == s.(isStart := true, isRT := true, totalSeconds := Fin(0.0)))
            && (ws != [] ==> sc.state == ScanState(Fin(ds[|ws| - 1]), Fin(vs[|ws| - 1]), Fin(Elapsed(ds, vs, |ws| - 1)), true, false))
    decreases |ws|
  {
    var x := [Start(l)] + ws;
    if ws == [] {
      RunSnoc(s, x, 0);
      assert x[..1] == x;
    } else {
      var n := |ws| - 1;
      SectionTimes(s, l, ws[..n], ds, vs);
      SectionStep(s, l, ws, ds, vs);
      var p := Run(s, [Start(l)] + ws[..n]);
      var r := Run(s, x).rows;
      SectionRowsSnoc(p.rows, r[n], ds, vs);
    }
  }

  /** The records that the scan acts on: all but blank lines and error records. */
  function Significant(recs: seq<Record>): (r: seq<Record>)
    ensures |r| <= |recs|
    ensures forall k :: 0 <= k < |r| ==> !r[k].Ignore? && !r[k].Error?
    decreases |recs|
  {
    if recs == [] then []
    else
      var x := recs[|recs| - 1];
      Significant(recs[..|recs| - 1]) + (if x.Ignore? || x.Error? then [] else [x])
  }

  /** Blank lines and error records are skipped by the scan: it emits the
      same rows, reports the same messages and ends in the same state as on
      the other records alone. */
  lemma {:induction false} SkipInert(s: ScanState, recs: seq<Record>)
    ensures var a := Run(s, recs);
            var b := Run(s, Significant(recs));
            a.state == b.state && a.rows == b.rows && a.errors == b.errors
    decreases |recs|
  {
    if recs != [] {
      var n := |recs| - 1;
      var x := recs[n];
      SkipInert(s, recs[..n]);
      RunSnoc(s, recs, n);
      assert recs[..n + 1] == recs;
      var p := Run(s, recs[..n]);
      if x.Ignore? || x.Error? {
        assert Significant(recs) == Significant(recs[..n]);
        assert p.rows + [] == p.rows && p.errors + [] == p.errors;
      } else {
        var g := Significant(recs[..n]);
        assert Significant(recs) == g + [x];
        RunSnoc(s, g + [x], |g|);
        assert (g + [x])[..|g|] == g && (g + [x])[..|g| + 1] == g + [x];
      }
    }
  }

  /** Without markers, the records the scan acts on are the waypoints. */
  lemma {:induction false} SignificantWaypoints(recs: seq<Record>)
    requires forall k :: 0 <= k < |recs| ==> !recs[k].Start? && !recs[k].End?
    ensures Significant(recs) == Waypoints(recs)
    decreases |recs|
  {
    if recs != [] {
      SignificantWaypoints(recs[..|recs| - 1]);
    }
  }

  lemma {:induction false} SignificantAppend(a: seq<Record>, b: seq<Record>)
    ensures Significant(a + b) == Significant(a) + Significant(b)
    decreases |b|
  {
    if b == [] {
      assert a + b == a;
    } else {
      var n := |b| - 1;
      SignificantAppend(a, b[..n]);
      assert (a + b)[..|a + b| - 1] == a + b[..n];
    }
  }

  /** Times inside a section holding blank lines or error records besides
      its waypoints: the same rows and final state as in SectionTimes, with
      the waypoints of the section in place of a waypoint-only run. */
  lemma SectionTimesAmid(s: ScanState, l: nat, recs: seq<Record>, ds: seq<real>, vs: seq<real>)
    requires forall k :: 0 <= k < |recs| ==> !recs[k].Start? && !recs[k].End?
    requires var ws := Waypoints(recs);
             && |ds| >= |ws| && |vs| >= |ws|
             && (forall k :: 0 <= k < |ws| ==> ws[k].distKm == Fin(ds[k]))
             && (forall k :: 0 <= k < |ws| ==> FilledSpeeds(s.prevSpeed, ws)[k] == Fin(vs[k]))
             && (forall k :: 0 <= k < |ws| - 1 ==> vs[k] != 0.0)
    ensures var ws := Waypoints(recs);
            var sc := Run(s, [Start(l)] + recs);
            var r := sc.rows;
            && |r| == |ws|
            && SectionRows(r, ds, vs)
            && (ws == [] ==> sc.state == s.(isStart := true, isRT := true, totalSeconds := Fin(0.0)))
            && (ws != [] ==> sc.state == ScanState(Fin(ds[|ws| - 1]), Fin(vs[|ws| - 1]), Fin(Elapsed(ds, vs, |ws| - 1)), true, false))
  {
    SkipInertSection(s, l, recs);
    SectionTimes(s, l, Waypoints(recs), ds, vs);
  }

  lemma SkipInertSection(s: ScanState, l: nat, recs: seq<Record>)
    requires forall k :: 0 <= k < |recs| ==> !recs[k].Start? && !recs[k].End?
    ensures var a := Run(s, [Start(l)] + recs);
            var b := Run(s, [Start(l)] + Waypoints(recs));
            a.state == b.state && a.rows == b.rows
  {
    SignificantWaypoints(recs);
    SignificantAppend([Start(l)], recs);
    assert Significant([Start(l)]) == [Start(l)] by {
      assert [Start(l)][..0] == [];
    }
    SkipInert(s, [Start(l)] + recs);
  }

  /** The step from the first n waypoints of a section to the first n + 1. */
  lemma SectionStep(s: ScanState, l: nat, ws: seq<Record>, ds: seq<real>, vs: seq<real>)
    requires AllWaypoints(ws) && ws != [] && |ds| >= |ws| && |vs| >= |ws|
    requires forall k :: 0 <= k < |ws| ==> ws[k].distKm == Fin(ds[k])
    requires forall k :: 0 <= k < |ws| ==> FilledSpeeds(s.prevSpeed, ws)[k] == Fin(vs[k])
    requires forall k :: 0 <= k < |ws| - 1 ==> vs[k] != 0.0
    requires var n := |ws| - 1;
             var p := Run(s, [Start(l)] + ws[..n]);
             && |p.rows| == n
             && (n == 0 ==> p.state == s.(isStart := true, isRT := true, totalSeconds := Fin(0.0)))
             && (n != 0 ==> p.state == ScanState(Fin(ds[n - 1]), Fin(vs[n - 1]), Fin(Elapsed(ds, vs, n - 1)), true, false))
    ensures var n := |ws| - 1;
            var p := Run(s, [Start(l)] + ws[..n]);
            var sc := Run(s, [Start(l)] + ws);
            && |sc.rows| == |ws|
            && sc.rows == p.rows + [sc.rows[n]]
            && sc.rows[n].distKm == Fin(ds[n]) && sc.rows[n].speedKmh == Fin(vs[n]) && sc.rows[n].time == Fin(Elapsed(ds, vs, n))
            && sc.state == ScanState(Fin(ds[n]), Fin(vs[n]), Fin(Elapsed(ds, vs, n)), true, false)
  {
    var n := |ws| - 1;
    var ws' := ws[..n];
    var fs' := FilledSpeeds(s.prevSpeed, ws');
    FilledSpeedsSnoc(s.prevSpeed, ws);
    var x' := [Start(l)] + ws';
    SnocSplit([Start(l)], ws);
    var p := Run(s, x');
    if n == 0 {
      FirstLeg(s, x', ws[n], ds[n], vs[n]);
    } else {
      assert fs'[n - 1] == Fin(vs[n - 1]);
      LaterLeg(s, x', ws[n], ds[n - 1], vs[n - 1], Elapsed(ds, vs, n - 1), ds[n], vs[n]);
    }
  }

  /** One pass of the loop body of `calculateData` on `records[i]`, over the
      five running values. */
  method ScanRecord(records: array<Record>, i: nat, rep: Reporter,
                    prevDistKm: Num, prevSpeed: Num, totalSeconds: Num, isRT: bool, isStart: bool)
    returns (prevDistKm': Num, prevSpeed': Num, totalSeconds': Num, isRT': bool, isStart': bool, rows: seq<Row>)
    requires i < records.Length && rep.Valid()
    modifies records, rep
    ensures rep.Valid()
    ensures var t := Step(ScanState(prevDistKm, prevSpeed, totalSeconds, isRT, isStart), old(records[i]));
            && ScanState(prevDistKm', prevSpeed', totalSeconds', isRT', isStart') == t.next
            && rows == t.rows
            && rep.reports == old(rep.reports) + t.errors
            && records[..] == old(records[..])[i := t.filled]
  {
    prevDistKm', prevSpeed', totalSeconds', isRT', isStart' := prevDistKm, prevSpeed, totalSeconds, isRT, isStart;
    rows := [];
    var rec := records[i];
    if rec.Start? {
      if isRT {
        rep.Report(AlreadyStarted(rec.line));
      }
      isStart' := true;
      isRT' := true;
      totalSeconds' := Fin(0.0);
    } else if rec.End? {
      if !isRT {
        rep.Report(NotStarted(rec.line));
      }
      isRT' := false;
      totalSeconds' := Fin(0.0);
    } else if rec.Wp? && !isRT {
      rows := [Row(rec.distKm, Sub(rec.distKm, prevDistKm), Div(rec.distKm, Fin(KmPerMile)), Fin(0.0), Fin(0.0))];
      prevDistKm' := rec.distKm;
      totalSeconds' := Fin(0.0);
    } else if rec.Wp? {
      if rec.speedKmh.NaN? {
        rec := rec.(speedKmh := prevSpeed);
        records[i] := rec;
      }
      if isStart {
        prevSpeed' := rec.speedKmh;
      }
      var deltaKm := Sub(rec.distKm, prevDistKm);
      prevDistKm' := rec.distKm;
      totalSeconds' := Add(totalSeconds, if isStart then Fin(0.0) else Mul(Fin(3600.0), Div(deltaKm, prevSpeed')));
      prevSpeed' := rec.speedKmh;
      rows := [Row(rec.distKm, deltaKm, Div(rec.distKm, Fin(KmPerMile)), rec.speedKmh,
                   if isStart then Fin(0.0) else totalSeconds')];
      isStart' := false;
    }
  }

  /** The loop of `calculateData`: it overwrites the missing speed of each
      waypoint inside a section and reports misplaced markers. */
  method ScanRecords(records: array<Record>, rep: Reporter) returns (data: seq<Row>)
    requires rep.Valid()
    modifies records, rep
    ensures rep.Valid()
    ensures data == Scan(old(records[..])).rows
    ensures records[..] == Scan(old(records[..])).filled
    ensures rep.reports == old(rep.reports) + Scan(old(records[..])).errors
  {
    ghost var input := records[..];
    assert |input| == records.Length;
    ghost var reports0 := rep.reports;
    data := [];
    var prevDistKm := Fin(0.0);
    var prevSpeed := Fin(0.0);
    var totalSeconds := Fin(0.0);
    var isRT := false;
    var isStart := false;

    for i := 0 to records.Length
      invariant rep.Valid()
      invariant forall k :: i <= k < records.Length ==> records[k] == input[k]
      invariant Scan(input[..i]).state == ScanState(prevDistKm, prevSpeed, totalSeconds, isRT, isStart)
      invariant Scan(input[..i]).rows == data
      invariant Scan(input[..i]).filled == records[..i]
      invariant rep.reports == reports0 + Scan(input[..i]).errors
    {
      RunSnoc(Initial, input, i);
      ghost var p := Scan(input[..i]);
      ghost var t := Step(p.state, input[i]);
      ghost var reports1 := rep.reports;
      var rows;
      prevDistKm, prevSpeed, totalSeconds, isRT, isStart, rows :=
        ScanRecord(records, i, rep, prevDistKm, prevSpeed, totalSeconds, isRT, isStart);
      data := data + rows;
      assert rep.reports == reports1 + t.errors;
      ConcatAssoc(reports0, p.errors, t.errors);
    }

    assert input[..records.Length] == input;
  }

  /** `calculateData`: the scan, then the banner is hidden if the whole pass
      (parse and scan) reported nothing. */
  method CalculateData(records: array<Record>, rep: Reporter) returns (data: seq<Row>)
    requires rep.Valid()
    modifies records, rep
    ensures rep.Valid()
    ensures data == Scan(old(records[..])).rows
    ensures records[..] == Scan(old(records[..])).filled
    ensures rep.reports == old(rep.reports) + Scan(old(records[..])).errors
    ensures rep.shown == LastOf(rep.reports)
  {
    data := ScanRecords(records, rep);
    rep.HideIfNoError();
  }
}
