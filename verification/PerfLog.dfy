/**
 * What the performance log says, by its lines alone: which runs there are, which measurement belongs to which run,
 * where a reset cuts, and when the log is refused.
 */
module PerfLog {
  import opened Bytes
  import opened PerfRatchet

  // ----- Lines and what they belong to -------------------------------------------------------

  /** What ends the run before it. */
  predicate Boundary(line: Line) {
    line.Header? || line.Reset?
  }

  /** The run that line `h` begins goes on up to line `i`. */
  ghost predicate Reaches(lines: seq<Line>, h: nat, i: nat) {
    h < i <= |lines| && lines[h].Header? && forall g :: h < g < i ==> !Boundary(lines[g])
  }

  /** The j-th field of line `i` is this measurement, of a metric that is read. */
  ghost predicate Measures(line: Line, j: nat, key: Key, value: real) {
    && line.Stats? && j < |line.fields| && line.fields[j] == (key.name, value)
    && line.size == key.size && KnownMetric(key.name)
  }

  /** Line `i` carries the measurement, for the run that line `h` begins. */
  ghost predicate Carries(lines: seq<Line>, h: nat, i: nat, j: nat, key: Key, value: real) {
    i < |lines| && Reaches(lines, h, i) && !Boundary(lines[i]) && Measures(lines[i], j, key, value)
  }

  ghost predicate Logged(lines: seq<Line>, h: nat, key: Key, value: real) {
    exists i, j :: Carries(lines, h, i, j, key, value)
  }

  /** The run is the one that line `h` begins, with its measurements and no others. */
  ghost predicate RunAt(lines: seq<Line>, h: nat, r: Run) {
    && h < |lines| && lines[h] == Header(r.commit, r.timestamp, r.flavor)
    && forall key, value :: (key in r.metrics && r.metrics[key] == value) <==> Logged(lines, h, key, value)
  }

  /** The runs are those of the headers, one for one, in order. */
  ghost predicate RunsAt(lines: seq<Line>, at: seq<nat>, runs: seq<Run>) {
    && |at| == |runs| && (forall a, b :: 0 <= a < b < |at| ==> at[a] < at[b])
    && (forall k :: 0 <= k < |at| ==> RunAt(lines, at[k], runs[k]))
    && forall h :: 0 <= h < |lines| && lines[h].Header? ==> h in at
  }

  /** A reset of the flavor is remembered by how many runs were begun before it. */
  ghost predicate ResetsAt(lines: seq<Line>, at: seq<nat>, resets: map<string, nat>) {
    && (forall f :: f in resets <==> Reset(f) in lines)
    && forall f, i :: 0 <= i < |lines| && LastReset(lines, f, i) && f in resets ==>
         resets[f] <= |at| && forall k :: 0 <= k < |at| ==> (at[k] < i <==> k < resets[f])
  }

  ghost predicate LastReset(lines: seq<Line>, f: string, i: nat)
    requires i < |lines|
  {
    lines[i] == Reset(f) && forall g :: i < g < |lines| ==> lines[g] != Reset(f)
  }

  /** No run carries a metric twice. */
  ghost predicate Unrepeated(lines: seq<Line>) {
    forall h: nat, i: nat, j: nat, key: Key, value: real, i': nat, j': nat, value': real ::
      Carries(lines, h, i, j, key, value) && Carries(lines, h, i', j', key, value') ==> i == i' && j == j'
  }

  /** The parse so far: its runs and resets, and the run that is still open. */
  ghost predicate Reads(lines: seq<Line>, at: seq<nat>, p: Parsed) {
    && RunsAt(lines, at, CloseRun(p).runs) && ResetsAt(lines, at, p.resetAfter) && Unrepeated(lines)
    && (p.current.Some? ==> at != [] && Reaches(lines, at[|at| - 1], |lines|))
    && (p.current.None? ==> forall h :: !Reaches(lines, h, |lines|))
  }

  // ----- One line more -----------------------------------------------------------------------

  lemma ReachesNext(lines: seq<Line>, line: Line, h: nat, i: nat)
    ensures i <= |lines| ==> (Reaches(lines + [line], h, i) <==> Reaches(lines, h, i))
    ensures Reaches(lines + [line], h, |lines| + 1) <==>
            (Reaches(lines, h, |lines|) && !Boundary(line)) || (h == |lines| && line.Header?)
  {
    var lines' := lines + [line];
    assert forall g :: 0 <= g < |lines| ==> lines'[g] == lines[g];
    assert lines'[|lines|] == line;
    if Reaches(lines, h, |lines|) && !Boundary(line) {
      forall g | h < g < |lines'| ensures !Boundary(lines'[g]) {
        assert g < |lines| ==> lines'[g] == lines[g];
      }
    }
  }

  lemma CarriesNext(lines: seq<Line>, line: Line, h: nat, i: nat, j: nat, key: Key, value: real)
    ensures Carries(lines + [line], h, i, j, key, value) <==>
            if i == |lines| then Reaches(lines, h, |lines|) && !Boundary(line) && Measures(line, j, key, value)
            else Carries(lines, h, i, j, key, value)
  {
    ReachesNext(lines, line, h, i);
    hide Reaches, Measures, Boundary;
    assert i < |lines| ==> (lines + [line])[i] == lines[i];
  }

  lemma LoggedNext(lines: seq<Line>, line: Line, h: nat, key: Key, value: real)
    ensures Logged(lines + [line], h, key, value) <==>
            || Logged(lines, h, key, value)
            || (Reaches(lines, h, |lines|) && !Boundary(line) && exists j :: Measures(line, j, key, value))
  {
    hide Reaches, Measures, Boundary, Carries;
    forall i, j
      ensures Carries(lines + [line], h, i, j, key, value) <==>
              if i == |lines| then Reaches(lines, h, |lines|) && !Boundary(line) && Measures(line, j, key, value)
              else Carries(lines, h, i, j, key, value)
    {
      CarriesNext(lines, line, h, i, j, key, value);
    }
    forall i, j | Carries(lines, h, i, j, key, value) ensures i != |lines| {
      CarriesInside(lines, h, i, j, key, value);
    }
    if Reaches(lines, h, |lines|) && !Boundary(line) {
      if j :| Measures(line, j, key, value) {
        assert Carries(lines + [line], h, |lines|, j, key, value);
      }
    }
  }

  lemma CarriesInside(lines: seq<Line>, h: nat, i: nat, j: nat, key: Key, value: real)
    requires Carries(lines, h, i, j, key, value)
    ensures i < |lines|
  {
  }

  /** Only one run is open at a time. */
  lemma OneOpen(lines: seq<Line>, h: nat, h': nat)
    requires Reaches(lines, h, |lines|) && Reaches(lines, h', |lines|)
    ensures h == h'
  {
  }

  /** A run that the line does not belong to stays. */
  lemma RunStays(lines: seq<Line>, line: Line, h: nat, r: Run)
    requires RunAt(lines, h, r) && (Boundary(line) || !Reaches(lines, h, |lines|) || !line.Stats?)
    ensures RunAt(lines + [line], h, r)
  {
    hide Reaches, Boundary, Logged;
    forall key, value ensures Logged(lines + [line], h, key, value) <==> Logged(lines, h, key, value) {
      LoggedNext(lines, line, h, key, value);
      NoStats(line, key, value);
    }
    assert (lines + [line])[h] == lines[h];
  }

  lemma NoStats(line: Line, key: Key, value: real)
    ensures !line.Stats? ==> forall j :: !Measures(line, j, key, value)
  {
  }

  /** The open run takes in the statistics. */
  lemma RunGrows(lines: seq<Line>, line: Line, h: nat, r: Run, r': Run)
    requires RunAt(lines, h, r) && Reaches(lines, h, |lines|) && line.Stats?
    requires AddFields(r.metrics, line.size, line.fields) == Some(r'.metrics) && r' == r.(metrics := r'.metrics)
    ensures RunAt(lines + [line], h, r')
  {
    hide Reaches, Logged, AddFields;
    forall key, value
      ensures (key in r'.metrics && r'.metrics[key] == value) <==> Logged(lines + [line], h, key, value)
    {
      LoggedNext(lines, line, h, key, value);
      MetricsGrow(r.metrics, r'.metrics, line, key, value);
    }
    assert (lines + [line])[h] == lines[h];
  }

  lemma MetricsGrow(m: map<Key, real>, m': map<Key, real>, line: Line, key: Key, value: real)
    requires line.Stats? && AddFields(m, line.size, line.fields) == Some(m')
    ensures (key in m' && m'[key] == value) <==>
            (key in m && m[key] == value) || exists j :: Measures(line, j, key, value)
  {
    FieldsAreRecorded(m, line.size, line.fields);
    hide AddFields, NoCollision, KnownMetric;
    if key in m' && key !in m {
      var j :| 0 <= j < |line.fields| && Recorded(line.size, line.fields, j, key);
      assert line.fields[j] == (key.name, m'[key]);
      assert Measures(line, j, key, m'[key]);
    }
    if j: nat :| Measures(line, j, key, value) {
      assert line.fields[j].0 == key.name && line.fields[j].1 == value;
      assert Key(line.size, line.fields[j].0) == key;
    }
  }

  /** A new run begins with nothing measured. */
  lemma RunBegins(lines: seq<Line>, line: Line)
    requires line.Header?
    ensures RunAt(lines + [line], |lines|, Run(line.commit, line.timestamp, line.flavor, map[]))
  {
    var lines' := lines + [line];
    forall key, value ensures !Logged(lines', |lines|, key, value) {
      forall i, j ensures !Carries(lines', |lines|, i, j, key, value) {
      }
    }
  }

  // ----- The whole parse, one line at a time ---------------------------------------------------

  /** The runs of the lines so far stay, when the line adds nothing to any of them. */
  lemma RunsStay(lines: seq<Line>, line: Line, at: seq<nat>, runs: seq<Run>)
    requires RunsAt(lines, at, runs)
    requires Boundary(line) || !line.Stats? || forall h :: !Reaches(lines, h, |lines|)
    ensures forall k :: 0 <= k < |at| ==> RunAt(lines + [line], at[k], runs[k])
    ensures forall h :: 0 <= h < |lines| && (lines + [line])[h].Header? ==> h in at
  {
    hide Reaches, RunAt, Boundary;
    forall k | 0 <= k < |at| ensures RunAt(lines + [line], at[k], runs[k]) {
      RunStays(lines, line, at[k], runs[k]);
    }
    assert forall h :: 0 <= h < |lines| ==> (lines + [line])[h] == lines[h];
  }

  lemma NoNewRun(lines: seq<Line>, line: Line, at: seq<nat>, runs: seq<Run>)
    requires RunsAt(lines, at, runs) && !line.Header?
    requires Boundary(line) || !line.Stats? || forall h :: !Reaches(lines, h, |lines|)
    ensures RunsAt(lines + [line], at, runs)
  {
    RunsStay(lines, line, at, runs);
    hide Reaches, RunAt, Boundary;
    assert (lines + [line])[|lines|] == line;
  }

  lemma NewRun(lines: seq<Line>, line: Line, at: seq<nat>, runs: seq<Run>)
    requires RunsAt(lines, at, runs) && line.Header?
    ensures RunsAt(lines + [line], at + [|lines|], runs + [Run(line.commit, line.timestamp, line.flavor, map[])])
  {
    RunsStay(lines, line, at, runs);
    RunBegins(lines, line);
    var at', runs' := at + [|lines|], runs + [Run(line.commit, line.timestamp, line.flavor, map[])];
    forall k | 0 <= k < |at| ensures at[k] < |lines| {
      assert RunAt(lines, at[k], runs[k]);
    }
    hide Reaches, RunAt, Boundary;
    assert at'[|at|] == |lines|;
    forall h | 0 <= h < |lines| + 1 && (lines + [line])[h].Header? ensures h in at' {
      assert h < |lines| ==> h in at;
    }
    forall k | 0 <= k < |at'| ensures RunAt(lines + [line], at'[k], runs'[k]) {
    }
  }

  /** The last run takes in the line. */
  lemma LastRunGrows(lines: seq<Line>, line: Line, at: seq<nat>, runs: seq<Run>, r: Run, r': Run)
    requires RunsAt(lines, at, runs + [r]) && Reaches(lines, at[|at| - 1], |lines|) && line.Stats?
    requires AddFields(r.metrics, line.size, line.fields) == Some(r'.metrics) && r' == r.(metrics := r'.metrics)
    ensures RunsAt(lines + [line], at, runs + [r'])
  {
    var n := |runs|;
    forall k | 0 <= k < |at| ensures RunAt(lines + [line], at[k], (runs + [r'])[k]) {
      assert RunAt(lines, at[k], (runs + [r])[k]);
      if k < n {
        if Reaches(lines, at[k], |lines|) {
          OneOpen(lines, at[k], at[n]);
        }
        RunStays(lines, line, at[k], runs[k]);
      } else {
        RunGrows(lines, line, at[n], r, r');
      }
    }
    hide Reaches, RunAt, AddFields;
    assert forall h :: 0 <= h < |lines| ==> (lines + [line])[h] == lines[h];
    assert (lines + [line])[|lines|] == line;
  }

  /** Resets stay, whatever other line comes. */
  lemma ResetsStay(lines: seq<Line>, line: Line, at: seq<nat>, at': seq<nat>, resets: map<string, nat>)
    requires ResetsAt(lines, at, resets) && !line.Reset? && at <= at'
    requires forall k :: |at| <= k < |at'| ==> at'[k] >= |lines|
    ensures ResetsAt(lines + [line], at', resets)
  {
    var lines' := lines + [line];
    assert forall f :: Reset(f) in lines' <==> Reset(f) in lines;
    forall f, i | 0 <= i < |lines'| && LastReset(lines', f, i) && f in resets
      ensures resets[f] <= |at'| && forall k :: 0 <= k < |at'| ==> (at'[k] < i <==> k < resets[f])
    {
      assert i < |lines| && lines'[i] == lines[i];
      assert LastReset(lines, f, i) by {
        assert forall g :: i < g < |lines| ==> lines'[g] == lines[g];
      }
    }
  }

  lemma ResetAdded(lines: seq<Line>, f: string, at: seq<nat>, resets: map<string, nat>)
    requires ResetsAt(lines, at, resets) && forall k :: 0 <= k < |at| ==> at[k] < |lines|
    ensures ResetsAt(lines + [Reset(f)], at, resets[f := |at|])
  {
    var lines', resets' := lines + [Reset(f)], resets[f := |at|];
    assert lines'[|lines|] == Reset(f);
    forall f' ensures f' in resets' <==> Reset(f') in lines' {
    }
    forall f', i | 0 <= i < |lines'| && LastReset(lines', f', i) && f' in resets'
      ensures resets'[f'] <= |at| && forall k :: 0 <= k < |at| ==> (at[k] < i <==> k < resets'[f'])
    {
      if f' == f {
        assert i == |lines|;
      } else {
        assert i < |lines| && lines'[i] == lines[i];
        assert LastReset(lines, f', i) by {
          assert forall g :: i < g < |lines| ==> lines'[g] == lines[g];
        }
      }
    }
  }

  /** The line measures nothing twice, and nothing that the open run has. */
  ghost predicate Fresh(lines: seq<Line>, line: Line) {
    forall h: nat, j: nat, key: Key, value: real ::
      Reaches(lines, h, |lines|) && !Boundary(line) && Measures(line, j, key, value) ==>
        && (forall v :: !Logged(lines, h, key, v)) && forall j', v :: Measures(line, j', key, v) ==> j' == j
  }

  lemma UnrepeatedNext(lines: seq<Line>, line: Line)
    requires Unrepeated(lines) && Fresh(lines, line)
    ensures Unrepeated(lines + [line])
  {
    hide Reaches, Measures, Boundary, Carries;
    var lines' := lines + [line];
    forall h: nat, i: nat, j: nat, key: Key, value: real, i': nat, j': nat, value': real
      | Carries(lines', h, i, j, key, value) && Carries(lines', h, i', j', key, value')
      ensures i == i' && j == j'
    {
      CarriesNext(lines, line, h, i, j, key, value);
      CarriesNext(lines, line, h, i', j', key, value');
      assert i < |lines| ==> Logged(lines, h, key, value);
      assert i' < |lines| ==> Logged(lines, h, key, value');
      CarriesInside(lines', h, i, j, key, value);
      CarriesInside(lines', h, i', j', key, value');
    }
  }

  /** And conversely. */
  lemma RepeatedNext(lines: seq<Line>, line: Line)
    requires Unrepeated(lines + [line])
    ensures Unrepeated(lines) && Fresh(lines, line)
  {
    hide Reaches, Measures, Boundary, Carries;
    var lines' := lines + [line];
    forall h: nat, i: nat, j: nat, key: Key, value: real, i': nat, j': nat, value': real
      | Carries(lines, h, i, j, key, value) && Carries(lines, h, i', j', key, value')
      ensures i == i' && j == j'
    {
      CarriesInside(lines, h, i, j, key, value);
      CarriesInside(lines, h, i', j', key, value');
      CarriesNext(lines, line, h, i, j, key, value);
      CarriesNext(lines, line, h, i', j', key, value');
    }
    forall h, j, key, value | Reaches(lines, h, |lines|) && !Boundary(line) && Measures(line, j, key, value)
      ensures (forall v :: !Logged(lines, h, key, v)) && forall j', v :: Measures(line, j', key, v) ==> j' == j
    {
      CarriesNext(lines, line, h, |lines|, j, key, value);
      forall v ensures !Logged(lines, h, key, v) {
        if i, j' :| Carries(lines, h, i, j', key, v) {
          CarriesInside(lines, h, i, j', key, v);
          CarriesNext(lines, line, h, i, j', key, v);
        }
      }
      forall j', v | Measures(line, j', key, v) ensures j' == j {
        CarriesNext(lines, line, h, |lines|, j', key, v);
      }
    }
  }

  /** The open run takes the line in exactly when it is fresh. */
  lemma FreshIff(lines: seq<Line>, line: Line, h: nat, r: Run)
    requires RunAt(lines, h, r) && Reaches(lines, h, |lines|) && line.Stats?
    ensures AddFields(r.metrics, line.size, line.fields).Some? <==> Fresh(lines, line)
  {
    FieldsAreRecorded(r.metrics, line.size, line.fields);
    hide AddFields, Reaches, Logged, KnownMetric;
    forall h' | Reaches(lines, h', |lines|) ensures h' == h {
      OneOpen(lines, h, h');
    }
    if NoCollision(r.metrics, line.size, line.fields) {
      forall j: nat, key: Key, value: real | Measures(line, j, key, value)
        ensures (forall v :: !Logged(lines, h, key, v)) && forall j', v :: Measures(line, j', key, v) ==> j' == j
      {
        assert Key(line.size, line.fields[j].0) == key;
      }
    }
    assert forall key :: key in r.metrics ==> Logged(lines, h, key, r.metrics[key]);
    if Fresh(lines, line) {
      forall i | 0 <= i < |line.fields| && KnownMetric(line.fields[i].0)
        ensures Key(line.size, line.fields[i].0) !in r.metrics
      {
        var key := Key(line.size, line.fields[i].0);
        assert Measures(line, i, key, line.fields[i].1);
      }
      forall i, j | 0 <= i < j < |line.fields| && KnownMetric(line.fields[i].0)
        ensures line.fields[i].0 != line.fields[j].0
      {
        var key := Key(line.size, line.fields[i].0);
        assert Measures(line, i, key, line.fields[i].1);
        assert line.fields[i].0 == line.fields[j].0 ==> Measures(line, j, key, line.fields[j].1);
      }
    }
  }

  lemma OpenReaches(lines: seq<Line>, line: Line, h: nat)
    ensures Reaches(lines, h, |lines|) && !Boundary(line) ==> Reaches(lines + [line], h, |lines| + 1)
    ensures line.Header? ==> Reaches(lines + [line], |lines|, |lines| + 1)
    ensures line.Reset? ==> !Reaches(lines + [line], h, |lines| + 1)
    ensures !Reaches(lines, h, |lines|) && !line.Header? ==> !Reaches(lines + [line], h, |lines| + 1)
  {
    ReachesNext(lines, line, h, |lines| + 1);
    ReachesNext(lines, line, |lines|, |lines| + 1);
    hide Reaches;
  }

  lemma NoneOpens(lines: seq<Line>, line: Line)
    requires line.Reset? || (!line.Header? && forall h :: !Reaches(lines, h, |lines|))
    ensures forall h :: !Reaches(lines + [line], h, |lines + [line]|)
  {
    hide Reaches;
    var lines' := lines + [line];
    forall h: nat ensures !Reaches(lines', h, |lines'|) {
      OpenReaches(lines, line, h);
    }
  }

  lemma AtInside(lines: seq<Line>, at: seq<nat>, runs: seq<Run>)
    requires RunsAt(lines, at, runs)
    ensures forall k :: 0 <= k < |at| ==> at[k] < |lines|
  {
    forall k | 0 <= k < |at| ensures at[k] < |lines| {
      assert RunAt(lines, at[k], runs[k]);
    }
  }

  lemma NothingFresh(lines: seq<Line>, line: Line)
    requires !line.Stats? || forall h :: !Reaches(lines, h, |lines|)
    ensures Fresh(lines, line)
  {
    hide Reaches, Logged, Boundary;
  }

  lemma ResetReads(lines: seq<Line>, f: string, at: seq<nat>, p: Parsed)
    requires Reads(lines, at, p)
    ensures Reads(lines + [Reset(f)], at, CloseRun(p).(resetAfter := p.resetAfter[f := |CloseRun(p).runs|]))
  {
    var line, closed := Reset(f), CloseRun(p);
    AtInside(lines, at, closed.runs);
    RunsCount(lines, at, closed.runs);
    NothingFresh(lines, line);
    UnrepeatedNext(lines, line);
    NoNewRun(lines, line, at, closed.runs);
    ResetAdded(lines, f, at, p.resetAfter);
    NoneOpens(lines, line);
    hide RunsAt, ResetsAt, Unrepeated, Reaches, Fresh;
  }

  lemma HeaderReads(lines: seq<Line>, line: Line, at: seq<nat>, p: Parsed)
    requires Reads(lines, at, p) && line.Header?
    ensures Reads(lines + [line], at + [|lines|],
                  CloseRun(p).(current := Some(Run(line.commit, line.timestamp, line.flavor, map[]))))
  {
    NothingFresh(lines, line);
    UnrepeatedNext(lines, line);
    NewRun(lines, line, at, CloseRun(p).runs);
    ResetsStay(lines, line, at, at + [|lines|], p.resetAfter);
    OpenReaches(lines, line, 0);
    hide RunsAt, ResetsAt, Unrepeated, Reaches, Fresh;
  }

  /** A line that says nothing to the log as it is. */
  lemma QuietReads(lines: seq<Line>, line: Line, at: seq<nat>, p: Parsed)
    requires Reads(lines, at, p) && (line.Other? || (line.Stats? && p.current.None?))
    ensures Reads(lines + [line], at, p) && Fresh(lines, line)
  {
    NothingFresh(lines, line);
    UnrepeatedNext(lines, line);
    NoNewRun(lines, line, at, CloseRun(p).runs);
    ResetsStay(lines, line, at, at, p.resetAfter);
    if p.current.Some? {
      OpenReaches(lines, line, at[|at| - 1]);
    } else {
      NoneOpens(lines, line);
    }
    hide RunsAt, ResetsAt, Unrepeated, Reaches, Fresh;
  }

  /** A line is read exactly when it is fresh, and then the parse stands for one line more. */
  lemma LineReads(lines: seq<Line>, line: Line, at: seq<nat>, p: Parsed) returns (at': seq<nat>)
    requires Reads(lines, at, p)
    ensures ParseLine(p, line).Ok? <==> Fresh(lines, line)
    ensures ParseLine(p, line).Ok? ==> Reads(lines + [line], at', ParseLine(p, line).value)
  {
    LineEffect(p, line);
    hide ParseLine, AddFields, Reads, Fresh;
    at' := if line.Header? then at + [|lines|] else at;
    match line
    case Reset(f) =>
      NothingFresh(lines, line);
      ResetReads(lines, f, at, p);
    case Header(_, _, _) =>
      NothingFresh(lines, line);
      HeaderReads(lines, line, at, p);
    case Stats(_, _) =>
      if p.current.Some? {
        StatsReads(lines, line, at, p);
      } else {
        QuietReads(lines, line, at, p);
      }
    case Other => QuietReads(lines, line, at, p);
  }

  lemma RunsCount(lines: seq<Line>, at: seq<nat>, runs: seq<Run>)
    requires RunsAt(lines, at, runs)
    ensures |at| == |runs|
  {
  }

  lemma StatsReads(lines: seq<Line>, line: Line, at: seq<nat>, p: Parsed)
    requires Reads(lines, at, p) && p.current.Some? && line.Stats?
    ensures ParseLine(p, line).Ok? <==> Fresh(lines, line)
    ensures ParseLine(p, line).Ok? ==> Reads(lines + [line], at, ParseLine(p, line).value)
  {
    var r, h := p.current.value, at[|at| - 1];
    LineEffect(p, line);
    ResetsStay(lines, line, at, at, p.resetAfter);
    assert RunAt(lines, h, r) by {
      assert RunAt(lines, at[|p.runs|], CloseRun(p).runs[|p.runs|]);
    }
    FreshIff(lines, line, h, r);
    OpenReaches(lines, line, h);
    hide ParseLine, AddFields, RunsAt, RunAt, ResetsAt, Unrepeated, Reaches, Fresh;
    if ParseLine(p, line).Ok? {
      var r' := ParseLine(p, line).value.current.value;
      LastRunGrows(lines, line, at, p.runs, r, r');
      UnrepeatedNext(lines, line);
    }
  }

  lemma NothingRead()
    ensures Reads([], [], START)
  {
  }

  /**
   * Every log that is read: its runs, measurements and resets are those of its lines, and none is refused but for a
   * repetition.
   */
  lemma {:induction false} LogIsRead(lines: seq<Line>) returns (at: seq<nat>)
    ensures ParseLines(START, lines).Ok? ==> Reads(lines, at, ParseLines(START, lines).value)
    ensures ParseLines(START, lines).Ok? <==> Unrepeated(lines)
  {
    hide ParseLine, Reads, Unrepeated, Fresh;
    if lines == [] {
      at := [];
      NothingRead();
      ReadsUnrepeated([], [], START);
    } else {
      var n := |lines| - 1;
      var init, line := lines[..n], lines[n];
      assert lines == init + [line];
      var at0 := LogIsRead(init);
      if ParseLines(START, init).Ok? {
        var p := ParseLines(START, init).value;
        at := LineReads(init, line, at0, p);
        ParseConcat(START, init, [line]);
        OneLine(p, line);
        if ParseLine(p, line).Ok? {
          ReadsUnrepeated(lines, at, ParseLine(p, line).value);
        } else if Unrepeated(lines) {
          RepeatedNext(init, line);
        }
      } else {
        at := [];
        if Unrepeated(lines) {
          RepeatedNext(init, line);
        }
        RefusedStays(START, init, [line]);
      }
    }
  }

  lemma ReadsUnrepeated(lines: seq<Line>, at: seq<nat>, p: Parsed)
    requires Reads(lines, at, p)
    ensures Unrepeated(lines)
  {
  }

  lemma OneLine(p: Parsed, line: Line)
    ensures ParseLines(p, [line]) == ParseLine(p, line)
  {
    assert [line][1..] == [];
  }

  lemma {:induction false} RefusedStays(p: Parsed, a: seq<Line>, b: seq<Line>)
    requires ParseLines(p, a).Err?
    ensures ParseLines(p, a + b).Err?
    decreases |a|
  {
    hide ParseLine;
    assert (a + b)[0] == a[0] && (a + b)[1..] == a[1..] + b;
    if ParseLine(p, a[0]).Ok? {
      RefusedStays(ParseLine(p, a[0]).value, a[1..], b);
    }
  }
}
