/**
 * The performance gate: a log of runs cut into runs and baseline resets, the best value so far as the
 * standard, and the verdict on the latest runs. Measurements are real numbers.
 */
module PerfRatchet {
  import opened Bytes

  datatype Key = Key(size: nat, name: string)

  datatype Run = Run(commit: string, timestamp: string, flavor: string, metrics: map<Key, real>) {
    function Id(): (string, string) {
      (commit, timestamp)
    }
  }

  predicate KnownMetric(name: string) {
    name in ["wire_pps", "replies", "send_ms", "total_ms", "recv_ns", "dispatch_ns", "send_ns"]
  }

  /** METRIC_DIRECTION, with its default for names it does not list */
  predicate HigherBetter(name: string) {
    name !in ["send_ms", "total_ms", "recv_ns", "dispatch_ns", "send_ns"]
  }

  predicate Gated(name: string) {
    name in ["recv_ns", "dispatch_ns", "send_ns"]
  }

  /** The metrics that are read, and the two of which more is better. */
  lemma MetricNames(name: string)
    ensures KnownMetric(name) <==>
            || name == "wire_pps" || name == "replies" || name == "send_ms" || name == "total_ms" || name == "recv_ns"
            || name == "dispatch_ns" || name == "send_ns"
    ensures KnownMetric(name) ==> (HigherBetter(name) <==> name == "wire_pps" || name == "replies")
  {
  }

  // ----- The log --------------------------------------------------------------------

  /** A log line, as the patterns of the parser see it. */
  datatype Line =
    | Reset(flavor: string)
    | Header(commit: string, timestamp: string, flavor: string)
    | Stats(size: nat, fields: seq<(string, real)>)
    | Other

  datatype Parsed = Parsed(runs: seq<Run>, current: Option<Run>, resetAfter: map<string, nat>)

  const START := Parsed([], None, map[])

  /** The metrics of one statistics line added to a run; None when a metric comes twice. */
  function AddFields(m: map<Key, real>, size: nat, fields: seq<(string, real)>): Option<map<Key, real>>
    decreases |fields|
  {
    if fields == [] then Some(m)
    else
      var (name, value) := fields[0];
      if !KnownMetric(name) then AddFields(m, size, fields[1..])
      else if Key(size, name) in m then None
      else AddFields(m[Key(size, name) := value], size, fields[1..])
  }

  /** The fields of a line that count, by key. */
  ghost predicate Recorded(size: nat, fields: seq<(string, real)>, i: nat, key: Key)
    requires i < |fields|
  {
    KnownMetric(fields[i].0) && key == Key(size, fields[i].0)
  }

  /** No metric comes twice, in the run so far or within the line. */
  ghost predicate NoCollision(m: map<Key, real>, size: nat, fields: seq<(string, real)>) {
    && (forall i :: 0 <= i < |fields| && KnownMetric(fields[i].0) ==> Key(size, fields[i].0) !in m)
    && (forall i, j :: 0 <= i < j < |fields| && KnownMetric(fields[i].0) ==> fields[i].0 != fields[j].0)
  }

  /**
   * A line is refused exactly on a collision; otherwise every known field is recorded and nothing is overwritten or
   * invented.
   */
  lemma {:induction false} FieldsAreRecorded(m: map<Key, real>, size: nat, fields: seq<(string, real)>)
    ensures AddFields(m, size, fields).Some? <==> NoCollision(m, size, fields)
    ensures AddFields(m, size, fields).Some? ==>
              var r := AddFields(m, size, fields).value;
              && (forall key :: key in m ==> key in r && r[key] == m[key])
              && (forall i :: 0 <= i < |fields| && KnownMetric(fields[i].0) ==>
                    Key(size, fields[i].0) in r && r[Key(size, fields[i].0)] == fields[i].1)
              && (forall key :: key in r ==>
                    key in m || exists i :: 0 <= i < |fields| && Recorded(size, fields, i, key))
    decreases |fields|
  {
    hide KnownMetric;
    if fields != [] {
      var (name, value) := fields[0];
      var rest := fields[1..];
      var m' := if KnownMetric(name) then m[Key(size, name) := value] else m;
      FieldsAreRecorded(m', size, rest);
      assert forall i :: 1 <= i < |fields| ==> fields[i] == rest[i - 1];
      if KnownMetric(name) && Key(size, name) in m {
        assert AddFields(m, size, fields).None?;
      } else {
        NoCollisionTail(m, size, fields);
        assert AddFields(m, size, fields) == AddFields(m', size, rest);
        if AddFields(m', size, rest).Some? {
          var r := AddFields(m', size, rest).value;
          forall key | key in r ensures key in m || exists i :: 0 <= i < |fields| && Recorded(size, fields, i, key) {
            if key in m' && key !in m {
              assert Recorded(size, fields, 0, key);
            } else if key !in m' {
              var i :| 0 <= i < |rest| && Recorded(size, rest, i, key);
              assert Recorded(size, fields, i + 1, key);
            }
          }
        }
      }
    }
  }

  lemma NoCollisionTail(m: map<Key, real>, size: nat, fields: seq<(string, real)>)
    requires fields != [] && !(KnownMetric(fields[0].0) && Key(size, fields[0].0) in m)
    ensures
      var m' := if KnownMetric(fields[0].0) then m[Key(size, fields[0].0) := fields[0].1] else m;
      NoCollision(m, size, fields) <==> NoCollision(m', size, fields[1..])
  {
    hide KnownMetric;
    var rest := fields[1..];
    var m' := if KnownMetric(fields[0].0) then m[Key(size, fields[0].0) := fields[0].1] else m;
    assert forall i :: 1 <= i < |fields| ==> fields[i] == rest[i - 1];
    if NoCollision(m', size, rest) {
      forall i | 0 <= i < |fields| && KnownMetric(fields[i].0) ensures Key(size, fields[i].0) !in m {
        if i > 0 {
          assert Key(size, rest[i - 1].0) !in m';
        }
      }
      forall i, j | 0 <= i < j < |fields| && KnownMetric(fields[i].0) ensures fields[i].0 != fields[j].0 {
        if i == 0 {
          assert KnownMetric(rest[j - 1].0) ==> Key(size, rest[j - 1].0) !in m';
        } else {
          assert rest[i - 1].0 != rest[j - 1].0;
        }
      }
    }
  }

  function CloseRun(p: Parsed): Parsed {
    if p.current.Some? then Parsed(p.runs + [p.current.value], None, p.resetAfter) else p
  }

  function ParseLine(p: Parsed, line: Line): Result<Parsed> {
    match line
    case Reset(flavor) =>
      var closed := CloseRun(p);
      Ok(closed.(resetAfter := closed.resetAfter[flavor := |closed.runs|]))
    case Header(commit, timestamp, flavor) => Ok(CloseRun(p).(current := Some(Run(commit, timestamp, flavor, map[]))))
    case Stats(size, fields) =>
      if p.current.None? then Ok(p)
      else
        var m := AddFields(p.current.value.metrics, size, fields);
        if m.None? then Err("metric collision") else Ok(p.(current := Some(p.current.value.(metrics := m.value))))
    case Other => Ok(p)
  }

  function ParseLines(p: Parsed, lines: seq<Line>): Result<Parsed>
    decreases |lines|
  {
    if lines == [] then Ok(p)
    else
      var next := ParseLine(p, lines[0]);
      if next.Err? then next else ParseLines(next.value, lines[1..])
  }

  function Parse(lines: seq<Line>): Result<Parsed> {
    var r := ParseLines(START, lines);
    if r.Err? then r else Ok(CloseRun(r.value))
  }

  lemma {:induction false} ParseConcat(p: Parsed, a: seq<Line>, b: seq<Line>)
    requires ParseLines(p, a).Ok?
    ensures ParseLines(p, a + b) == ParseLines(ParseLines(p, a).value, b)
    decreases |a|
  {
    if a == [] {
      assert a + b == b;
    } else {
      ParseConcat(ParseLine(p, a[0]).value, a[1..], b);
      assert (a + b)[1..] == a[1..] + b;
    }
  }

  /** parse_log */
  method ParseLog(lines: seq<Line>) returns (r: Result<(seq<Run>, map<string, nat>)>)
    ensures r.Ok? <==> Parse(lines).Ok?
    ensures r.Ok? ==> r.value == (Parse(lines).value.runs, Parse(lines).value.resetAfter)
  {
    hide ParseLine;
    var runs: seq<Run> := [];
    var current: Option<Run> := None;
    var resetAfter: map<string, nat> := map[];
    for i := 0 to |lines|
      invariant ParseLines(START, lines) == ParseLines(Parsed(runs, current, resetAfter), lines[i..])
    {
      ghost var before := Parsed(runs, current, resetAfter);
      assert lines[i..][0] == lines[i] && lines[i..][1..] == lines[i + 1..];
      LineEffect(before, lines[i]);
      match lines[i]
      case Reset(flavor) =>
        if current.Some? {
          runs := runs + [current.value];
          current := None;
        }
        resetAfter := resetAfter[flavor := |runs|];
      case Header(commit, timestamp, flavor) =>
        if current.Some? {
          runs := runs + [current.value];
        }
        current := Some(Run(commit, timestamp, flavor, map[]));
      case Stats(size, fields) =>
        if current.Some? {
          var metrics := AddFields(current.value.metrics, size, fields);
          if metrics.None? {
            return Err("metric collision");
          }
          current := Some(current.value.(metrics := metrics.value));
        }
      case Other =>
    }
    if current.Some? {
      runs := runs + [current.value];
    }
    r := Ok((runs, resetAfter));
  }

  lemma LineEffect(p: Parsed, line: Line)
    ensures line.Reset? ==>
              ParseLine(p, line) == Ok(CloseRun(p).(resetAfter := p.resetAfter[line.flavor := |CloseRun(p).runs|]))
    ensures line.Header? ==>
              ParseLine(p, line) ==
              Ok(CloseRun(p).(current := Some(Run(line.commit, line.timestamp, line.flavor, map[]))))
    ensures line.Stats? && p.current.Some? ==>
              ParseLine(p, line) ==
              var m := AddFields(p.current.value.metrics, line.size, line.fields);
              if m.None? then Err("metric collision") else Ok(p.(current := Some(p.current.value.(metrics := m.value))))
    ensures line.Other? || (line.Stats? && p.current.None?) ==> ParseLine(p, line) == Ok(p)
  {
  }

  // ----- Runs of a flavor, since its reset ----------------------------------------------

  function OfFlavor(runs: seq<Run>, flavor: string): seq<Run> {
    if runs == [] then []
    else (if runs[0].flavor == flavor then [runs[0]] else []) + OfFlavor(runs[1..], flavor)
  }

  function ResetIndex(p: Parsed, flavor: string): nat {
    if flavor in p.resetAfter then p.resetAfter[flavor] else 0
  }

  /** The runs the gate looks at: those of the flavor after its last reset. */
  function SameFlavor(p: Parsed, flavor: string): seq<Run>
    requires ResetIndex(p, flavor) <= |p.runs|
  {
    OfFlavor(p.runs[ResetIndex(p, flavor)..], flavor)
  }

  /** Every reset points into the runs. */
  ghost predicate IndicesInside(p: Parsed) {
    forall f :: f in p.resetAfter ==> p.resetAfter[f] <= |p.runs|
  }

  lemma {:induction false} ParseKeepsIndices(p: Parsed, lines: seq<Line>)
    requires IndicesInside(p) && ParseLines(p, lines).Ok?
    ensures IndicesInside(ParseLines(p, lines).value) && IndicesInside(CloseRun(ParseLines(p, lines).value))
    decreases |lines|
  {
    if lines != [] {
      ParseKeepsIndices(ParseLine(p, lines[0]).value, lines[1..]);
    }
  }

  /**
   * Two parses that agree from a flavor's reset on: `q` holds `k` fewer runs before it, and both are in the same
   * run now.
   */
  ghost predicate AgreeSince(p: Parsed, q: Parsed, flavor: string, k: nat) {
    && p.current == q.current && flavor in p.resetAfter && flavor in q.resetAfter
    && q.resetAfter[flavor] <= |q.runs|
    && p.resetAfter[flavor] == q.resetAfter[flavor] + k && |p.runs| == |q.runs| + k
    && p.runs[p.resetAfter[flavor]..] == q.runs[q.resetAfter[flavor]..]
  }

  lemma CloseKeepsAgreement(p: Parsed, q: Parsed, flavor: string, k: nat)
    requires AgreeSince(p, q, flavor, k)
    ensures AgreeSince(CloseRun(p), CloseRun(q), flavor, k)
  {
    if p.current.Some? {
      var i, j := p.resetAfter[flavor], q.resetAfter[flavor];
      assert (p.runs + [p.current.value])[i..] == p.runs[i..] + [p.current.value];
      assert (q.runs + [q.current.value])[j..] == q.runs[j..] + [q.current.value];
    }
  }

  lemma LineKeepsAgreement(p: Parsed, q: Parsed, flavor: string, k: nat, line: Line)
    requires AgreeSince(p, q, flavor, k)
    ensures ParseLine(p, line).Ok? <==> ParseLine(q, line).Ok?
    ensures ParseLine(p, line).Ok? ==> AgreeSince(ParseLine(p, line).value, ParseLine(q, line).value, flavor, k)
  {
    CloseKeepsAgreement(p, q, flavor, k);
    hide AddFields;
    if line.Reset? && line.flavor == flavor {
      var a, b := ParseLine(p, line).value, ParseLine(q, line).value;
      assert a.runs[|a.runs|..] == [] && b.runs[|b.runs|..] == [];
    }
  }

  lemma {:induction false} LinesKeepAgreement(p: Parsed, q: Parsed, flavor: string, k: nat, lines: seq<Line>)
    requires AgreeSince(p, q, flavor, k)
    ensures ParseLines(p, lines).Ok? <==> ParseLines(q, lines).Ok?
    ensures ParseLines(p, lines).Ok? ==> AgreeSince(ParseLines(p, lines).value, ParseLines(q, lines).value, flavor, k)
    decreases |lines|
  {
    hide ParseLine, AgreeSince;
    if lines != [] {
      LineKeepsAgreement(p, q, flavor, k, lines[0]);
      if ParseLine(p, lines[0]).Ok? {
        LinesKeepAgreement(ParseLine(p, lines[0]).value, ParseLine(q, lines[0]).value, flavor, k, lines[1..]);
      }
    }
  }

  /**
   * Whatever was logged before a reset of the flavor, the gate then sees the same runs of it as if nothing had been.
   */
  lemma ResetForgets(before: seq<Line>, flavor: string, after: seq<Line>)
    requires ParseLines(START, before).Ok?
    ensures Parse(before + [Reset(flavor)] + after).Ok? <==> Parse([Reset(flavor)] + after).Ok?
    ensures Parse([Reset(flavor)] + after).Ok? ==>
              var p := Parse(before + [Reset(flavor)] + after).value;
              var q := Parse([Reset(flavor)] + after).value;
              && ResetIndex(p, flavor) <= |p.runs| && ResetIndex(q, flavor) <= |q.runs|
              && SameFlavor(p, flavor) == SameFlavor(q, flavor)
  {
    var p, reset := ParseLines(START, before).value, Reset(flavor);
    ConcatAssoc(before, [reset], after);
    ParseConcat(START, before, [reset] + after);
    var p', q' := ParseLine(p, reset).value, ParseLine(START, reset).value;
    assert ([reset] + after)[1..] == after;
    assert p'.runs[|p'.runs|..] == [] && q'.runs[|q'.runs|..] == [];
    assert AgreeSince(p', q', flavor, |p'.runs|);
    LinesKeepAgreement(p', q', flavor, |p'.runs|, after);
    hide ParseLine;
    if ParseLines(q', after).Ok? {
      CloseKeepsAgreement(ParseLines(p', after).value, ParseLines(q', after).value, flavor, |p'.runs|);
    }
  }

  // ----- The standard -----------------------------------------------------------------

  /** At least as good, in the direction of the metric. */
  predicate AtLeast(higher: bool, a: real, b: real) {
    if higher then a >= b else a <= b
  }

  function Values(history: seq<Run>, key: Key): seq<real> {
    if history == [] then []
    else
      var last := history[|history| - 1];
      Values(history[..|history| - 1], key) + (if key in last.metrics then [last.metrics[key]] else [])
  }

  /** max(values) or min(values) */
  function Extreme(vs: seq<real>, higher: bool): (b: real)
    requires vs != []
    ensures b in vs && forall i :: 0 <= i < |vs| ==> AtLeast(higher, b, vs[i])
  {
    var last := vs[|vs| - 1];
    if |vs| == 1 then last
    else
      var b := Extreme(vs[..|vs| - 1], higher);
      if AtLeast(higher, b, last) then b else last
  }

  /** best_so_far */
  function BestSoFar(history: seq<Run>, key: Key): Option<real> {
    var vs := Values(history, key);
    if vs == [] then None else Some(Extreme(vs, HigherBetter(key.name)))
  }

  lemma ExtremeNext(vs: seq<real>, v: real, higher: bool)
    ensures Extreme(vs + [v], higher) ==
            if vs != [] && AtLeast(higher, Extreme(vs, higher), v) then Extreme(vs, higher) else v
  {
    assert (vs + [v])[..|vs|] == vs;
  }

  lemma BestNext(runs: seq<Run>, i: nat, key: Key)
    requires i < |runs|
    ensures BestSoFar(runs[..i + 1], key) ==
            if key !in runs[i].metrics then BestSoFar(runs[..i], key)
            else
              var v, best := runs[i].metrics[key], BestSoFar(runs[..i], key);
              if best.Some? && AtLeast(HigherBetter(key.name), best.value, v) then best else Some(v)
  {
    var vs := Values(runs[..i], key);
    assert runs[..i + 1][..i] == runs[..i];
    assert Values(runs[..i + 1], key) == vs + (if key in runs[i].metrics then [runs[i].metrics[key]] else []);
    hide HigherBetter, Extreme, Values;
    if key in runs[i].metrics {
      ExtremeNext(vs, runs[i].metrics[key], HigherBetter(key.name));
    } else {
      assert Values(runs[..i + 1], key) == vs;
    }
  }

  function Lookup(m: map<Key, real>, key: Key): Option<real> {
    if key in m then Some(m[key]) else None
  }

  /** aggregate_best: for every key, exactly the best over the runs */
  method AggregateBest(runs: seq<Run>) returns (aggregated: map<Key, real>)
    ensures forall key :: Lookup(aggregated, key) == BestSoFar(runs, key)
  {
    hide BestSoFar, HigherBetter;
    aggregated := map[];
    NoBest(runs);
    for i := 0 to |runs|
      invariant forall key :: Lookup(aggregated, key) == BestSoFar(runs[..i], key)
    {
      var run := runs[i];
      var todo := run.metrics.Keys;
      while todo != {}
        invariant todo <= run.metrics.Keys
        invariant forall key :: Lookup(aggregated, key) ==
                                if key in run.metrics && key !in todo then BestSoFar(runs[..i + 1], key)
                                else BestSoFar(runs[..i], key)
        decreases todo
      {
        var key :| key in todo;
        var val := run.metrics[key];
        BestNext(runs, i, key);
        todo := todo - {key};
        if key !in aggregated {
          aggregated := aggregated[key := val];
        } else if HigherBetter(key.name) && val > aggregated[key] {
          aggregated := aggregated[key := val];
        } else if !HigherBetter(key.name) && val < aggregated[key] {
          aggregated := aggregated[key := val];
        }
      }
      forall key ensures Lookup(aggregated, key) == BestSoFar(runs[..i + 1], key) {
        BestNext(runs, i, key);
      }
    }
    assert runs[..|runs|] == runs;
  }

  lemma NoBest(runs: seq<Run>)
    ensures forall key :: BestSoFar(runs[..0], key) == None
  {
  }

  // ----- The gate ---------------------------------------------------------------------

  function Times(c: real, x: real): real {
    c * x
  }

  /** The worst value that is still tolerated. */
  function Limit(standard: real, higher: bool, tolerance: real): real {
    if higher then Times(1.0 - tolerance, standard) else Times(1.0 + tolerance, standard)
  }

  /** is_regression */
  predicate IsRegression(current: real, standard: real, higher: bool, tolerance: real) {
    if higher then current < Limit(standard, higher, tolerance) else current > Limit(standard, higher, tolerance)
  }

  predicate NewBest(current: real, standard: real, higher: bool) {
    if higher then current > standard else current < standard
  }

  /** The status of one gated value: it fails when it is no new best and regressed from the standard. */
  predicate Fails(current: real, standard: Option<real>, higher: bool, tolerance: real) {
    && standard.Some?
    && !NewBest(current, standard.value, higher)
    && IsRegression(current, standard.value, higher, tolerance)
  }

  /**
   * A regression is a loss against the standard of more than the tolerated share of it; a new best is better than it.
   */
  lemma RegressionIs(current: real, standard: real, tolerance: real)
    ensures IsRegression(current, standard, true, tolerance) <==> standard - current > Times(tolerance, standard)
    ensures IsRegression(current, standard, false, tolerance) <==> current - standard > Times(tolerance, standard)
    ensures NewBest(current, standard, true) <==> standard < current
    ensures NewBest(current, standard, false) <==> current < standard
  {
  }

  /** A new best is never a regression, so the order of the two tests does not matter. */
  lemma NewBestPasses(current: real, standard: real, higher: bool, tolerance: real)
    requires standard >= 0.0 && 0.0 < tolerance < 1.0 && NewBest(current, standard, higher)
    ensures !IsRegression(current, standard, higher, tolerance)
  {
    assert tolerance * standard >= 0.0;
  }

  lemma Scales(c: real, a: real, b: real)
    requires c >= 0.0 && a <= b
    ensures Times(c, a) <= Times(c, b)
  {
    assert c * (b - a) >= 0.0;
  }

  /** A better standard has a better limit. */
  lemma LimitFollows(old_: real, new_: real, higher: bool, tolerance: real)
    requires 0.0 < tolerance < 1.0 && AtLeast(higher, new_, old_)
    ensures AtLeast(higher, Limit(new_, higher, tolerance), Limit(old_, higher, tolerance))
  {
    hide Times;
    if higher {
      Scales(1.0 - tolerance, old_, new_);
    } else {
      Scales(1.0 + tolerance, new_, old_);
    }
  }

  /** A better standard fails whatever a worse one failed. */
  lemma BetterStandardFails(current: real, old_: real, new_: real, higher: bool, tolerance: real)
    requires new_ >= 0.0 && 0.0 < tolerance < 1.0
    requires AtLeast(higher, new_, old_) && Fails(current, Some(old_), higher, tolerance)
    ensures Fails(current, Some(new_), higher, tolerance)
  {
    LimitFollows(old_, new_, higher, tolerance);
    hide Limit;
    if NewBest(current, new_, higher) {
      NewBestPasses(current, new_, higher, tolerance);
    }
  }

  /** Every value in the runs of `a` is in one of `b`. */
  ghost predicate Extends(b: seq<Run>, a: seq<Run>) {
    forall i, key :: 0 <= i < |a| && key in a[i].metrics ==> HasValue(b, key, a[i].metrics[key])
  }

  ghost predicate HasValue(runs: seq<Run>, key: Key, value: real) {
    exists i :: 0 <= i < |runs| && key in runs[i].metrics && runs[i].metrics[key] == value
  }

  ghost predicate NonNegative(runs: seq<Run>) {
    forall i, key :: 0 <= i < |runs| && key in runs[i].metrics ==> runs[i].metrics[key] >= 0.0
  }

  lemma {:induction false} ValuesComeFromRuns(runs: seq<Run>, key: Key)
    ensures forall v :: v in Values(runs, key) <==>
            exists i :: 0 <= i < |runs| && key in runs[i].metrics && runs[i].metrics[key] == v
  {
    if runs != [] {
      ValuesComeFromRuns(runs[..|runs| - 1], key);
    }
  }

  /** More history never worsens the standard. */
  lemma MoreHistoryIsStricter(a: seq<Run>, b: seq<Run>, key: Key)
    requires Extends(b, a) && BestSoFar(a, key).Some?
    ensures BestSoFar(b, key).Some? && AtLeast(HigherBetter(key.name), BestSoFar(b, key).value, BestSoFar(a, key).value)
  {
    ValuesComeFromRuns(a, key);
    ValuesComeFromRuns(b, key);
    hide HigherBetter;
    var v := BestSoFar(a, key).value;
    assert v in Values(a, key);
    assert HasValue(b, key, v);
    assert v in Values(b, key);
  }

  lemma StandardIsNonNegative(runs: seq<Run>, key: Key)
    requires NonNegative(runs) && BestSoFar(runs, key).Some?
    ensures BestSoFar(runs, key).value >= 0.0
  {
    ValuesComeFromRuns(runs, key);
    hide HigherBetter;
    assert BestSoFar(runs, key).value in Values(runs, key);
  }

  /** The failures of the gate: the gated metrics of the current window that fail against the history. */
  function Failures(current: map<Key, real>, history: seq<Run>, tolerance: real): set<Key> {
    set key | key in current && Gated(key.name)
              && Fails(current[key], BestSoFar(history, key), HigherBetter(key.name), tolerance)
  }

  /** The ratchet: extending the history never turns a failure into a pass. */
  lemma RatchetNeverLoosens(current: map<Key, real>, history: seq<Run>, longer: seq<Run>, tolerance: real)
    requires Extends(longer, history) && NonNegative(longer) && 0.0 < tolerance < 1.0
    ensures Failures(current, history, tolerance) <= Failures(current, longer, tolerance)
  {
    hide BestSoFar, HigherBetter, Fails, Gated;
    forall key | key in Failures(current, history, tolerance) ensures key in Failures(current, longer, tolerance) {
      HasStandard(current[key], BestSoFar(history, key), HigherBetter(key.name), tolerance);
      MoreHistoryIsStricter(history, longer, key);
      StandardIsNonNegative(longer, key);
      BetterStandardFails(current[key], BestSoFar(history, key).value, BestSoFar(longer, key).value,
                          HigherBetter(key.name), tolerance);
    }
  }

  lemma HasStandard(current: real, standard: Option<real>, higher: bool, tolerance: real)
    requires Fails(current, standard, higher, tolerance)
    ensures standard.Some?
  {
  }

  /** A value that is itself in the history, or as good as its best, never fails. */
  lemma BestPasses(current: map<Key, real>, history: seq<Run>, tolerance: real, key: Key)
    requires NonNegative(history) && 0.0 < tolerance < 1.0
    requires key in current && BestSoFar(history, key).Some?
    requires AtLeast(HigherBetter(key.name), current[key], BestSoFar(history, key).value)
    ensures key !in Failures(current, history, tolerance)
  {
    StandardIsNonNegative(history, key);
    hide BestSoFar, HigherBetter;
    assert tolerance * BestSoFar(history, key).value >= 0.0;
  }

  // ----- Window and history -------------------------------------------------------------

  function OfCommit(runs: seq<Run>, commit: string): seq<Run> {
    if runs == [] then []
    else (if runs[0].commit == commit then [runs[0]] else []) + OfCommit(runs[1..], commit)
  }

  /** runs[-n:] */
  function LastN(runs: seq<Run>, n: nat): seq<Run> {
    if n >= |runs| then runs else runs[|runs| - n..]
  }

  /** The current window; an empty commit means none was asked for. */
  function Window(runs: seq<Run>, commit: string, n: nat): seq<Run> {
    if commit != "" then LastN(OfCommit(runs, commit), n) else LastN(runs, n)
  }

  predicate InWindow(r: Run, window: seq<Run>) {
    exists i :: 0 <= i < |window| && window[i].Id() == r.Id()
  }

  function History(runs: seq<Run>, window: seq<Run>): seq<Run> {
    if runs == [] then []
    else (if InWindow(runs[0], window) then [] else [runs[0]]) + History(runs[1..], window)
  }

  lemma {:induction false} HistoryConcat(a: seq<Run>, b: seq<Run>, window: seq<Run>)
    ensures History(a + b, window) == History(a, window) + History(b, window)
  {
    hide InWindow;
    if a == [] {
      assert a + b == b;
    } else {
      HistoryConcat(a[1..], b, window);
      assert (a + b)[0] == a[0] && (a + b)[1..] == a[1..] + b;
      var head := if InWindow(a[0], window) then [] else [a[0]];
      ConcatAssoc(head, History(a[1..], window), History(b, window));
    }
  }

  lemma {:induction false} HistoryKeepsAll(runs: seq<Run>, window: seq<Run>)
    ensures |History(runs, window)| <= |runs|
    ensures History(runs, window) == runs <==> forall i :: 0 <= i < |runs| ==> !InWindow(runs[i], window)
  {
    hide InWindow;
    if runs != [] {
      HistoryKeepsAll(runs[1..], window);
      assert runs == [runs[0]] + runs[1..];
      assert forall i :: 1 <= i < |runs| ==> runs[i] == runs[1..][i - 1];
      if InWindow(runs[0], window) {
        assert |History(runs, window)| < |runs|;
      } else {
        assert History(runs, window)[1..] == History(runs[1..], window);
      }
    }
  }

  lemma {:induction false} HistoryDropsAll(runs: seq<Run>, window: seq<Run>)
    requires forall i :: 0 <= i < |runs| ==> InWindow(runs[i], window)
    ensures History(runs, window) == []
  {
    hide InWindow;
    if runs != [] {
      HistoryDropsAll(runs[1..], window);
    }
  }

  /**
   * Without a commit, the history is the runs before the window exactly when none of them shares a window run's
   * identity.
   */
  lemma HistoryIsEarlierRuns(runs: seq<Run>, n: nat)
    ensures
      var window := Window(runs, "", n);
      var earlier := runs[..|runs| - |window|];
      History(runs, window) == earlier <==> forall i :: 0 <= i < |earlier| ==> !InWindow(earlier[i], window)
  {
    var window := Window(runs, "", n);
    var earlier := runs[..|runs| - |window|];
    assert runs == earlier + window;
    HistoryConcat(earlier, window, window);
    HistoryDropsAll(window, window);
    HistoryKeepsAll(earlier, window);
  }

  lemma {:induction false} OfCommitMembers(runs: seq<Run>, commit: string)
    ensures forall r :: r in OfCommit(runs, commit) <==> r in runs && r.commit == commit
  {
    if runs != [] {
      OfCommitMembers(runs[1..], commit);
    }
  }

  /** The first run of the window, by its place among the runs of the flavor. */
  lemma {:induction false} WindowStart(runs: seq<Run>, commit: string, n: nat) returns (first: nat)
    requires commit != "" && n >= 1 && OfCommit(runs, commit) != []
    ensures first < |runs| && runs[first].commit == commit
    ensures Window(runs, commit, n) == OfCommit(runs[first..], commit)
  {
    if runs[0].commit == commit && |OfCommit(runs, commit)| <= n {
      first := 0;
    } else {
      var rest := runs[1..];
      if runs[0].commit == commit {
        LastOfMore(runs[0], OfCommit(rest, commit), n);
      } else {
        assert [] + OfCommit(rest, commit) == OfCommit(rest, commit);
      }
      hide LastN;
      var k := WindowStart(rest, commit, n);
      first := k + 1;
      assert rest[k..] == runs[first..];
    }
  }

  lemma LastOfMore(head: Run, rest: seq<Run>, n: nat)
    requires |rest| >= n
    ensures LastN([head] + rest, n) == LastN(rest, n)
  {
  }

  /**
   * With a commit, the runs compared against are all earlier than the window exactly when every run of the flavor
   * from the window's first on is of that commit: later runs of other commits count as history too.
   */
  lemma CommitHistoryIsEarlierIff(runs: seq<Run>, commit: string, n: nat, first: nat)
    requires commit != "" && first < |runs| && runs[first].commit == commit
    requires Window(runs, commit, n) == OfCommit(runs[first..], commit)
    ensures (forall i :: 0 <= i < |runs| && !InWindow(runs[i], Window(runs, commit, n)) ==> i < first)
            <==> forall i :: first <= i < |runs| ==> runs[i].commit == commit
  {
    var window := Window(runs, commit, n);
    OfCommitMembers(runs[first..], commit);
    forall i | first <= i < |runs| ensures InWindow(runs[i], window) <==> runs[i].commit == commit {
      assert runs[i] == runs[first..][i - first];
      if runs[i].commit == commit {
        assert runs[i] in window;
      }
    }
  }

  /** A run checked by its commit can fail against a run that came after it, with nothing before it. */
  lemma LaterRunFailsEarlier()
    ensures
      var key := Key(64, "recv_ns");
      var a := Run("old", "t1", "default", map[key := 100.0]);
      var b := Run("new", "t2", "default", map[key := 10.0]);
      && Window([a, b], "old", 1) == [a]
      && History([a, b], [a]) == [b]
      && key in Failures(map[key := 100.0], History([a, b], [a]), 0.5)
      && Failures(map[key := 100.0], [], 0.5) == {}
  {
    var key := Key(64, "recv_ns");
    var a := Run("old", "t1", "default", map[key := 100.0]);
    var b := Run("new", "t2", "default", map[key := 10.0]);
    assert [a, b][1..] == [b] && [b][1..] == [];
    assert OfCommit([b], "old") == [];
    assert !InWindow(b, [a]) && InWindow(a, [a]) by {
      assert [a][0].Id() == a.Id();
    }
    assert History([b], [a]) == [b];
    assert [b][..0] == [] && Values([b], key) == [10.0];
    assert Values([], key) == [];
  }
}
