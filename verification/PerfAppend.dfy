/**
 * Which lines can be appended to the performance log without ever clearing a failure of a checked commit: for every
 * log, and exactly.
 */
module PerfAppend {
  import opened Bytes
  import opened PerfGate
  import opened PerfRatchet

  // ----- When appending can clear a failure ------------------------------------------------------

  /** Measurements are not negative. */
  predicate Plausible(lines: seq<Line>) {
    forall i :: 0 <= i < |lines| ==> PlausibleLine(lines[i])
  }

  predicate PlausibleLine(line: Line) {
    line.Stats? ==> forall j :: 0 <= j < |line.fields| ==> line.fields[j].1 >= 0.0
  }

  lemma PlausibleStep(p: Parsed, line: Line)
    requires NonNegative(CloseRun(p).runs) && PlausibleLine(line) && ParseLine(p, line).Ok?
    ensures NonNegative(CloseRun(ParseLine(p, line).value).runs)
  {
    LineEffect(p, line);
    if line.Stats? && p.current.Some? {
      var run, run' := p.current.value, ParseLine(p, line).value.current.value;
      FieldsAreRecorded(run.metrics, line.size, line.fields);
      hide ParseLine, AddFields, NoCollision, KnownMetric;
      var before, after := p.runs + [run], p.runs + [run'];
      forall i, key | 0 <= i < |after| && key in after[i].metrics ensures after[i].metrics[key] >= 0.0 {
        if i < |p.runs| {
          assert before[i] == after[i];
        } else if key in run.metrics {
          assert before[i] == run;
        } else {
          var j :| 0 <= j < |line.fields| && Recorded(line.size, line.fields, j, key);
        }
      }
    } else {
      hide ParseLine, AddFields;
    }
  }

  lemma {:induction false} PlausibleRuns(p: Parsed, lines: seq<Line>)
    requires NonNegative(CloseRun(p).runs) && Plausible(lines) && ParseLines(p, lines).Ok?
    ensures NonNegative(CloseRun(ParseLines(p, lines).value).runs)
    decreases |lines|
  {
    hide NonNegative, PlausibleLine, ParseLine;
    if lines != [] {
      PlausibleStep(p, lines[0]);
      PlausibleRuns(ParseLine(p, lines[0]).value, lines[1..]);
    }
  }

  /** Whatever the log was, appending these lines removes no failure of the commit. */
  ghost predicate NeverClears(more: seq<Line>, flavor: string, commit: string) {
    forall lines: seq<Line>, n: nat, tolerance: real ::
      Plausible(lines) && Parse(lines).Ok? && Parse(lines + more).Ok? && n >= 1 && 0.0 < tolerance < 1.0 ==>
        StillFails(lines, lines + more, flavor, commit, n, tolerance)
  }

  /** The lines parse behind a header, so they do not collide among themselves. */
  predicate ParsesBehindHeader(more: seq<Line>) {
    Parse([Header("c", "t", "f")] + more).Ok?
  }

  /**
   * Lines that add no gated metric to an open run never clear a failure of the commit, on any log, exactly when they
   * neither reset the flavor nor start a run of that commit for it.
   */
  lemma NeverClearsIff(more: seq<Line>, flavor: string, commit: string)
    requires commit != "" && Plausible(more) && ParsesBehindHeader(more) && LeadUngated(more)
    ensures NeverClears(more, flavor, commit) <==> HarmlessLines(more, flavor, commit)
  {
    hide NeverClears, LeadUngated, HarmlessLines, Plausible, ParsesBehindHeader;
    if HarmlessLines(more, flavor, commit) {
      HarmlessNeverClears(more, flavor, commit);
    } else {
      HarmfulClears(more, flavor, commit);
    }
  }

  /**
   * Lines of any kind never clear a failure of the commit while they are appended one by one, on any log, exactly when
   * they neither reset the flavor, nor start a run of that commit for it, nor add a gated metric to an open run.
   */
  lemma NeverClearsWhileAppendedIff(more: seq<Line>, flavor: string, commit: string)
    requires commit != "" && Plausible(more) && ParsesBehindHeader(more)
    ensures (forall i :: 0 <= i <= |more| ==> NeverClears(more[..i], flavor, commit)) <==>
            HarmlessLines(more, flavor, commit) && LeadUngated(more)
  {
    hide NeverClears, LeadUngated, ParsesBehindHeader, HarmlessLine, PlausibleLine;
    assert more[..|more|] == more;
    if !HarmlessLines(more, flavor, commit) {
      HarmfulClears(more, flavor, commit);
    } else if LeadUngated(more) {
      forall i | 0 <= i <= |more| ensures NeverClears(more[..i], flavor, commit) {
        LeadPrefix(more, i);
        HarmlessNeverClears(more[..i], flavor, commit);
      }
    } else {
      var i := GatedLeadClears(more, flavor, commit);
    }
  }

  lemma {:induction false} LeadPrefix(more: seq<Line>, i: nat)
    requires i <= |more| && LeadUngated(more)
    ensures LeadUngated(more[..i])
  {
    hide Ungated;
    if i > 0 && !more[0].Header? && !more[0].Reset? {
      LeadPrefix(more[1..], i - 1);
      assert more[..i][1..] == more[1..][..i - 1];
    }
  }

  lemma HarmlessNeverClears(more: seq<Line>, flavor: string, commit: string)
    requires commit != "" && Plausible(more) && LeadUngated(more) && HarmlessLines(more, flavor, commit)
    ensures NeverClears(more, flavor, commit)
  {
    hide StillFails, LeadUngated, HarmlessLines, PlausibleLine, ParseLines;
    forall lines: seq<Line>, n: nat, tolerance: real
      | Plausible(lines) && Parse(lines).Ok? && Parse(lines + more).Ok? && n >= 1 && 0.0 < tolerance < 1.0
      ensures StillFails(lines, lines + more, flavor, commit, n, tolerance)
    {
      assert Plausible(lines + more);
      PlausibleRuns(START, lines + more);
      AppendingNeverClears(lines, more, flavor, commit, n, tolerance);
    }
  }

  // ----- A log with a failure --------------------------------------------------------------------

  function Measured(key: Key, value: real): Line {
    Stats(key.size, [(key.name, value)])
  }

  /**
   * A run of another commit with the best value, one of the checked commit with a worse value, and one not measured
   * yet.
   */
  function FailingLog(flavor: string, commit: string, key: Key, best: real, value: real): seq<Line> {
    [Header(commit + "'", "t0", flavor), Measured(key, best), Header(commit, "t1", flavor), Measured(key, value),
     Header(commit, "t2", flavor)]
  }

  function Best(flavor: string, commit: string, key: Key, best: real): Run {
    Run(commit + "'", "t0", flavor, map[key := best])
  }

  function Checked(flavor: string, commit: string, key: Key, value: real): Run {
    Run(commit, "t1", flavor, map[key := value])
  }

  function Unmeasured(flavor: string, commit: string): Run {
    Run(commit, "t2", flavor, map[])
  }

  function FailingParse(flavor: string, commit: string, key: Key, best: real, value: real): Parsed {
    Parsed([Best(flavor, commit, key, best), Checked(flavor, commit, key, value)],
           Some(Unmeasured(flavor, commit)), map[])
  }

  lemma MeasuredAdds(p: Parsed, key: Key, value: real)
    requires p.current.Some? && p.current.value.metrics == map[] && KnownMetric(key.name)
    ensures ParseLine(p, Measured(key, value)) ==
            Ok(p.(current := Some(p.current.value.(metrics := map[key := value]))))
  {
    var fields: seq<(string, real)> := [(key.name, value)];
    assert fields[1..] == [];
    assert AddFields(map[key := value], key.size, fields[1..]) == Some(map[key := value]);
  }

  lemma RunLogged(p: Parsed, run: Run, key: Key, value: real)
    requires KnownMetric(key.name) && run.metrics == map[key := value]
    ensures ParseLines(p, [Header(run.commit, run.timestamp, run.flavor), Measured(key, value)]) ==
            Ok(CloseRun(p).(current := Some(run)))
  {
    var header, line := Header(run.commit, run.timestamp, run.flavor), Measured(key, value);
    var p' := CloseRun(p).(current := Some(run.(metrics := map[])));
    LineEffect(p, header);
    MeasuredAdds(p', key, value);
    hide ParseLine, Measured, KnownMetric;
    assert [header, line][1..] == [line] && [line][1..] == [];
    assert ParseLines(p', [line]) == ParseLines(CloseRun(p).(current := Some(run)), []);
  }

  lemma HeaderLogged(p: Parsed, commit: string, flavor: string)
    ensures ParseLines(p, [Header(commit, "t2", flavor)]) ==
            Ok(CloseRun(p).(current := Some(Unmeasured(flavor, commit))))
  {
    var header := Header(commit, "t2", flavor);
    LineEffect(p, header);
    hide ParseLine;
    assert [header][1..] == [];
    assert ParseLines(ParseLine(p, header).value, []) == ParseLine(p, header);
  }

  lemma FailingLogParses(flavor: string, commit: string, key: Key, best: real, value: real)
    requires KnownMetric(key.name)
    ensures ParseLines(START, FailingLog(flavor, commit, key, best, value)) ==
            Ok(FailingParse(flavor, commit, key, best, value))
  {
    var base, first := Best(flavor, commit, key, best), Checked(flavor, commit, key, value);
    var a := [Header(base.commit, "t0", flavor), Measured(key, best)];
    var b := [Header(commit, "t1", flavor), Measured(key, value)];
    var c := [Header(commit, "t2", flavor)];
    var none: seq<Run> := [];
    hide ParseLines, KnownMetric, Measured;
    assert none + [base] == [base] && [base] + [first] == [base, first];
    RunLogged(START, base, key, best);
    RunLogged(CloseRun(START).(current := Some(base)), first, key, value);
    HeaderLogged(Parsed([base], Some(first), map[]), commit, flavor);
    ParseConcat(START, a, b + c);
    ParseConcat(Parsed([], Some(base), map[]), b, c);
    assert a + (b + c) == FailingLog(flavor, commit, key, best, value);
  }

  /** A run of another commit, then two of the checked one. */
  lemma SelectThree(flavor: string, commit: string, a: Run, b: Run, c: Run)
    requires a.flavor == b.flavor == c.flavor == flavor && a.commit != commit && b.commit == c.commit == commit != ""
    ensures OfFlavor([a, b, c], flavor) == [a, b, c] && Window([a, b, c], commit, 2) == [b, c]
    ensures History([a, b, c], [b, c]) == [a]
  {
    var runs, window := [a, b, c], [b, c];
    assert runs[1..] == window && window[1..] == [c] && [c][1..] == [];
    assert [b] + [c] == window && [a] + window == runs && [] + window == window;
    assert OfFlavor([c], flavor) == [c];
    assert OfFlavor(window, flavor) == window;
    assert OfCommit([c], commit) == [c];
    assert OfCommit(window, commit) == [b] + OfCommit(window[1..], commit) == window;
    assert OfCommit(runs, commit) == [] + OfCommit(runs[1..], commit) == window;
    WindowMembers(a, b, c);
    hide InWindow;
    assert History([c], window) == [] + History([c][1..], window) == [];
    assert History(window, window) == [] + History(window[1..], window) == [];
    assert History(runs, window) == [a] + History(runs[1..], window) == [a];
  }

  lemma WindowMembers(a: Run, b: Run, c: Run)
    requires a.commit != b.commit == c.commit
    ensures !InWindow(a, [b, c]) && InWindow(b, [b, c]) && InWindow(c, [b, c])
  {
    var window := [b, c];
    assert window[0].Id() == b.Id() && window[1].Id() == c.Id();
    assert a.Id().0 == a.commit && b.Id().0 == b.commit && c.Id().0 == c.commit;
  }

  lemma ValuesOfTwo(a: Run, b: Run, key: Key)
    ensures Values([a], key) == if key in a.metrics then [a.metrics[key]] else []
    ensures Values([a, b], key) == Values([a], key) + if key in b.metrics then [b.metrics[key]] else []
  {
    assert [a, b][..1] == [a] && [a][..0] == [];
  }

  lemma BestOfTwo(a: Run, b: Run, key: Key)
    requires Gated(key.name) && key in a.metrics && (key in b.metrics ==> b.metrics[key] < a.metrics[key])
    ensures BestSoFar([a], key) == Some(a.metrics[key])
    ensures BestSoFar([a, b], key) == Some(if key in b.metrics then b.metrics[key] else a.metrics[key])
    ensures key in KeysOf([a, b])
  {
    ValuesOfTwo(a, b, key);
    GatedIsLower(key);
    hide Gated, HigherBetter;
    if key in b.metrics {
      assert [a.metrics[key], b.metrics[key]][..1] == [a.metrics[key]];
    }
    BestHasKey([a, b], key);
  }

  lemma GatedIsLower(key: Key)
    requires Gated(key.name)
    ensures KnownMetric(key.name) && !HigherBetter(key.name)
  {
  }

  /**
   * The gate on the best run and two of the checked commit: the metric fails unless the second has the best value too.
   */
  lemma ThreeRuns(flavor: string, commit: string, key: Key, best: real, value: real, last: Run, p: Parsed)
    requires commit != "" && Gated(key.name) && best >= 0.0 && value == 2.0 * best + 100.0
    requires last.commit == commit && last.flavor == flavor && (key in last.metrics ==> last.metrics[key] == best)
    requires p == Parsed([Best(flavor, commit, key, best), Checked(flavor, commit, key, value), last], None, map[])
    ensures key in GateFailures(p, flavor, commit, 2, 0.5) <==> key !in last.metrics
  {
    var base, first := Best(flavor, commit, key, best), Checked(flavor, commit, key, value);
    hide OfFlavor, Window, History, WindowFailures, Gated;
    assert |base.commit| != |commit|;
    SelectThree(flavor, commit, base, first, last);
    assert p.runs[0..] == p.runs == [base, first, last];
    AgainstBest(base, first, last, key);
  }

  lemma AgainstBest(base: Run, first: Run, last: Run, key: Key)
    requires Gated(key.name) && key in base.metrics && key in first.metrics && base.metrics[key] >= 0.0
    requires first.metrics[key] == 2.0 * base.metrics[key] + 100.0
    requires key in last.metrics ==> last.metrics[key] == base.metrics[key]
    ensures key in WindowFailures([first, last], [base], 0.5) <==> key !in last.metrics
  {
    hide BestSoFar, KeysOf, Gated, HigherBetter, Fails;
    BestOfTwo(first, last, key);
    BestOfTwo(base, base.(metrics := map[]), key);
    GatedIsLower(key);
    Judged(base.metrics[key]);
  }

  lemma Judged(best: real)
    requires best >= 0.0
    ensures Fails(2.0 * best + 100.0, Some(best), false, 0.5) && !Fails(best, Some(best), false, 0.5)
  {
  }

  /** The metric fails on the failing log. */
  lemma FailingLogFails(flavor: string, commit: string, key: Key, best: real) returns (lines: seq<Line>, p: Parsed)
    requires commit != "" && Gated(key.name) && best >= 0.0
    ensures p == FailingParse(flavor, commit, key, best, 2.0 * best + 100.0) && ParseLines(START, lines) == Ok(p)
    ensures Plausible(lines) && Parse(lines) == Ok(CloseRun(p)) && ResetIndex(CloseRun(p), flavor) == 0
    ensures key in GateFailures(CloseRun(p), flavor, commit, 2, 0.5)
  {
    var value := 2.0 * best + 100.0;
    lines, p := FailingLog(flavor, commit, key, best, value), FailingParse(flavor, commit, key, best, value);
    hide ParseLines, GateFailures, Gated, KnownMetric, HigherBetter;
    GatedIsLower(key);
    FailingLogParses(flavor, commit, key, best, value);
    var last := Unmeasured(flavor, commit);
    var closed := CloseRun(p);
    assert closed.runs == [Best(flavor, commit, key, best), Checked(flavor, commit, key, value), last];
    ThreeRuns(flavor, commit, key, best, value, last, closed);
  }

  // ----- Appended lines parse on any open run ------------------------------------------------------

  /** Whether lines parse depends only on the metrics of the open run. */
  ghost predicate SameOpenMetrics(p: Parsed, q: Parsed) {
    (p.current.Some? <==> q.current.Some?) && (p.current.Some? ==> p.current.value.metrics == q.current.value.metrics)
  }

  lemma {:induction false} ParsesAlike(p: Parsed, q: Parsed, lines: seq<Line>)
    requires SameOpenMetrics(p, q)
    ensures ParseLines(p, lines).Ok? <==> ParseLines(q, lines).Ok?
    decreases |lines|
  {
    if lines != [] {
      LineEffect(p, lines[0]);
      LineEffect(q, lines[0]);
      hide ParseLine, AddFields;
      if ParseLine(p, lines[0]).Ok? {
        ParsesAlike(ParseLine(p, lines[0]).value, ParseLine(q, lines[0]).value, lines[1..]);
      }
    }
  }

  lemma ParsesOnOpenRun(more: seq<Line>, p: Parsed)
    requires ParsesBehindHeader(more) && p.current.Some? && p.current.value.metrics == map[]
    ensures ParseLines(p, more).Ok?
  {
    var header := Header("c", "t", "f");
    assert ([header] + more)[1..] == more;
    LineEffect(START, header);
    ParsesAlike(p, ParseLine(START, header).value, more);
  }

  lemma {:induction false} PrefixParses(p: Parsed, lines: seq<Line>, i: nat)
    requires i <= |lines| && ParseLines(p, lines).Ok?
    ensures ParseLines(p, lines[..i]).Ok?
    decreases |lines|
  {
    hide ParseLine;
    if i > 0 {
      PrefixParses(ParseLine(p, lines[0]).value, lines[1..], i - 1);
      assert lines[..i][1..] == lines[1..][..i - 1];
    }
  }

  // ----- A gated metric for an open run can clear a failure ------------------------------------------

  /** Statistics and other lines only enrich the open run. */
  lemma {:induction false} LeadEnriches(p: Parsed, lines: seq<Line>)
    requires p.current.Some? && ParseLines(p, lines).Ok?
    requires forall i :: 0 <= i < |lines| ==> !lines[i].Header? && !lines[i].Reset?
    ensures var q := ParseLines(p, lines).value;
            && q.runs == p.runs && q.resetAfter == p.resetAfter && q.current.Some?
            && q.current.value == p.current.value.(metrics := q.current.value.metrics)
            && forall key :: key in p.current.value.metrics ==>
                 key in q.current.value.metrics && q.current.value.metrics[key] == p.current.value.metrics[key]
    decreases |lines|
  {
    if lines != [] {
      LineEffect(p, lines[0]);
      if lines[0].Stats? {
        FieldsAreRecorded(p.current.value.metrics, lines[0].size, lines[0].fields);
      }
      hide ParseLine, AddFields, NoCollision, KnownMetric;
      LeadEnriches(ParseLine(p, lines[0]).value, lines[1..]);
    }
  }

  /** What the last of such lines measured is in the run. */
  lemma LastIsRecorded(p: Parsed, lines: seq<Line>, j: nat)
    requires p.current.Some? && ParseLines(p, lines).Ok? && lines != []
    requires forall i :: 0 <= i < |lines| ==> !lines[i].Header? && !lines[i].Reset?
    requires var line := lines[|lines| - 1];
             line.Stats? && j < |line.fields| && KnownMetric(line.fields[j].0)
    ensures ParseLines(p, lines).value.current.Some?
    ensures var line, metrics := lines[|lines| - 1], ParseLines(p, lines).value.current.value.metrics;
            var key := Key(line.size, line.fields[j].0);
            key in metrics && metrics[key] == line.fields[j].1
  {
    var n := |lines| - 1;
    var line := lines[n];
    PrefixParses(p, lines, n);
    ParseConcat(p, lines[..n], [line]);
    assert lines[..n] + [line] == lines;
    LeadEnriches(p, lines[..n]);
    var q := ParseLines(p, lines[..n]).value;
    assert [line][1..] == [];
    LineEffect(q, line);
    FieldsAreRecorded(q.current.value.metrics, line.size, line.fields);
    hide ParseLine, AddFields, NoCollision, KnownMetric;
  }

  lemma {:induction false} FirstGated(more: seq<Line>) returns (i: nat, j: nat)
    requires !LeadUngated(more)
    ensures i < |more| && more[i].Stats? && j < |more[i].fields| && Gated(more[i].fields[j].0)
    ensures forall k :: 0 <= k <= i ==> !more[k].Header? && !more[k].Reset?
  {
    hide Gated;
    if Ungated(more[0]) {
      i, j := FirstGated(more[1..]);
      i := i + 1;
    } else {
      i := 0;
      j :| 0 <= j < |more[0].fields| && Gated(more[0].fields[j].0);
    }
  }

  /** Up to the first gated metric: a log on which it becomes the best of the window, and as good as the standard. */
  lemma LeadClears(more: seq<Line>, flavor: string, commit: string, j: nat) returns (lines: seq<Line>)
    requires commit != "" && Plausible(more) && ParsesBehindHeader(more) && more != []
    requires forall i :: 0 <= i < |more| ==> !more[i].Header? && !more[i].Reset?
    requires var line := more[|more| - 1];
             line.Stats? && j < |line.fields| && Gated(line.fields[j].0)
    ensures Plausible(lines) && Parse(lines).Ok? && Parse(lines + more).Ok?
    ensures ResetIndex(Parse(lines).value, flavor) <= |Parse(lines).value.runs|
    ensures ResetIndex(Parse(lines + more).value, flavor) <= |Parse(lines + more).value.runs|
    ensures var line := more[|more| - 1];
            var key := Key(line.size, line.fields[j].0);
            && key in GateFailures(Parse(lines).value, flavor, commit, 2, 0.5)
            && key !in GateFailures(Parse(lines + more).value, flavor, commit, 2, 0.5)
  {
    hide ParseLines, GateFailures, Gated, KnownMetric, Plausible, PlausibleLine, ParsesBehindHeader;
    var line := more[|more| - 1];
    var key, best := Key(line.size, line.fields[j].0), line.fields[j].1;
    LastIsPlausible(more, j);
    var p;
    lines, p := FailingLogFails(flavor, commit, key, best);
    GatedIsLower(key);
    var last := OpenRunMeasured(p, more, j);
    ParseConcat(START, lines, more);
    var closed := CloseRun(p.(current := Some(last)));
    assert closed.runs == [p.runs[0], p.runs[1], last];
    ThreeRuns(flavor, commit, key, best, 2.0 * best + 100.0, last, closed);
  }

  lemma LastIsPlausible(more: seq<Line>, j: nat)
    requires Plausible(more) && more != []
    requires var line := more[|more| - 1]; line.Stats? && j < |line.fields|
    ensures more[|more| - 1].fields[j].1 >= 0.0
  {
    assert PlausibleLine(more[|more| - 1]);
  }

  lemma OpenRunMeasured(p: Parsed, more: seq<Line>, j: nat) returns (last: Run)
    requires ParsesBehindHeader(more) && more != [] && p.current.Some? && p.current.value.metrics == map[]
    requires forall i :: 0 <= i < |more| ==> !more[i].Header? && !more[i].Reset?
    requires var line := more[|more| - 1];
             line.Stats? && j < |line.fields| && KnownMetric(line.fields[j].0)
    ensures ParseLines(p, more) == Ok(p.(current := Some(last)))
    ensures last.commit == p.current.value.commit && last.flavor == p.current.value.flavor
    ensures var line := more[|more| - 1];
            var key := Key(line.size, line.fields[j].0);
            key in last.metrics && last.metrics[key] == line.fields[j].1
  {
    hide KnownMetric, ParsesBehindHeader;
    ParsesOnOpenRun(more, p);
    LeadEnriches(p, more);
    LastIsRecorded(p, more, j);
    hide ParseLines;
    last := ParseLines(p, more).value.current.value;
  }

  lemma GatedLeadClears(more: seq<Line>, flavor: string, commit: string) returns (i: nat)
    requires commit != "" && Plausible(more) && ParsesBehindHeader(more) && !LeadUngated(more)
    ensures i <= |more| && !NeverClears(more[..i], flavor, commit)
  {
    hide GateFailures, Gated, PlausibleLine;
    var k, j := FirstGated(more);
    i := k + 1;
    assert ([Header("c", "t", "f")] + more)[..i + 1] == [Header("c", "t", "f")] + more[..i];
    PrefixParses(START, [Header("c", "t", "f")] + more, i + 1);
    hide ParseLines;
    var lines := LeadClears(more[..i], flavor, commit, j);
    assert !StillFails(lines, lines + more[..i], flavor, commit, 2, 0.5);
  }

  /** A concrete case: the log ends in a run of the checked commit, and what is measured next is the best itself. */
  lemma ContinuedRunClears() returns (lines: seq<Line>, more: seq<Line>, key: Key)
    ensures Parse(lines).Ok? && Parse(lines + more).Ok? && HarmlessLines(more, "f", "c")
    ensures ResetIndex(Parse(lines).value, "f") <= |Parse(lines).value.runs|
    ensures ResetIndex(Parse(lines + more).value, "f") <= |Parse(lines + more).value.runs|
    ensures key in GateFailures(Parse(lines).value, "f", "c", 2, 0.5)
    ensures key !in GateFailures(Parse(lines + more).value, "f", "c", 2, 0.5)
  {
    key := Key(64, "recv_ns");
    var line := Measured(key, 10.0);
    more := [line];
    var header := Header("c", "t", "f");
    LineEffect(START, header);
    var p := ParseLine(START, header).value;
    MeasuredAdds(p, key, 10.0);
    assert ([header] + more)[1..] == more && more[1..] == [];
    assert ParseLines(p, more).Ok?;
    hide GateFailures, ParseLine;
    lines := LeadClears(more, "f", "c", 0);
  }

  // ----- A reset or a new run of the commit can clear a failure ----------------------------------------

  /** A burst size that the lines do not speak of. */
  function FreshSize(lines: seq<Line>): (size: nat)
    ensures forall i :: 0 <= i < |lines| && lines[i].Stats? ==> lines[i].size < size
  {
    if lines == [] then 0
    else
      var rest, line := FreshSize(lines[1..]), lines[0];
      if line.Stats? && line.size >= rest then line.size + 1 else rest
  }

  /**
   * From the third run on, all lack the metric; the third is of the checked commit, and no reset points before the
   * fourth.
   */
  ghost predicate Lacks(p: Parsed, key: Key, flavor: string, commit: string) {
    var runs := CloseRun(p).runs;
    && |runs| >= 3 && |p.runs| >= 2 && !Foreign(runs[2], flavor, commit)
    && (forall i :: 2 <= i < |runs| ==> key !in runs[i].metrics)
    && (flavor in p.resetAfter ==> p.resetAfter[flavor] >= 3)
  }

  /** There was a reset, or another run of the checked commit. */
  ghost predicate Moved(p: Parsed, flavor: string, commit: string) {
    flavor in p.resetAfter || exists i :: 3 <= i < |CloseRun(p).runs| && !Foreign(CloseRun(p).runs[i], flavor, commit)
  }

  lemma LineMoves(p: Parsed, line: Line, key: Key, flavor: string, commit: string)
    requires Lacks(p, key, flavor, commit) && ParseLine(p, line).Ok? && (line.Stats? ==> line.size != key.size)
    ensures Lacks(ParseLine(p, line).value, key, flavor, commit)
    ensures Moved(p, flavor, commit) || !HarmlessLine(line, flavor, commit) ==>
            Moved(ParseLine(p, line).value, flavor, commit)
  {
    LineEffect(p, line);
    var q := ParseLine(p, line).value;
    var before, after := CloseRun(p).runs, CloseRun(q).runs;
    if line.Stats? && p.current.Some? {
      var run, run' := p.current.value, q.current.value;
      FieldsAreRecorded(run.metrics, line.size, line.fields);
      hide ParseLine, AddFields, NoCollision, KnownMetric;
      assert forall i :: 0 <= i < |p.runs| ==> after[i] == before[i];
      assert before[|p.runs|] == run && after[|p.runs|] == run';
    } else {
      hide ParseLine, AddFields;
      assert forall i :: 0 <= i < |before| ==> after[i] == before[i];
      if line.Header? {
        assert after == before + [Run(line.commit, line.timestamp, line.flavor, map[])];
      }
    }
    forall i | 0 <= i < |before| ensures after[i].flavor == before[i].flavor && after[i].commit == before[i].commit {
    }
    if line.Header? && !HarmlessLine(line, flavor, commit) {
      assert !Foreign(after[|before|], flavor, commit);
    }
    if i :| 3 <= i < |before| && !Foreign(before[i], flavor, commit) {
      assert !Foreign(after[i], flavor, commit);
    }
  }

  lemma {:induction false} LinesMove(p: Parsed, lines: seq<Line>, key: Key, flavor: string, commit: string)
    requires Lacks(p, key, flavor, commit) && ParseLines(p, lines).Ok?
    requires forall i :: 0 <= i < |lines| && lines[i].Stats? ==> lines[i].size != key.size
    ensures Lacks(ParseLines(p, lines).value, key, flavor, commit)
    ensures Moved(p, flavor, commit) || !HarmlessLines(lines, flavor, commit) ==>
            Moved(ParseLines(p, lines).value, flavor, commit)
    decreases |lines|
  {
    hide ParseLine, Lacks, Moved, HarmlessLine;
    if lines != [] {
      LineMoves(p, lines[0], key, flavor, commit);
      LinesMove(ParseLine(p, lines[0]).value, lines[1..], key, flavor, commit);
      if HarmlessLine(lines[0], flavor, commit) && HarmlessLines(lines[1..], flavor, commit) {
        forall i | 0 <= i < |lines| ensures HarmlessLine(lines[i], flavor, commit) {
          assert i > 0 ==> lines[i] == lines[1..][i - 1];
        }
      }
    }
  }

  /** The runs that a window is taken from. */
  function Selected(runs: seq<Run>, flavor: string, commit: string): seq<Run> {
    OfCommit(OfFlavor(runs, flavor), commit)
  }

  lemma SelectedMembers(runs: seq<Run>, flavor: string, commit: string)
    ensures forall r :: r in Selected(runs, flavor, commit) <==> r in runs && !Foreign(r, flavor, commit)
  {
    FlavorMembers(runs, flavor);
    OfCommitMembers(OfFlavor(runs, flavor), commit);
  }

  lemma {:induction false} SelectedConcat(a: seq<Run>, b: seq<Run>, flavor: string, commit: string)
    ensures Selected(a + b, flavor, commit) == Selected(a, flavor, commit) + Selected(b, flavor, commit)
  {
    if a == [] {
      assert a + b == b;
    } else {
      hide Selected, Foreign;
      SelectedConcat(a[1..], b, flavor, commit);
      SelectedCons(a[0], a[1..], flavor, commit);
      SelectedCons(a[0], a[1..] + b, flavor, commit);
      assert [a[0]] + a[1..] == a && [a[0]] + (a[1..] + b) == a + b;
      var head := if Foreign(a[0], flavor, commit) then [] else [a[0]];
      ConcatAssoc(head, Selected(a[1..], flavor, commit), Selected(b, flavor, commit));
    }
  }

  lemma SelectedCons(r: Run, runs: seq<Run>, flavor: string, commit: string)
    ensures Selected([r] + runs, flavor, commit) ==
            (if Foreign(r, flavor, commit) then [] else [r]) + Selected(runs, flavor, commit)
  {
    assert ([r] + runs)[1..] == runs;
    var rest := OfFlavor(runs, flavor);
    assert ([r] + rest)[1..] == rest;
    assert [] + rest == rest;
  }

  /** Then the window of two holds no run with the metric. */
  lemma WindowLacks(p: Parsed, key: Key, flavor: string, commit: string)
    requires p.current.None? && Lacks(p, key, flavor, commit) && Moved(p, flavor, commit) && commit != ""
    requires ResetIndex(p, flavor) <= |p.runs|
    ensures forall r :: r in Window(SameFlavor(p, flavor), commit, 2) ==> key !in r.metrics
  {
    hide Foreign, OfFlavor, OfCommit;
    if flavor in p.resetAfter {
      SelectedFrom(p.runs, ResetIndex(p, flavor), key, flavor, commit);
    } else {
      assert p.runs[0..] == p.runs;
      LastTwoLack(p.runs, key, flavor, commit);
    }
  }

  lemma SelectedFrom(runs: seq<Run>, index: nat, key: Key, flavor: string, commit: string)
    requires index <= |runs| && forall i :: index <= i < |runs| ==> key !in runs[i].metrics
    ensures forall r :: r in Selected(runs[index..], flavor, commit) ==> key !in r.metrics
  {
    SelectedMembers(runs[index..], flavor, commit);
    hide Selected;
    forall r | r in Selected(runs[index..], flavor, commit) ensures key !in r.metrics {
      var i :| 0 <= i < |runs[index..]| && runs[index..][i] == r;
      assert runs[index + i] == r;
    }
  }

  lemma LastTwoLack(runs: seq<Run>, key: Key, flavor: string, commit: string)
    requires |runs| >= 3 && !Foreign(runs[2], flavor, commit)
    requires forall i :: 2 <= i < |runs| ==> key !in runs[i].metrics
    requires exists i :: 3 <= i < |runs| && !Foreign(runs[i], flavor, commit)
    ensures forall r :: r in LastN(Selected(runs, flavor, commit), 2) ==> key !in r.metrics
  {
    hide Selected, Foreign;
    var early, late := Selected(runs[..2], flavor, commit), Selected(runs[2..], flavor, commit);
    assert runs == runs[..2] + runs[2..] && runs[2..] == [runs[2]] + runs[3..];
    SelectedConcat(runs[..2], runs[2..], flavor, commit);
    SelectedCons(runs[2], runs[3..], flavor, commit);
    SelectedMembers(runs[3..], flavor, commit);
    var i :| 3 <= i < |runs| && !Foreign(runs[i], flavor, commit);
    assert runs[3..][i - 3] == runs[i];
    assert runs[i] in Selected(runs[3..], flavor, commit);
    SelectedFrom(runs, 2, key, flavor, commit);
    LastOfLate(early, late);
  }

  lemma LastOfLate(early: seq<Run>, late: seq<Run>)
    requires |late| >= 2
    ensures forall r :: r in LastN(early + late, 2) ==> r in late
  {
  }

  lemma NoValueNoFailure(window: seq<Run>, history: seq<Run>, tolerance: real, key: Key)
    requires forall r :: r in window ==> key !in r.metrics
    ensures key !in WindowFailures(window, history, tolerance)
  {
    NoValues(window, key);
    hide HigherBetter, Gated, Fails;
  }

  lemma {:induction false} NoValues(runs: seq<Run>, key: Key)
    requires forall r :: r in runs ==> key !in r.metrics
    ensures Values(runs, key) == []
  {
    if runs != [] {
      assert runs[|runs| - 1] in runs;
      NoValues(runs[..|runs| - 1], key);
    }
  }

  /** A metric that the lines do not measure fails before them, and is not even in the window behind them. */
  lemma HarmfulClears(more: seq<Line>, flavor: string, commit: string)
    requires commit != "" && ParsesBehindHeader(more) && !HarmlessLines(more, flavor, commit)
    ensures !NeverClears(more, flavor, commit)
  {
    var key := Key(FreshSize(more), "recv_ns");
    var lines, p := FailingLogFails(flavor, commit, key, 10.0);
    ParsesOnOpenRun(more, p);
    ParseConcat(START, lines, more);
    assert Lacks(p, key, flavor, commit);
    LinesMove(p, more, key, flavor, commit);
    ParsedIndices(lines + more);
    var q := ParseLines(p, more).value;
    hide ParseLines, Plausible, HarmlessLines;
    var closed := CloseRun(q);
    assert Lacks(closed, key, flavor, commit) && Moved(closed, flavor, commit);
    hide Lacks, Moved;
    WindowLacks(closed, key, flavor, commit);
    var window := Window(SameFlavor(closed, flavor), commit, 2);
    NoValueNoFailure(window, History(SameFlavor(closed, flavor), window), 0.5, key);
    hide WindowFailures, SameFlavor, Window;
    assert !StillFails(lines, lines + more, flavor, commit, 2, 0.5);
  }
}
