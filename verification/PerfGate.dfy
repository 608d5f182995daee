/**
 * The performance gate as a whole, from the log to its failures, and what appending to the log does to them: for a
 * checked commit, a failure once reported stays.
 */
module PerfGate {
  import opened Bytes
  import opened PerfRatchet

  // ----- The gate -----------------------------------------------------------------------

  function KeysOf(runs: seq<Run>): (keys: set<Key>)
    ensures forall i, key :: 0 <= i < |runs| && key in runs[i].metrics ==> key in keys
  {
    if runs == [] then {} else KeysOf(runs[..|runs| - 1]) + runs[|runs| - 1].metrics.Keys
  }

  /** The gated metrics whose best over the window fails against the best of the history. */
  function WindowFailures(window: seq<Run>, history: seq<Run>, tolerance: real): set<Key> {
    set key | key in KeysOf(window) && BestSoFar(window, key).Some? && Gated(key.name)
              && Fails(BestSoFar(window, key).value, BestSoFar(history, key), HigherBetter(key.name), tolerance)
  }

  /** What the gate reports for a parsed log; an empty commit asks for the latest runs. */
  function GateFailures(p: Parsed, flavor: string, commit: string, n: nat, tolerance: real): set<Key>
    requires ResetIndex(p, flavor) <= |p.runs|
  {
    var runs := SameFlavor(p, flavor);
    var window := Window(runs, commit, n);
    WindowFailures(window, History(runs, window), tolerance)
  }

  lemma AggregateFailures(current: map<Key, real>, window: seq<Run>, history: seq<Run>, tolerance: real)
    requires forall key :: Lookup(current, key) == BestSoFar(window, key)
    ensures Failures(current, history, tolerance) == WindowFailures(window, history, tolerance)
  {
    hide BestSoFar, HigherBetter, Fails, Gated;
    forall key ensures key in current <==> key in KeysOf(window) && BestSoFar(window, key).Some? {
      assert Lookup(current, key) == BestSoFar(window, key);
      if key in current {
        BestHasKey(window, key);
      }
    }
    forall key | key in current ensures current[key] == BestSoFar(window, key).value {
      assert Lookup(current, key) == BestSoFar(window, key);
    }
  }

  lemma BestHasKey(runs: seq<Run>, key: Key)
    requires BestSoFar(runs, key).Some?
    ensures key in KeysOf(runs)
  {
    ValuesComeFromRuns(runs, key);
    hide HigherBetter;
    assert BestSoFar(runs, key).value in Values(runs, key);
  }

  /** The keys that fail, of those in the aggregate. */
  method Judge(current: map<Key, real>, history: seq<Run>, tolerance: real) returns (failures: set<Key>)
    ensures failures == Failures(current, history, tolerance)
  {
    hide BestSoFar, HigherBetter, Gated, IsRegression, NewBest;
    failures := {};
    var todo := current.Keys;
    while todo != {}
      invariant todo <= current.Keys && failures <= current.Keys
      invariant forall key :: key in current && key !in todo ==>
                (key in failures <==> key in Failures(current, history, tolerance))
      invariant forall key :: key in failures ==> key !in todo
      decreases todo
    {
      var key :| key in todo;
      todo := todo - {key};
      var standard, higher := BestSoFar(history, key), HigherBetter(key.name);
      if standard.Some? && !NewBest(current[key], standard.value, higher)
         && IsRegression(current[key], standard.value, higher, tolerance) && Gated(key.name) {
        failures := failures + {key};
      }
    }
  }

  /**
   * What a failure means, said of the measurements alone: a gated metric was measured in the window, and some earlier
   * value is so good that every value of the window is above it by more than the tolerance.
   */
  ghost predicate Regressed(window: seq<Run>, history: seq<Run>, key: Key, tolerance: real) {
    && (key.name == "recv_ns" || key.name == "dispatch_ns" || key.name == "send_ns")
    && (exists c :: HasValue(window, key, c))
    && exists v :: HasValue(history, key, v) && forall c :: HasValue(window, key, c) ==> c > Above(v, tolerance)
  }

  function Above(v: real, tolerance: real): real {
    (1.0 + tolerance) * v
  }

  lemma FailsIsAbove(c: real, v: real, tolerance: real)
    requires v >= 0.0 && 0.0 < tolerance < 1.0
    ensures Fails(c, Some(v), false, tolerance) <==> c > Above(v, tolerance)
  {
    assert tolerance * v >= 0.0;
    assert Above(v, tolerance) == v + tolerance * v;
  }

  lemma AboveGrows(v: real, w: real, tolerance: real)
    requires v <= w && 0.0 < tolerance
    ensures Above(v, tolerance) <= Above(w, tolerance)
  {
    assert (1.0 + tolerance) * (w - v) >= 0.0;
  }

  /** The best value of a gated metric is its least. */
  lemma BestIsLeast(runs: seq<Run>, key: Key)
    requires !HigherBetter(key.name)
    ensures BestSoFar(runs, key).Some? <==> exists v :: HasValue(runs, key, v)
    ensures BestSoFar(runs, key).Some? ==>
              var best := BestSoFar(runs, key).value;
              HasValue(runs, key, best) && forall v :: HasValue(runs, key, v) ==> best <= v
  {
    ValuesComeFromRuns(runs, key);
    forall v ensures v in Values(runs, key) <==> HasValue(runs, key, v) {
    }
    hide HasValue, HigherBetter;
    if Values(runs, key) != [] {
      assert Values(runs, key)[0] in Values(runs, key);
    }
  }

  /** The failures are exactly the regressions. */
  lemma FailuresAreRegressions(window: seq<Run>, history: seq<Run>, tolerance: real, key: Key)
    requires NonNegative(history) && 0.0 < tolerance < 1.0
    ensures key in WindowFailures(window, history, tolerance) <==> Regressed(window, history, key, tolerance)
  {
    GatedNames(key);
    if Gated(key.name) {
      BestIsLeast(window, key);
      BestIsLeast(history, key);
      if BestSoFar(window, key).Some? && BestSoFar(history, key).Some? {
        var c, v := BestSoFar(window, key).value, BestSoFar(history, key).value;
        BestHasKey(window, key);
        StandardIsNonNegative(history, key);
        FailsIsAbove(c, v, tolerance);
        hide BestSoFar, HasValue, Fails, Gated, HigherBetter, Above;
        forall w | HasValue(history, key, w) ensures Above(v, tolerance) <= Above(w, tolerance) {
          AboveGrows(v, w, tolerance);
        }
      }
    }
  }

  lemma GatedNames(key: Key)
    ensures Gated(key.name) <==> key.name == "recv_ns" || key.name == "dispatch_ns" || key.name == "send_ns"
    ensures Gated(key.name) ==> !HigherBetter(key.name)
  {
  }

  lemma {:induction false} HistoryKeepsOthers(runs: seq<Run>, window: seq<Run>)
    ensures forall r :: r in History(runs, window) <==> r in runs && !InWindow(r, window)
  {
    hide InWindow;
    if runs != [] {
      HistoryKeepsOthers(runs[1..], window);
      assert forall r :: r in runs <==> r == runs[0] || r in runs[1..];
    }
  }

  /** The runs compared against are those of the flavor that are not, by commit and time, runs of the window. */
  lemma HistoryIs(runs: seq<Run>, window: seq<Run>, r: Run)
    ensures r in History(runs, window) <==>
            && r in runs
            && forall i :: 0 <= i < |window| ==> !(window[i].commit == r.commit && window[i].timestamp == r.timestamp)
  {
    HistoryKeepsOthers(runs, window);
    hide History;
  }

  /** The window is the last `n` of the runs asked for, or all when there are fewer. */
  lemma WindowIs(runs: seq<Run>, commit: string, n: nat)
    ensures var asked, window := if commit == "" then runs else OfCommit(runs, commit), Window(runs, commit, n);
            && |window| == Min(n, |asked|)
            && forall i :: 0 <= i < |window| ==> window[i] == asked[|asked| - |window| + i]
  {
    hide OfCommit, LastN;
    LastNIs(if commit == "" then runs else OfCommit(runs, commit), n);
  }

  lemma LastNIs(runs: seq<Run>, n: nat)
    ensures var last := LastN(runs, n);
            && |last| == Min(n, |runs|) && forall i :: 0 <= i < |last| ==> last[i] == runs[|runs| - |last| + i]
  {
  }

  /** main: the arguments, the log, the window, the history and the failures */
  method Gate(lines: seq<Line>, flavor: string, commit: string, n: int, tolerance: real) returns (r: Result<set<Key>>)
    ensures r.Ok? <==> 0.0 < tolerance < 1.0 && n >= 1 && Parse(lines).Ok?
    ensures r.Ok? ==> ResetIndex(Parse(lines).value, flavor) <= |Parse(lines).value.runs|
                      && r.value == GateFailures(Parse(lines).value, flavor, commit, n, tolerance)
    ensures r.Ok? && NonNegative(Parse(lines).value.runs) ==>
              var runs := SameFlavor(Parse(lines).value, flavor);
              var window := Window(runs, commit, n);
              forall key :: key in r.value <==> Regressed(window, History(runs, window), key, tolerance)
  {
    hide WindowFailures, Failures, BestSoFar, Regressed;
    if !(0.0 < tolerance < 1.0) {
      return Err("--tolerance must be in (0, 1)");
    }
    if n < 1 {
      return Err("--runs must be >= 1");
    }
    var log := ParseLog(lines);
    if log.Err? {
      return Err(log.error);
    }
    var (runs, resetAfter) := log.value;
    ParsedIndices(lines);
    var resetIndex := if flavor in resetAfter then resetAfter[flavor] else 0;
    assert resetIndex == ResetIndex(Parse(lines).value, flavor);
    var sameFlavor := OfFlavor(runs[resetIndex..], flavor);
    var window := Window(sameFlavor, commit, n);
    var history := History(sameFlavor, window);
    var current := AggregateBest(window);
    AggregateFailures(current, window, history, tolerance);
    var failures := Judge(current, history, tolerance);
    if NonNegative(runs) {
      FlavorMembers(runs[resetIndex..], flavor);
      HistoryMembers(sameFlavor, window);
      SomeNonNegative(runs, history);
      forall key ensures key in failures <==> Regressed(window, history, key, tolerance) {
        FailuresAreRegressions(window, history, tolerance, key);
      }
    }
    r := Ok(failures);
  }

  lemma ParsedIndices(lines: seq<Line>)
    requires Parse(lines).Ok?
    ensures forall flavor :: ResetIndex(Parse(lines).value, flavor) <= |Parse(lines).value.runs|
  {
    ParseKeepsIndices(START, lines);
  }

  // ----- Appending to the log -------------------------------------------------------------

  /** A run that is not one of the checked commit and flavor. */
  predicate Foreign(r: Run, flavor: string, commit: string) {
    r.flavor != flavor || r.commit != commit
  }

  /** A line that neither resets the flavor nor starts a run of the checked commit for it. */
  predicate HarmlessLine(line: Line, flavor: string, commit: string) {
    && (line.Reset? ==> line.flavor != flavor)
    && (line.Header? ==> line.flavor != flavor || line.commit != commit)
  }

  predicate HarmlessLines(more: seq<Line>, flavor: string, commit: string) {
    forall i :: 0 <= i < |more| ==> HarmlessLine(more[i], flavor, commit)
  }

  /** A line that adds no gated metric to a run. */
  predicate Ungated(line: Line) {
    line.Stats? ==> forall i :: 0 <= i < |line.fields| ==> !Gated(line.fields[i].0)
  }

  /** No gated metric before the first header or reset. */
  predicate LeadUngated(more: seq<Line>) {
    more != [] && !more[0].Header? && !more[0].Reset? ==> Ungated(more[0]) && LeadUngated(more[1..])
  }

  /** The lines add no gated metric to a run of the checked commit and flavor that the log ends in. */
  predicate LeavesCurrent(p: Parsed, more: seq<Line>, flavor: string, commit: string) {
    p.current.Some? && !Foreign(p.current.value, flavor, commit) ==> LeadUngated(more)
  }

  /** The same run, perhaps with further metrics; they are not gated ones when it is of the checked commit. */
  ghost predicate Richer(r: Run, r': Run, flavor: string, commit: string) {
    && r'.Id() == r.Id() && r'.flavor == r.flavor
    && (forall key :: key in r.metrics ==> key in r'.metrics && r'.metrics[key] == r.metrics[key])
    && (!Foreign(r, flavor, commit) ==> forall key :: key in r'.metrics && Gated(key.name) ==> key in r.metrics)
  }

  /** The runs of `a`, perhaps richer, and foreign ones behind them. */
  ghost predicate Grown(a: seq<Run>, b: seq<Run>, flavor: string, commit: string) {
    && |a| <= |b|
    && (forall i :: 0 <= i < |a| ==> Richer(a[i], b[i], flavor, commit))
    && (forall i :: |a| <= i < |b| ==> Foreign(b[i], flavor, commit))
  }

  lemma GrownSelf(a: seq<Run>, flavor: string, commit: string)
    ensures Grown(a, a, flavor, commit)
  {
  }

  lemma LineGrows(base: seq<Run>, q: Parsed, flavor: string, commit: string, line: Line, rest: seq<Line>)
    requires Grown(base, CloseRun(q).runs, flavor, commit) && ParseLine(q, line).Ok?
    requires HarmlessLine(line, flavor, commit) && LeavesCurrent(q, [line] + rest, flavor, commit)
    ensures Grown(base, CloseRun(ParseLine(q, line).value).runs, flavor, commit)
    ensures ResetIndex(ParseLine(q, line).value, flavor) == ResetIndex(q, flavor)
    ensures LeavesCurrent(ParseLine(q, line).value, rest, flavor, commit)
  {
    LineEffect(q, line);
    assert ([line] + rest)[1..] == rest;
    if line.Stats? && q.current.Some? {
      var run := q.current.value;
      var run' := ParseLine(q, line).value.current.value;
      RunEnriched(run, run', line, flavor, commit);
      hide ParseLine, AddFields, Gated;
      LastEnriched(base, q.runs, run, run', flavor, commit);
    } else {
      hide ParseLine, AddFields, Gated;
    }
  }

  lemma RunEnriched(run: Run, run': Run, line: Line, flavor: string, commit: string)
    requires line.Stats? && AddFields(run.metrics, line.size, line.fields) == Some(run'.metrics)
    requires run' == run.(metrics := run'.metrics) && (Foreign(run, flavor, commit) || Ungated(line))
    ensures Richer(run, run', flavor, commit)
  {
    FieldsAreRecorded(run.metrics, line.size, line.fields);
    hide AddFields, NoCollision, KnownMetric, Gated;
    if !Foreign(run, flavor, commit) {
      forall i, key | 0 <= i < |line.fields| && Recorded(line.size, line.fields, i, key) ensures !Gated(key.name) {
        assert key.name == line.fields[i].0;
      }
    }
  }

  lemma LastEnriched(base: seq<Run>, runs: seq<Run>, run: Run, run': Run, flavor: string, commit: string)
    requires Grown(base, runs + [run], flavor, commit) && Richer(run, run', flavor, commit)
    ensures Grown(base, runs + [run'], flavor, commit)
  {
    hide Gated;
    var before, after, k := runs + [run], runs + [run'], |runs|;
    forall i | 0 <= i < |base| ensures Richer(base[i], after[i], flavor, commit) {
      assert Richer(base[i], before[i], flavor, commit);
    }
    forall i | |base| <= i < |after| ensures Foreign(after[i], flavor, commit) {
      assert Foreign(before[i], flavor, commit);
    }
  }

  lemma {:induction false} LinesGrow(base: seq<Run>, q: Parsed, flavor: string, commit: string, more: seq<Line>)
    requires Grown(base, CloseRun(q).runs, flavor, commit) && ParseLines(q, more).Ok?
    requires HarmlessLines(more, flavor, commit) && LeavesCurrent(q, more, flavor, commit)
    ensures Grown(base, CloseRun(ParseLines(q, more).value).runs, flavor, commit)
    ensures ResetIndex(ParseLines(q, more).value, flavor) == ResetIndex(q, flavor)
    decreases |more|
  {
    hide ParseLine, Grown, LeavesCurrent, HarmlessLine, ResetIndex;
    if more != [] {
      assert more == [more[0]] + more[1..];
      LineGrows(base, q, flavor, commit, more[0], more[1..]);
      LinesGrow(base, ParseLine(q, more[0]).value, flavor, commit, more[1..]);
    }
  }

  /** What appending harmless lines does to the parsed runs. */
  lemma AppendGrows(lines: seq<Line>, more: seq<Line>, flavor: string, commit: string)
    requires Parse(lines).Ok? && Parse(lines + more).Ok? && HarmlessLines(more, flavor, commit)
    requires LeavesCurrent(ParseLines(START, lines).value, more, flavor, commit)
    ensures Grown(Parse(lines).value.runs, Parse(lines + more).value.runs, flavor, commit)
    ensures ResetIndex(Parse(lines + more).value, flavor) == ResetIndex(Parse(lines).value, flavor)
  {
    var p := ParseLines(START, lines).value;
    ParseConcat(START, lines, more);
    GrownSelf(CloseRun(p).runs, flavor, commit);
    LinesGrow(CloseRun(p).runs, p, flavor, commit, more);
  }

  // ----- What that does to window and history -----------------------------------------------

  lemma GrownTail(a: seq<Run>, b: seq<Run>, k: nat, flavor: string, commit: string)
    requires Grown(a, b, flavor, commit) && k <= |a|
    ensures Grown(a[k..], b[k..], flavor, commit)
  {
  }

  /** Of the flavor: again the same runs, perhaps richer, and foreign ones behind. */
  lemma {:induction false} FlavorGrows(a: seq<Run>, b: seq<Run>, flavor: string, commit: string)
    requires Grown(a, b, flavor, commit)
    ensures Grown(OfFlavor(a, flavor), OfFlavor(b, flavor), flavor, commit)
    ensures forall r :: r in OfFlavor(b, flavor) ==> r in b && r.flavor == flavor
    decreases |b|
  {
    if b != [] {
      var k := if a == [] then 0 else 1;
      var a', b' := OfFlavor(a[k..], flavor), OfFlavor(b[1..], flavor);
      assert Grown(a[k..], b[1..], flavor, commit) by {
        if a != [] {
          GrownTail(a, b, 1, flavor, commit);
        }
      }
      FlavorGrows(a[k..], b[1..], flavor, commit);
      if b[0].flavor == flavor {
        if a == [] {
          NoneGrows(b', b[0], flavor, commit);
        } else {
          assert Richer(a[0], b[0], flavor, commit);
          OneGrows(a', b', a[0], b[0], flavor, commit);
        }
      }
    }
  }

  lemma NoneGrows(b: seq<Run>, r': Run, flavor: string, commit: string)
    requires Grown([], b, flavor, commit) && Foreign(r', flavor, commit)
    ensures Grown([], [r'] + b, flavor, commit)
  {
  }

  lemma OneGrows(a: seq<Run>, b: seq<Run>, r: Run, r': Run, flavor: string, commit: string)
    requires Grown(a, b, flavor, commit) && Richer(r, r', flavor, commit)
    ensures Grown([r] + a, [r'] + b, flavor, commit)
  {
  }

  /** Two runs that the gate cannot tell apart. */
  ghost predicate AlikeRun(r: Run, r': Run) {
    r'.Id() == r.Id() && forall key: Key :: Gated(key.name) ==> Lookup(r'.metrics, key) == Lookup(r.metrics, key)
  }

  ghost predicate Alike(a: seq<Run>, b: seq<Run>) {
    |a| == |b| && forall i :: 0 <= i < |a| ==> AlikeRun(a[i], b[i])
  }

  /** To the gate, the runs of the commit stay as they were. */
  lemma {:induction false} CommitStays(a: seq<Run>, b: seq<Run>, flavor: string, commit: string)
    requires Grown(a, b, flavor, commit)
    requires (forall r :: r in a ==> r.flavor == flavor) && forall r :: r in b ==> r.flavor == flavor
    ensures Alike(OfCommit(a, commit), OfCommit(b, commit))
    decreases |b|
  {
    hide Gated;
    if b != [] {
      assert b[0] in b;
      if a == [] {
        CommitStays(a, b[1..], flavor, commit);
      } else {
        assert a[0] in a && Richer(a[0], b[0], flavor, commit);
        GrownTail(a, b, 1, flavor, commit);
        assert a[0].commit == commit ==> AlikeRun(a[0], b[0]);
        hide Grown, Richer, AlikeRun, Alike;
        CommitStays(a[1..], b[1..], flavor, commit);
        AlikeCons(a[0], OfCommit(a[1..], commit), b[0], OfCommit(b[1..], commit));
        assert [] + OfCommit(a[1..], commit) == OfCommit(a[1..], commit);
        assert [] + OfCommit(b[1..], commit) == OfCommit(b[1..], commit);
      }
    }
  }

  lemma AlikeCons(r: Run, a: seq<Run>, r': Run, b: seq<Run>)
    requires Alike(a, b)
    ensures AlikeRun(r, r') ==> Alike([r] + a, [r'] + b)
    ensures AlikeRun(r, r') ==> r.commit == r'.commit
  {
    hide Gated;
    if AlikeRun(r, r') {
      forall i | 0 <= i < |[r] + a| ensures AlikeRun(([r] + a)[i], ([r'] + b)[i]) {
        if i > 0 {
          assert AlikeRun(a[i - 1], b[i - 1]);
        }
      }
    }
  }

  lemma {:induction false} AlikeBest(a: seq<Run>, b: seq<Run>, key: Key)
    requires Alike(a, b) && Gated(key.name)
    ensures Values(a, key) == Values(b, key) && BestSoFar(a, key) == BestSoFar(b, key)
  {
    hide Gated;
    if a != [] {
      var n := |a| - 1;
      AlikeBest(a[..n], b[..n], key);
      assert AlikeRun(a[n], b[n]) && Lookup(a[n].metrics, key) == Lookup(b[n].metrics, key);
    }
  }

  lemma AlikeFailures(a: seq<Run>, b: seq<Run>, history: seq<Run>, tolerance: real)
    requires Alike(a, b)
    ensures WindowFailures(a, history, tolerance) == WindowFailures(b, history, tolerance)
  {
    hide Gated, Fails, HigherBetter, Alike;
    forall key: Key | Gated(key.name)
      ensures BestSoFar(a, key) == BestSoFar(b, key)
      ensures BestSoFar(a, key).Some? ==> key in KeysOf(a) && key in KeysOf(b)
    {
      AlikeBest(a, b, key);
      if BestSoFar(a, key).Some? {
        BestHasKey(a, key);
        BestHasKey(b, key);
      }
    }
    hide BestSoFar;
  }

  lemma {:induction false} AlikeHistory(runs: seq<Run>, a: seq<Run>, b: seq<Run>)
    requires Alike(a, b)
    ensures History(runs, a) == History(runs, b)
  {
    hide Gated;
    if runs != [] {
      AlikeHistory(runs[1..], a, b);
      if i :| 0 <= i < |a| && a[i].Id() == runs[0].Id() {
        assert AlikeRun(a[i], b[i]);
      }
      if i :| 0 <= i < |b| && b[i].Id() == runs[0].Id() {
        assert AlikeRun(a[i], b[i]);
      }
    }
  }

  /** The history keeps all its values. */
  lemma {:induction false} HistoryGrows(a: seq<Run>, b: seq<Run>, window: seq<Run>, flavor: string, commit: string)
    requires Grown(a, b, flavor, commit)
    ensures Extends(History(b, window), History(a, window))
    decreases |a|
  {
    if a != [] {
      GrownTail(a, b, 1, flavor, commit);
      HistoryGrows(a[1..], b[1..], window, flavor, commit);
      assert Richer(a[0], b[0], flavor, commit) && (InWindow(a[0], window) <==> InWindow(b[0], window));
      hide InWindow;
      assert [] + History(a[1..], window) == History(a[1..], window)
             && [] + History(b[1..], window) == History(b[1..], window);
      ExtendsCons(History(a[1..], window), History(b[1..], window), a[0], b[0], flavor, commit);
    }
  }

  lemma ExtendsCons(a: seq<Run>, b: seq<Run>, r: Run, r': Run, flavor: string, commit: string)
    requires Extends(b, a) && Richer(r, r', flavor, commit)
    ensures Extends([r'] + b, [r] + a)
  {
    forall i, key | 0 <= i < |[r] + a| && key in ([r] + a)[i].metrics
      ensures HasValue([r'] + b, key, ([r] + a)[i].metrics[key])
    {
      if i == 0 {
        assert ([r'] + b)[0] == r';
      } else {
        assert HasValue(b, key, a[i - 1].metrics[key]);
        var j :| 0 <= j < |b| && key in b[j].metrics && b[j].metrics[key] == a[i - 1].metrics[key];
        assert ([r'] + b)[j + 1] == b[j];
      }
    }
  }

  lemma {:induction false} HistoryMembers(runs: seq<Run>, window: seq<Run>)
    ensures forall r :: r in History(runs, window) ==> r in runs
  {
    hide InWindow;
    if runs != [] {
      HistoryMembers(runs[1..], window);
    }
  }

  lemma SomeNonNegative(all: seq<Run>, some: seq<Run>)
    requires NonNegative(all) && forall r :: r in some ==> r in all
    ensures NonNegative(some)
  {
    forall i, key | 0 <= i < |some| && key in some[i].metrics ensures some[i].metrics[key] >= 0.0 {
      assert some[i] in all;
    }
  }

  /**
   * The ratchet on the log: for a checked commit, appending lines with no reset of the flavor and no run of that commit
   * for it never removes a failure, unless they add gated metrics to a run of that commit that the log ends in.
   */
  lemma AppendingNeverClears(lines: seq<Line>, more: seq<Line>, flavor: string, commit: string, n: nat, tolerance: real)
    requires Parse(lines).Ok? && Parse(lines + more).Ok? && HarmlessLines(more, flavor, commit)
    requires LeavesCurrent(ParseLines(START, lines).value, more, flavor, commit)
    requires commit != "" && 0.0 < tolerance < 1.0 && NonNegative(Parse(lines + more).value.runs)
    ensures StillFails(lines, lines + more, flavor, commit, n, tolerance)
  {
    AppendGrows(lines, more, flavor, commit);
    ParsedIndices(lines);
    ParsedIndices(lines + more);
    var p, q := Parse(lines).value, Parse(lines + more).value;
    hide Parse, ParseLines, LeavesCurrent, HarmlessLines, WindowFailures;
    var index := ResetIndex(p, flavor);
    assert ResetIndex(q, flavor) == index;
    FailuresGrow(p.runs, q.runs, index, flavor, commit, n, tolerance);
  }

  /** What the gate reports for one log it also reports for the other. */
  ghost predicate StillFails(a: seq<Line>, b: seq<Line>, flavor: string, commit: string, n: nat, tolerance: real) {
    && Parse(a).Ok? && Parse(b).Ok?
    && ResetIndex(Parse(a).value, flavor) <= |Parse(a).value.runs|
    && ResetIndex(Parse(b).value, flavor) <= |Parse(b).value.runs|
    && GateFailures(Parse(a).value, flavor, commit, n, tolerance)
    <= GateFailures(Parse(b).value, flavor, commit, n, tolerance)
  }

  lemma FailuresGrow(a: seq<Run>, b: seq<Run>, index: nat, flavor: string, commit: string, n: nat, tolerance: real)
    requires Grown(a, b, flavor, commit) && index <= |a| && NonNegative(b) && commit != "" && 0.0 < tolerance < 1.0
    ensures
      var before, after := OfFlavor(a[index..], flavor), OfFlavor(b[index..], flavor);
      var window, window' := Window(before, commit, n), Window(after, commit, n);
      WindowFailures(window, History(before, window), tolerance)
      <= WindowFailures(window', History(after, window'), tolerance)
  {
    GrownTail(a, b, index, flavor, commit);
    FlavorGrows(a[index..], b[index..], flavor, commit);
    FlavorMembers(a[index..], flavor);
    SomeNonNegative(b, OfFlavor(b[index..], flavor));
    hide Grown, OfFlavor, WindowFailures, NonNegative;
    FlavoredFailuresGrow(OfFlavor(a[index..], flavor), OfFlavor(b[index..], flavor), flavor, commit, n, tolerance);
  }

  lemma FlavoredFailuresGrow(before: seq<Run>, after: seq<Run>, flavor: string, commit: string, n: nat, tolerance: real)
    requires Grown(before, after, flavor, commit) && NonNegative(after) && commit != "" && 0.0 < tolerance < 1.0
    requires (forall r :: r in before ==> r.flavor == flavor) && forall r :: r in after ==> r.flavor == flavor
    ensures
      var window, window' := Window(before, commit, n), Window(after, commit, n);
      WindowFailures(window, History(before, window), tolerance)
      <= WindowFailures(window', History(after, window'), tolerance)
  {
    var window, window' := Window(before, commit, n), Window(after, commit, n);
    hide WindowFailures, History, Gated;
    CommitStays(before, after, flavor, commit);
    LastAlike(OfCommit(before, commit), OfCommit(after, commit), n);
    HistoryGrows(before, after, window, flavor, commit);
    HistoryMembers(after, window);
    AlikeHistory(after, window, window');
    hide Grown, Window, Alike;
    SomeNonNegative(after, History(after, window));
    MoreHistoryFailsMore(window, History(before, window), History(after, window), tolerance);
    AlikeFailures(window, window', History(after, window), tolerance);
  }

  lemma LastAlike(a: seq<Run>, b: seq<Run>, n: nat)
    requires Alike(a, b)
    ensures Alike(LastN(a, n), LastN(b, n))
  {
    hide AlikeRun;
  }

  lemma {:induction false} FlavorMembers(runs: seq<Run>, flavor: string)
    ensures forall r :: r in OfFlavor(runs, flavor) <==> r in runs && r.flavor == flavor
  {
    if runs != [] {
      FlavorMembers(runs[1..], flavor);
    }
  }

  lemma MoreHistoryFailsMore(window: seq<Run>, history: seq<Run>, longer: seq<Run>, tolerance: real)
    requires Extends(longer, history) && NonNegative(longer) && 0.0 < tolerance < 1.0
    ensures WindowFailures(window, history, tolerance) <= WindowFailures(window, longer, tolerance)
  {
    hide BestSoFar, HigherBetter, Fails, Gated;
    var current := map key | key in KeysOf(window) && BestSoFar(window, key).Some? :: BestSoFar(window, key).value;
    RatchetNeverLoosens(current, history, longer, tolerance);
    assert WindowFailures(window, history, tolerance) == Failures(current, history, tolerance);
    assert WindowFailures(window, longer, tolerance) == Failures(current, longer, tolerance);
  }
}
