/**
 * What the two checks of the DHCP table report when they are not silent: every finding of the lint and every verdict of
 * the comparison, said of the lines, names and compiled cells alone.
 */
module DhcpReport {
  import opened Bytes
  import opened Text
  import opened DhcpTable

  // ----- Names --------------------------------------------------------------------------

  predicate StateName(s: string) {
    || s == "S_INIT" || s == "S_SELECTING" || s == "S_REQUESTING" || s == "S_BOUND" || s == "S_RENEWING"
    || s == "S_REBINDING"
  }

  predicate EventName(e: string) {
    || e == "E_START" || e == "E_TIMER_RETRANS_RETRY" || e == "E_TIMER_RETRANS_GIVEUP" || e == "E_TIMER_T1"
    || e == "E_TIMER_T2" || e == "E_TIMER_LEASE" || e == "E_RX_OFFER_VALID" || e == "E_RX_ACK_VALID"
    || e == "E_RX_NAK_VALID"
  }

  lemma OneOfSix(name: string, s: seq<string>)
    requires |s| == 6
    ensures name in s <==> name == s[0] || name == s[1] || name == s[2] || name == s[3] || name == s[4] || name == s[5]
  {
  }

  lemma OneOfNine(name: string, s: seq<string>)
    requires |s| == 9
    ensures name in s <==>
            || name == s[0] || name == s[1] || name == s[2] || name == s[3] || name == s[4] || name == s[5]
            || name == s[6] || name == s[7] || name == s[8]
  {
  }

  lemma NamesAre(name: string)
    ensures name in STATES <==> StateName(name)
    ensures name in EVENTS <==> EventName(name)
  {
    OneOfSix(name, STATES);
    OneOfNine(name, EVENTS);
  }

  // ----- The findings of the lint ---------------------------------------------------------

  /** Line i of the data has these four cells. */
  predicate HasCells(lines: seq<string>, i: int, r: Row) {
    0 <= i < |lines| && Split(lines[i], '\t') == [r.state, r.event, r.next, r.handler]
  }

  /** The rule of each finding; the data begins on line 2 of the file. */
  ghost predicate Holds(lines: seq<string>, f: Finding) {
    match f
    case EmptyFile => false
    case BadHeader => false
    case WrongCellCount(line, count) =>
      2 <= line < |lines| + 2 && |Split(lines[line - 2], '\t')| == count != 4
    case UnknownState(line, name) => exists r :: HasCells(lines, line - 2, r) && r.state == name && !StateName(name)
    case UnknownEvent(line, name) => exists r :: HasCells(lines, line - 2, r) && r.event == name && !EventName(name)
    case BadNextState(line) => exists r :: HasCells(lines, line - 2, r) && r.next != "NONE" && !StateName(r.next)
    case BadHandler(line) =>
      exists r :: HasCells(lines, line - 2, r) && r.handler != "NONE"
                  && (|r.handler| < 2 || r.handler[0] != 'h' || r.handler[1] != '_')
    case NoneWithHandler(line) =>
      exists r :: HasCells(lines, line - 2, r) && r.next == "NONE" && r.handler != "NONE" && r.handler != "h_panic_d"
    case NextWithoutHandler(line) =>
      exists r :: HasCells(lines, line - 2, r) && r.next != "NONE" && r.handler == "NONE"
    case PanicWithNext(line) =>
      exists r :: HasCells(lines, line - 2, r) && r.next != "NONE" && r.handler == "h_panic_d"
    case Duplicate(line, key) => Names(lines, line - 2, key) && exists j :: 0 <= j < line - 2 && Names(lines, j, key)
    case Missing(key) =>
      StateName(key.0) && EventName(key.1) && forall j :: 0 <= j < |lines| ==> !Names(lines, j, key)
  }

  /** Line j is for this state and event. */
  ghost predicate Names(lines: seq<string>, j: int, key: (string, string)) {
    exists r :: HasCells(lines, j, r) && r.state == key.0 && r.event == key.1
  }

  lemma CellsAre(lines: seq<string>, i: nat, r: Row)
    requires i < |lines|
    ensures HasCells(lines, i, r) <==> Cells(lines[i]) == Some(r)
  {
    hide Split;
  }

  lemma CellsOf(lines: seq<string>, i: nat)
    requires i < |lines|
    ensures Cells(lines[i]).None? <==> |Split(lines[i], '\t')| != 4
    ensures Cells(lines[i]).None? ==> forall r :: !HasCells(lines, i, r)
  {
    hide Split;
  }

  /** What a finding is about: a line, or nothing in particular. */
  function LineOf(f: Finding): nat {
    match f
    case EmptyFile => 0
    case BadHeader => 1
    case WrongCellCount(line, _) => line
    case UnknownState(line, _) => line
    case UnknownEvent(line, _) => line
    case BadNextState(line) => line
    case BadHandler(line) => line
    case NoneWithHandler(line) => line
    case NextWithoutHandler(line) => line
    case PanicWithNext(line) => line
    case Duplicate(line, _) => line
    case Missing(_) => 0
  }

  lemma KeyNamed(lines: seq<string>, i: nat, r: Row, key: (string, string))
    requires i < |lines| && Cells(lines[i]) == Some(r)
    ensures Names(lines, i, key) <==> r.Key() == key
    ensures forall x :: HasCells(lines, i, x) <==> x == r
  {
    hide Cells;
    forall x ensures HasCells(lines, i, x) <==> x == r {
      CellsAre(lines, i, x);
    }
    hide HasCells;
  }

  lemma SeenIsNamed(lines: seq<string>, i: nat, key: (string, string))
    requires i <= |lines|
    ensures (exists j :: 0 <= j < i && Cells(lines[j]).Some? && Cells(lines[j]).value.Key() == key) <==>
            exists j :: 0 <= j < i && Names(lines, j, key)
  {
    hide Cells, HasCells;
    forall j | 0 <= j < i
      ensures Names(lines, j, key) <==> Cells(lines[j]).Some? && Cells(lines[j]).value.Key() == key
    {
      if Cells(lines[j]).Some? {
        KeyNamed(lines, j, Cells(lines[j]).value, key);
      } else {
        CellsOf(lines, j);
      }
    }
  }

  lemma RowFindingsAre(line: nat, r: Row, f: Finding)
    ensures f in RowFindings(line, r) <==>
            match f
            case UnknownState(l, name) => l == line && r.state == name && !StateName(name)
            case UnknownEvent(l, name) => l == line && r.event == name && !EventName(name)
            case BadNextState(l) => l == line && r.next != "NONE" && !StateName(r.next)
            case BadHandler(l) =>
              l == line && r.handler != "NONE" && (|r.handler| < 2 || r.handler[0] != 'h' || r.handler[1] != '_')
            case NoneWithHandler(l) => l == line && r.next == "NONE" && r.handler != "NONE" && r.handler != "h_panic_d"
            case NextWithoutHandler(l) => l == line && r.next != "NONE" && r.handler == "NONE"
            case PanicWithNext(l) => l == line && r.next != "NONE" && r.handler == "h_panic_d"
            case _ => false
  {
    NamesAre(r.state);
    NamesAre(r.event);
    NamesAre(r.next);
    HandlerStarts(r.handler);
    InEither(r.handler, "NONE", "h_panic_d");
    hide StateName, EventName, STATES, EVENTS;
    var a, b := r.state !in STATES, r.event !in EVENTS;
    var c, d := r.next != "NONE" && r.next !in STATES, r.handler != "NONE" && !("h_" <= r.handler);
    var e := r.next == "NONE" && r.handler !in ["NONE", PANIC_HANDLER];
    var g, h := r.next != "NONE" && r.handler == "NONE", r.handler == PANIC_HANDLER && r.next != "NONE";
    SevenParts(f, a, UnknownState(line, r.state), b, UnknownEvent(line, r.event), c, BadNextState(line),
               d, BadHandler(line), e, NoneWithHandler(line), g, NextWithoutHandler(line), h, PanicWithNext(line));
    hide OnlyIf;
  }

  lemma InEither(x: string, a: string, b: string)
    ensures x in [a, b] <==> x == a || x == b
  {
  }

  lemma SevenParts(f: Finding, a: bool, u: Finding, b: bool, v: Finding, c: bool, w: Finding, d: bool, x: Finding,
                   e: bool, y: Finding, g: bool, z: Finding, h: bool, t: Finding)
    ensures f in OnlyIf(a, u) + OnlyIf(b, v) + OnlyIf(c, w) + OnlyIf(d, x) + OnlyIf(e, y) + OnlyIf(g, z) + OnlyIf(h, t)
            <==> (a && f == u) || (b && f == v) || (c && f == w) || (d && f == x) || (e && f == y) || (g && f == z)
                 || (h && f == t)
  {
    OnlyIfHas(f, a, u);
    OnlyIfHas(f, b, v);
    OnlyIfHas(f, c, w);
    OnlyIfHas(f, d, x);
    OnlyIfHas(f, e, y);
    OnlyIfHas(f, g, z);
    OnlyIfHas(f, h, t);
    hide OnlyIf;
  }

  lemma OnlyIfHas(f: Finding, c: bool, x: Finding)
    ensures f in OnlyIf(c, x) <==> c && f == x
  {
  }

  lemma HandlerStarts(h: string)
    ensures "h_" <= h <==> |h| >= 2 && h[0] == 'h' && h[1] == '_'
  {
  }

  /** The findings of one line. */
  lemma LineFindingsAre(lines: seq<string>, i: nat, f: Finding)
    requires i < |lines|
    ensures f in LineFindings(lines, i) <==> !f.Missing? && LineOf(f) == i + 2 && Holds(lines, f)
  {
    hide Cells, HasCells, RowFindings, StateName, EventName, Split, SeenBefore;
    CellsOf(lines, i);
    if Cells(lines[i]).Some? {
      var r := Cells(lines[i]).value;
      RowFindingsAre(i + 2, r, f);
      KeyNamed(lines, i, r, if f.Duplicate? then f.key else r.Key());
      SeenIsNamed(lines, i, r.Key());
      assert SeenBefore(lines, i) <==> exists j :: 0 <= j < i && Names(lines, j, r.Key()) by {
        SeenMeans(lines, i);
      }
      assert HasCells(lines, i, r);
      hide Names;
    }
  }

  lemma SeenMeans(lines: seq<string>, i: nat)
    requires i < |lines| && Cells(lines[i]).Some?
    ensures SeenBefore(lines, i) <==>
            exists j :: 0 <= j < i && Cells(lines[j]).Some?
                        && Cells(lines[j]).value.Key() == Cells(lines[i]).value.Key()
  {
    hide Cells;
  }

  lemma {:induction false} FindingsUpToAre(lines: seq<string>, n: nat, f: Finding)
    requires n <= |lines|
    ensures f in FindingsUpTo(lines, n) <==> !f.Missing? && 2 <= LineOf(f) < n + 2 && Holds(lines, f)
  {
    hide LineFindings, Holds;
    if n > 0 {
      FindingsUpToAre(lines, n - 1, f);
      LineFindingsAre(lines, n - 1, f);
    }
  }

  /** Findings of lines only, none behind line n, in the order of the lines. */
  ghost predicate Ascends(fs: seq<Finding>, n: nat) {
    && (forall a :: 0 <= a < |fs| ==> !fs[a].Missing? && LineOf(fs[a]) <= n)
    && forall a, b :: 0 <= a < b < |fs| ==> LineOf(fs[a]) <= LineOf(fs[b])
  }

  lemma AscendsConcat(a: seq<Finding>, b: seq<Finding>, n: nat)
    requires Ascends(a, n) && forall i :: 0 <= i < |b| ==> !b[i].Missing? && LineOf(b[i]) == n + 1
    ensures Ascends(a + b, n + 1)
  {
    hide LineOf;
  }

  lemma {:induction false} FindingsAscend(lines: seq<string>, n: nat)
    requires n <= |lines|
    ensures Ascends(FindingsUpTo(lines, n), n + 1)
  {
    hide LineFindings, Holds, Ascends;
    if n == 0 {
      NothingAscends(1);
    } else {
      FindingsAscend(lines, n - 1);
      var last := LineFindings(lines, n - 1);
      forall a | 0 <= a < |last| ensures !last[a].Missing? && LineOf(last[a]) == n + 1 {
        assert last[a] in last;
        LineFindingsAre(lines, n - 1, last[a]);
      }
      AscendsConcat(FindingsUpTo(lines, n - 1), last, n);
    }
  }

  lemma NothingAscends(n: nat)
    ensures Ascends([], n)
  {
  }

  lemma {:induction false} MissingAre(seen: set<(string, string)>, n: nat, f: Finding)
    requires n <= N_CELLS
    ensures f in MissingCells(seen, n) <==>
            exists k :: 0 <= k < n && CellKey(Sorted(k)) !in seen && f == Missing(CellKey(Sorted(k)))
  {
    hide CellKey, Sorted;
    if n > 0 {
      MissingAre(seen, n - 1, f);
    }
  }

  lemma CellOfNames(key: (string, string)) returns (k: nat)
    requires StateName(key.0) && EventName(key.1)
    ensures k < N_CELLS && CellKey(Sorted(k)) == key
  {
    NamesAre(key.0);
    NamesAre(key.1);
    hide StateName, EventName, STATES, EVENTS, Sorted, Place, CellKey;
    NamesAreDistinct();
    var s, e := Position(STATES, key.0).value, Position(EVENTS, key.1).value;
    CellAt(s, e);
    k := Place(s * N_EVENTS + e);
    SortedReachesAll(s * N_EVENTS + e);
  }

  lemma CellIsNamed(k: nat)
    requires k < N_CELLS
    ensures StateName(CellKey(k).0) && EventName(CellKey(k).1)
  {
    hide StateName, EventName;
    NamesAreDistinct();
    NamesAre(CellKey(k).0);
    NamesAre(CellKey(k).1);
  }

  lemma AllMissingAre(lines: seq<string>, f: Finding)
    ensures f in MissingCells(KeysOf(lines, |lines|), N_CELLS) <==> f.Missing? && Holds(lines, f)
  {
    hide StateName, EventName, Sorted, CellKey, MissingCells, KeysOf, Names;
    MissingAre(KeysOf(lines, |lines|), N_CELLS, f);
    if f.Missing? {
      KeyUnseen(lines, f.key);
      CellsAreNames(f.key);
    }
  }

  lemma CellsAreNames(key: (string, string))
    ensures (exists k :: 0 <= k < N_CELLS && CellKey(Sorted(k)) == key) <==> StateName(key.0) && EventName(key.1)
  {
    hide StateName, EventName, Sorted, CellKey;
    if StateName(key.0) && EventName(key.1) {
      var k := CellOfNames(key);
    }
    forall k | 0 <= k < N_CELLS && CellKey(Sorted(k)) == key ensures StateName(key.0) && EventName(key.1) {
      CellIsNamed(Sorted(k));
    }
  }

  lemma KeyUnseen(lines: seq<string>, key: (string, string))
    ensures key in KeysOf(lines, |lines|) <==> exists j :: 0 <= j < |lines| && Names(lines, j, key)
  {
    KeysAreSeen(lines, |lines|);
    SeenIsNamed(lines, |lines|, key);
    hide KeysOf, Cells, Names;
  }

  lemma HoldsOnSomeLine(lines: seq<string>, f: Finding)
    ensures Holds(lines, f) && !f.Missing? ==> 2 <= LineOf(f) < |lines| + 2
  {
    hide StateName, EventName, Split;
  }

  /**
   * For every text: an empty file and a wrong header are reported alone; otherwise exactly the findings whose rule
   * holds, those of the lines in the order of the lines, and then the missing cells.
   */
  lemma LintReports(text: string)
    ensures var rows, fs := NonBlank(Split(text, '\n')), LintSpec(text);
            if rows == [] then fs == [EmptyFile]
            else if Split(rows[0], '\t') != ["State", "Event", "NextState", "Handler"] then fs == [BadHeader]
            else
              && (forall f :: f in fs <==> Holds(rows[1..], f))
              && forall a, b :: 0 <= a < b < |fs| ==>
                   fs[b].Missing? || (!fs[a].Missing? && LineOf(fs[a]) <= LineOf(fs[b]))
  {
    hide Split, NonBlank, FindingsUpTo, MissingCells, KeysOf, Holds, LineOf;
    var rows := NonBlank(Split(text, '\n'));
    if rows != [] && Split(rows[0], '\t') == HEADER {
      var lines := rows[1..];
      FindingsAscend(lines, |lines|);
      forall f ensures f in LintSpec(text) <==> Holds(lines, f) {
        FindingsUpToAre(lines, |lines|, f);
        AllMissingAre(lines, f);
        HoldsOnSomeLine(lines, f);
      }
      var found, missing := FindingsUpTo(lines, |lines|), MissingCells(KeysOf(lines, |lines|), N_CELLS);
      forall b | 0 <= b < |missing| ensures missing[b].Missing? {
        assert missing[b] in missing;
        AllMissingAre(lines, missing[b]);
      }
    }
  }

  // ----- The verdicts of the comparison -----------------------------------------------------

  /** The number of a state, and of an event. */
  ghost predicate StateNumber(s: string, n: int) {
    || (s == "S_INIT" && n == 0) || (s == "S_SELECTING" && n == 1) || (s == "S_REQUESTING" && n == 2)
    || (s == "S_BOUND" && n == 3) || (s == "S_RENEWING" && n == 4) || (s == "S_REBINDING" && n == 5)
  }

  ghost predicate EventNumber(e: string, n: int) {
    || (e == "E_START" && n == 0) || (e == "E_TIMER_RETRANS_RETRY" && n == 1)
    || (e == "E_TIMER_RETRANS_GIVEUP" && n == 2) || (e == "E_TIMER_T1" && n == 3) || (e == "E_TIMER_T2" && n == 4)
    || (e == "E_TIMER_LEASE" && n == 5) || (e == "E_RX_OFFER_VALID" && n == 6) || (e == "E_RX_ACK_VALID" && n == 7)
    || (e == "E_RX_NAK_VALID" && n == 8)
  }

  lemma PlaceOfSix(s: seq<string>, name: string, n: nat)
    requires |s| == 6 && Distinct(s)
    ensures Position(s, name) == Some(n) <==>
            || (name == s[0] && n == 0) || (name == s[1] && n == 1) || (name == s[2] && n == 2)
            || (name == s[3] && n == 3) || (name == s[4] && n == 4) || (name == s[5] && n == 5)
  {
    PlaceIs(s, name, n);
    hide Position;
  }

  lemma PlaceOfNine(s: seq<string>, name: string, n: nat)
    requires |s| == 9 && Distinct(s)
    ensures Position(s, name) == Some(n) <==>
            || (name == s[0] && n == 0) || (name == s[1] && n == 1) || (name == s[2] && n == 2)
            || (name == s[3] && n == 3) || (name == s[4] && n == 4) || (name == s[5] && n == 5)
            || (name == s[6] && n == 6) || (name == s[7] && n == 7) || (name == s[8] && n == 8)
  {
    PlaceIs(s, name, n);
    hide Position;
  }

  lemma PlaceIs(s: seq<string>, name: string, n: nat)
    requires Distinct(s)
    ensures Position(s, name) == Some(n) <==> n < |s| && s[n] == name
  {
    if n < |s| && s[n] == name {
      assert name in s;
    }
    hide Position;
  }

  lemma NumbersAre(name: string, n: nat)
    ensures StateNumber(name, n) <==> Position(STATES, name) == Some(n)
    ensures EventNumber(name, n) <==> Position(EVENTS, name) == Some(n)
  {
    NamesAreDistinct();
    PlaceOfSix(STATES, name, n);
    PlaceOfNine(EVENTS, name, n);
    hide Position, Distinct;
  }

  /** The compiled cell that a row is compared with. */
  ghost predicate CellFor(r: Row, k: nat) {
    exists s, e :: StateNumber(r.state, s) && EventNumber(r.event, e) && k == 9 * s + e
  }

  /** What a row comes to against the compiled table: the first rule that it breaks. */
  ghost predicate VerdictFits(r: Row, entries: seq<Entry>, syms: map<string, nat>, v: Verdict) {
    if !StateName(r.state) then v == UnknownStateName
    else if !EventName(r.event) then v == UnknownEventName
    else if r.next != "NONE" && !StateName(r.next) then v == KeyError
    else exists k: nat :: CellFor(r, k) && k < |entries| && CellVerdict(r, entries[k], syms, v)
  }

  ghost predicate CellVerdict(r: Row, e: Entry, syms: map<string, nat>, v: Verdict) {
    if (r.next == "NONE" && e.next != 0xFFFF_FFFF) || (r.next != "NONE" && !StateNumber(r.next, e.next)) then
      v == NextMismatch
    else if r.handler == "NONE" then v == if e.handler == 0 then Pass else HandlerMismatch
    else if r.handler !in syms then v == NoSuchHandler
    else v == if e.handler == syms[r.handler] then Pass else HandlerMismatch
  }

  lemma CheckOneFits(r: Row, e: Entry, syms: map<string, nat>)
    requires r.next == "NONE" || StateName(r.next)
    ensures CellVerdict(r, e, syms, CheckOne(r, e, syms))
  {
    NamesAre(r.next);
    NumbersAre(r.next, e.next);
    NoneIsNoState();
    hide StateName, EventName, StateNumber, STATES, EVENTS, Position;
    if r.next != "NONE" {
      PositionOf(r.next);
    }
  }

  lemma NoneIsNoState()
    ensures !StateName("NONE")
  {
  }

  lemma PositionOf(name: string)
    requires name in STATES
    ensures Position(STATES, name).Some? && Position(STATES, name).value < 6
  {
  }

  /** Every row gets the verdict of the first rule it breaks. */
  lemma VerdictIsExact(r: Row, entries: seq<Entry>, syms: map<string, nat>)
    requires |entries| == N_CELLS
    ensures VerdictFits(r, entries, syms, ValidateRow(r, entries, syms))
  {
    NamesAre(r.state);
    NamesAre(r.event);
    NamesAre(r.next);
    hide StateName, EventName, StateNumber, EventNumber, STATES, EVENTS, Position, CheckOne, CellVerdict, RowIndex;
    if KnownRow(r) {
      RowCell(r);
      if r.next == "NONE" || StateName(r.next) {
        CheckOneFits(r, entries[RowIndex(r)], syms);
      } else {
        CheckOneCrashes(r, entries[RowIndex(r)], syms);
      }
    }
  }

  lemma CheckOneCrashes(r: Row, e: Entry, syms: map<string, nat>)
    requires r.next != "NONE" && r.next !in STATES
    ensures CheckOne(r, e, syms) == KeyError
  {
  }

  lemma RowCell(r: Row)
    requires KnownRow(r)
    ensures CellFor(r, RowIndex(r)) && RowIndex(r) < N_CELLS
  {
    hide STATES, EVENTS, Position, StateNumber, EventNumber;
    var s, e := Position(STATES, r.state).value, Position(EVENTS, r.event).value;
    NumbersAre(r.state, s);
    NumbersAre(r.event, e);
    assert RowIndex(r) == 9 * s + e;
  }

  /** The places of the rows that are reported. */
  ghost predicate Reports(rows: seq<Row>, entries: seq<Entry>, syms: map<string, nat>, n: nat, at: seq<nat>,
                          findings: seq<Verdict>)
    requires |entries| == N_CELLS && n <= |rows|
  {
    && |at| == |findings| && (forall a, b :: 0 <= a < b < |at| ==> at[a] < at[b])
    && (forall a :: 0 <= a < |at| ==>
          at[a] < n && findings[a] != Pass && VerdictFits(rows[at[a]], entries, syms, findings[a]))
    && forall i :: 0 <= i < n && i !in at ==> VerdictFits(rows[i], entries, syms, Pass)
  }

  lemma {:induction false} MismatchesReport(rows: seq<Row>, entries: seq<Entry>, syms: map<string, nat>, n: nat)
    returns (at: seq<nat>)
    requires |entries| == N_CELLS && n <= |rows|
    ensures Reports(rows, entries, syms, n, at, Mismatches(rows, entries, syms, n))
  {
    hide VerdictFits, VerdictAt, Reports, OnlyIf, Mismatches;
    MismatchesNext(rows, entries, syms, n);
    if n == 0 {
      at := [];
      NothingReports(rows, entries, syms);
    } else {
      at := MismatchesReport(rows, entries, syms, n - 1);
      VerdictAtFits(rows, entries, syms, n - 1);
      at := OneReportMore(rows, entries, syms, n - 1, at, Mismatches(rows, entries, syms, n - 1),
                          VerdictAt(rows, entries, syms, n - 1));
    }
  }

  lemma VerdictAtFits(rows: seq<Row>, entries: seq<Entry>, syms: map<string, nat>, i: nat)
    requires |entries| == N_CELLS && i < |rows|
    ensures VerdictFits(rows[i], entries, syms, VerdictAt(rows, entries, syms, i))
  {
    VerdictIsExact(rows[i], entries, syms);
    hide VerdictFits, ValidateRow;
  }

  lemma MismatchesNext(rows: seq<Row>, entries: seq<Entry>, syms: map<string, nat>, n: nat)
    requires |entries| == N_CELLS && n <= |rows|
    ensures n == 0 ==> Mismatches(rows, entries, syms, n) == []
    ensures n > 0 ==>
              var v := VerdictAt(rows, entries, syms, n - 1);
              Mismatches(rows, entries, syms, n) == Mismatches(rows, entries, syms, n - 1) + OnlyIf(v != Pass, v)
  {
    hide VerdictAt, OnlyIf;
  }

  lemma NothingReports(rows: seq<Row>, entries: seq<Entry>, syms: map<string, nat>)
    requires |entries| == N_CELLS
    ensures Reports(rows, entries, syms, 0, [], [])
  {
  }

  lemma OneReportMore(rows: seq<Row>, entries: seq<Entry>, syms: map<string, nat>, n: nat, at: seq<nat>,
                      findings: seq<Verdict>, v: Verdict)
    returns (at': seq<nat>)
    requires |entries| == N_CELLS && n < |rows| && Reports(rows, entries, syms, n, at, findings)
    requires VerdictFits(rows[n], entries, syms, v)
    ensures Reports(rows, entries, syms, n + 1, at', findings + OnlyIf(v != Pass, v))
  {
    hide VerdictFits;
    if v != Pass {
      at' := at + [n];
      var findings' := findings + [v];
      assert at'[|at|] == n && findings'[|at|] == v;
      forall a | 0 <= a < |at| ensures at'[a] == at[a] < n && findings'[a] == findings[a] {
      }
      forall i | 0 <= i < n + 1 && i !in at' ensures VerdictFits(rows[i], entries, syms, Pass) {
        assert i != n;
        assert i !in at;
      }
    } else {
      at' := at;
      assert findings + [] == findings;
    }
  }

  /**
   * For every table: the wrong number of rows, a crash on an unknown next state, or exactly the rows that break a rule.
   */
  lemma ComparisonReports(rows: seq<Row>, entries: seq<Entry>, syms: map<string, nat>)
    requires |entries| == 54
    ensures match CompareSpec(rows, entries, syms)
            case WrongRowCount => |rows| != 54
            case Crashed => |rows| == 54 && exists i :: 0 <= i < 54 && Unreadable(rows[i])
            case Compared(findings) =>
              |rows| == 54 && (forall i :: 0 <= i < 54 ==> !Unreadable(rows[i]))
              && exists at :: Reports(rows, entries, syms, 54, at, findings)
  {
    hide Mismatches, ValidateRow, Reports;
    if |rows| == 54 {
      forall i | 0 <= i < 54 ensures VerdictAt(rows, entries, syms, i) == KeyError <==> Unreadable(rows[i]) {
        VerdictIsExact(rows[i], entries, syms);
        OnlyUnreadableCrash(rows[i], entries, syms, VerdictAt(rows, entries, syms, i));
      }
      hide Unreadable, VerdictAt;
      var at := MismatchesReport(rows, entries, syms, 54);
    }
  }

  /** A row of known names whose next state is none. */
  ghost predicate Unreadable(r: Row) {
    StateName(r.state) && EventName(r.event) && r.next != "NONE" && !StateName(r.next)
  }

  lemma OnlyUnreadableCrash(r: Row, entries: seq<Entry>, syms: map<string, nat>, v: Verdict)
    requires VerdictFits(r, entries, syms, v)
    ensures v == KeyError <==> Unreadable(r)
  {
    hide StateName, EventName, StateNumber, EventNumber, CellFor;
  }
}
