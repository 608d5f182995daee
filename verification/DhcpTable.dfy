/**
 * The two checks of the DHCP transition table: the lint of the written table and its comparison with
 * the compiled one. Neither is enough alone; together they fix every compiled cell.
 */
module DhcpTable {
  import opened Bytes
  import opened Text

  const N_STATES := 6
  const N_EVENTS := 9
  const N_CELLS := 54
  const TRANS_SIZE := 16
  const NEXT_NONE := 0xFFFF_FFFF
  const HEADER: seq<string> := ["State", "Event", "NextState", "Handler"]
  const PANIC_HANDLER := "h_panic_d"

  // ----- Names ----------------------------------------------------------------------

  const STATES: seq<string> := ["S_INIT", "S_SELECTING", "S_REQUESTING", "S_BOUND", "S_RENEWING", "S_REBINDING"]

  const EVENTS: seq<string> :=
    [ "E_START", "E_TIMER_RETRANS_RETRY", "E_TIMER_RETRANS_GIVEUP", "E_TIMER_T1", "E_TIMER_T2", "E_TIMER_LEASE",
      "E_RX_OFFER_VALID", "E_RX_ACK_VALID", "E_RX_NAK_VALID" ]

  /** The position of a name in a list of names. */
  function Position(names: seq<string>, name: string): (r: Option<nat>)
    ensures r.Some? <==> name in names
    ensures r.Some? ==> r.value < |names| && names[r.value] == name
  {
    if names == [] then None
    else if names[0] == name then Some(0)
    else
      var rest := Position(names[1..], name);
      if rest.None? then None else Some(rest.value + 1)
  }

  predicate Distinct<T(==)>(s: seq<T>) {
    forall i, j :: 0 <= i < j < |s| ==> s[i] != s[j]
  }

  lemma NamesAreDistinct()
    ensures |STATES| == N_STATES && Distinct(STATES)
    ensures |EVENTS| == N_EVENTS && Distinct(EVENTS)
  {
    assert STATES[0][2] == 'I' && STATES[1][2] == 'S' && STATES[2][4] == 'Q' && STATES[3][2] == 'B'
           && STATES[4][4] == 'N' && STATES[5][4] == 'B' && STATES[2][2] == STATES[4][2] == STATES[5][2] == 'R';
    assert EVENTS[0][2] == 'S' && (forall i :: 1 <= i < 6 ==> EVENTS[i][2] == 'T')
           && forall i :: 6 <= i < 9 ==> EVENTS[i][2] == 'R';
    assert |EVENTS[1]| == 21 && |EVENTS[2]| == 22 && |EVENTS[3]| == 10 && |EVENTS[4]| == 10 && |EVENTS[5]| == 13;
    assert EVENTS[3][9] == '1' && EVENTS[4][9] == '2';
    assert EVENTS[6][5] == 'O' && EVENTS[7][5] == 'A' && EVENTS[8][5] == 'N';
  }

  // ----- Rows -----------------------------------------------------------------------

  datatype Row = Row(state: string, event: string, next: string, handler: string) {
    function Key(): (string, string) {
      (state, event)
    }
  }

  /** The four cells of a line, when there are four. */
  function Cells(line: string): Option<Row> {
    var cells := Split(line, '\t');
    if |cells| == 4 then Some(Row(cells[0], cells[1], cells[2], cells[3])) else None
  }

  predicate KnownRow(r: Row) {
    r.state in STATES && r.event in EVENTS
  }

  /** What a row may say about its transition. */
  predicate TransitionOk(r: Row) {
    && (r.next == "NONE" || r.next in STATES)
    && (r.handler == "NONE" || "h_" <= r.handler)
    && (r.next == "NONE" ==> r.handler == "NONE" || r.handler == PANIC_HANDLER)
    && (r.next != "NONE" ==> r.handler != "NONE" && r.handler != PANIC_HANDLER)
  }

  // ----- The lint -------------------------------------------------------------------

  datatype Finding =
    | EmptyFile
    | BadHeader
    | WrongCellCount(line: nat, count: nat)
    | UnknownState(line: nat, name: string)
    | UnknownEvent(line: nat, name: string)
    | BadNextState(line: nat)
    | BadHandler(line: nat)
    | NoneWithHandler(line: nat)
    | NextWithoutHandler(line: nat)
    | PanicWithNext(line: nat)
    | Duplicate(line: nat, key: (string, string))
    | Missing(key: (string, string))

  function OnlyIf<T>(c: bool, x: T): seq<T> {
    if c then [x] else []
  }

  /** _parse_row on four cells: the findings of _check_state_event, _check_shape and _check_consistency */
  function RowFindings(line: nat, r: Row): (f: seq<Finding>)
    ensures f == [] <==> KnownRow(r) && TransitionOk(r)
  {
    OnlyIf(r.state !in STATES, UnknownState(line, r.state))
    + OnlyIf(r.event !in EVENTS, UnknownEvent(line, r.event))
    + OnlyIf(r.next != "NONE" && r.next !in STATES, BadNextState(line))
    + OnlyIf(r.handler != "NONE" && !("h_" <= r.handler), BadHandler(line))
    + OnlyIf(r.next == "NONE" && r.handler !in ["NONE", PANIC_HANDLER], NoneWithHandler(line))
    + OnlyIf(r.next != "NONE" && r.handler == "NONE", NextWithoutHandler(line))
    + OnlyIf(r.handler == PANIC_HANDLER && r.next != "NONE", PanicWithNext(line))
  }

  /** Some earlier line has the same state and event. */
  ghost predicate SeenBefore(lines: seq<string>, i: nat)
    requires i < |lines| && Cells(lines[i]).Some?
  {
    exists j :: 0 <= j < i && Cells(lines[j]).Some? && Cells(lines[j]).value.Key() == Cells(lines[i]).value.Key()
  }

  /** The findings of line i of the data, which is line i + 2 of the file. */
  ghost function LineFindings(lines: seq<string>, i: nat): seq<Finding>
    requires i < |lines|
  {
    var cells := Cells(lines[i]);
    if cells.None? then [WrongCellCount(i + 2, |Split(lines[i], '\t')|)]
    else RowFindings(i + 2, cells.value) + OnlyIf(SeenBefore(lines, i), Duplicate(i + 2, cells.value.Key()))
  }

  ghost function FindingsUpTo(lines: seq<string>, n: nat): seq<Finding>
    requires n <= |lines|
  {
    if n == 0 then [] else FindingsUpTo(lines, n - 1) + LineFindings(lines, n - 1)
  }

  /** The cells of the table that no row covers, in alphabetical order. */
  function MissingCells(seen: set<(string, string)>, n: nat): seq<Finding>
    requires n <= N_CELLS
  {
    if n == 0 then []
    else MissingCells(seen, n - 1) + OnlyIf(CellKey(Sorted(n - 1)) !in seen, Missing(CellKey(Sorted(n - 1))))
  }

  lemma {:induction false} NoneMissing(seen: set<(string, string)>, n: nat)
    requires n <= N_CELLS
    ensures MissingCells(seen, n) == [] <==> forall k :: 0 <= k < n ==> CellKey(Sorted(k)) in seen
  {
    hide CellKey, Sorted;
    if n > 0 {
      NoneMissing(seen, n - 1);
    }
  }

  /** The states and the events by name: sorted() on the missing cells. */
  const STATE_ORDER: seq<nat> := [3, 0, 5, 4, 2, 1]
  const EVENT_ORDER: seq<nat> := [7, 8, 6, 0, 5, 2, 1, 3, 4]

  /** The cell at place k of that order. */
  function Sorted(k: nat): (c: nat)
    requires k < N_CELLS
    ensures c < N_CELLS
  {
    STATE_ORDER[k / N_EVENTS] * N_EVENTS + EVENT_ORDER[k % N_EVENTS]
  }

  /** The place of a cell in that order. */
  function Place(c: nat): (k: nat)
    requires c < N_CELLS
    ensures k < N_CELLS
  {
    [1, 5, 4, 0, 3, 2][c / N_EVENTS] * N_EVENTS + [3, 6, 5, 7, 8, 4, 2, 0, 1][c % N_EVENTS]
  }

  lemma SortedReachesAll(c: nat)
    requires c < N_CELLS
    ensures Sorted(Place(c)) == c
  {
    var s, e := c / N_EVENTS, c % N_EVENTS;
    var s', e': nat := [1, 5, 4, 0, 3, 2][s], [3, 6, 5, 7, 8, 4, 2, 0, 1][e];
    assert (s' * N_EVENTS + e') / N_EVENTS == s' && (s' * N_EVENTS + e') % N_EVENTS == e';
    assert STATE_ORDER[s'] == s && EVENT_ORDER[e'] == e;
  }

  /** One name comes before another: they first differ at p. */
  predicate Before(a: string, b: string, p: nat) {
    p < |a| && p < |b| && a[..p] == b[..p] && a[p] < b[p]
  }

  lemma OrderIsAlphabetical()
    ensures Before(STATES[STATE_ORDER[0]], STATES[STATE_ORDER[1]], 2)
            && Before(STATES[STATE_ORDER[1]], STATES[STATE_ORDER[2]], 2)
    ensures Before(STATES[STATE_ORDER[2]], STATES[STATE_ORDER[3]], 4)
            && Before(STATES[STATE_ORDER[3]], STATES[STATE_ORDER[4]], 4)
    ensures Before(STATES[STATE_ORDER[4]], STATES[STATE_ORDER[5]], 2)
    ensures Before(EVENTS[EVENT_ORDER[0]], EVENTS[EVENT_ORDER[1]], 5)
            && Before(EVENTS[EVENT_ORDER[1]], EVENTS[EVENT_ORDER[2]], 5)
    ensures Before(EVENTS[EVENT_ORDER[2]], EVENTS[EVENT_ORDER[3]], 2)
            && Before(EVENTS[EVENT_ORDER[3]], EVENTS[EVENT_ORDER[4]], 2)
    ensures Before(EVENTS[EVENT_ORDER[4]], EVENTS[EVENT_ORDER[5]], 8)
            && Before(EVENTS[EVENT_ORDER[5]], EVENTS[EVENT_ORDER[6]], 16)
    ensures Before(EVENTS[EVENT_ORDER[6]], EVENTS[EVENT_ORDER[7]], 8)
            && Before(EVENTS[EVENT_ORDER[7]], EVENTS[EVENT_ORDER[8]], 9)
  {
  }

  /** The state and event of the k-th compiled cell. */
  function CellKey(k: nat): (string, string)
    requires k < N_CELLS
  {
    (STATES[k / N_EVENTS], EVENTS[k % N_EVENTS])
  }

  ghost function KeysOf(lines: seq<string>, n: nat): set<(string, string)>
    requires n <= |lines|
  {
    if n == 0 then {}
    else KeysOf(lines, n - 1) + (if Cells(lines[n - 1]).Some? then {Cells(lines[n - 1]).value.Key()} else {})
  }

  lemma {:induction false} KeysAreSeen(lines: seq<string>, n: nat)
    requires n <= |lines|
    ensures forall key :: key in KeysOf(lines, n) <==>
            exists j :: 0 <= j < n && Cells(lines[j]).Some? && Cells(lines[j]).value.Key() == key
  {
    hide Cells;
    if n > 0 {
      KeysAreSeen(lines, n - 1);
    }
  }

  lemma NothingSeen()
    ensures forall lines :: KeysOf(lines, 0) == {}
  {
  }

  lemma SeenIsSeenBefore(lines: seq<string>, i: nat)
    requires i < |lines| && Cells(lines[i]).Some?
    ensures Cells(lines[i]).value.Key() in KeysOf(lines, i) <==> SeenBefore(lines, i)
  {
    hide Cells, KeysOf;
    KeysAreSeen(lines, i);
  }

  function NonBlank(lines: seq<string>): (r: seq<string>)
    ensures forall l :: l in r <==> l in lines && !Blank(l)
  {
    if lines == [] then [] else (if Blank(lines[0]) then [] else [lines[0]]) + NonBlank(lines[1..])
  }

  /** The lint's findings: about the header alone, or about every line and then the whole. */
  ghost function LintSpec(text: string): seq<Finding> {
    var rows := NonBlank(Split(text, '\n'));
    if rows == [] then [EmptyFile]
    else if Split(rows[0], '\t') != HEADER then [BadHeader]
    else FindingsUpTo(rows[1..], |rows| - 1) + MissingCells(KeysOf(rows[1..], |rows| - 1), N_CELLS)
  }

  /** _lint */
  method Lint(text: string) returns (findings: seq<Finding>)
    ensures findings == LintSpec(text)
  {
    hide LineFindings, KeysOf, MissingCells, Split, NonBlank;
    NothingSeen();
    var rows := NonBlank(Split(text, '\n'));
    if rows == [] {
      return [EmptyFile];
    }
    if Split(rows[0], '\t') != HEADER {
      return [BadHeader];
    }
    findings := [];
    var seen: set<(string, string)> := {};
    var lines := rows[1..];
    for i := 0 to |lines|
      invariant findings == FindingsUpTo(lines, i)
      invariant seen == KeysOf(lines, i)
    {
      var found;
      found, seen := LintLine(lines, i, seen);
      findings := findings + found;
    }
    findings := findings + MissingCells(seen, N_CELLS);
  }

  /** The loop body of _lint: what one line raises, and the keys seen with it. */
  method LintLine(lines: seq<string>, i: nat, seen: set<(string, string)>)
    returns (found: seq<Finding>, seen': set<(string, string)>)
    requires i < |lines| && seen == KeysOf(lines, i)
    ensures found == LineFindings(lines, i) && seen' == KeysOf(lines, i + 1)
  {
    hide Cells, RowFindings, Split, SeenBefore;
    var cells := Cells(lines[i]);
    if cells.None? {
      return [WrongCellCount(i + 2, |Split(lines[i], '\t')|)], seen;
    }
    var key := cells.value.Key();
    found := RowFindings(i + 2, cells.value);
    SeenIsSeenBefore(lines, i);
    if key in seen {
      found := found + [Duplicate(i + 2, key)];
    }
    seen' := seen + {key};
  }

  // ----- What a silent lint means -----------------------------------------------------

  /** No two rows share a state and event. */
  predicate DistinctKeys(rows: seq<Row>) {
    forall i, j :: 0 <= i < j < |rows| ==> rows[i].Key() != rows[j].Key()
  }

  predicate KnownRows(rows: seq<Row>) {
    forall i :: 0 <= i < |rows| ==> KnownRow(rows[i])
  }

  /** Known rows with sensible transitions, no state and event twice. */
  ghost predicate SensibleRows(rows: seq<Row>) {
    && KnownRows(rows) && (forall i :: 0 <= i < |rows| ==> TransitionOk(rows[i]))
    && DistinctKeys(rows)
  }

  /** Every state and event has a row. */
  ghost predicate CoversAll(rows: seq<Row>) {
    forall k :: 0 <= k < N_CELLS ==> HasRow(rows, k)
  }

  ghost predicate HasRow(rows: seq<Row>, k: nat)
    requires k < N_CELLS
  {
    exists i :: 0 <= i < |rows| && rows[i].Key() == CellKey(k)
  }

  /** A complete and unambiguous written table. */
  ghost predicate CleanRows(rows: seq<Row>) {
    SensibleRows(rows) && CoversAll(rows)
  }

  predicate AllCells(lines: seq<string>) {
    forall i :: 0 <= i < |lines| ==> Cells(lines[i]).Some?
  }

  function RowsOf(lines: seq<string>): (rows: seq<Row>)
    requires AllCells(lines)
    ensures |rows| == |lines|
  {
    seq(|lines|, i requires 0 <= i < |lines| => Cells(lines[i]).value)
  }

  /** A line that raises nothing: four cells of a sensible row, for a state and event not seen before. */
  ghost predicate GoodLine(lines: seq<string>, i: nat)
    requires i < |lines|
  {
    var cells := Cells(lines[i]);
    cells.Some? && KnownRow(cells.value) && TransitionOk(cells.value) && !SeenBefore(lines, i)
  }

  lemma GoodLineIsSilent(lines: seq<string>, i: nat)
    requires i < |lines|
    ensures LineFindings(lines, i) == [] <==> GoodLine(lines, i)
  {
    hide Cells, KnownRow, TransitionOk, SeenBefore, Split;
    if Cells(lines[i]).Some? {
      var findings := RowFindings(i + 2, Cells(lines[i]).value);
      hide RowFindings;
      assert findings == [] <==> KnownRow(Cells(lines[i]).value) && TransitionOk(Cells(lines[i]).value);
    }
  }

  lemma {:induction false} SilentLines(lines: seq<string>, n: nat)
    requires n <= |lines|
    ensures FindingsUpTo(lines, n) == [] <==> forall i :: 0 <= i < n ==> GoodLine(lines, i)
  {
    hide GoodLine, LineFindings;
    if n > 0 {
      SilentLines(lines, n - 1);
      GoodLineIsSilent(lines, n - 1);
    }
  }

  /** Good lines are four-cell lines whose rows are sensible and distinct. */
  lemma GoodLinesAre(lines: seq<string>)
    ensures (forall i :: 0 <= i < |lines| ==> GoodLine(lines, i)) <==> AllCells(lines) && SensibleRows(RowsOf(lines))
  {
    hide Cells, KnownRow, TransitionOk;
    if AllCells(lines) {
      var rows := RowsOf(lines);
      assert forall i :: 0 <= i < |lines| ==> rows[i] == Cells(lines[i]).value;
      if forall i :: 0 <= i < |lines| ==> GoodLine(lines, i) {
        forall i, j | 0 <= i < j < |rows| ensures rows[i].Key() != rows[j].Key() {
          assert GoodLine(lines, j);
        }
        forall i | 0 <= i < |rows| ensures KnownRow(rows[i]) && TransitionOk(rows[i]) {
          assert GoodLine(lines, i);
        }
      } else {
        var i :| 0 <= i < |lines| && !GoodLine(lines, i);
        assert SeenBefore(lines, i) || !KnownRow(rows[i]) || !TransitionOk(rows[i]);
        assert !SensibleRows(rows);
      }
    } else {
      var i :| 0 <= i < |lines| && Cells(lines[i]).None?;
      assert !GoodLine(lines, i);
    }
  }

  lemma CoverageIs(lines: seq<string>)
    requires AllCells(lines)
    ensures MissingCells(KeysOf(lines, |lines|), N_CELLS) == [] <==> CoversAll(RowsOf(lines))
  {
    hide Cells, KeysOf, CellKey, HasRow;
    var seen := KeysOf(lines, |lines|);
    NoneMissing(seen, N_CELLS);
    hide MissingCells, Sorted, Place;
    forall k | 0 <= k < N_CELLS ensures CellKey(k) in seen <==> HasRow(RowsOf(lines), k) {
      SeenIsRow(lines, k);
    }
    if MissingCells(seen, N_CELLS) == [] {
      forall c | 0 <= c < N_CELLS ensures CellKey(c) in seen {
        SortedReachesAll(c);
        assert CellKey(Sorted(Place(c))) in seen;
      }
    }
  }

  lemma SeenIsRow(lines: seq<string>, k: nat)
    requires AllCells(lines) && k < N_CELLS
    ensures CellKey(k) in KeysOf(lines, |lines|) <==> HasRow(RowsOf(lines), k)
  {
    hide Cells, KeysOf, CellKey;
    KeysAreSeen(lines, |lines|);
    var rows := RowsOf(lines);
    assert forall i :: 0 <= i < |lines| ==> rows[i] == Cells(lines[i]).value;
  }

  /** The lint reports nothing exactly when the header is right and the rows are a complete, unambiguous table. */
  lemma LintSilentIff(text: string)
    ensures LintSpec(text) == [] <==>
            var rows := NonBlank(Split(text, '\n'));
            rows != [] && Split(rows[0], '\t') == HEADER && AllCells(rows[1..]) && CleanRows(RowsOf(rows[1..]))
  {
    hide Cells, Split, NonBlank, FindingsUpTo, MissingCells, KeysOf, GoodLine, SensibleRows, CoversAll, AllCells,
         RowsOf;
    var rows := NonBlank(Split(text, '\n'));
    if rows != [] && Split(rows[0], '\t') == HEADER {
      var lines := rows[1..];
      SilentLines(lines, |lines|);
      GoodLinesAre(lines);
      if AllCells(lines) {
        CoverageIs(lines);
      }
    }
  }

  // ----- The compiled table -----------------------------------------------------------

  datatype Entry = Entry(next: nat, handler: nat)

  /** read_table, given the section's bytes and the table's address less the section's */
  method ReadTable(rodata: seq<byte>, offset: int) returns (r: Result<seq<Entry>>)
    ensures r.Ok? <==> 0 <= offset && offset + N_CELLS * TRANS_SIZE <= |rodata|
    ensures r.Ok? ==> |r.value| == N_CELLS
    ensures r.Ok? ==> forall i :: 0 <= i < N_CELLS ==>
              r.value[i] == Entry(UnpackLE32(rodata, offset + i * TRANS_SIZE),
                                  UnpackLE64(rodata, offset + i * TRANS_SIZE + 8))
  {
    if offset < 0 || offset + N_CELLS * TRANS_SIZE > |rodata| {
      return Err("bounds outside .rodata");
    }
    var entries: seq<Entry> := [];
    for i := 0 to N_CELLS
      invariant |entries| == i
      invariant forall k :: 0 <= k < i ==>
                  entries[k] == Entry(UnpackLE32(rodata, offset + k * TRANS_SIZE),
                                      UnpackLE64(rodata, offset + k * TRANS_SIZE + 8))
    {
      var base := offset + i * TRANS_SIZE;
      entries := entries + [Entry(UnpackLE32(rodata, base), UnpackLE64(rodata, base + 8))];
    }
    r := Ok(entries);
  }

  // ----- Reading the written table for the comparison -----------------------------------

  /** _significant_lines */
  function Significant(lines: seq<string>): seq<string> {
    if lines == [] then []
    else (if Blank(lines[0]) || "#" <= lines[0] then [] else [lines[0]]) + Significant(lines[1..])
  }

  function Lower(s: string): string {
    seq(|s|, i requires 0 <= i < |s| => if 'A' <= s[i] <= 'Z' then (s[i] as int + 32) as char else s[i])
  }

  /** parse_spec */
  function ParseSpec(text: string): Result<seq<Row>> {
    if !IsAscii(text) then Err("not ASCII")
    else
      var lines := Significant(Split(text, '\n'));
      if lines == [] then Err("empty TSV")
      else if Lower(Split(lines[0], '\t')[0]) != "state" then Err("expected TSV header")
      else if AllCells(lines[1..]) then Ok(RowsOf(lines[1..]))
      else Err("malformed row")
  }

  lemma {:induction false} NoCommentsDropped(lines: seq<string>)
    requires forall l :: l in NonBlank(lines) ==> !("#" <= l)
    ensures Significant(lines) == NonBlank(lines)
  {
    if lines != [] {
      assert forall l :: l in NonBlank(lines[1..]) ==> l in NonBlank(lines);
      NoCommentsDropped(lines[1..]);
    }
  }

  /** Text before the first separator starts the line. */
  lemma FirstCellStarts(line: string)
    requires Split(line, '\t')[0] != ""
    ensures line != "" && line[0] == Split(line, '\t')[0][0]
  {
  }

  lemma KnownNamesStart(name: string)
    requires name in STATES || name == "State"
    ensures name != "" && name[0] == 'S' && name != "NONE"
  {
  }

  lemma HeaderIsRead()
    ensures Lower("State") == "state"
  {
  }

  /** A table that passes the lint is read by the comparison as exactly the rows that were linted. */
  lemma SameRowsAreCompared(text: string)
    requires LintSpec(text) == [] && IsAscii(text)
    ensures
      var rows := NonBlank(Split(text, '\n'));
      rows != [] && AllCells(rows[1..]) && ParseSpec(text) == Ok(RowsOf(rows[1..])) && CleanRows(RowsOf(rows[1..]))
  {
    LintSilentIff(text);
    hide CoversAll, LintSpec, NonBlank, IsAscii, Lower, Significant, Split;
    var rows := NonBlank(Split(text, '\n'));
    forall i | 0 <= i < |rows| ensures !("#" <= rows[i]) {
      if i > 0 {
        assert rows[i] == rows[1..][i - 1];
        assert KnownRow(RowsOf(rows[1..])[i - 1]);
      }
      KnownNamesStart(Split(rows[i], '\t')[0]);
      FirstCellStarts(rows[i]);
    }
    NoCommentsDropped(Split(text, '\n'));
    HeaderIsRead();
  }

  // ----- The comparison ---------------------------------------------------------------

  /** _row_index on a row of known names */
  function RowIndex(r: Row): (k: nat)
    requires KnownRow(r)
    ensures k < N_CELLS
  {
    Position(STATES, r.state).value * N_EVENTS + Position(EVENTS, r.event).value
  }

  /** A row's index is that of the cell of its state and event. */
  lemma RowIndexNames(r: Row)
    requires KnownRow(r)
    ensures CellKey(RowIndex(r)) == r.Key()
  {
    hide CellKey, STATES, EVENTS, Position;
    NamesAreDistinct();
    CellAt(Position(STATES, r.state).value, Position(EVENTS, r.event).value);
  }

  lemma CellAt(s: nat, e: nat)
    requires s < N_STATES && e < N_EVENTS
    ensures s * N_EVENTS + e < N_CELLS && CellKey(s * N_EVENTS + e) == (STATES[s], EVENTS[e])
  {
    hide STATES, EVENTS;
    assert (s * N_EVENTS + e) / N_EVENTS == s && (s * N_EVENTS + e) % N_EVENTS == e;
  }

  /** Distinct cells have distinct states and events. */
  lemma CellKeyIsInjective(j: nat, k: nat)
    requires j < N_CELLS && k < N_CELLS && CellKey(j) == CellKey(k)
    ensures j == k
  {
    NamesAreDistinct();
    hide STATES, EVENTS;
    assert j / N_EVENTS == k / N_EVENTS && j % N_EVENTS == k % N_EVENTS;
  }

  datatype Verdict =
    | Pass | UnknownStateName | UnknownEventName | NextMismatch | NoSuchHandler | HandlerMismatch | KeyError

  /** The compiled cell is what the row asks for. */
  predicate Agrees(r: Row, e: Entry, syms: map<string, nat>) {
    && (if r.next == "NONE" then e.next == NEXT_NONE
        else Position(STATES, r.next) == Some(e.next))
    && (if r.handler == "NONE" then e.handler == 0
        else r.handler in syms && e.handler == syms[r.handler])
  }

  /** _check_one; an unknown next state is a KeyError */
  function CheckOne(r: Row, e: Entry, syms: map<string, nat>): (v: Verdict)
    ensures v == Pass <==> Agrees(r, e, syms)
  {
    if r.next != "NONE" && r.next !in STATES then KeyError
    else
      var expected := if r.next == "NONE" then NEXT_NONE else Position(STATES, r.next).value;
      if e.next != expected then NextMismatch
      else if r.handler == "NONE" then (if e.handler == 0 then Pass else HandlerMismatch)
      else if r.handler !in syms then NoSuchHandler
      else if e.handler == syms[r.handler] then Pass
      else HandlerMismatch
  }

  /** The row names a cell, and the compiled cell is what it asks for. */
  predicate RowAgrees(r: Row, entries: seq<Entry>, syms: map<string, nat>)
    requires |entries| == N_CELLS
  {
    KnownRow(r) && Agrees(r, entries[RowIndex(r)], syms)
  }

  /** _validate_row */
  function ValidateRow(r: Row, entries: seq<Entry>, syms: map<string, nat>): (v: Verdict)
    requires |entries| == N_CELLS
    ensures v == Pass <==> RowAgrees(r, entries, syms)
  {
    if r.state !in STATES then UnknownStateName
    else if r.event !in EVENTS then UnknownEventName
    else CheckOne(r, entries[RowIndex(r)], syms)
  }

  datatype Comparison = WrongRowCount | Crashed | Compared(findings: seq<Verdict>)

  /** Every row agrees with the cell it names, and there are as many rows as cells. */
  predicate Silent(rows: seq<Row>, entries: seq<Entry>, syms: map<string, nat>)
    requires |entries| == N_CELLS
  {
    |rows| == N_CELLS && forall i :: 0 <= i < |rows| ==> RowAgrees(rows[i], entries, syms)
  }

  /** What row i of the comparison comes to. */
  function VerdictAt(rows: seq<Row>, entries: seq<Entry>, syms: map<string, nat>, i: nat): Verdict
    requires |entries| == N_CELLS && i < |rows|
  {
    ValidateRow(rows[i], entries, syms)
  }

  /** The mismatches of the first n rows, in order. */
  function Mismatches(rows: seq<Row>, entries: seq<Entry>, syms: map<string, nat>, n: nat): seq<Verdict>
    requires |entries| == N_CELLS && n <= |rows|
  {
    if n == 0 then []
    else
      var v := VerdictAt(rows, entries, syms, n - 1);
      Mismatches(rows, entries, syms, n - 1) + OnlyIf(v != Pass, v)
  }

  lemma {:induction false} NoMismatches(rows: seq<Row>, entries: seq<Entry>, syms: map<string, nat>, n: nat)
    requires |entries| == N_CELLS && n <= |rows|
    ensures Mismatches(rows, entries, syms, n) == [] <==>
            forall i :: 0 <= i < n ==> VerdictAt(rows, entries, syms, i) == Pass
  {
    hide VerdictAt;
    if n > 0 {
      NoMismatches(rows, entries, syms, n - 1);
    }
  }

  /** Some row makes the comparison raise a KeyError. */
  ghost predicate Crashes(rows: seq<Row>, entries: seq<Entry>, syms: map<string, nat>)
    requires |entries| == N_CELLS
  {
    exists i :: 0 <= i < |rows| && VerdictAt(rows, entries, syms, i) == KeyError
  }

  ghost function CompareSpec(rows: seq<Row>, entries: seq<Entry>, syms: map<string, nat>): Comparison
    requires |entries| == N_CELLS
  {
    if |rows| != N_CELLS then WrongRowCount
    else if Crashes(rows, entries, syms) then Crashed
    else Compared(Mismatches(rows, entries, syms, |rows|))
  }

  /** _validate */
  method Validate(rows: seq<Row>, entries: seq<Entry>, syms: map<string, nat>) returns (c: Comparison)
    requires |entries| == N_CELLS
    ensures c == CompareSpec(rows, entries, syms)
  {
    hide VerdictAt, Agrees, KnownRow, RowIndex, STATES, EVENTS;
    if |rows| != N_CELLS {
      return WrongRowCount;
    }
    var findings: seq<Verdict> := [];
    for i := 0 to |rows|
      invariant forall k :: 0 <= k < i ==> VerdictAt(rows, entries, syms, k) != KeyError
      invariant findings == Mismatches(rows, entries, syms, i)
    {
      var v := VerdictAt(rows, entries, syms, i);
      if v == KeyError {
        return Crashed;
      }
      if v != Pass {
        findings := findings + [v];
      }
    }
    c := Compared(findings);
  }

  /** The comparison reports nothing exactly when there are as many rows as cells and each agrees with its cell. */
  lemma ComparisonSilentIff(rows: seq<Row>, entries: seq<Entry>, syms: map<string, nat>)
    requires |entries| == N_CELLS
    ensures CompareSpec(rows, entries, syms) == Compared([]) <==> Silent(rows, entries, syms)
  {
    NoMismatches(rows, entries, syms, |rows|);
    hide ValidateRow, RowAgrees, Mismatches;
    assert forall i :: 0 <= i < |rows| ==>
           (VerdictAt(rows, entries, syms, i) == Pass <==> RowAgrees(rows[i], entries, syms));
  }

  // ----- The two together -------------------------------------------------------------

  function Indices(rows: seq<Row>): (r: seq<nat>)
    requires forall i :: 0 <= i < |rows| ==> KnownRow(rows[i])
    ensures |r| == |rows| && forall i :: 0 <= i < |r| ==> r[i] == RowIndex(rows[i])
  {
    seq(|rows|, i requires 0 <= i < |rows| => RowIndex(rows[i]))
  }

  function Values(s: seq<nat>): (r: set<nat>)
    ensures forall x :: x in r <==> x in s
  {
    if s == [] then {} else Values(s[..|s| - 1]) + {s[|s| - 1]}
  }

  lemma {:induction false} DistinctValues(s: seq<nat>)
    requires Distinct(s)
    ensures |Values(s)| == |s|
  {
    if s != [] {
      DistinctValues(s[..|s| - 1]);
    }
  }

  function Below(n: nat): (r: set<nat>)
    ensures forall x :: x in r <==> 0 <= x < n
    ensures |r| == n
  {
    if n == 0 then {} else Below(n - 1) + {n - 1}
  }

  lemma SubsetOfSameSize<T>(a: set<T>, b: set<T>)
    requires a <= b && |a| == |b|
    ensures a == b
  {
    assert |b - a| == |b| - |a|;
    assert b == a + (b - a);
  }

  /** Every number below n occurs. */
  predicate HasAll(s: seq<nat>, n: nat) {
    forall k :: 0 <= k < n ==> k in s
  }

  /** The pigeonhole principle: n distinct numbers below n are all of them, and covering them all needs n. */
  lemma Pigeonhole(s: seq<nat>, n: nat)
    requires Distinct(s) && forall i :: 0 <= i < |s| ==> s[i] < n
    ensures |s| == n <==> HasAll(s, n)
  {
    DistinctValues(s);
    if |s| == n {
      SubsetOfSameSize(Values(s), Below(n));
    }
    if HasAll(s, n) {
      assert Values(s) == Below(n);
    }
  }

  lemma NamesOfRows(rows: seq<Row>)
    requires KnownRows(rows)
    ensures forall i :: 0 <= i < |rows| ==> CellKey(RowIndex(rows[i])) == rows[i].Key()
  {
    hide KnownRow, RowIndex, CellKey;
    forall i | 0 <= i < |rows| ensures CellKey(RowIndex(rows[i])) == rows[i].Key() {
      RowIndexNames(rows[i]);
    }
  }

  lemma IndicesAreDistinct(rows: seq<Row>)
    requires KnownRows(rows) && DistinctKeys(rows)
    ensures Distinct(Indices(rows)) && forall i :: 0 <= i < |rows| ==> Indices(rows)[i] < N_CELLS
  {
    NamesOfRows(rows);
    hide KnownRow, RowIndex, TransitionOk;
  }

  /** For distinct rows, there are as many as cells exactly when every cell has its row. */
  lemma CountIsCoverage(rows: seq<Row>)
    requires KnownRows(rows) && DistinctKeys(rows)
    ensures |rows| == N_CELLS <==> CoversAll(rows)
  {
    IndicesAreDistinct(rows);
    var at := Indices(rows);
    Pigeonhole(at, N_CELLS);
    IndicesCover(rows);
  }

  lemma IndicesCover(rows: seq<Row>)
    requires KnownRows(rows)
    ensures HasAll(Indices(rows), N_CELLS) <==> CoversAll(rows)
  {
    NamesOfRows(rows);
    hide KnownRow, RowIndex, CellKey, TransitionOk, STATES, EVENTS;
    var at := Indices(rows);
    if HasAll(at, N_CELLS) {
      forall k | 0 <= k < N_CELLS ensures HasRow(rows, k) {
        assert k in at;
        var i :| 0 <= i < |at| && at[i] == k;
        assert rows[i].Key() == CellKey(RowIndex(rows[i]));
      }
    }
    if CoversAll(rows) {
      forall k | 0 <= k < N_CELLS ensures k in at {
        assert HasRow(rows, k);
        var i :| 0 <= i < |rows| && rows[i].Key() == CellKey(k);
        CellKeyIsInjective(RowIndex(rows[i]), k);
        assert at[i] == k;
      }
    }
  }

  /** The compiled cell k is the one that its only row asks for. */
  ghost predicate CellIsSpecified(rows: seq<Row>, entries: seq<Entry>, syms: map<string, nat>, k: nat)
    requires |entries| == N_CELLS && k < N_CELLS
  {
    exists i :: 0 <= i < |rows| && rows[i].Key() == CellKey(k) && Agrees(rows[i], entries[k], syms)
                && forall j :: 0 <= j < |rows| && rows[j].Key() == CellKey(k) ==> j == i
  }

  /**
   * On rows that pass the lint, the comparison is silent exactly when each of the compiled cells equals its
   * unique row.
   */
  lemma ChecksTogetherAreExact(rows: seq<Row>, entries: seq<Entry>, syms: map<string, nat>)
    requires |entries| == N_CELLS && CleanRows(rows)
    ensures Silent(rows, entries, syms) <==> forall k :: 0 <= k < N_CELLS ==> CellIsSpecified(rows, entries, syms, k)
  {
    CountIsCoverage(rows);
    hide Agrees, RowIndex, CellKey, TransitionOk, CellIsSpecified, KnownRow, STATES, EVENTS;
    if Silent(rows, entries, syms) {
      forall k | 0 <= k < N_CELLS ensures CellIsSpecified(rows, entries, syms, k) {
        SilentFixesCell(rows, entries, syms, k);
      }
    }
    if forall k :: 0 <= k < N_CELLS ==> CellIsSpecified(rows, entries, syms, k) {
      forall i | 0 <= i < |rows| ensures Agrees(rows[i], entries[RowIndex(rows[i])], syms) {
        SpecifiedPasses(rows, entries, syms, i);
      }
    }
  }

  /** Both checks, from the same text: nothing reported by either means that every compiled cell is its unique row. */
  lemma SilentChecksFixTheTable(text: string, entries: seq<Entry>, syms: map<string, nat>)
    requires |entries| == N_CELLS && LintSpec(text) == []
    requires ParseSpec(text).Ok? && CompareSpec(ParseSpec(text).value, entries, syms) == Compared([])
    ensures forall k :: 0 <= k < N_CELLS ==> CellIsSpecified(ParseSpec(text).value, entries, syms, k)
  {
    SameRowsAreCompared(text);
    hide ParseSpec, LintSpec, CompareSpec, Silent, CellIsSpecified, CleanRows;
    ComparisonSilentIff(ParseSpec(text).value, entries, syms);
    ChecksTogetherAreExact(ParseSpec(text).value, entries, syms);
  }

  lemma SilentFixesCell(rows: seq<Row>, entries: seq<Entry>, syms: map<string, nat>, k: nat)
    requires |entries| == N_CELLS && DistinctKeys(rows) && CoversAll(rows) && Silent(rows, entries, syms) && k < N_CELLS
    ensures CellIsSpecified(rows, entries, syms, k)
  {
    NamesOfRows(rows);
    hide Agrees, RowIndex, CellKey, KnownRow, STATES, EVENTS;
    assert HasRow(rows, k);
    var i :| 0 <= i < |rows| && rows[i].Key() == CellKey(k);
    CellKeyIsInjective(RowIndex(rows[i]), k);
  }

  lemma SpecifiedPasses(rows: seq<Row>, entries: seq<Entry>, syms: map<string, nat>, i: nat)
    requires |entries| == N_CELLS && SensibleRows(rows) && i < |rows|
    requires CellIsSpecified(rows, entries, syms, RowIndex(rows[i]))
    ensures Agrees(rows[i], entries[RowIndex(rows[i])], syms)
  {
    NamesOfRows(rows);
    hide Agrees, RowIndex, CellKey, TransitionOk, KnownRow, STATES, EVENTS;
  }

  /**
   * A silent comparison fixes every compiled cell exactly when no two of the rows share a state and event: with
   * as many rows as cells, distinct rows leave none uncovered.
   */
  lemma ComparisonAloneIff(rows: seq<Row>, entries: seq<Entry>, syms: map<string, nat>)
    requires |entries| == N_CELLS && Silent(rows, entries, syms)
    ensures (forall k :: 0 <= k < N_CELLS ==> CellIsSpecified(rows, entries, syms, k)) <==> DistinctKeys(rows)
  {
    hide Agrees, RowIndex, CellKey, KnownRow, STATES, EVENTS, CellIsSpecified;
    if DistinctKeys(rows) {
      CountIsCoverage(rows);
      forall k | 0 <= k < N_CELLS ensures CellIsSpecified(rows, entries, syms, k) {
        SilentFixesCell(rows, entries, syms, k);
      }
    }
    if forall k :: 0 <= k < N_CELLS ==> CellIsSpecified(rows, entries, syms, k) {
      forall i, j | 0 <= i < j < |rows| ensures rows[i].Key() != rows[j].Key() {
        OnlyRowOfCell(rows, entries, syms, i, j);
      }
    }
  }

  lemma OnlyRowOfCell(rows: seq<Row>, entries: seq<Entry>, syms: map<string, nat>, i: nat, j: nat)
    requires |entries| == N_CELLS && KnownRows(rows) && i < j < |rows|
    requires CellIsSpecified(rows, entries, syms, RowIndex(rows[i]))
    ensures rows[i].Key() != rows[j].Key()
  {
    NamesOfRows(rows);
    hide Agrees, RowIndex, CellKey, KnownRow, STATES, EVENTS;
  }

  /**
   * The comparison alone says nothing about most cells: one row repeated passes against a table that is wrong
   * elsewhere.
   */
  lemma ComparisonAloneIsNotEnough()
    ensures exists rows, entries, syms ::
              |entries| == N_CELLS && Silent(rows, entries, syms)
              && forall k :: 1 <= k < N_CELLS ==> !CellIsSpecified(rows, entries, syms, k)
  {
    var row := Row("S_INIT", "E_START", "NONE", "NONE");
    var rows := seq(N_CELLS, i => row);
    var entries := seq(N_CELLS, i => Entry(NEXT_NONE, 0));
    var syms: map<string, nat> := map[];
    assert KnownRow(row) && RowIndex(row) == 0;
    RowIndexNames(row);
    hide CellKey, RowIndex;
    forall k | 1 <= k < N_CELLS ensures !CellIsSpecified(rows, entries, syms, k) {
      if row.Key() == CellKey(k) {
        CellKeyIsInjective(0, k);
      }
    }
    assert Silent(rows, entries, syms);
  }
}
