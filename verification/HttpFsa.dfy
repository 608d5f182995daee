/**
 * The HTTP request state machine: the 20 x 9 transition table, the exact language it accepts and
 * the exact actions it raises while accepting.
 */
module HttpFsa {
  import opened Bytes

  datatype State =
    | S_METHOD | S_M_SP | S_URI | S_U_SP | S_VH | S_VT1 | S_VT2 | S_VP | S_VSLASH | S_VMAJ
    | S_VDOT | S_VMIN | S_RL_CR | S_HDR_ST | S_HDR_NM | S_HDR_VL | S_HDR_CR | S_END_CR | S_DONE | S_ERROR

  datatype Class = ALPHA | DIGIT | SP | CR | LF | COLON | SLASH | DOT | OTHER

  /** Action codes; 0 is none. */
  const URI_START := 1
  const URI_END := 2
  const VER_MINOR := 3
  const HDR_NAME_START := 4
  const HDR_CHECK_HOST := 5
  const REQ_DONE := 6

  datatype Cell = Cell(action: nat, next: State)

  const STATES: seq<State> :=
    [S_METHOD, S_M_SP, S_URI, S_U_SP, S_VH, S_VT1, S_VT2, S_VP, S_VSLASH, S_VMAJ,
     S_VDOT, S_VMIN, S_RL_CR, S_HDR_ST, S_HDR_NM, S_HDR_VL, S_HDR_CR, S_END_CR, S_DONE, S_ERROR]

  const CLASSES: seq<Class> := [ALPHA, DIGIT, SP, CR, LF, COLON, SLASH, DOT, OTHER]

  /** What may start or continue a URI: anything but SP, CR, LF. */
  predicate UriClass(c: Class) {
    c != SP && c != CR && c != LF
  }

  /** What may continue a header name: a URI class other than the colon that ends the name. */
  predicate NameClass(c: Class) {
    UriClass(c) && c != COLON
  }

  /** What may appear in a header value: anything but CR and LF. */
  predicate ValueClass(c: Class) {
    c != CR && c != LF
  }

  /** The transition table as a function. */
  function Table(s: State, c: Class): Cell {
    match s
    case S_METHOD => if c == ALPHA then Cell(0, S_METHOD) else if c == SP then Cell(0, S_M_SP) else Error()
    case S_M_SP => if UriClass(c) then Cell(URI_START, S_URI) else Error()
    case S_URI => if UriClass(c) then Cell(0, S_URI) else if c == SP then Cell(URI_END, S_U_SP) else Error()
    case S_U_SP => if c == ALPHA then Cell(0, S_VH) else Error()
    case S_VH => if c == ALPHA then Cell(0, S_VT1) else Error()
    case S_VT1 => if c == ALPHA then Cell(0, S_VT2) else Error()
    case S_VT2 => if c == ALPHA then Cell(0, S_VP) else Error()
    case S_VP => if c == SLASH then Cell(0, S_VSLASH) else Error()
    case S_VSLASH => if c == DIGIT then Cell(0, S_VMAJ) else Error()
    case S_VMAJ => if c == DOT then Cell(0, S_VDOT) else Error()
    case S_VDOT => if c == DIGIT then Cell(VER_MINOR, S_VMIN) else Error()
    case S_VMIN => if c == CR then Cell(0, S_RL_CR) else Error()
    case S_RL_CR => if c == LF then Cell(0, S_HDR_ST) else Error()
    case S_HDR_ST =>
      if c == ALPHA then Cell(HDR_NAME_START, S_HDR_NM) else if c == CR then Cell(0, S_END_CR) else Error()
    case S_HDR_NM =>
      if c == COLON then Cell(HDR_CHECK_HOST, S_HDR_VL) else if NameClass(c) then Cell(0, S_HDR_NM) else Error()
    case S_HDR_VL => if c == CR then Cell(0, S_HDR_CR) else if ValueClass(c) then Cell(0, S_HDR_VL) else Error()
    case S_HDR_CR => if c == LF then Cell(0, S_HDR_ST) else Error()
    case S_END_CR => if c == LF then Cell(REQ_DONE, S_DONE) else Error()
    case S_DONE => Cell(0, S_DONE)
    case S_ERROR => Cell(0, S_ERROR)
  }

  function Error(): Cell {
    Cell(0, S_ERROR)
  }

  // ----- Building the table, row by row -----------------------------------------

  type Row = map<Class, Cell>

  function ClassIndex(c: Class): (i: nat)
    ensures i < |CLASSES| && CLASSES[i] == c
  {
    match c
    case ALPHA => 0 case DIGIT => 1 case SP => 2 case CR => 3 case LF => 4
    case COLON => 5 case SLASH => 6 case DOT => 7 case OTHER => 8
  }

  /** What a row says about a class, listed or not. */
  function Entry(transitions: Row, c: Class): Cell {
    if c in transitions then transitions[c] else Error()
  }

  /** The transitions a row lists. */
  function Listed(s: State): Row {
    match s
    case S_METHOD => map[ALPHA := Cell(0, S_METHOD), SP := Cell(0, S_M_SP)]
    case S_M_SP =>
      map[ALPHA := Cell(1, S_URI), DIGIT := Cell(1, S_URI), COLON := Cell(1, S_URI), SLASH := Cell(1, S_URI),
          DOT := Cell(1, S_URI), OTHER := Cell(1, S_URI)]
    case S_URI =>
      map[ALPHA := Cell(0, S_URI), DIGIT := Cell(0, S_URI), SP := Cell(2, S_U_SP), COLON := Cell(0, S_URI),
          SLASH := Cell(0, S_URI), DOT := Cell(0, S_URI), OTHER := Cell(0, S_URI)]
    case S_U_SP => map[ALPHA := Cell(0, S_VH)]
    case S_VH => map[ALPHA := Cell(0, S_VT1)]
    case S_VT1 => map[ALPHA := Cell(0, S_VT2)]
    case S_VT2 => map[ALPHA := Cell(0, S_VP)]
    case S_VP => map[SLASH := Cell(0, S_VSLASH)]
    case S_VSLASH => map[DIGIT := Cell(0, S_VMAJ)]
    case S_VMAJ => map[DOT := Cell(0, S_VDOT)]
    case S_VDOT => map[DIGIT := Cell(3, S_VMIN)]
    case S_VMIN => map[CR := Cell(0, S_RL_CR)]
    case S_RL_CR => map[LF := Cell(0, S_HDR_ST)]
    case S_HDR_ST => map[ALPHA := Cell(4, S_HDR_NM), CR := Cell(0, S_END_CR)]
    case S_HDR_NM =>
      map[ALPHA := Cell(0, S_HDR_NM), DIGIT := Cell(0, S_HDR_NM), COLON := Cell(5, S_HDR_VL),
          SLASH := Cell(0, S_HDR_NM), DOT := Cell(0, S_HDR_NM), OTHER := Cell(0, S_HDR_NM)]
    case S_HDR_VL =>
      map[ALPHA := Cell(0, S_HDR_VL), DIGIT := Cell(0, S_HDR_VL), SP := Cell(0, S_HDR_VL), CR := Cell(0, S_HDR_CR),
          COLON := Cell(0, S_HDR_VL), SLASH := Cell(0, S_HDR_VL), DOT := Cell(0, S_HDR_VL),
          OTHER := Cell(0, S_HDR_VL)]
    case S_HDR_CR => map[LF := Cell(0, S_HDR_ST)]
    case S_END_CR => map[LF := Cell(6, S_DONE)]
    case S_DONE =>
      map[ALPHA := Cell(0, S_DONE), DIGIT := Cell(0, S_DONE), SP := Cell(0, S_DONE), CR := Cell(0, S_DONE),
          LF := Cell(0, S_DONE), COLON := Cell(0, S_DONE), SLASH := Cell(0, S_DONE), DOT := Cell(0, S_DONE),
          OTHER := Cell(0, S_DONE)]
    case S_ERROR => map[]
  }

  /** row: every class to the error state, then the listed transitions. */
  method FillRow(transitions: Row) returns (r: Row)
    ensures forall c: Class :: c in r && r[c] == Entry(transitions, c)
  {
    r := map[];
    for i := 0 to |CLASSES|
      invariant forall j :: 0 <= j < i ==> CLASSES[j] in r
      invariant forall c :: c in r ==> r[c] == Error()
    {
      r := r[CLASSES[i] := Error()];
    }
    forall c: Class ensures c in r {
      assert CLASSES[ClassIndex(c)] == c;
    }
    r := r + transitions;
  }

  /** The listed transitions, completed by the error state, are the table. */
  lemma ListedIsTable(s: State, c: Class)
    ensures Entry(Listed(s), c) == Table(s, c)
  {
    match s {
      case S_METHOD =>
      case S_M_SP =>
      case S_URI =>
      case S_U_SP =>
      case S_VH =>
      case S_VT1 =>
      case S_VT2 =>
      case S_VP =>
      case S_VSLASH =>
      case S_VMAJ =>
      case S_VDOT =>
      case S_VMIN =>
      case S_RL_CR =>
      case S_HDR_ST =>
      case S_HDR_NM =>
      case S_HDR_VL =>
      case S_HDR_CR =>
      case S_END_CR =>
      case S_DONE =>
      case S_ERROR =>
    }
  }

  /** The table as the module builds it, a row for each of the 20 states. */
  method BuildTable() returns (T: map<State, Row>)
    ensures forall s: State, c: Class :: s in T && c in T[s] && T[s][c] == Table(s, c)
  {
    T := map[];
    for i := 0 to |STATES|
      invariant forall j :: 0 <= j < i ==> STATES[j] in T
      invariant forall s :: s in T ==> forall c: Class :: c in T[s] && T[s][c] == Table(s, c)
    {
      var s := STATES[i];
      var r := FillRow(Listed(s));
      forall c: Class ensures r[c] == Table(s, c) {
        ListedIsTable(s, c);
      }
      T := T[s := r];
    }
    forall s: State ensures s in T {
      assert STATES[Index(s)] == s;
    }
  }

  // ----- Packing a cell into a byte ----------------------------------------------

  function Index(s: State): (i: nat)
    ensures i < 20 && STATES[i] == s
  {
    match s
    case S_METHOD => 0 case S_M_SP => 1 case S_URI => 2 case S_U_SP => 3 case S_VH => 4
    case S_VT1 => 5 case S_VT2 => 6 case S_VP => 7 case S_VSLASH => 8 case S_VMAJ => 9
    case S_VDOT => 10 case S_VMIN => 11 case S_RL_CR => 12 case S_HDR_ST => 13 case S_HDR_NM => 14
    case S_HDR_VL => 15 case S_HDR_CR => 16 case S_END_CR => 17 case S_DONE => 18 case S_ERROR => 19
  }

  /** encode: (action << 5) | state */
  function Encode(cell: Cell): nat {
    cell.action * 32 + Index(cell.next)
  }

  /** Every table cell fits a byte, from which its action and next state can be read back. */
  lemma EncodeRoundTrip(s: State, c: Class)
    ensures var b := Encode(Table(s, c));
            b < 0x100 && Cell(b / 32, STATES[b % 32]) == Table(s, c)
  {
    var cell := Table(s, c);
    assert cell.action <= 6;
    var i := Index(cell.next);
    assert (cell.action * 32 + i) / 32 == cell.action && (cell.action * 32 + i) % 32 == i;
  }

  // ----- Runs ----------------------------------------------------------------------

  function Run(s: State, w: seq<Class>): State
    decreases |w|
  {
    if w == [] then s else Run(Table(s, w[0]).next, w[1..])
  }

  /** The non-zero actions of a run with the positions of the characters that raised them. */
  function Trace(s: State, w: seq<Class>, at: nat): seq<(nat, nat)>
    decreases |w|
  {
    if w == [] then []
    else
      var cell := Table(s, w[0]);
      Raised(cell, at) + Trace(cell.next, w[1..], at + 1)
  }

  /** The action of a cell, when it has one. */
  function Raised(cell: Cell, at: nat): seq<(nat, nat)> {
    if cell.action != 0 then [(at, cell.action)] else []
  }

  lemma {:induction false} RunConcat(s: State, a: seq<Class>, b: seq<Class>)
    ensures Run(s, a + b) == Run(Run(s, a), b)
    decreases |a|
  {
    hide Table;
    if a == [] {
      assert a + b == b;
    } else {
      assert (a + b)[0] == a[0] && (a + b)[1..] == a[1..] + b;
      RunConcat(Table(s, a[0]).next, a[1..], b);
    }
  }

  lemma {:induction false} TraceConcat(s: State, a: seq<Class>, b: seq<Class>, at: nat)
    ensures Trace(s, a + b, at) == Trace(s, a, at) + Trace(Run(s, a), b, at + |a|)
    decreases |a|
  {
    hide Table;
    if a == [] {
      assert a + b == b;
    } else {
      assert (a + b)[0] == a[0] && (a + b)[1..] == a[1..] + b;
      var cell := Table(s, a[0]);
      TraceConcat(cell.next, a[1..], b, at + 1);
      hide Raised;
      ConcatAssoc(Raised(cell, at), Trace(cell.next, a[1..], at + 1), Trace(Run(s, a), b, at + |a|));
    }
  }

  /** Done and error are final, and silent. */
  lemma {:induction false} Absorbing(s: State, w: seq<Class>, at: nat)
    requires s == S_DONE || s == S_ERROR
    ensures Run(s, w) == s && Trace(s, w, at) == []
    decreases |w|
  {
    if w != [] {
      Absorbing(s, w[1..], at + 1);
    }
  }

  /** What raises the end of the request, and what is refused. */
  lemma CellsThatEnd(s: State, c: Class)
    ensures Table(s, c).action == 6 <==> s != S_DONE && Table(s, c).next == S_DONE
    ensures Table(s, c).next == S_ERROR ==> Table(s, c).action == 0
  {
  }

  /** One character of a run raises at most one action. */
  lemma TraceNext(s: State, w: seq<Class>, at: nat)
    requires w != []
    ensures var cell := Table(s, w[0]);
            && Run(s, w) == Run(cell.next, w[1..])
            && (cell.action == 0 ==> Trace(s, w, at) == Trace(cell.next, w[1..], at + 1))
            && (cell.action != 0 ==> Trace(s, w, at) == [(at, cell.action)] + Trace(cell.next, w[1..], at + 1))
  {
    hide Table;
  }

  /** Over every run: the end of the request is raised exactly when it is reached, and as the last action. */
  lemma {:induction false} EndRaisedLast(s: State, w: seq<Class>, at: nat)
    requires s != S_DONE
    ensures Run(s, w) == S_DONE <==> exists i :: 0 <= i < |Trace(s, w, at)| && Trace(s, w, at)[i].1 == 6
    ensures forall i :: 0 <= i < |Trace(s, w, at)| - 1 ==> Trace(s, w, at)[i].1 != 6
    decreases |w|
  {
    if w != [] {
      var cell := Table(s, w[0]);
      CellsThatEnd(s, w[0]);
      TraceNext(s, w, at);
      if cell.next == S_DONE {
        Absorbing(S_DONE, w[1..], at + 1);
        assert Trace(s, w, at) == [(at, 6)] && Trace(s, w, at)[0].1 == 6;
      } else {
        EndRaisedLast(cell.next, w[1..], at + 1);
        hide Table, Run, Trace;
        FrontRaises((at, cell.action), Trace(cell.next, w[1..], at + 1));
      }
    }
  }

  lemma FrontRaises(a: (nat, nat), rest: seq<(nat, nat)>)
    ensures (exists i :: 0 <= i < |[a] + rest| && ([a] + rest)[i].1 == 6) <==>
            a.1 == 6 || exists i :: 0 <= i < |rest| && rest[i].1 == 6
    ensures forall i :: 1 <= i < |[a] + rest| ==> ([a] + rest)[i] == rest[i - 1]
  {
    assert ([a] + rest)[0] == a;
    assert forall i :: 0 <= i < |rest| ==> ([a] + rest)[i + 1] == rest[i];
  }

  /** A run that is refused raises nothing from the refused character on. */
  lemma RefusedIsSilent(a: seq<Class>, c: Class, b: seq<Class>)
    requires Table(Run(S_METHOD, a), c).next == S_ERROR
    ensures Run(S_METHOD, a + [c] + b) == S_ERROR && Trace(S_METHOD, a + [c] + b, 0) == Trace(S_METHOD, a, 0)
  {
    var s := Run(S_METHOD, a);
    CellsThatEnd(s, c);
    hide Table;
    var rest := [c] + b;
    assert rest[0] == c && rest[1..] == b && a + [c] + b == a + rest;
    RunConcat(S_METHOD, a, rest);
    TraceConcat(S_METHOD, a, rest, 0);
    Absorbing(S_ERROR, b, |a| + 1);
    assert Trace(s, rest, |a|) == Raised(Table(s, c), |a|) + Trace(S_ERROR, b, |a| + 1) == [];
  }

  // ----- The grammar ------------------------------------------------------------------

  /** A header line: a name starting with a letter, a colon, a value, CR LF. */
  datatype HeaderLine = HeaderLine(name: seq<Class>, value: seq<Class>) {
    predicate Valid() {
      && |name| > 0 && name[0] == ALPHA
      && (forall i :: 1 <= i < |name| ==> NameClass(name[i]))
      && (forall c :: c in value ==> ValueClass(c))
    }

    function Render(): seq<Class> {
      name + [COLON] + value + [CR, LF]
    }
  }

  datatype Request = Request(method_: seq<Class>, uri: seq<Class>, headers: seq<HeaderLine>) {
    predicate Valid() {
      && (forall c :: c in method_ ==> c == ALPHA)
      && |uri| > 0 && (forall c :: c in uri ==> UriClass(c))
      && (forall h :: h in headers ==> h.Valid())
    }

    /** A* SP u+ SP AAAA / D . D CR LF header* CR LF */
    function Render(): seq<Class> {
      (method_ + [SP]) + ((uri + [SP]) + Tail(headers))
    }
  }

  function Tail(hs: seq<HeaderLine>): seq<Class> {
    VERSION + (RenderHeaders(hs) + [CR, LF])
  }

  const VERSION: seq<Class> := [ALPHA, ALPHA, ALPHA, ALPHA, SLASH, DIGIT, DOT, DIGIT, CR, LF]

  function RenderHeaders(hs: seq<HeaderLine>): seq<Class> {
    if hs == [] then [] else hs[0].Render() + RenderHeaders(hs[1..])
  }

  /** The actions of the header lines starting at a position: name start and colon check of each. */
  function HeaderTrace(hs: seq<HeaderLine>, at: nat): seq<(nat, nat)> {
    if hs == [] then []
    else [(at, HDR_NAME_START), (at + |hs[0].name|, HDR_CHECK_HOST)] + HeaderTrace(hs[1..], at + |hs[0].Render()|)
  }

  /** The actions of a whole request, with their positions. */
  function RequestTrace(r: Request): seq<(nat, nat)> {
    var u := |r.method_| + 1;
    var h := u + |r.uri| + 1 + |VERSION|;
    [(u, URI_START), (u + |r.uri|, URI_END), (u + |r.uri| + 8, VER_MINOR)]
    + HeaderTrace(r.headers, h)
    + [(h + |RenderHeaders(r.headers)| + 1, REQ_DONE)]
  }

  // ----- Every request in the language is accepted, with its actions ---------------------

  /** A stretch of characters that all keep the machine where it is, silently. */
  lemma {:induction false} Stay(s: State, w: seq<Class>, at: nat)
    requires forall c :: c in w ==> Table(s, c) == Cell(0, s)
    ensures Run(s, w) == s && Trace(s, w, at) == []
    decreases |w|
  {
    if w != [] {
      assert w[0] in w;
      Stay(s, w[1..], at + 1);
    }
  }

  lemma One(s: State, c: Class, rest: seq<Class>, at: nat)
    ensures Run(s, [c] + rest) == Run(Table(s, c).next, rest)
    ensures Trace(s, [c] + rest, at) ==
            (if Table(s, c).action != 0 then [(at, Table(s, c).action)] else []) + Trace(Table(s, c).next, rest, at + 1)
  {
    assert ([c] + rest)[1..] == rest;
  }

  /** The first character moves the machine; the others keep it there. */
  lemma MoveThenStay(s: State, w: seq<Class>, at: nat, t: State)
    requires |w| > 0 && Table(s, w[0]).next == t && Table(s, w[0]).action != 0
    requires forall i :: 1 <= i < |w| ==> Table(t, w[i]) == Cell(0, t)
    ensures Run(s, w) == t && Trace(s, w, at) == [(at, Table(s, w[0]).action)]
  {
    assert w == [w[0]] + w[1..];
    One(s, w[0], w[1..], at);
    Stay(t, w[1..], at + 1);
  }

  /** Two stretches of a run, one after the other. */
  lemma Then(s: State, a: seq<Class>, at: nat, t: State, acts: seq<(nat, nat)>, b: seq<Class>)
    requires Run(s, a) == t && Trace(s, a, at) == acts
    ensures Run(s, a + b) == Run(t, b) && Trace(s, a + b, at) == acts + Trace(t, b, at + |a|)
  {
    hide Table, Run, Trace;
    RunConcat(s, a, b);
    TraceConcat(s, a, b, at);
  }

  /** The cells that the first line of a request runs through. */
  lemma LineCells(c: Class)
    ensures UriClass(c) ==> Table(S_M_SP, c) == Cell(URI_START, S_URI) && Table(S_URI, c) == Cell(0, S_URI)
    ensures Table(S_METHOD, ALPHA) == Cell(0, S_METHOD) && Table(S_METHOD, SP) == Cell(0, S_M_SP)
    ensures Table(S_URI, SP) == Cell(URI_END, S_U_SP)
  {
  }

  /** The cells that its headers run through. */
  lemma HeaderCells(c: Class)
    ensures NameClass(c) ==> Table(S_HDR_NM, c) == Cell(0, S_HDR_NM)
    ensures ValueClass(c) ==> Table(S_HDR_VL, c) == Cell(0, S_HDR_VL)
    ensures Table(S_HDR_ST, ALPHA) == Cell(HDR_NAME_START, S_HDR_NM)
    ensures Table(S_HDR_NM, COLON) == Cell(HDR_CHECK_HOST, S_HDR_VL)
    ensures Table(S_HDR_VL, CR) == Cell(0, S_HDR_CR) && Table(S_HDR_CR, LF) == Cell(0, S_HDR_ST)
    ensures Table(S_HDR_ST, CR) == Cell(0, S_END_CR) && Table(S_END_CR, LF) == Cell(REQ_DONE, S_DONE)
  {
  }

  lemma AllStretchCells()
    ensures forall c :: UriClass(c) ==> Table(S_M_SP, c) == Cell(URI_START, S_URI) && Table(S_URI, c) == Cell(0, S_URI)
    ensures forall c :: NameClass(c) ==> Table(S_HDR_NM, c) == Cell(0, S_HDR_NM)
    ensures forall c :: ValueClass(c) ==> Table(S_HDR_VL, c) == Cell(0, S_HDR_VL)
  {
    hide Table, UriClass, NameClass, ValueClass;
    forall c: Class
      ensures UriClass(c) ==> Table(S_M_SP, c) == Cell(URI_START, S_URI) && Table(S_URI, c) == Cell(0, S_URI)
      ensures NameClass(c) ==> Table(S_HDR_NM, c) == Cell(0, S_HDR_NM)
      ensures ValueClass(c) ==> Table(S_HDR_VL, c) == Cell(0, S_HDR_VL)
    {
      LineCells(c);
      HeaderCells(c);
    }
  }

  lemma ValueRuns(value: seq<Class>, at: nat)
    requires forall c :: c in value ==> ValueClass(c)
    ensures Run(S_HDR_VL, value + [CR, LF]) == S_HDR_ST && Trace(S_HDR_VL, value + [CR, LF], at) == []
  {
    AllStretchCells();
    HeaderCells(CR);
    hide Table, Run, Trace;
    Stay(S_HDR_VL, value, at);
    Drive([S_HDR_VL, S_HDR_CR, S_HDR_ST], [CR, LF], at + |value|, -1);
    Then(S_HDR_VL, value, at, S_HDR_VL, [], [CR, LF]);
  }

  lemma NameRuns(name: seq<Class>, at: nat)
    requires |name| > 0 && name[0] == ALPHA && forall i :: 1 <= i < |name| ==> NameClass(name[i])
    ensures Run(S_HDR_ST, name + [COLON]) == S_HDR_VL
    ensures Trace(S_HDR_ST, name + [COLON], at) == [(at, HDR_NAME_START), (at + |name|, HDR_CHECK_HOST)]
  {
    AllStretchCells();
    HeaderCells(COLON);
    hide Table, Run, Trace;
    MoveThenStay(S_HDR_ST, name, at, S_HDR_NM);
    Drive([S_HDR_NM, S_HDR_VL], [COLON], at + |name|, 0);
    Then(S_HDR_ST, name, at, S_HDR_NM, [(at, HDR_NAME_START)], [COLON]);
  }

  lemma HeaderLineRuns(h: HeaderLine, at: nat)
    requires h.Valid()
    ensures Run(S_HDR_ST, h.Render()) == S_HDR_ST
    ensures Trace(S_HDR_ST, h.Render(), at) == [(at, HDR_NAME_START), (at + |h.name|, HDR_CHECK_HOST)]
  {
    hide Table, Run, Trace;
    var acts := [(at, HDR_NAME_START), (at + |h.name|, HDR_CHECK_HOST)];
    NameRuns(h.name, at);
    ValueRuns(h.value, at + |h.name| + 1);
    Then(S_HDR_ST, h.name + [COLON], at, S_HDR_VL, acts, h.value + [CR, LF]);
    assert h.Render() == (h.name + [COLON]) + (h.value + [CR, LF]);
  }

  lemma {:induction false} HeadersRun(hs: seq<HeaderLine>, at: nat)
    requires forall h :: h in hs ==> h.Valid()
    ensures Run(S_HDR_ST, RenderHeaders(hs)) == S_HDR_ST
    ensures Trace(S_HDR_ST, RenderHeaders(hs), at) == HeaderTrace(hs, at)
    decreases |hs|
  {
    hide Table, Run, Trace;
    if hs == [] {
      NothingRuns(S_HDR_ST, at);
    } else {
      var line, more := hs[0].Render(), RenderHeaders(hs[1..]);
      var acts := [(at, HDR_NAME_START), (at + |hs[0].name|, HDR_CHECK_HOST)];
      HeaderLineRuns(hs[0], at);
      HeadersRun(hs[1..], at + |line|);
      Then(S_HDR_ST, line, at, S_HDR_ST, acts, more);
    }
  }

  lemma NothingRuns(s: State, at: nat)
    ensures Run(s, []) == s && Trace(s, [], at) == []
  {
  }

  /** A run through listed states, silent except perhaps at character k. */
  lemma {:induction false} Drive(states: seq<State>, w: seq<Class>, at: nat, k: int)
    requires |states| == |w| + 1
    requires forall i :: 0 <= i < |w| ==> Table(states[i], w[i]).next == states[i + 1]
    requires forall i :: 0 <= i < |w| ==> (Table(states[i], w[i]).action != 0 <==> i == k)
    ensures Run(states[0], w) == states[|w|]
    ensures Trace(states[0], w, at) == if 0 <= k < |w| then [(at + k, Table(states[k], w[k]).action)] else []
    decreases |w|
  {
    hide Table, Run, Trace;
    if w == [] {
      NothingRuns(states[0], at);
    } else {
      TraceNext(states[0], w, at);
      Drive(states[1..], w[1..], at + 1, k - 1);
    }
  }

  const VERSION_STATES: seq<State> :=
    [S_U_SP, S_VH, S_VT1, S_VT2, S_VP, S_VSLASH, S_VMAJ, S_VDOT, S_VMIN, S_RL_CR, S_HDR_ST]

  lemma VersionRuns(at: nat)
    ensures Run(S_U_SP, VERSION) == S_HDR_ST
    ensures Trace(S_U_SP, VERSION, at) == [(at + 7, VER_MINOR)]
  {
    hide Table, Run, Trace;
    VersionTable();
    assert forall i :: 0 <= i < |VERSION| ==> VersionCell(i, VERSION[i]);
    Drive(VERSION_STATES, VERSION, at, 7);
  }

  lemma EndRuns(at: nat)
    ensures Run(S_HDR_ST, [CR, LF]) == S_DONE && Trace(S_HDR_ST, [CR, LF], at) == [(at + 1, REQ_DONE)]
  {
    HeaderCells(LF);
    hide Table, Run, Trace;
    Drive([S_HDR_ST, S_END_CR, S_DONE], [CR, LF], at, 1);
  }

  lemma SectionRuns(hs: seq<HeaderLine>, at: nat)
    requires forall h :: h in hs ==> h.Valid()
    ensures Run(S_HDR_ST, RenderHeaders(hs) + [CR, LF]) == S_DONE
    ensures Trace(S_HDR_ST, RenderHeaders(hs) + [CR, LF], at) ==
            HeaderTrace(hs, at) + [(at + |RenderHeaders(hs)| + 1, REQ_DONE)]
  {
    hide Table, Run, Trace, RenderHeaders, HeaderTrace;
    HeadersRun(hs, at);
    EndRuns(at + |RenderHeaders(hs)|);
    Then(S_HDR_ST, RenderHeaders(hs), at, S_HDR_ST, HeaderTrace(hs, at), [CR, LF]);
  }

  /** From the version on. */
  lemma TailRuns(hs: seq<HeaderLine>, at: nat)
    requires forall h :: h in hs ==> h.Valid()
    ensures Run(S_U_SP, Tail(hs)) == S_DONE
    ensures Trace(S_U_SP, Tail(hs), at) ==
            [(at + 7, VER_MINOR)] + (HeaderTrace(hs, at + 10) + [(at + 10 + |RenderHeaders(hs)| + 1, REQ_DONE)])
  {
    hide Table, Run, Trace, RenderHeaders, HeaderTrace;
    VersionRuns(at);
    SectionRuns(hs, at + 10);
    Then(S_U_SP, VERSION, at, S_HDR_ST, [(at + 7, VER_MINOR)], RenderHeaders(hs) + [CR, LF]);
  }

  lemma UriRuns(uri: seq<Class>, at: nat)
    requires |uri| > 0 && forall c :: c in uri ==> UriClass(c)
    ensures Run(S_M_SP, uri + [SP]) == S_U_SP
    ensures Trace(S_M_SP, uri + [SP], at) == [(at, URI_START), (at + |uri|, URI_END)]
  {
    AllStretchCells();
    LineCells(SP);
    hide Table, Run, Trace;
    MoveThenStay(S_M_SP, uri, at, S_URI);
    Drive([S_URI, S_U_SP], [SP], at + |uri|, 0);
    Then(S_M_SP, uri, at, S_URI, [(at, URI_START)], [SP]);
  }

  lemma MethodRuns(method_: seq<Class>)
    requires forall c :: c in method_ ==> c == ALPHA
    ensures Run(S_METHOD, method_ + [SP]) == S_M_SP && Trace(S_METHOD, method_ + [SP], 0) == []
  {
    LineCells(ALPHA);
    hide Table, Run, Trace;
    Stay(S_METHOD, method_, 0);
    Drive([S_METHOD, S_M_SP], [SP], |method_|, -1);
    Then(S_METHOD, method_, 0, S_METHOD, [], [SP]);
  }

  /** A request in the language is accepted, and its actions are exactly 1 2 3 (4 5)* 6 at their places. */
  lemma RequestRuns(r: Request)
    requires r.Valid()
    ensures Run(S_METHOD, r.Render()) == S_DONE && Trace(S_METHOD, r.Render(), 0) == RequestTrace(r)
  {
    hide Table, Run, Trace, RenderHeaders, HeaderTrace, RequestTrace;
    var u := |r.method_| + 1;
    var acts := [(u, URI_START), (u + |r.uri|, URI_END)];
    MethodRuns(r.method_);
    UriRuns(r.uri, u);
    TailRuns(r.headers, u + |r.uri| + 1);
    Then(S_M_SP, r.uri + [SP], u, S_U_SP, acts, Tail(r.headers));
    Then(S_METHOD, r.method_ + [SP], 0, S_M_SP, [], (r.uri + [SP]) + Tail(r.headers));
    TraceIs(r, acts);
  }

  lemma TraceIs(r: Request, acts: seq<(nat, nat)>)
    requires var u := |r.method_| + 1; acts == [(u, URI_START), (u + |r.uri|, URI_END)]
    ensures var h := |r.method_| + 1 + |r.uri| + 1 + 10;
            RequestTrace(r) == [] + (acts + ([(h - 3, VER_MINOR)]
              + (HeaderTrace(r.headers, h) + [(h + |RenderHeaders(r.headers)| + 1, REQ_DONE)])))
  {
  }

  // ----- Everything accepted is in the language -------------------------------------------

  /** A run that gets out of a state it was kept in: the characters that kept it, then the one that did not. */
  lemma {:induction false} Leave(s: State, w: seq<Class>) returns (k: nat)
    requires s != S_DONE && Run(s, w) == S_DONE
    ensures k < |w| && (forall i :: 0 <= i < k ==> Table(s, w[i]).next == s)
    ensures Table(s, w[k]).next != s && Table(s, w[k]).next != S_ERROR && Run(Table(s, w[k]).next, w[k + 1..]) == S_DONE
    decreases |w|
  {
    var t := Table(s, w[0]).next;
    if t == s {
      var k0 := Leave(s, w[1..]);
      k := k0 + 1;
      assert w[1..][k0 + 1..] == w[k + 1..];
      assert forall i :: 1 <= i < k ==> w[i] == w[1..][i - 1];
    } else {
      k := 0;
      if t == S_ERROR {
        Absorbing(S_ERROR, w[1..], 0);
      }
    }
  }

  /** One forced step: the only class that does not lead to the error state. */
  lemma Forced(s: State, w: seq<Class>)
    requires s != S_DONE && s != S_ERROR && Run(s, w) == S_DONE
    ensures w != [] && Table(s, w[0]).next != S_ERROR && Run(Table(s, w[0]).next, w[1..]) == S_DONE
    ensures w == [w[0]] + w[1..]
  {
    if Table(s, w[0]).next == S_ERROR {
      Absorbing(S_ERROR, w[1..], 0);
    }
  }

  /** A chain of states each with a single way on: an accepted run reads exactly the listed classes. */
  lemma {:induction false} ForcedChain(states: seq<State>, classes: seq<Class>, w: seq<Class>)
    requires |states| == |classes| + 1 && Run(states[0], w) == S_DONE
    requires forall i :: 0 <= i < |classes| ==> states[i] != S_DONE && states[i] != S_ERROR
    requires forall i, c: Class :: 0 <= i < |classes| ==>
               Table(states[i], c).next == if c == classes[i] then states[i + 1] else S_ERROR
    ensures classes <= w && Run(states[|classes|], w[|classes|..]) == S_DONE
    decreases |classes|
  {
    if classes == [] {
      assert w[0..] == w;
    } else {
      Forced(states[0], w);
      assert w[0] == classes[0];
      ForcedChain(states[1..], classes[1..], w[1..]);
      assert classes == [classes[0]] + classes[1..];
      assert w[1..][|classes| - 1..] == w[|classes|..];
    }
  }

  lemma VersionForced(w: seq<Class>)
    requires Run(S_U_SP, w) == S_DONE
    ensures VERSION <= w && Run(S_HDR_ST, w[10..]) == S_DONE
  {
    hide Table, Run;
    VersionTable();
    forall i, c: Class | 0 <= i < |VERSION|
      ensures Table(VERSION_STATES[i], c).next == if c == VERSION[i] then VERSION_STATES[i + 1] else S_ERROR
    {
      assert VersionCell(i, c);
    }
    ForcedChain(VERSION_STATES, VERSION, w);
  }

  /** Each version state has one way on, and only the minor digit is reported. */
  lemma VersionTable()
    ensures forall i, c: Class :: 0 <= i < |VERSION| ==> VersionCell(i, c)
  {
    forall i, c: Class | 0 <= i < |VERSION| ensures VersionCell(i, c) {
      if i < 5 {
        if i == 0 {} else if i == 1 {} else if i == 2 {} else if i == 3 {} else {}
      } else {
        if i == 5 {} else if i == 6 {} else if i == 7 {} else if i == 8 {} else {}
      }
    }
  }

  predicate VersionCell(i: int, c: Class)
    requires 0 <= i < |VERSION|
  {
    Table(VERSION_STATES[i], c) ==
      if c != VERSION[i] then Error() else Cell(if i == 7 then VER_MINOR else 0, VERSION_STATES[i + 1])
  }

  /** A stretch of characters up to the one that leaves the state. */
  lemma Stretch(s: State, w: seq<Class>) returns (stretch: seq<Class>, c: Class, rest: seq<Class>)
    requires s != S_DONE && Run(s, w) == S_DONE
    ensures w == stretch + ([c] + rest)
    ensures forall x :: x in stretch ==> Table(s, x).next == s
    ensures Table(s, c).next != s && Table(s, c).next != S_ERROR && Run(Table(s, c).next, rest) == S_DONE
  {
    var k := Leave(s, w);
    stretch, c, rest := w[..k], w[k], w[k + 1..];
  }

  /** Which classes keep, leave and break the header states. */
  lemma WaysOut(c: Class)
    ensures Table(S_HDR_ST, c).next == if c == ALPHA then S_HDR_NM else if c == CR then S_END_CR else S_ERROR
    ensures Table(S_HDR_NM, c).next == if c == COLON then S_HDR_VL else if NameClass(c) then S_HDR_NM else S_ERROR
    ensures Table(S_HDR_VL, c).next == if c == CR then S_HDR_CR else if ValueClass(c) then S_HDR_VL else S_ERROR
    ensures Table(S_HDR_CR, c).next == if c == LF then S_HDR_ST else S_ERROR
    ensures Table(S_END_CR, c).next == if c == LF then S_DONE else S_ERROR
  {
  }

  /** Peel one header line off an accepted header section. */
  lemma HeaderLineForced(w: seq<Class>) returns (h: HeaderLine, rest: seq<Class>)
    requires Run(S_HDR_ST, w) == S_DONE && w != [] && w[0] == ALPHA
    ensures h.Valid() && w == h.Render() + rest && Run(S_HDR_ST, rest) == S_DONE
  {
    hide Table, Run, NameClass, ValueClass;
    Forced(S_HDR_ST, w);
    WaysOut(ALPHA);
    var name, colon, v := Stretch(S_HDR_NM, w[1..]);
    WaysOut(colon);
    var value, cr, tail := Stretch(S_HDR_VL, v);
    WaysOut(cr);
    Forced(S_HDR_CR, tail);
    WaysOut(tail[0]);
    forall c | c in name ensures NameClass(c) {
      WaysOut(c);
    }
    forall c | c in value ensures ValueClass(c) {
      WaysOut(c);
    }
    rest := tail[1..];
    h := HeaderLine([ALPHA] + name, value);
    assert forall i :: 1 <= i < |h.name| ==> h.name[i] in name;
    LineIsRendered(h, name, value, w, v, tail, rest);
  }

  lemma LineIsRendered(h: HeaderLine, name: seq<Class>, value: seq<Class>, w: seq<Class>, v: seq<Class>,
                       tail: seq<Class>, rest: seq<Class>)
    requires h == HeaderLine([ALPHA] + name, value) && w != [] && w[0] == ALPHA
    requires w[1..] == name + ([COLON] + v) && v == value + ([CR] + tail) && tail == [LF] + rest
    ensures w == h.Render() + rest
  {
    assert w == [ALPHA] + w[1..];
  }

  lemma {:induction false} HeadersForced(w: seq<Class>) returns (hs: seq<HeaderLine>, rest: seq<Class>)
    requires Run(S_HDR_ST, w) == S_DONE
    ensures forall h :: h in hs ==> h.Valid()
    ensures w == RenderHeaders(hs) + ([CR, LF] + rest)
    decreases |w|
  {
    hide Table, Run, RenderHeaders;
    Forced(S_HDR_ST, w);
    WaysOut(w[0]);
    if w[0] == ALPHA {
      var h, more := HeaderLineForced(w);
      LineIsNotEmpty(h);
      var hs';
      hs', rest := HeadersForced(more);
      hs := [h] + hs';
      OneMoreHeader(h, hs');
      ConcatAssoc(h.Render(), RenderHeaders(hs'), [CR, LF] + rest);
    } else {
      Forced(S_END_CR, w[1..]);
      WaysOut(w[1]);
      hs, rest := [], w[2..];
      NoHeaders();
      assert w == [] + ([CR, LF] + rest);
    }
  }

  lemma LineIsNotEmpty(h: HeaderLine)
    ensures |h.Render()| > 0
  {
  }

  lemma OneMoreHeader(h: HeaderLine, hs: seq<HeaderLine>)
    ensures RenderHeaders([h] + hs) == h.Render() + RenderHeaders(hs)
  {
    assert ([h] + hs)[1..] == hs;
  }

  lemma NoHeaders()
    ensures RenderHeaders([]) == []
  {
  }

  /** An accepted run has read a request of the language. */
  lemma AcceptedIsRequest(w: seq<Class>) returns (r: Request)
    requires Run(S_METHOD, w) == S_DONE
    ensures r.Valid() && r.Render() <= w
  {
    var m, sp1, w1 := Stretch(S_METHOD, w);
    Forced(S_M_SP, w1);
    var u, sp2, w2 := Stretch(S_URI, w1[1..]);
    assert sp1 == SP && sp2 == SP;
    VersionForced(w2);
    var hs, rest := HeadersForced(w2[10..]);
    r := Request(m, [w1[0]] + u, hs);
    RequestIsRendered(r, w, w1, w2, u, rest);
  }

  lemma RequestIsRendered(r: Request, w: seq<Class>, w1: seq<Class>, w2: seq<Class>, u: seq<Class>, rest: seq<Class>)
    requires w == r.method_ + ([SP] + w1) && w1 != [] && w1[1..] == u + ([SP] + w2)
    requires r.uri == [w1[0]] + u && VERSION <= w2 && w2[10..] == RenderHeaders(r.headers) + ([CR, LF] + rest)
    ensures r.Render() <= w
  {
    var end := RenderHeaders(r.headers) + [CR, LF];
    assert w2[10..] == end + rest;
    assert w2 == Tail(r.headers) + rest;
    assert w1 == (r.uri + [SP]) + w2;
    assert w == (r.method_ + [SP]) + w1;
    ConcatAssoc(r.uri + [SP], Tail(r.headers), rest);
    ConcatAssoc(r.method_ + [SP], (r.uri + [SP]) + Tail(r.headers), rest);
  }

  // ----- The grammar is unambiguous ----------------------------------------------------------

  /** Two stop-free stretches each followed by a stop are the same stretch. */
  lemma SameStretch(a: seq<Class>, b: seq<Class>, ra: seq<Class>, rb: seq<Class>, stop: Class)
    requires a + ([stop] + ra) <= b + ([stop] + rb) || b + ([stop] + rb) <= a + ([stop] + ra)
    requires stop !in a && stop !in b
    ensures a == b && (ra <= rb || rb <= ra)
  {
    var wa, wb := a + ([stop] + ra), b + ([stop] + rb);
    assert wa[|a|] == stop && wb[|b|] == stop;
    assert forall i :: 0 <= i < |a| ==> wa[i] == a[i];
    assert forall i :: 0 <= i < |b| ==> wb[i] == b[i];
    assert |a| == |b|;
    assert wa[|a| + 1..] == ra && wb[|b| + 1..] == rb;
  }

  ghost predicate Overlapping(a: seq<Class>, b: seq<Class>) {
    a <= b || b <= a
  }

  lemma StopsOutside(h: HeaderLine)
    requires h.Valid()
    ensures COLON !in h.name && CR !in h.value
  {
    assert h.name == [ALPHA] + h.name[1..];
    forall c | c in h.name[1..] ensures c != COLON {
      var i :| 0 <= i < |h.name| - 1 && h.name[1..][i] == c;
      assert NameClass(h.name[i + 1]);
    }
  }

  lemma LineSplits(h: HeaderLine, more: seq<Class>)
    ensures h.Render() + more + [CR, LF] == h.name + ([COLON] + (h.value + ([CR] + ([LF] + (more + [CR, LF])))))
  {
  }

  lemma RequestSplits(r: Request)
    ensures r.Render() == r.method_ + ([SP] + (r.uri + ([SP] + Tail(r.headers))))
    ensures Tail(r.headers)[10..] == RenderHeaders(r.headers) + [CR, LF]
  {
  }

  lemma OverlappingSuffix(a: seq<Class>, b: seq<Class>, k: nat)
    requires Overlapping(a, b) && k <= |a| && k <= |b|
    ensures Overlapping(a[k..], b[k..])
  {
  }

  lemma {:induction false} HeadersUnambiguous(xs: seq<HeaderLine>, ys: seq<HeaderLine>)
    requires (forall h :: h in xs ==> h.Valid()) && (forall h :: h in ys ==> h.Valid())
    requires Overlapping(RenderHeaders(xs) + [CR, LF], RenderHeaders(ys) + [CR, LF])
    ensures xs == ys
    decreases |xs|
  {
    hide Table;
    var wx, wy := RenderHeaders(xs) + [CR, LF], RenderHeaders(ys) + [CR, LF];
    HeaderSectionStarts(xs);
    HeaderSectionStarts(ys);
    assert wx[0] == wy[0];
    if xs != [] {
      var x, y := xs[0], ys[0];
      var tx, ty := RenderHeaders(xs[1..]) + [CR, LF], RenderHeaders(ys[1..]) + [CR, LF];
      LineSplits(x, RenderHeaders(xs[1..]));
      LineSplits(y, RenderHeaders(ys[1..]));
      StopsOutside(x);
      StopsOutside(y);
      SameStretch(x.name, y.name, x.value + ([CR] + ([LF] + tx)), y.value + ([CR] + ([LF] + ty)), COLON);
      SameStretch(x.value, y.value, [LF] + tx, [LF] + ty, CR);
      SameStretch([], [], tx, ty, LF);
      HeadersUnambiguous(xs[1..], ys[1..]);
      assert xs == [x] + xs[1..] && ys == [y] + ys[1..];
    }
  }

  lemma HeaderSectionStarts(hs: seq<HeaderLine>)
    requires forall h :: h in hs ==> h.Valid()
    ensures (RenderHeaders(hs) + [CR, LF])[0] == if hs == [] then CR else ALPHA
  {
    if hs != [] {
      assert hs[0].Valid();
    }
  }

  /** At most one request begins a given character-class sequence. */
  lemma RequestUnambiguous(p: Request, q: Request, w: seq<Class>)
    requires p.Valid() && q.Valid() && p.Render() <= w && q.Render() <= w
    ensures p == q
  {
    var pt, qt := Tail(p.headers), Tail(q.headers);
    RequestSplits(p);
    RequestSplits(q);
    SameStretch(p.method_, q.method_, p.uri + ([SP] + pt), q.uri + ([SP] + qt), SP);
    SameStretch(p.uri, q.uri, pt, qt, SP);
    OverlappingSuffix(pt, qt, 10);
    HeadersUnambiguous(p.headers, q.headers);
  }

  /**
   * The language: a character-class sequence drives the machine to S_DONE exactly when some prefix
   * of it is a request; that request is unique and the actions raised are its own, whatever follows.
   */
  lemma AcceptsExactly(w: seq<Class>)
    ensures Run(S_METHOD, w) == S_DONE <==> exists r: Request :: r.Valid() && r.Render() <= w
  {
    if Run(S_METHOD, w) == S_DONE {
      var r := AcceptedIsRequest(w);
    }
    if r: Request :| r.Valid() && r.Render() <= w {
      RequestPrefixRuns(r, w);
    }
  }

  /** On every accepted run the non-zero actions are exactly those of the request it begins with. */
  lemma RequestPrefixRuns(r: Request, w: seq<Class>)
    requires r.Valid() && r.Render() <= w
    ensures Run(S_METHOD, w) == S_DONE && Trace(S_METHOD, w, 0) == RequestTrace(r)
  {
    hide Table, Run, Trace, RequestTrace;
    var n := |r.Render()|;
    assert w == r.Render() + w[n..];
    RequestRuns(r);
    RunConcat(S_METHOD, r.Render(), w[n..]);
    TraceConcat(S_METHOD, r.Render(), w[n..], 0);
    Absorbing(S_DONE, w[n..], n);
  }

  /**
   * Reading the trace back recovers the request's parts: the URI span is the non-empty stretch
   * between actions 1 and 2, free of SP, CR and LF.
   */
  lemma UriSpan(r: Request, w: seq<Class>)
    requires r.Valid() && r.Render() <= w
    ensures var t := Trace(S_METHOD, w, 0);
            && |t| == 4 + 2 * |r.headers| && t[0].1 == URI_START && t[1].1 == URI_END
            && t[0].0 < t[1].0 <= |w| && w[t[0].0..t[1].0] == r.uri
            && forall c :: c in w[t[0].0..t[1].0] ==> UriClass(c)
  {
    RequestPrefixRuns(r, w);
    HeaderTraceLength(r.headers, |r.method_| + 1 + |r.uri| + 1 + |VERSION|);
    var u := |r.method_| + 1;
    assert r.Render()[u..u + |r.uri|] == r.uri;
    assert w[u..u + |r.uri|] == r.Render()[u..u + |r.uri|];
  }

  lemma {:induction false} HeaderTraceLength(hs: seq<HeaderLine>, at: nat)
    ensures |HeaderTrace(hs, at)| == 2 * |hs|
    ensures forall i :: 0 <= i < |hs| ==>
              && HeaderTrace(hs, at)[2 * i].1 == HDR_NAME_START && HeaderTrace(hs, at)[2 * i + 1].1 == HDR_CHECK_HOST
              && HeaderTrace(hs, at)[2 * i + 1].0 == HeaderTrace(hs, at)[2 * i].0 + |hs[i].name|
    decreases |hs|
  {
    if hs != [] {
      var rest := HeaderTrace(hs[1..], at + |hs[0].Render()|);
      HeaderTraceLength(hs[1..], at + |hs[0].Render()|);
      forall i | 0 <= i < |hs|
        ensures HeaderTrace(hs, at)[2 * i].1 == HDR_NAME_START && HeaderTrace(hs, at)[2 * i + 1].1 == HDR_CHECK_HOST
        ensures HeaderTrace(hs, at)[2 * i + 1].0 == HeaderTrace(hs, at)[2 * i].0 + |hs[i].name|
      {
        if i > 0 {
          assert HeaderTrace(hs, at)[2 * i] == rest[2 * (i - 1)];
          assert HeaderTrace(hs, at)[2 * i + 1] == rest[2 * (i - 1) + 1];
        }
      }
    }
  }

  /** Where the trace of the header lines says name i lies, it lies. */
  lemma {:induction false} NameStandsAt(hs: seq<HeaderLine>, before: seq<Class>, after: seq<Class>, i: nat)
    requires i < |hs|
    ensures var t, text := HeaderTrace(hs, |before|), before + (RenderHeaders(hs) + after);
            && |t| == 2 * |hs| && t[2 * i].0 <= t[2 * i + 1].0 <= |text|
            && text[t[2 * i].0..t[2 * i + 1].0] == hs[i].name
    decreases |hs|
  {
    var t, text := HeaderTrace(hs, |before|), before + (RenderHeaders(hs) + after);
    HeaderTraceLength(hs, |before|);
    var line, rest := hs[0].Render(), RenderHeaders(hs[1..]);
    ConcatAssoc(line, rest, after);
    ConcatAssoc(before, line, rest + after);
    if i == 0 {
      assert text[|before|..|before| + |line|] == line;
      assert line[..|hs[0].name|] == hs[0].name;
    } else {
      NameStandsAt(hs[1..], before + line, after, i - 1);
      var t' := HeaderTrace(hs[1..], |before + line|);
      assert t[2 * i] == t'[2 * (i - 1)] && t[2 * i + 1] == t'[2 * (i - 1) + 1];
    }
  }

  /**
   * On every accepted run, after the URI and the version each header-name start is closed by exactly one colon check
   * and the name is what lies between them; the last action is that the request is done.
   */
  lemma HeaderSpans(r: Request, w: seq<Class>)
    requires r.Valid() && r.Render() <= w
    ensures var t := Trace(S_METHOD, w, 0);
            && |t| == 4 + 2 * |r.headers| && t[2].1 == VER_MINOR && t[|t| - 1].1 == REQ_DONE
            && forall i :: 0 <= i < |r.headers| ==> HeaderSpan(t, w, r.headers[i], i)
  {
    RequestPrefixRuns(r, w);
    RenderSplits(r);
    TraceParts(r);
    hide Trace, Run, Table, HeaderTrace, RenderHeaders, RequestTrace, HeaderSpan, Tail;
    forall i | 0 <= i < |r.headers| ensures HeaderSpan(RequestTrace(r), w, r.headers[i], i) {
      OneHeaderSpan(r, w, i);
    }
  }

  /** The request up to its header lines. */
  function Opening(r: Request): seq<Class> {
    r.method_ + [SP] + r.uri + [SP] + VERSION
  }

  lemma RenderSplits(r: Request)
    ensures r.Render() == Opening(r) + (RenderHeaders(r.headers) + [CR, LF])
  {
    hide RenderHeaders;
  }

  lemma TraceParts(r: Request)
    ensures var t, h := RequestTrace(r), HeaderTrace(r.headers, |Opening(r)|);
            && |h| == 2 * |r.headers| && |t| == 4 + |h| && t[2].1 == VER_MINOR && t[|t| - 1].1 == REQ_DONE
            && forall k :: 0 <= k < |h| ==> t[3 + k] == h[k]
  {
    HeaderTraceLength(r.headers, |Opening(r)|);
    hide HeaderTrace, RenderHeaders;
  }

  lemma OneHeaderSpan(r: Request, w: seq<Class>, i: nat)
    requires r.Valid() && r.Render() <= w && i < |r.headers|
    ensures HeaderSpan(RequestTrace(r), w, r.headers[i], i)
  {
    RenderSplits(r);
    TraceParts(r);
    HeaderTraceLength(r.headers, |Opening(r)|);
    NameStandsAt(r.headers, Opening(r), [CR, LF], i);
    var h := HeaderTrace(r.headers, |Opening(r)|);
    hide HeaderTrace, RenderHeaders, RequestTrace, Opening, Tail;
    assert w[h[2 * i].0..h[2 * i + 1].0] == r.Render()[h[2 * i].0..h[2 * i + 1].0];
  }

  /** Actions 3 + 2i and 4 + 2i of the trace start and close the name of header i. */
  predicate HeaderSpan(t: seq<(nat, nat)>, w: seq<Class>, h: HeaderLine, i: nat) {
    && 4 + 2 * i < |t| && t[3 + 2 * i].1 == HDR_NAME_START && t[4 + 2 * i].1 == HDR_CHECK_HOST
    && t[3 + 2 * i].0 <= t[4 + 2 * i].0 <= |w| && w[t[3 + 2 * i].0..t[4 + 2 * i].0] == h.name
  }
}
