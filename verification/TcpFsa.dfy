/**
 * The TCP connection state machine: one arriving segment or application close at a time, and what
 * every run of them keeps.
 */
module TcpFsa {
  import opened Bytes

  const FIN: bv8 := 0x01
  const SYN: bv8 := 0x02
  const RST: bv8 := 0x04
  const ACK: bv8 := 0x10
  const RST_ACK: bv8 := 0x14
  const SYN_ACK: bv8 := 0x12

  const MOD32 := 0x1_0000_0000

  type u32 = x: int | 0 <= x < 0x1_0000_0000

  datatype State =
    | CLOSED | LISTEN | SYN_RCVD | ESTABLISHED | CLOSE_WAIT | LAST_ACK | FIN_WAIT_1 | FIN_WAIT_2 | TIME_WAIT | CLOSING

  /** What a segment is to the state machine, by its flags. */
  datatype SegmentEvent = RstEvt | SynEvt | SynAckEvt | FinEvt | AckEvt

  datatype PortMatch = Exact | ListenOnly | NoMatch

  datatype Handler =
    | ListenSyn | ConnClose | SynRcvdAck | EstabAck | EstabFin | Drop | LastAckAck | FinWait1Ack | FinWait1Fin
    | FinWait2Fin | TimeWaitFin | ClosingAck

  /** An arriving segment: `data` is its payload length, and the two checks are those of its headers and checksum. */
  datatype Segment = Segment(flags: bv8, seqNo: u32, ackNo: u32, data: nat, headerOk: bool, checksumOk: bool)

  /** The connection slot; `isn` is the initial sequence number it answers a SYN with. */
  datatype Conn = Conn(state: State, rcvNxt: u32, sndNxt: u32, isn: u32)

  datatype Reply = NoReply | Reply(length: nat, flags: bv8, seqNo: u32, ackNo: u32)

  datatype Outcome = Outcome(conn: Conn, reply: Reply, delivered: nat)

  predicate Has(seg: Segment, flag: bv8) {
    seg.flags & flag != 0
  }

  function Wrap(x: int): u32 {
    x % MOD32
  }

  // ----- Byte order -----------------------------------------------------------------

  /** struct.pack(">I", h) */
  function PackBE32(h: u32): (b: seq<byte>)
    ensures |b| == 4
  {
    PackBE16(h / 0x1_0000) + PackBE16(h % 0x1_0000)
  }

  /** to_nbo_ldr */
  function ToNboLdr(h: u32): u32 {
    LittleEndian4(PackBE32(h));
    LittleEndian(PackBE32(h))
  }

  lemma LdrIsReversed(h: u32)
    ensures PackBE32(ToNboLdr(h)) == [PackBE32(h)[3], PackBE32(h)[2], PackBE32(h)[1], PackBE32(h)[0]]
  {
    var b := PackBE32(h);
    LittleEndian4(b);
    Digits(b[3], b[2], b[1], b[0]);
  }

  lemma Digits(a: byte, b: byte, c: byte, d: byte)
    ensures
      var v := Word(c, d) + 0x1_0000 * Word(a, b);
      v < MOD32 && PackBE32(v) == [a, b, c, d]
  {
    var v := Word(c, d) + 0x1_0000 * Word(a, b);
    assert v / 0x1_0000 == Word(a, b) && v % 0x1_0000 == Word(c, d);
  }

  lemma BE32IsFaithful(g: u32, h: u32)
    requires PackBE32(g) == PackBE32(h)
    ensures g == h
  {
    assert forall x: u32 :: PackBE32(x)[0] == x / 0x1_0000 / 0x100;
    var b, c := PackBE32(g), PackBE32(h);
    assert Word(b[0], b[1]) == g / 0x1_0000 && Word(b[2], b[3]) == g % 0x1_0000;
    assert Word(c[0], c[1]) == h / 0x1_0000 && Word(c[2], c[3]) == h % 0x1_0000;
  }

  /** What a little-endian load reads from network-order bytes is undone by doing it again. */
  lemma LdrIsInvolutive(h: u32)
    ensures ToNboLdr(ToNboLdr(h)) == h
  {
    hide ToNboLdr, PackBE32;
    LdrIsReversed(h);
    LdrIsReversed(ToNboLdr(h));
    assert PackBE32(ToNboLdr(ToNboLdr(h))) == PackBE32(h);
    BE32IsFaithful(ToNboLdr(ToNboLdr(h)), h);
  }

  // ----- One segment ----------------------------------------------------------------

  /** classify_event */
  function Classify(seg: Segment): Option<SegmentEvent> {
    if Has(seg, RST) then Some(RstEvt)
    else if Has(seg, SYN) then (if Has(seg, ACK) then Some(SynAckEvt) else Some(SynEvt))
    else if Has(seg, FIN) then Some(FinEvt)
    else if Has(seg, ACK) then Some(AckEvt)
    else None
  }

  /** FSA_TABLE: the next state and handler of a cell, or no transition */
  function Table(s: State, e: SegmentEvent): Option<(State, Handler)> {
    match (s, e)
    case (LISTEN, SynEvt) => Some((SYN_RCVD, ListenSyn))
    case (CLOSED, RstEvt) => None
    case (LISTEN, RstEvt) => None
    case (_, RstEvt) => Some((CLOSED, ConnClose))
    case (SYN_RCVD, AckEvt) => Some((ESTABLISHED, SynRcvdAck))
    case (ESTABLISHED, FinEvt) => Some((CLOSE_WAIT, EstabFin))
    case (ESTABLISHED, AckEvt) => Some((ESTABLISHED, EstabAck))
    case (CLOSE_WAIT, AckEvt) => Some((CLOSE_WAIT, Drop))
    case (LAST_ACK, AckEvt) => Some((CLOSED, LastAckAck))
    case (FIN_WAIT_1, FinEvt) => Some((CLOSING, FinWait1Fin))
    case (FIN_WAIT_1, AckEvt) => Some((FIN_WAIT_2, FinWait1Ack))
    case (FIN_WAIT_2, FinEvt) => Some((TIME_WAIT, FinWait2Fin))
    case (FIN_WAIT_2, AckEvt) => Some((FIN_WAIT_2, Drop))
    case (TIME_WAIT, FinEvt) => Some((TIME_WAIT, TimeWaitFin))
    case (TIME_WAIT, AckEvt) => Some((TIME_WAIT, Drop))
    case (CLOSING, AckEvt) => Some((TIME_WAIT, ClosingAck))
    case _ => None
  }

  /** rst_result: the reset that answers a segment, if one does */
  function ResetReply(seg: Segment): Reply {
    if Has(seg, RST) then NoReply
    else if Has(seg, ACK) then Reply(54, RST, ToNboLdr(seg.ackNo), 0)
    else
      var syn := if Has(seg, SYN) then 1 else 0;
      var fin := if Has(seg, FIN) then 1 else 0;
      Reply(54, RST_ACK, 0, ToNboLdr(Wrap(seg.seqNo + seg.data + syn + fin)))
  }

  /** The bare acknowledgement of a connection. */
  function AckReply(c: Conn): Reply {
    Reply(54, ACK, ToNboLdr(c.sndNxt), ToNboLdr(c.rcvNxt))
  }

  /**
   * Our FIN, or our SYN, acknowledged by its number; a number that was never sent is higher, as unsigned words compare.
   */
  datatype AckVerdict = Acked | Partial | Bogus

  function JudgeAck(c: Conn, seg: Segment): AckVerdict {
    if seg.ackNo > c.sndNxt then Bogus else if seg.ackNo == c.sndNxt then Acked else Partial
  }

  /** A handler that refuses a segment gives the state back and has it answered by a reset. */
  function Refuse(c: Conn, seg: Segment): Outcome {
    Outcome(c, ResetReply(seg), 0)
  }

  /** The payload of a FIN, if any, stands where the next byte is expected. */
  predicate FinInOrder(c: Conn, seg: Segment) {
    seg.data == 0 || seg.seqNo == c.rcvNxt
  }

  /**
   * The handlers; `next` is the state that the table gives. On numbers that the oracle fixes to the expected ones they
   * do what lib/tcp.S does.
   */
  function Dispatch(c: Conn, seg: Segment, next: State, h: Handler): Outcome {
    var moved := c.(state := next);
    match h
    case ListenSyn =>
      var conn := Conn(SYN_RCVD, Wrap(seg.seqNo + 1), Wrap(c.isn + 1), c.isn);
      Outcome(conn, Reply(62, SYN_ACK, ToNboLdr(c.isn), ToNboLdr(Wrap(seg.seqNo + 1))), 0)
    case EstabAck =>
      if seg.data == 0 then Outcome(moved, NoReply, 0)
      else if seg.seqNo == c.rcvNxt then
        var conn := moved.(rcvNxt := Wrap(c.rcvNxt + seg.data));
        Outcome(conn, AckReply(conn), seg.data)
      else Outcome(moved, AckReply(moved), 0)
    case EstabFin =>
      if FinInOrder(c, seg) then
        var conn := moved.(rcvNxt := Wrap(c.rcvNxt + seg.data + 1));
        Outcome(conn, AckReply(conn), seg.data)
      else Outcome(c, AckReply(c), 0)
    case SynRcvdAck => if JudgeAck(c, seg) == Acked then Outcome(moved, NoReply, 0) else Refuse(c, seg)
    case LastAckAck => AckOfFin(c, seg, moved)
    case FinWait1Ack => AckOfFin(c, seg, moved)
    case ClosingAck => AckOfFin(c, seg, moved)
    case FinWait1Fin =>
      var to := if Has(seg, ACK) && seg.ackNo == c.sndNxt then TIME_WAIT else next;
      var conn := c.(state := to, rcvNxt := Wrap(c.rcvNxt + 1));
      Outcome(conn, AckReply(conn), 0)
    case FinWait2Fin =>
      var conn := moved.(rcvNxt := Wrap(c.rcvNxt + 1));
      Outcome(conn, AckReply(conn), 0)
    case TimeWaitFin => Outcome(moved, AckReply(moved), 0)
    case _ => Outcome(moved, NoReply, 0)
  }

  /** An acknowledgement while our FIN is open: it moves on only by the FIN's own number. */
  function AckOfFin(c: Conn, seg: Segment, moved: Conn): Outcome {
    match JudgeAck(c, seg)
    case Acked => Outcome(moved, NoReply, 0)
    case Partial => Outcome(c, NoReply, 0)
    case Bogus => Refuse(c, seg)
  }

  /** The sequence number of a reset lies in the receive window (section 3.5.3 of RFC 9293). */
  predicate InWindow(c: Conn, seg: Segment, window: nat) {
    (seg.seqNo - c.rcvNxt) % MOD32 < window
  }

  /** oracle: what one segment does to the slot it is looked up in, and the reply it draws */
  function Handle(c: Conn, port: PortMatch, seg: Segment, window: nat): Outcome {
    if !seg.headerOk || !seg.checksumOk then Outcome(c, NoReply, 0)
    else if port == NoMatch then Outcome(c, ResetReply(seg), 0)
    else
      var slot := if port == ListenOnly then c.(state := LISTEN) else c;
      var evt := Classify(seg);
      if evt.None? then Outcome(slot, ResetReply(seg), 0)
      else if evt.value == RstEvt && port == Exact && !InWindow(c, seg, window) then Outcome(c, NoReply, 0)
      else
        var cell := Table(slot.state, evt.value);
        if cell.None? then Outcome(slot, ResetReply(seg), 0) else Dispatch(slot, seg, cell.value.0, cell.value.1)
  }

  // ----- Runs -----------------------------------------------------------------------

  /** An arriving segment, with the receive window at that moment, or the application closing. */
  datatype Event = Arrive(seg: Segment, window: nat) | Close

  /** How a segment for this slot is matched: a listener by port alone, a closed slot not at all. */
  function PortOf(s: State): PortMatch {
    if s == LISTEN then ListenOnly else if s == CLOSED then NoMatch else Exact
  }

  /** tcp_close: sends a FIN from the two states that may still send */
  function AppClose(c: Conn): Conn {
    if c.state == ESTABLISHED then c.(state := FIN_WAIT_1, sndNxt := Wrap(c.sndNxt + 1))
    else if c.state == CLOSE_WAIT then c.(state := LAST_ACK, sndNxt := Wrap(c.sndNxt + 1))
    else c
  }

  function Step(c: Conn, e: Event): Outcome {
    match e
    case Close => Outcome(AppClose(c), NoReply, 0)
    case Arrive(seg, window) => Handle(c, PortOf(c.state), seg, window)
  }

  /** Where a segment leaves the state, the numbers and replies aside. */
  function NextState(c: Conn, seg: Segment, window: nat): State {
    var port, evt := PortOf(c.state), Classify(seg);
    if !seg.headerOk || !seg.checksumOk || port == NoMatch || evt.None? then c.state
    else if evt.value == RstEvt && port == Exact && !InWindow(c, seg, window) then c.state
    else
      match Table(c.state, evt.value)
      case None => c.state
      case Some((next, handler)) =>
        if handler == FinWait1Fin && Has(seg, ACK) && seg.ackNo == c.sndNxt then TIME_WAIT
        else if handler == EstabFin && !FinInOrder(c, seg) then c.state
        else if handler in {SynRcvdAck, LastAckAck, FinWait1Ack, ClosingAck} && seg.ackNo != c.sndNxt then c.state
        else next
  }

  lemma HandleMoves(c: Conn, seg: Segment, window: nat)
    ensures Handle(c, PortOf(c.state), seg, window).conn.state == NextState(c, seg, window)
  {
    hide InWindow, Wrap, ToNboLdr, Classify;
  }

  /** The connection after a run of events. */
  function After(c: Conn, run: seq<Event>): Conn {
    if run == [] then c else Step(After(c, run[..|run| - 1]), run[|run| - 1]).conn
  }

  /** The i-th step of a run. */
  function StepAt(c: Conn, run: seq<Event>, i: nat): Outcome
    requires i < |run|
  {
    Step(After(c, run[..i]), run[i])
  }

  // ----- The lifecycle only moves forward ---------------------------------------------

  function Rank(s: State): nat {
    match s
    case LISTEN => 0
    case SYN_RCVD => 1
    case ESTABLISHED => 2
    case CLOSE_WAIT => 3
    case FIN_WAIT_1 => 3
    case LAST_ACK => 4
    case FIN_WAIT_2 => 4
    case CLOSING => 4
    case TIME_WAIT => 5
    case CLOSED => 6
  }

  /** Every step keeps the state or moves it up. */
  lemma StepMovesUp(c: Conn, e: Event)
    ensures Step(c, e).conn.state == c.state || Rank(c.state) < Rank(Step(c, e).conn.state)
  {
    if e.Arrive? {
      HandleMoves(c, e.seg, e.window);
    }
    hide Handle, InWindow;
  }

  /** How many steps of the run changed the state. */
  function Changes(c: Conn, run: seq<Event>): nat {
    if run == [] then 0
    else
      var before := After(c, run[..|run| - 1]);
      Changes(c, run[..|run| - 1]) + (if After(c, run).state != before.state then 1 else 0)
  }

  /** Over any run each change of state costs at least one rank, so no run makes more than six. */
  lemma {:induction false} ChangesAreBounded(c: Conn, run: seq<Event>)
    ensures Changes(c, run) <= Rank(After(c, run).state) - Rank(c.state) <= 6
  {
    hide Step;
    if run != [] {
      ChangesAreBounded(c, run[..|run| - 1]);
      StepMovesUp(After(c, run[..|run| - 1]), run[|run| - 1]);
    }
  }

  // ----- Both sides must close --------------------------------------------------------

  /** Step `i` is an application close that took effect. */
  predicate ClosesAt(c: Conn, run: seq<Event>, i: nat)
    requires i < |run|
  {
    run[i].Close? && After(c, run[..i]).state in {ESTABLISHED, CLOSE_WAIT}
  }

  /** Step `i` takes in the peer's FIN. */
  predicate FinAt(c: Conn, run: seq<Event>, i: nat)
    requires i < |run|
  {
    run[i].Arrive? && FinTaken(After(c, run[..i]), run[i].seg)
  }

  predicate FinTaken(c: Conn, seg: Segment) {
    && seg.headerOk && seg.checksumOk && Classify(seg) == Some(FinEvt)
    && (c.state in {FIN_WAIT_1, FIN_WAIT_2} || (c.state == ESTABLISHED && FinInOrder(c, seg)))
  }

  /** Step `i` is a reset inside the window. */
  predicate ResetAt(c: Conn, run: seq<Event>, i: nat)
    requires i < |run|
  {
    run[i].Arrive? && ResetTaken(After(c, run[..i]), run[i].seg, run[i].window)
  }

  predicate ResetTaken(c: Conn, seg: Segment, window: nat) {
    seg.headerOk && seg.checksumOk && Has(seg, RST) && PortOf(c.state) == Exact && InWindow(c, seg, window)
  }

  function Closes(c: Conn, run: seq<Event>): nat {
    if run == [] then 0
    else Closes(c, run[..|run| - 1]) + (if ClosesAt(c, run, |run| - 1) then 1 else 0)
  }

  function Fins(c: Conn, run: seq<Event>): nat {
    if run == [] then 0
    else Fins(c, run[..|run| - 1]) + (if FinAt(c, run, |run| - 1) then 1 else 0)
  }

  function Resets(c: Conn, run: seq<Event>): nat {
    if run == [] then 0
    else Resets(c, run[..|run| - 1]) + (if ResetAt(c, run, |run| - 1) then 1 else 0)
  }

  /** What the state says about the closes, FINs and resets that took effect so far. */
  predicate History(s: State, closes: nat, fins: nat, resets: nat) {
    match s
    case LISTEN => closes == 0 && fins == 0 && resets == 0
    case SYN_RCVD => closes == 0 && fins == 0 && resets == 0
    case ESTABLISHED => closes == 0 && fins == 0 && resets == 0
    case CLOSE_WAIT => closes == 0 && fins == 1 && resets == 0
    case LAST_ACK => closes == 1 && fins == 1 && resets == 0
    case FIN_WAIT_1 => closes == 1 && fins == 0 && resets == 0
    case FIN_WAIT_2 => closes == 1 && fins == 0 && resets == 0
    case CLOSING => closes == 1 && fins == 1 && resets == 0
    case TIME_WAIT => closes == 1 && fins == 1 && resets == 0
    case CLOSED => closes <= 1 && fins <= 1 && resets <= 1 && (resets == 0 ==> closes == 1 && fins == 1)
  }

  /** One step carries the history over. */
  lemma StepKeepsHistory(c: Conn, e: Event, closes: nat, fins: nat, resets: nat)
    requires History(c.state, closes, fins, resets)
    ensures
      var close := if e.Close? && c.state in {ESTABLISHED, CLOSE_WAIT} then 1 else 0;
      var fin := if e.Arrive? && FinTaken(c, e.seg) then 1 else 0;
      var reset := if e.Arrive? && ResetTaken(c, e.seg, e.window) then 1 else 0;
      History(Step(c, e).conn.state, closes + close, fins + fin, resets + reset)
  {
    if e.Arrive? {
      HandleMoves(c, e.seg, e.window);
    }
    hide Handle, InWindow;
  }

  /**
   * Over every run from LISTEN: TIME_WAIT means that both a local close and the peer's FIN took effect,
   * each exactly once, and CLOSED is reached without both only by a reset inside the window.
   */
  lemma {:induction false} RunKeepsHistory(c: Conn, run: seq<Event>)
    requires c.state == LISTEN
    ensures History(After(c, run).state, Closes(c, run), Fins(c, run), Resets(c, run))
  {
    hide Step, History, FinTaken, ResetTaken;
    if run == [] {
      ListenHistory();
    } else {
      var init, last := run[..|run| - 1], run[|run| - 1];
      RunKeepsHistory(c, init);
      StepKeepsHistory(After(c, init), last, Closes(c, init), Fins(c, init), Resets(c, init));
    }
  }

  lemma ListenHistory()
    ensures History(LISTEN, 0, 0, 0)
  {
  }

  // ----- Two half-closes --------------------------------------------------------------

  datatype Handshake = Listening | SynReceived | Up

  /**
   * A connection as two directions that close independently: our FIN sent and acknowledged, the peer's FIN
   * received, which came first, and whether a reset cut it short.
   */
  datatype Life = Life(hand: Handshake, finSent: bool, finAcked: bool, finGot: bool, peerFirst: bool, aborted: bool) {
    ghost predicate Valid() {
      && (finAcked ==> finSent) && (peerFirst ==> finSent && finGot)
      && (hand != Up ==> !finSent && !finGot)
    }

    /** Both directions are done and the side that closed last need not linger. */
    predicate Over() {
      aborted || (peerFirst && finAcked)
    }
  }

  const NEWBORN := Life(Listening, false, false, false, false, false)

  /** The state that the two directions amount to. */
  function StateOf(l: Life): State {
    if l.aborted then CLOSED
    else if l.hand == Listening then LISTEN
    else if l.hand == SynReceived then SYN_RCVD
    else if !l.finSent then (if l.finGot then CLOSE_WAIT else ESTABLISHED)
    else if !l.finGot then (if l.finAcked then FIN_WAIT_2 else FIN_WAIT_1)
    else if l.peerFirst then (if l.finAcked then CLOSED else LAST_ACK)
    else if l.finAcked then TIME_WAIT
    else CLOSING
  }

  /**
   * A close sends our FIN once; a FIN in order closes the other direction once; an ACK completes whatever of ours is
   * open if it carries our next number.
   */
  function Live(l: Life, c: Conn, e: Event): Life {
    if l.Over() then l
    else if e.Close? then
      if l.hand == Up && !l.finSent then l.(finSent := true, peerFirst := l.finGot) else l
    else if !e.seg.headerOk || !e.seg.checksumOk then l
    else if Has(e.seg, RST) then
      (if l.hand != Listening && InWindow(c, e.seg, e.window) then l.(aborted := true) else l)
    else if Has(e.seg, SYN) then
      (if l.hand == Listening && !Has(e.seg, ACK) then l.(hand := SynReceived) else l)
    else if Has(e.seg, FIN) then
      if l.hand == Up && !l.finGot && (l.finSent || FinInOrder(c, e.seg)) then
        var acksOurs := l.finSent && Has(e.seg, ACK) && e.seg.ackNo == c.sndNxt;
        l.(finGot := true, finAcked := l.finAcked || acksOurs)
      else l
    else if Has(e.seg, ACK) && e.seg.ackNo == c.sndNxt then
      if l.hand == SynReceived then l.(hand := Up) else l.(finAcked := l.finSent)
    else l
  }

  function LifeAfter(c: Conn, run: seq<Event>): Life {
    if run == [] then NEWBORN
    else
      var init := run[..|run| - 1];
      Live(LifeAfter(c, init), After(c, init), run[|run| - 1])
  }

  lemma StepFollowsLife(c: Conn, l: Life, e: Event)
    requires l.Valid() && c.state == StateOf(l)
    ensures Live(l, c, e).Valid() && Step(c, e).conn.state == StateOf(Live(l, c, e))
  {
    if e.Arrive? {
      HandleMoves(c, e.seg, e.window);
    }
    hide Handle, InWindow;
  }

  /** Over every run from LISTEN the table computes exactly the state of two independently closing directions. */
  lemma {:induction false} RunFollowsLife(c: Conn, run: seq<Event>)
    requires c.state == LISTEN
    ensures LifeAfter(c, run).Valid() && After(c, run).state == StateOf(LifeAfter(c, run))
  {
    hide Step, Live, StateOf;
    if run == [] {
      NewbornListens();
    } else {
      var init := run[..|run| - 1];
      RunFollowsLife(c, init);
      StepFollowsLife(After(c, init), LifeAfter(c, init), run[|run| - 1]);
    }
  }

  lemma NewbornListens()
    ensures NEWBORN.Valid() && StateOf(NEWBORN) == LISTEN
  {
  }

  // ----- Our FIN is acknowledged by its number ----------------------------------------

  /** The states that follow the acknowledgement of our FIN. */
  predicate Settled(s: State) {
    s in {FIN_WAIT_2, TIME_WAIT, CLOSED}
  }

  /** A segment with that acknowledgement number. */
  predicate Acknowledges(e: Event, n: u32) {
    e.Arrive? && e.seg.headerOk && e.seg.checksumOk && Has(e.seg, ACK) && e.seg.ackNo == n
  }

  /** Step `i` acknowledges the number `n`, with our FIN already sent. */
  predicate AcksFinAt(c: Conn, run: seq<Event>, i: nat, n: u32)
    requires i < |run|
  {
    Acknowledges(run[i], n) && Closes(c, run[..i]) == 1
  }

  lemma SettlesByNumber(c: Conn, e: Event)
    requires Settled(Step(c, e).conn.state)
    ensures Step(c, e).conn.sndNxt == c.sndNxt
    ensures Settled(c.state) || (e.Arrive? && ResetTaken(c, e.seg, e.window))
            || (Acknowledges(e, c.sndNxt) && c.state in {FIN_WAIT_1, LAST_ACK, CLOSING})
  {
    if e.Arrive? {
      HandleMoves(c, e.seg, e.window);
      hide InWindow, ToNboLdr, Wrap;
    }
  }

  /**
   * Over every run from LISTEN: FIN_WAIT_2, TIME_WAIT, and CLOSED without a reset, are reached only by a segment that
   * came after our FIN was sent and acknowledged exactly our next sequence number.
   */
  lemma {:induction false} SettledMeansAcked(c: Conn, run: seq<Event>)
    requires c.state == LISTEN && Settled(After(c, run).state) && Resets(c, run) == 0
    ensures exists i :: 0 <= i < |run| && AcksFinAt(c, run, i, After(c, run).sndNxt)
  {
    hide Step, Settled, ResetTaken, Acknowledges;
    assert run != [] by {
      ListenUnsettled();
    }
    var n := |run| - 1;
    var init, before, last := run[..n], After(c, run[..n]), run[n];
    SettlesByNumber(before, last);
    if Settled(before.state) {
      SettledMeansAcked(c, init);
      var i :| 0 <= i < |init| && AcksFinAt(c, init, i, before.sndNxt);
      assert run[..i] == init[..i];
      assert AcksFinAt(c, run, i, After(c, run).sndNxt);
    } else {
      RunKeepsHistory(c, init);
      assert !ResetAt(c, run, n);
      assert AcksFinAt(c, run, n, After(c, run).sndNxt);
    }
  }

  lemma ListenUnsettled()
    ensures !Settled(LISTEN)
  {
  }

  // ----- Resets ---------------------------------------------------------------------

  /**
   * No segment carrying RST ever draws a reply, and a reset does nothing but close: exactly when it is in the window.
   */
  lemma ResetIsSilent(c: Conn, seg: Segment, window: nat)
    requires Has(seg, RST)
    ensures Step(c, Arrive(seg, window)).reply == NoReply
    ensures Step(c, Arrive(seg, window)).conn == if ResetTaken(c, seg, window) then c.(state := CLOSED) else c
  {
    hide InWindow, Wrap, ToNboLdr;
  }

  /**
   * A reply with RST is sent only for a segment without one, leaves the connection alone and carries the numbers it
   * owes.
   */
  lemma ResetsAreOwed(c: Conn, e: Event)
    requires Step(c, e).reply.Reply? && Step(c, e).reply.flags & RST != 0
    ensures e.Arrive? && !Has(e.seg, RST) && Step(c, e).conn == c && Step(c, e).delivered == 0
    ensures Has(e.seg, ACK) ==> Step(c, e).reply == Reply(54, RST, ToNboLdr(e.seg.ackNo), 0)
    ensures !Has(e.seg, ACK) ==> Step(c, e).reply.flags == RST_ACK && Step(c, e).reply.seqNo == 0
    ensures !Has(e.seg, ACK) ==> Step(c, e).reply.ackNo == ToNboLdr(Wrap(e.seg.seqNo + SegmentLength(e.seg)))
  {
    hide InWindow, Wrap, ToNboLdr;
  }

  /** SEG.LEN: the payload and the sequence numbers of SYN and FIN. */
  function SegmentLength(seg: Segment): nat {
    seg.data + (if Has(seg, SYN) then 1 else 0) + (if Has(seg, FIN) then 1 else 0)
  }

  /**
   * Every other reply acknowledges exactly what the connection has then received, from its own next sequence number.
   */
  lemma RepliesAcknowledge(c: Conn, e: Event)
    requires Step(c, e).reply.Reply? && Step(c, e).reply.flags & RST == 0
    ensures
      var o := Step(c, e);
      && o.reply.ackNo == ToNboLdr(o.conn.rcvNxt)
      && (o.reply.flags == ACK ==> o.reply.length == 54 && o.reply.seqNo == ToNboLdr(o.conn.sndNxt))
      && (o.reply.flags != ACK ==> o.reply.length == 62 && o.reply.flags == SYN_ACK && c.state == LISTEN
                                   && o.reply.seqNo == ToNboLdr(c.isn) && o.conn.sndNxt == Wrap(c.isn + 1))
  {
    hide InWindow, Wrap, ToNboLdr;
  }

  // ----- Conservation ---------------------------------------------------------------

  function Delivered(c: Conn, run: seq<Event>): nat {
    if run == [] then 0
    else Delivered(c, run[..|run| - 1]) + StepAt(c, run, |run| - 1).delivered
  }

  lemma StepConserves(c: Conn, e: Event)
    requires c.state != LISTEN
    ensures
      var fin := if e.Arrive? && FinTaken(c, e.seg) then 1 else 0;
      Step(c, e).conn.state != LISTEN && Step(c, e).conn.rcvNxt == Wrap(c.rcvNxt + Step(c, e).delivered + fin)
    ensures
      var fin := if e.Close? && c.state in {ESTABLISHED, CLOSE_WAIT} then 1 else 0;
      Step(c, e).conn.sndNxt == Wrap(c.sndNxt + fin)
  {
    hide InWindow, ToNboLdr, Wrap;
    WrapIsIdentity(c.rcvNxt);
    WrapIsIdentity(c.sndNxt);
  }

  lemma WrapAdds(a: int, b: int)
    ensures Wrap(Wrap(a) + b) == Wrap(a + b)
  {
    var q := a / MOD32;
    assert Wrap(a) == a - q * MOD32;
    ShiftByMultiple(a + b, q);
  }

  lemma ShiftByMultiple(x: int, q: int)
    ensures Wrap(x - q * MOD32) == Wrap(x)
  {
    var r := x / MOD32;
    assert x - q * MOD32 == (r - q) * MOD32 + Wrap(x);
  }

  /**
   * Over every run of an open connection, the next expected sequence number has advanced by exactly the
   * bytes delivered and the peer's FIN, and our own by exactly the FIN of the local close.
   */
  lemma {:induction false} SequenceNumbersConserved(c: Conn, run: seq<Event>)
    requires c.state != LISTEN
    ensures After(c, run).state != LISTEN
    ensures After(c, run).rcvNxt == Wrap(c.rcvNxt + Delivered(c, run) + Fins(c, run))
    ensures After(c, run).sndNxt == Wrap(c.sndNxt + Closes(c, run))
  {
    hide Step, FinTaken, Wrap;
    if run == [] {
      WrapIsIdentity(c.rcvNxt);
      WrapIsIdentity(c.sndNxt);
    } else {
      var init, last := run[..|run| - 1], run[|run| - 1];
      SequenceNumbersConserved(c, init);
      StepConserves(After(c, init), last);
      var o := StepAt(c, run, |run| - 1);
      var fin, close := Fins(c, run) - Fins(c, init), Closes(c, run) - Closes(c, init);
      WrapAdds(c.rcvNxt + Delivered(c, init) + Fins(c, init), o.delivered + fin);
      WrapAdds(c.sndNxt + Closes(c, init), close);
      var a, b := Wrap(c.rcvNxt + Delivered(c, init) + Fins(c, init)), Wrap(c.sndNxt + Closes(c, init));
      assert a + (o.delivered + fin) == a + o.delivered + fin;
    }
  }

  lemma WrapIsIdentity(x: u32)
    ensures Wrap(x) == x
  {
  }
}
