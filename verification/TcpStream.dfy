/**
 * What the connection answers and delivers: which segments draw what, and of a byte stream cut into segments exactly
 * what has arrived in order.
 */
module TcpStream {
  import opened Bytes
  import opened TcpFsa

  /** Both headers and the checksum are good, and the flags say ACK or FIN but neither RST nor SYN. */
  predicate Plain(seg: Segment) {
    && seg.headerOk && seg.checksumOk
    && seg.flags & 0x04 == 0 && seg.flags & 0x02 == 0 && (seg.flags & 0x10 != 0 || seg.flags & 0x01 != 0)
  }

  /** One segment delivers its data exactly when the connection is established and the data is the next in order. */
  lemma DeliversInOrderOnly(c: Conn, seg: Segment, window: nat)
    ensures Step(c, Arrive(seg, window)).delivered ==
            if c.state == ESTABLISHED && Plain(seg) && seg.seqNo == c.rcvNxt then seg.data else 0
  {
    hide InWindow, ToNboLdr, Wrap;
  }

  /**
   * The data segment of an established connection: taken, advanced over and acknowledged, or answered with what is due.
   */
  lemma DataSegment(c: Conn, seg: Segment, window: nat)
    requires c.state == ESTABLISHED && Plain(seg) && seg.flags & 0x01 == 0 && seg.data > 0
    ensures
      var o := Step(c, Arrive(seg, window));
      var next := if seg.seqNo == c.rcvNxt then (c.rcvNxt + seg.data) % 0x1_0000_0000 else c.rcvNxt;
      && o.delivered == (if seg.seqNo == c.rcvNxt then seg.data else 0)
      && o.conn == c.(rcvNxt := next)
      && o.reply == Reply(54, 0x10, ToNboLdr(c.sndNxt), ToNboLdr(next))
  {
    hide InWindow, ToNboLdr;
  }

  // ----- Which segments are answered, and how ----------------------------------------------

  /** A FIN that a state takes, or data: what is answered with an acknowledgement. */
  predicate DrawsAck(c: Conn, seg: Segment) {
    && Plain(seg)
    && if seg.flags & 0x01 != 0 then c.state in {ESTABLISHED, FIN_WAIT_1, FIN_WAIT_2, TIME_WAIT}
       else c.state == ESTABLISHED && seg.data > 0
  }

  /** An acknowledgement that is taken in silence, or passed over. */
  predicate DrawsNothing(c: Conn, seg: Segment) {
    && Plain(seg) && seg.flags & 0x01 == 0
    && match c.state
       case ESTABLISHED => seg.data == 0
       case CLOSE_WAIT => true
       case FIN_WAIT_2 => true
       case TIME_WAIT => true
       case SYN_RCVD => seg.ackNo == c.sndNxt
       case FIN_WAIT_1 => seg.ackNo <= c.sndNxt
       case LAST_ACK => seg.ackNo <= c.sndNxt
       case CLOSING => seg.ackNo <= c.sndNxt
       case LISTEN => false
       case CLOSED => false
  }

  /** A connection is asked for. */
  predicate DrawsSynAck(c: Conn, seg: Segment) {
    && seg.headerOk && seg.checksumOk && c.state == LISTEN
    && seg.flags & 0x04 == 0 && seg.flags & 0x02 != 0 && seg.flags & 0x10 == 0
  }

  /** Every segment: no answer, an acknowledgement, a SYN with one, or else a reset, and each exactly when. */
  lemma AnswersExactly(c: Conn, seg: Segment, window: nat)
    ensures
      var reply := Step(c, Arrive(seg, window)).reply;
      if !seg.headerOk || !seg.checksumOk || seg.flags & 0x04 != 0 || DrawsNothing(c, seg) then reply == NoReply
      else
        && reply.Reply?
        && reply.flags == (if DrawsAck(c, seg) then 0x10 else if DrawsSynAck(c, seg) then 0x12
                           else if seg.flags & 0x10 != 0 then 0x04 else 0x14)
  {
    hide InWindow, ToNboLdr, Wrap;
  }

  /** The sequence number `d` further. */
  function Further(from: u32, d: nat): int {
    (from + d) % 0x1_0000_0000
  }

  /** A reset closes a connection exactly when its number is one of the `window` next ones. */
  lemma ResetExactly(c: Conn, seg: Segment, window: nat)
    requires seg.headerOk && seg.checksumOk && seg.flags & 0x04 != 0 && window <= 0x1_0000_0000
    ensures Step(c, Arrive(seg, window)).conn ==
            if c.state != LISTEN && exists d :: 0 <= d < window && Further(c.rcvNxt, d) == seg.seqNo
            then c.(state := CLOSED) else c
  {
    ResetIsSilent(c, seg, window);
    hide Step;
    var d := (seg.seqNo - c.rcvNxt) % 0x1_0000_0000;
    DistanceReaches(c.rcvNxt, seg.seqNo);
    forall e: nat | e < window && Further(c.rcvNxt, e) == seg.seqNo ensures e == d {
      NumbersDiffer(c.rcvNxt, d, e);
    }
    assert InWindow(c, seg, window) <==> d < window;
    hide Further;
  }

  lemma DistanceReaches(from: u32, to: u32)
    ensures Further(from, (to - from) % 0x1_0000_0000) == to
  {
    var d := (to - from) % 0x1_0000_0000;
    assert d == to - from || d == to - from + 0x1_0000_0000;
  }

  // ----- A byte stream in segments ------------------------------------------------------

  /** Where a stream is cut into pieces: from 0 to its length, below the size of the sequence space. */
  ghost predicate Cuts(cuts: seq<nat>) {
    && |cuts| >= 1 && cuts[0] == 0 && cuts[|cuts| - 1] < 0x1_0000_0000
    && forall i, j :: 0 <= i < j < |cuts| ==> cuts[i] < cuts[j]
  }

  /** The event brings the k-th piece of the stream that starts at sequence number `base`. */
  predicate Brings(e: Event, base: u32, cuts: seq<nat>, k: nat) {
    && k + 1 < |cuts| && cuts[k] < cuts[k + 1]
    && e.Arrive? && Plain(e.seg) && e.seg.flags & 0x01 == 0
    && e.seg.seqNo == (base + cuts[k]) % 0x1_0000_0000 && e.seg.data == cuts[k + 1] - cuts[k]
  }

  /** The event brings something damaged on the way. */
  predicate Damaged(e: Event) {
    e.Arrive? && !(e.seg.headerOk && e.seg.checksumOk)
  }

  /** The run brings these pieces, in this order, among damaged segments. */
  ghost predicate BringsAll(run: seq<Event>, base: u32, cuts: seq<nat>, pieces: seq<Option<nat>>) {
    && |run| == |pieces|
    && forall i :: 0 <= i < |run| ==>
         match pieces[i]
         case Some(k) => Brings(run[i], base, cuts, k)
         case None => Damaged(run[i])
  }

  /** The first `n` pieces stand in the sequence in order, whatever stands between them. */
  ghost predicate InOrder(pieces: seq<Option<nat>>, n: nat) {
    exists at: seq<nat> :: StandsAt(pieces, n, at)
  }

  ghost predicate StandsAt(pieces: seq<Option<nat>>, n: nat, at: seq<nat>) {
    && |at| == n
    && (forall i :: 0 <= i < n ==> at[i] < |pieces| && pieces[at[i]] == Some(i))
    && (forall i, j :: 0 <= i < j < n ==> at[i] < at[j])
  }

  /** How many of the first pieces stand there in order. */
  function Received(pieces: seq<Option<nat>>): nat {
    if pieces == [] then 0
    else
      var n := Received(pieces[..|pieces| - 1]);
      if pieces[|pieces| - 1] == Some(n) then n + 1 else n
  }

  lemma {:induction false} ReceivedStands(pieces: seq<Option<nat>>) returns (at: seq<nat>)
    ensures StandsAt(pieces, Received(pieces), at)
  {
    if pieces == [] {
      at := [];
    } else {
      var last := |pieces| - 1;
      at := ReceivedStands(pieces[..last]);
      if pieces[last] == Some(Received(pieces[..last])) {
        at := at + [last];
      }
    }
  }

  lemma {:induction false} NoMoreStand(pieces: seq<Option<nat>>, n: nat, at: seq<nat>)
    requires StandsAt(pieces, n, at)
    ensures n <= Received(pieces)
  {
    if n > 0 {
      assert at[n - 1] < |pieces|;
      var last := |pieces| - 1;
      var init := pieces[..last];
      if at[n - 1] == last {
        assert StandsAt(init, n - 1, at[..n - 1]);
        NoMoreStand(init, n - 1, at[..n - 1]);
        if Received(init) < n {
          assert Received(init) == n - 1;
        }
      } else {
        assert StandsAt(init, n, at);
        NoMoreStand(init, n, at);
      }
    }
  }

  /** That many, and no more. */
  lemma ReceivedIsMost(pieces: seq<Option<nat>>)
    ensures forall n: nat :: InOrder(pieces, n) <==> n <= Received(pieces)
  {
    var at := ReceivedStands(pieces);
    forall n: nat | n <= Received(pieces) ensures InOrder(pieces, n) {
      assert StandsAt(pieces, n, at[..n]);
    }
    forall n: nat | InOrder(pieces, n) ensures n <= Received(pieces) {
      var at' :| StandsAt(pieces, n, at');
      NoMoreStand(pieces, n, at');
    }
  }

  /** Different places of the stream have different sequence numbers. */
  lemma NumbersDiffer(base: u32, a: nat, b: nat)
    requires a < 0x1_0000_0000 && b < 0x1_0000_0000
    ensures (base + a) % 0x1_0000_0000 == (base + b) % 0x1_0000_0000 <==> a == b
  {
    if (base + a) % 0x1_0000_0000 == (base + b) % 0x1_0000_0000 {
      var q := (base + a) / 0x1_0000_0000 - (base + b) / 0x1_0000_0000;
      assert a - b == q * 0x1_0000_0000;
    }
  }

  /** One piece: delivered exactly when it is the next. */
  lemma PieceStep(c: Conn, e: Event, base: u32, cuts: seq<nat>, k: nat, n: nat)
    requires c.state == ESTABLISHED && Cuts(cuts) && Brings(e, base, cuts, k)
    requires n < |cuts| && c.rcvNxt == (base + cuts[n]) % 0x1_0000_0000
    ensures
      var o := Step(c, e);
      var n' := if k == n then n + 1 else n;
      && n' < |cuts| && o.conn.state == ESTABLISHED
      && o.delivered == cuts[n'] - cuts[n]
      && o.conn.rcvNxt == (base + cuts[n']) % 0x1_0000_0000
  {
    DataSegment(c, e.seg, e.window);
    NumbersDiffer(base, cuts[k], cuts[n]);
    if k == n {
      WrapAdds(base + cuts[n], e.seg.data);
    }
    hide Step;
  }

  lemma DamagedStep(c: Conn, e: Event)
    requires Damaged(e)
    ensures Step(c, e) == Outcome(c, NoReply, 0)
  {
  }

  /**
   * Over every run that brings pieces of a stream in any order, any number of times, among damaged segments: exactly
   * the bytes of the first pieces that arrived in order are delivered, and acknowledged up to.
   */
  lemma {:induction false} StreamDelivered(c: Conn, run: seq<Event>, cuts: seq<nat>, pieces: seq<Option<nat>>)
    requires c.state == ESTABLISHED && Cuts(cuts) && BringsAll(run, c.rcvNxt, cuts, pieces)
    ensures After(c, run).state == ESTABLISHED && Received(pieces) < |cuts|
    ensures Delivered(c, run) == cuts[Received(pieces)]
    ensures After(c, run).rcvNxt == (c.rcvNxt + cuts[Received(pieces)]) % 0x1_0000_0000
    ensures forall n: nat :: InOrder(pieces, n) <==> n <= Received(pieces)
  {
    hide Step, InOrder, Brings, Damaged;
    ReceivedIsMost(pieces);
    if run == [] {
      WrapIsIdentity(c.rcvNxt);
    } else {
      var last := |run| - 1;
      StreamDelivered(c, run[..last], cuts, pieces[..last]);
      var before := After(c, run[..last]);
      match pieces[last]
      case Some(k) => PieceStep(before, run[last], c.rcvNxt, cuts, k, Received(pieces[..last]));
      case None => DamagedStep(before, run[last]);
    }
  }

  /** So the whole stream is delivered exactly when all its pieces arrived in order at some time. */
  lemma WholeStreamIff(c: Conn, run: seq<Event>, cuts: seq<nat>, pieces: seq<Option<nat>>)
    requires c.state == ESTABLISHED && Cuts(cuts) && BringsAll(run, c.rcvNxt, cuts, pieces)
    ensures Delivered(c, run) == cuts[|cuts| - 1] <==> InOrder(pieces, |cuts| - 1)
  {
    hide InOrder, BringsAll, Received, Delivered, After, Step;
    StreamDelivered(c, run, cuts, pieces);
  }
}
