/**
 * Whole flash runs: the sender against the chainloader, over a line that may damage what it carries to the device.
 * What counts as an acknowledgement, when a refused record passes for one, and what a completed run leaves in memory.
 */
module FlashRun {
  import opened Bytes
  import opened IntelHex
  import opened Chainloader
  import opened FlashSender

  const NETWORK_CONF_BASE := 0x2000_0000

  /** What arrives of the i-th line. */
  type Channel = (nat, string) -> string

  /** A line to a device: its damage, the device's answer byte at power-on, and what it makes of noise. */
  datatype Link = Link(channel: Channel, check: byte, noise: Noise)

  function Clear(): Channel {
    (i: nat, line: string) => line
  }

  function Arrived(lines: seq<string>, channel: Channel): (r: seq<string>)
    ensures |r| == |lines|
  {
    seq(|lines|, i requires 0 <= i < |lines| => channel(i, lines[i]))
  }

  /** The chainloader when the n-th line comes. */
  function ChainAt(lines: seq<string>, n: nat, link: Link): (ch: Chain)
    requires n <= |lines|
    ensures ch.Valid()
  {
    HearAll(PowerOn(link.check), Arrived(lines[..n], link.channel), link.noise)
  }

  lemma ChainNext(lines: seq<string>, n: nat, link: Link)
    requires n < |lines|
    ensures ChainAt(lines, n + 1, link) == Hear(ChainAt(lines, n, link), link.channel(n, lines[n]), link.noise)
  {
    var now, next := Arrived(lines[..n], link.channel), Arrived(lines[..n + 1], link.channel);
    assert next[..n] == now && next[n] == link.channel(n, lines[n]);
  }

  /** The chainloader behind the channel, as the sender sees it. */
  function ChainAnswer(link: Link): Answer {
    (lines: seq<string>) =>
      if lines == [] then []
      else
        var n := |lines| - 1;
        Reply(ChainAt(lines, n, link), link.channel(n, lines[n]), link.noise)
  }

  // ----- What passes for an acknowledgement ---------------------------------------------

  /** The answer to this line begins with the acknowledgement of that record. */
  predicate Taken(ch: Chain, rec: string, line: string, noise: Noise)
    requires ch.Valid() && Sendable(rec)
  {
    Ack(rec) <= Reply(ch, line, noise)
  }

  lemma AckStarts(rec: string, n: byte, c: byte, rest: seq<byte>)
    requires Sendable(rec)
    ensures Ack(rec) <= [n, c] + rest <==> |rec| == n && Expected(rec) == c
  {
    assert ([n, c] + rest)[..2] == [n, c];
    assert Ack(rec)[0] == |rec| && Ack(rec)[1] == Expected(rec);
  }

  /**
   * Whatever arrives, it is taken for the acknowledgement of a record exactly when it has the record's length and
   * is either accepted with the record's checksum byte or refused with that byte's complement left over.
   */
  lemma TakenIff(ch: Chain, rec: string, line: string, noise: Noise)
    requires ch.Valid() && Sendable(rec) && |rec| >= MIN_RECORD
    ensures Taken(ch, rec, line, noise) <==>
            && !ch.loader.booted && |Kept(line)| == |rec|
            && match Judge(Overlay(ch.buf, line), ch.check, noise)
               case Accepted(c, _) => c == Expected(rec)
               case Refused(c) => c == 0xFF - Expected(rec)
  {
    hide Judge, Expected, BootMessage, Ack;
    var n: byte := |Kept(line)|;
    AckStarts(rec, n, ch.check, BootMessage(ch.count + 1));
    var v := Judge(Overlay(ch.buf, line), ch.check, noise);
    var c := if v.Accepted? then v.check else 0xFF - v.check;
    AckStarts(rec, n, c, []);
    AckStarts(rec, n, c, BootMessage(ch.count + 1));
    assert [n, c] + [] == [n, c];
    EmptyIsNoAck(rec);
  }

  lemma EmptyIsNoAck(rec: string)
    requires Sendable(rec)
    ensures !(Ack(rec) <= [])
  {
  }

  /**
   * A legible record refused for its sum changes no memory, and is yet taken for acknowledged exactly when its
   * length survived and its bytes sum, mod 256, to the complement of the checksum the host sent.
   */
  lemma RefusedTakenForAck(ch: Chain, rec: string, line: string, noise: Noise)
    requires ch.Valid() && !ch.loader.booted && Sendable(rec) && MIN_RECORD <= |line|
    requires var buf := Overlay(ch.buf, line);
             buf[0] == ':' && Legible(buf) && Sum(RawOf(buf)) % 0x100 != 0
    ensures Hear(ch, line, noise).loader == ch.loader && Hear(ch, line, noise).count == ch.count
    ensures Taken(ch, rec, line, noise) <==>
            |Kept(line)| == |rec| && Sum(RawOf(Overlay(ch.buf, line))) % 0x100 == 0xFF - Expected(rec)
  {
    hide Expected, Legible, RawOf, Sum, Overlay, Ack;
    var n: byte, c: byte := |Kept(line)|, 0xFF - Sum(RawOf(Overlay(ch.buf, line))) % 0x100;
    AckStarts(rec, n, c, []);
    assert [n, c] + [] == [n, c];
  }

  /** A line that does not even begin with ':' is judged by what the record before it left. */
  lemma StartlessTakenForAck(ch: Chain, rec: string, line: string, noise: Noise)
    requires ch.Valid() && !ch.loader.booted && Sendable(rec) && MIN_RECORD <= |line| && line[0] != ':'
    ensures Hear(ch, line, noise).loader == ch.loader
    ensures Taken(ch, rec, line, noise) <==> |Kept(line)| == |rec| && ch.check == 0xFF - Expected(rec)
  {
    hide Expected, Ack;
    var n: byte := |Kept(line)|;
    AckStarts(rec, n, 0xFF - ch.check, []);
    assert [n, 0xFF - ch.check] + [] == [n, 0xFF - ch.check];
  }

  // ----- Made records ---------------------------------------------------------------------

  predicate LoadableRec(r: Rec) {
    r.Data? ==> 0 <= r.address <= 0xFFFF && |r.bytes| <= 16
  }

  predicate Loadable(recs: seq<Rec>) {
    forall r :: r in recs ==> LoadableRec(r)
  }

  /** All bytes of a record, its checksum last. */
  function Full(r: Rec): seq<byte>
    requires LoadableRec(r)
  {
    var raw :=
      match r
      case Ext(u) => Raw(4, 0, [u / 0x100 % 0x100, u % 0x100])
      case Data(a, d) => Raw(0, a, d)
      case Eof => Raw(1, 0, []);
    raw + [RecordChecksum(raw)]
  }

  lemma FullIsCounted(r: Rec)
    requires LoadableRec(r)
    ensures Counted(Full(r)) && 5 <= |Full(r)| <= 21 && Sum(Full(r)) % 0x100 == 0
    ensures Text(r) == Ok(LineOf(Full(r)))
  {
    match r
    case Ext(u) =>
      MadeRecordBytes(4, 0, [u / 0x100 % 0x100, u % 0x100]);
      ChecksumCancels(Raw(4, 0, [u / 0x100 % 0x100, u % 0x100]));
    case Data(a, d) =>
      MadeRecordBytes(0, a, d);
      ChecksumCancels(Raw(0, a, d));
    case Eof =>
      MadeRecordBytes(1, 0, []);
      ChecksumCancels(Raw(1, 0, []));
  }

  /** A printed record can be sent, and its last two characters are its last byte. */
  lemma LineIsSendable(full: seq<byte>)
    requires Counted(full)
    ensures MIN_RECORD <= |LineOf(full)| == 1 + 2 * |full| && Kept(LineOf(full)) == LineOf(full)
    ensures Sendable(LineOf(full)) && Expected(LineOf(full)) == full[|full| - 1]
  {
    var line, n := LineOf(full), |full| - 1;
    HexIsPrintable(full);
    HexAt(full, n);
    HexByteRoundTrip(full[n]);
    assert line[|line| - 2] == Hex(full)[2 * n] && line[|line| - 1] == Hex(full)[2 * n + 1];
    forall c | c in line ensures c != '\r' && c != '\n' {
      assert c == ':' || c in Hex(full);
    }
  }

  /** The record that its bytes stand for. */
  lemma FullMeans(r: Rec, buf: string, check: byte, noise: Noise)
    requires LoadableRec(r) && |buf| == LINE_BUF_SIZE && buf[0] == ':' && Legible(buf) && RawOf(buf) == Full(r)
    ensures var v := Judge(buf, check, noise);
            v.Accepted? && v.check == Full(r)[|Full(r)| - 1] && (v.rec == Eof <==> r == Eof)
    ensures forall l :: Apply(l, Judge(buf, check, noise).rec) == Apply(l, r)
  {
    FullIsCounted(r);
    FullFields(r);
    hide Legible, RawOf, Sum, Full;
  }

  lemma FullFields(r: Rec)
    requires LoadableRec(r)
    ensures var full := Full(r);
            && |full| >= 5
            && full[3] == (if r.Data? then 0 else if r.Eof? then 1 else 4)
            && (r.Data? ==> Word(full[1], full[2]) == r.address && full[4..|full| - 1] == r.bytes)
            && (r.Ext? ==> full[0] == 2 && |full| == 7 && Word(full[4], full[5]) % 0x1_0000 == r.upper % 0x1_0000)
  {
    hide RecordChecksum, Word;
    match r
    case Ext(u) => ExtWord(u);
    case Data(a, d) => AddressWord(a);
    case Eof =>
  }

  lemma ExtWord(u: int)
    ensures Word(u / 0x100 % 0x100, u % 0x100) % 0x1_0000 == u % 0x1_0000
  {
    assert Word(u / 0x100 % 0x100, u % 0x100) == u % 0x1_0000;
  }

  lemma AddressWord(a: int)
    requires 0 <= a <= 0xFFFF
    ensures Word(a / 0x100 % 0x100, a % 0x100) == a
  {
  }

  /** An undamaged record is acknowledged, takes effect, and only the end record stops the transfer. */
  lemma RecordHeard(ch: Chain, r: Rec, noise: Noise)
    requires ch.Valid() && !ch.loader.booted && LoadableRec(r)
    ensures var line := LineOf(Full(r));
            && Sendable(line) && Taken(ch, line, line, noise)
            && Hear(ch, line, noise).loader == Apply(ch.loader, r) && Hear(ch, line, noise).count == ch.count + 1
            && (r != Eof ==> !Hear(ch, line, noise).loader.booted)
  {
    FullIsCounted(r);
    LineIsSendable(Full(r));
    LineIsRead(ch.buf, Full(r));
    FullMeans(r, Overlay(ch.buf, LineOf(Full(r))), ch.check, noise);
    TakenIff(ch, LineOf(Full(r)), LineOf(Full(r)), noise);
    hide Judge, Overlay, LineOf, Full;
  }

  // ----- A damaged data byte --------------------------------------------------------------

  /** How far a byte was moved, mod 256. */
  function Shift(from: byte, to: byte): byte {
    (to - from) % 0x100
  }

  /**
   * One damaged byte of a record past its byte count is always refused, and is taken for acknowledged exactly when
   * it moved by the complement of the checksum; on the checksum itself, that is when it became 0xFF.
   */
  lemma DamagedByteTakenForAck(ch: Chain, full: seq<byte>, k: nat, b: byte, noise: Noise)
    requires ch.Valid() && !ch.loader.booted && Counted(full) && Sum(full) % 0x100 == 0
    requires 1 <= k < |full| && b != full[k]
    ensures Sendable(LineOf(full)) && Hear(ch, LineOf(full[k := b]), noise).loader == ch.loader
    ensures Hear(ch, LineOf(full[k := b]), noise).count == ch.count
    ensures Taken(ch, LineOf(full), LineOf(full[k := b]), noise) <==> Shift(full[k], b) == 0xFF - full[|full| - 1]
  {
    LineIsSendable(full);
    DamagedLine(ch.buf, full, k, b);
    hide LineOf, Overlay, RawOf, Sum, Judge, Hear, Taken, Expected, Legible, Kept, Shift, Counted, Sendable;
    RefusedTakenForAck(ch, LineOf(full), LineOf(full[k := b]), noise);
  }

  lemma DamagedLine(buf: string, full: seq<byte>, k: nat, b: byte)
    requires |buf| == LINE_BUF_SIZE && Counted(full) && Sum(full) % 0x100 == 0
    requires 1 <= k < |full| && b != full[k]
    ensures var line := LineOf(full[k := b]);
            var buf' := Overlay(buf, line);
            && MIN_RECORD <= |line| == |LineOf(full)| && Kept(line) == line
            && buf'[0] == ':' && Legible(buf') && Sum(RawOf(buf')) % 0x100 == Shift(full[k], b) != 0
  {
    hide Legible, RawOf, Overlay, LineOf, Kept;
    LineIsSendable(full);
    LineIsSendable(full[k := b]);
    LineIsRead(buf, full[k := b]);
    SumUpdate(full, k, b);
    hide Sum;
    DamagedSum(Sum(full), full[k], b);
  }

  lemma DamagedSum(sum: nat, old_: byte, new_: byte)
    requires sum % 0x100 == 0 && old_ != new_
    ensures (sum - old_ + new_) % 0x100 == Shift(old_, new_) != 0
  {
    var q := sum / 0x100;
    assert sum == 0x100 * q;
    assert (new_ - old_ + 0x100 * q) % 0x100 == (new_ - old_) % 0x100;
  }

  // ----- Runs over a channel ----------------------------------------------------------------

  /** The lines of a host that sends at most 16 data bytes a record. */
  predicate HostLine(rec: string) {
    Sendable(rec) && MIN_RECORD <= |rec| <= 43
  }

  predicate HostLines(lines: seq<string>) {
    && (forall i :: 0 <= i < |lines| ==> HostLine(lines[i]))
    && (forall rec :: rec in lines ==> Sendable(rec))
  }

  /** The n-th line, as it arrives, is taken for acknowledged. */
  predicate TakenAt(lines: seq<string>, n: nat, link: Link)
    requires n < |lines| && HostLines(lines)
  {
    Taken(ChainAt(lines, n, link), lines[n], link.channel(n, lines[n]), link.noise)
  }

  /** What the device still says after the answer that ended the transfer. */
  function Farewell(ch: Chain): seq<byte> {
    if ch.loader.booted then BootMessage(ch.count) else []
  }

  /** A line taken for acknowledged is answered by the acknowledgement, and the farewell if it was the last. */
  lemma TakenReply(ch: Chain, rec: string, line: string, noise: Noise)
    requires ch.Valid() && HostLine(rec) && Taken(ch, rec, line, noise)
    ensures !ch.loader.booted && Farewell(ch) == []
    ensures Reply(ch, line, noise) == Ack(rec) + Farewell(Hear(ch, line, noise))
  {
    TakenIff(ch, rec, line, noise);
    hide Judge, BootMessage, Overlay, Kept, Taken, Expected;
  }

  lemma AnswersNext(lines: seq<string>, n: nat, answer: Answer)
    requires n < |lines|
    ensures Answers(lines[..n + 1], answer) == Answers(lines[..n], answer) + answer(lines[..n + 1])
  {
    assert lines[..n + 1][..n] == lines[..n];
  }

  lemma ChainAnswers(lines: seq<string>, n: nat, link: Link)
    requires n < |lines|
    ensures ChainAnswer(link)(lines[..n + 1]) ==
            Reply(ChainAt(lines, n, link), link.channel(n, lines[n]), link.noise)
  {
    hide Reply, ChainAt;
    var upto := lines[..n + 1];
    assert upto[..n] == lines[..n] && upto[n] == lines[n];
    SamePrefixSameChain(upto, lines, n, link);
  }

  lemma AnswerAt(lines: seq<string>, n: nat, link: Link)
    requires n < |lines|
    ensures Answers(lines[..n + 1], ChainAnswer(link)) ==
            Answers(lines[..n], ChainAnswer(link))
            + Reply(ChainAt(lines, n, link), link.channel(n, lines[n]), link.noise)
  {
    hide Reply, ChainAt, ChainAnswer, Answers;
    AnswersNext(lines, n, ChainAnswer(link));
    ChainAnswers(lines, n, link);
  }

  lemma SamePrefixSameChain(a: seq<string>, b: seq<string>, n: nat, link: Link)
    requires n <= |a| && n <= |b| && a[..n] == b[..n]
    ensures ChainAt(a, n, link) == ChainAt(b, n, link)
  {
  }

  lemma AcksNext(lines: seq<string>, n: nat)
    requires n < |lines| && forall r :: r in lines ==> Sendable(r)
    ensures Acks(lines[..n + 1]) == Acks(lines[..n]) + Ack(lines[n])
  {
    assert lines[..n + 1][..n] == lines[..n];
  }

  /** While every line is taken for acknowledged, the answers are the acknowledgements, and a farewell at the end. */
  lemma {:induction false} AnswersAreAcks(lines: seq<string>, n: nat, link: Link)
    requires n <= |lines| && HostLines(lines)
    requires forall i :: 0 <= i < n ==> TakenAt(lines, i, link)
    ensures Answers(lines[..n], ChainAnswer(link)) ==
            Acks(lines[..n]) + Farewell(ChainAt(lines, n, link))
  {
    hide Reply, Hear, Taken, ChainAt, Farewell, Answers, Acks, Ack, HostLine, ChainAnswer;
    if n == 0 {
      NotBootedYet(lines, link);
    } else {
      var answer := ChainAnswer(link);
      var before, line := ChainAt(lines, n - 1, link), link.channel(n - 1, lines[n - 1]);
      AnswersAreAcks(lines, n - 1, link);
      AnswerAt(lines, n - 1, link);
      AcksNext(lines, n - 1);
      ChainNext(lines, n - 1, link);
      assert TakenAt(lines, n - 1, link);
      TakenReply(before, lines[n - 1], line, link.noise);
      var k, a, f := Acks(lines[..n - 1]), Ack(lines[n - 1]), Farewell(ChainAt(lines, n, link));
      assert k + [] == k;
      ConcatAssoc(k, a, f);
    }
  }

  lemma NotBootedYet(lines: seq<string>, link: Link)
    ensures Answers(lines[..0], ChainAnswer(link)) == []
    ensures ChainAt(lines, 0, link).loader == IDLE_LOADER && Farewell(ChainAt(lines, 0, link)) == []
    ensures ChainAt(lines, 0, link).count == 0
    ensures (forall rec :: rec in lines ==> Sendable(rec)) ==> Acks(lines[..0]) == []
  {
  }

  /** A farewell is never taken for an acknowledgement of a host line. */
  lemma AfterFarewell(ch: Chain, rec: string, answer: seq<byte>)
    requires HostLine(rec)
    ensures Ack(rec) <= Farewell(ch) + answer ==> Farewell(ch) == [] && Ack(rec) <= answer
  {
    hide HexDigit, Expected;
    if ch.loader.booted {
      assert (Farewell(ch) + answer)[0] == 0x42;
      assert Ack(rec)[0] == |rec|;
    } else {
      assert [] + answer == answer;
    }
  }

  lemma AckedSoFar(lines: seq<string>, answer: Answer, n: nat)
    requires (forall rec :: rec in lines ==> Sendable(rec)) && Acknowledged(lines, answer) && n <= |lines|
    ensures Acks(lines[..n]) <= Answers(lines[..n], answer)
  {
    assert AckedUpTo(lines, answer, n);
  }

  lemma {:induction false} AcknowledgedIsTaken(lines: seq<string>, n: nat, link: Link)
    requires n <= |lines| && HostLines(lines) && Acknowledged(lines, ChainAnswer(link))
    ensures forall i :: 0 <= i < n ==> TakenAt(lines, i, link)
  {
    hide Reply, ChainAt, Farewell, Answers, Acks, Ack, HostLine, ChainAnswer, Acknowledged;
    if n > 0 {
      var i, answer := n - 1, ChainAnswer(link);
      var ch, line := ChainAt(lines, i, link), link.channel(i, lines[i]);
      AcknowledgedIsTaken(lines, i, link);
      AnswersAreAcks(lines, i, link);
      AnswerAt(lines, i, link);
      AcksNext(lines, i);
      PrefixLeft(Acks(lines[..i]), Ack(lines[i]), Farewell(ch) + Reply(ch, line, link.noise));
      ConcatAssoc(Acks(lines[..i]), Farewell(ch), Reply(ch, line, link.noise));
      AckedSoFar(lines, answer, n);
      AfterFarewell(ch, lines[i], Reply(ch, line, link.noise));
    }
  }

  lemma PrefixLeft(a: seq<byte>, b: seq<byte>, c: seq<byte>)
    ensures a + b <= a + c <==> b <= c
  {
    if a + b <= a + c {
      assert forall k :: 0 <= k < |b| ==> b[k] == (a + b)[|a| + k] == (a + c)[|a| + k] == c[k];
    }
  }

  /**
   * The sender gets its acknowledgements from the chainloader exactly when every line, as it arrives, is taken for one.
   */
  lemma AcknowledgedIff(lines: seq<string>, link: Link)
    requires HostLines(lines)
    ensures Acknowledged(lines, ChainAnswer(link)) <==>
            forall i :: 0 <= i < |lines| ==> TakenAt(lines, i, link)
  {
    var answer := ChainAnswer(link);
    if Acknowledged(lines, answer) {
      AcknowledgedIsTaken(lines, |lines|, link);
    }
    if forall i :: 0 <= i < |lines| ==> TakenAt(lines, i, link) {
      forall n | 0 <= n <= |lines| ensures AckedUpTo(lines, answer, n) {
        AnswersAreAcks(lines, n, link);
      }
    }
  }

  /**
   * A run over any channel. It is reported as sent only when every line, as it arrived, was taken for acknowledged;
   * then nothing but a refused write or a silence can prevent that, and on a prompt port nothing does.
   */
  method FlashOver(lines: seq<string>, link: Link, writes: nat -> int, arrivals: nat -> int)
    returns (r: FlashResult, ch: Chain)
    requires HostLines(lines)
    ensures r == Sent ==> forall i :: 0 <= i < |lines| ==> TakenAt(lines, i, link)
    ensures r == Sent ==> ch == ChainAt(lines, |lines|, link)
    ensures (forall i :: 0 <= i < |lines| ==> TakenAt(lines, i, link)) ==>
              && (r == Sent || r.WriteRefused? || r.Timeout?)
              && ((forall n: nat :: writes(n) > 0 && arrivals(n) > 0) ==> r == Sent)
  {
    hide TakenAt, Feed, Acknowledged, ChainAnswer, Disciplined, HearAll, Stopped, PowerOn;
    var p := new Port(writes, arrivals, ChainAnswer(link));
    AcknowledgedIff(lines, link);
    r := SendRecords(p, lines);
    ch := HearAll(PowerOn(link.check), Arrived(p.device.lines, link.channel), link.noise);
    assert lines[..|lines|] == lines;
    if r != Sent && !r.WriteRefused? && forall i :: 0 <= i < |lines| ==> TakenAt(lines, i, link) {
      FedLines(p.sent, p.answer);
      OnlyTimeouts(r, lines, p.got, link);
    }
  }

  /** Acknowledgements can only be cut short, not mistaken for anything else. */
  lemma OnlyTimeouts(r: FlashResult, lines: seq<string>, got: seq<byte>, link: Link)
    requires HostLines(lines) && r != Sent && !r.WriteRefused? && r.record < |lines|
    requires forall i :: 0 <= i < |lines| ==> TakenAt(lines, i, link)
    requires Acks(lines[..r.record]) <= got <= Answers(lines[..r.record + 1], ChainAnswer(link))
    requires Stopped(r, lines[r.record], got[2 * r.record..])
    ensures r.Timeout?
  {
    hide Acks, Answers, Ack, TakenAt, ChainAnswer, ChainAt, Farewell, Stopped, HostLine;
    var i := r.record;
    var tail, farewell := got[2 * i..], Farewell(ChainAt(lines, i + 1, link));
    AnswersAreAcks(lines, i + 1, link);
    AcksNext(lines, i);
    ConcatAssoc(Acks(lines[..i]), Ack(lines[i]), farewell);
    assert got == Acks(lines[..i]) + tail;
    PrefixLeft(Acks(lines[..i]), tail, Ack(lines[i]) + farewell);
    StoppedShort(r, lines[i], tail, farewell);
  }

  lemma StoppedShort(r: FlashResult, rec: string, tail: seq<byte>, more: seq<byte>)
    requires Sendable(rec) && tail <= Ack(rec) + more && !r.WriteRefused?
    ensures Stopped(r, rec, tail) ==> r.Timeout?
  {
    AckNeverStops(r, rec);
    assert |tail| == 2 ==> tail == Ack(rec);
  }

  /** An acknowledgement is never read as anything else: not a NAK, not a mismatch. */
  lemma AckNeverStops(r: FlashResult, rec: string)
    requires Sendable(rec)
    ensures !Stopped(r, rec, Ack(rec))
  {
  }

  /** Whatever was sent, what the device answered is its answers to the lines it has. */
  lemma {:induction false} FedLines(s: string, answer: Answer)
    ensures Feed(SILENT_DEVICE, s, answer).out == Answers(Feed(SILENT_DEVICE, s, answer).lines, answer)
    decreases |s|
  {
    if s != "" {
      var init, c := s[..|s| - 1], s[|s| - 1];
      FedLines(init, answer);
      assert s == init + [c];
      FeedConcat(SILENT_DEVICE, init, [c], answer);
      var d := Feed(SILENT_DEVICE, init, answer);
      assert [c][1..] == "";
      assert Feed(d, [c], answer) == Feed(Receive(d, c, answer), "", answer) == Receive(d, c, answer);
      assert (d.lines + [d.partial])[..|d.lines|] == d.lines;
    }
  }

  // ----- Records lost without notice ----------------------------------------------------------

  /** The line of a record with one byte past its count damaged so that its refusal passes for an acknowledgement. */
  ghost predicate Masked(r: Rec, line: string)
    requires LoadableRec(r)
  {
    var full := Full(r);
    exists k, b: byte :: 1 <= k < |full| && MaskedAt(full, k, b) && line == LineOf(full[k := b])
  }

  predicate MaskedAt(full: seq<byte>, k: nat, b: byte)
    requires k < |full|
  {
    b != full[k] && Shift(full[k], b) == 0xFF - full[|full| - 1]
  }

  /** A record of any kind can be masked exactly when its checksum is not 0xFF. */
  lemma MaskedExists(r: Rec)
    requires LoadableRec(r)
    ensures (exists line :: Masked(r, line)) <==> Full(r)[|Full(r)| - 1] != 0xFF
  {
    FullIsCounted(r);
    hide LineOf, Full;
    var full := Full(r);
    var check := full[|full| - 1];
    if check != 0xFF {
      var b: byte := (full[1] + 0xFF - check) % 0x100;
      Shifted(full[1], 0xFF - check);
      assert MaskedAt(full, 1, b);
      assert Masked(r, LineOf(full[1 := b]));
    }
    forall line | Masked(r, line) ensures check != 0xFF {
      var k, b: byte :| 1 <= k < |full| && MaskedAt(full, k, b) && line == LineOf(full[k := b]);
      OffByZero(full[k], b);
    }
  }

  /** The end record carries the one checksum that cannot be missed. */
  lemma EndNeverMasked(line: string)
    ensures !Masked(Eof, line)
  {
    KnownChecksums();
    MaskedExists(Eof);
    hide LineOf, Masked, Full;
  }

  lemma KnownChecksums()
    ensures Full(Ext(8))[|Full(Ext(8))| - 1] == 0xF2
    ensures Full(Eof)[|Full(Eof)| - 1] == 0xFF
  {
    var a: byte, b: byte := 8 / 0x100 % 0x100, 8 % 0x100;
    var ext, end := Raw(4, 0, [a, b]), Raw(1, 0, []);
    SumOfTwo(a, b);
    SumOfFour(0, 0, 0, 1);
    SumOfFour(2, 0, 0, 4);
    SumConcat([2, 0, 0, 4], [a, b]);
    hide Sum;
    assert end == [0, 0, 0, 1] && ext == [2, 0, 0, 4] + [a, b];
    assert RecordChecksum(end) == 0xFF && RecordChecksum(ext) == 0xF2;
    hide RecordChecksum;
    assert Full(Ext(8)) == ext + [RecordChecksum(ext)];
    assert Full(Eof) == end + [RecordChecksum(end)];
  }

  lemma SumCons(a: byte, rest: seq<byte>)
    ensures Sum([a] + rest) == a + Sum(rest)
  {
    assert ([a] + rest)[1..] == rest;
  }

  lemma SumOfTwo(a: byte, b: byte)
    ensures Sum([a, b]) == a + b
  {
    SumCons(a, [b]);
    SumCons(b, []);
    assert [a] + [b] == [a, b] && [b] + [] == [b];
  }

  lemma SumOfFour(a: byte, b: byte, c: byte, d: byte)
    ensures Sum([a, b, c, d]) == a + b + c + d
  {
    SumOfTwo(a, b);
    SumOfTwo(c, d);
    SumConcat([a, b], [c, d]);
    assert [a, b] + [c, d] == [a, b, c, d];
  }

  lemma Shifted(a: byte, d: byte)
    ensures Shift(a, (a + d) % 0x100) == d
    ensures d != 0 ==> (a + d) % 0x100 != a
  {
  }

  lemma OffByZero(a: byte, b: byte)
    requires a != b
    ensures Shift(a, b) != 0
  {
  }

  /** What arrives for a record: its own line, or a masked one when it is to be lost. */
  ghost predicate Passes(r: Rec, line: string, lost: bool)
    requires LoadableRec(r)
  {
    if lost then Masked(r, line) else line == LineOf(Full(r))
  }

  /** The records that were not lost. */
  function Survivors(recs: seq<Rec>, lost: seq<bool>): seq<Rec>
    requires |recs| == |lost|
  {
    if recs == [] then []
    else
      var n := |recs| - 1;
      Survivors(recs[..n], lost[..n]) + (if lost[n] then [] else [recs[n]])
  }

  lemma PassesTaken(ch: Chain, r: Rec, line: string, lost: bool, noise: Noise)
    requires ch.Valid() && !ch.loader.booted && LoadableRec(r) && Passes(r, line, lost)
    ensures Sendable(LineOf(Full(r))) && Taken(ch, LineOf(Full(r)), line, noise)
    ensures Hear(ch, line, noise).loader == if lost then ch.loader else Apply(ch.loader, r)
    ensures Hear(ch, line, noise).count == ch.count + if lost then 0 else 1
    ensures r != Eof ==> !Hear(ch, line, noise).loader.booted
  {
    hide Taken, Hear, Full, LineOf, Counted;
    if lost {
      var full := Full(r);
      FullIsCounted(r);
      var k, b: byte :| 1 <= k < |full| && MaskedAt(full, k, b) && line == LineOf(full[k := b]);
      DamagedByteTakenForAck(ch, full, k, b, noise);
    } else {
      RecordHeard(ch, r, noise);
    }
  }

  /** The end-of-file record, if any, comes last. */
  predicate EndsOnce(recs: seq<Rec>) {
    forall i :: 0 <= i < |recs| - 1 ==> recs[i] != Eof
  }

  lemma LinesAreHostLines(lines: seq<string>, recs: seq<Rec>)
    requires Texts(lines, recs) && Loadable(recs)
    ensures HostLines(lines)
    ensures forall i :: 0 <= i < |recs| ==> lines[i] == LineOf(Full(recs[i]))
  {
    forall i | 0 <= i < |recs| ensures lines[i] == LineOf(Full(recs[i])) && HostLine(lines[i]) {
      assert recs[i] in recs && Text(recs[i]) == Ok(lines[i]);
      FullIsCounted(recs[i]);
      LineIsSendable(Full(recs[i]));
    }
  }

  lemma SurvivorsNext(recs: seq<Rec>, lost: seq<bool>, m: nat)
    requires |recs| == |lost| && m < |recs|
    ensures Survivors(recs[..m + 1], lost[..m + 1]) ==
            Survivors(recs[..m], lost[..m]) + (if lost[m] then [] else [recs[m]])
  {
    assert recs[..m + 1][..m] == recs[..m] && lost[..m + 1][..m] == lost[..m];
  }

  /** The m-th line of such a run. */
  lemma LineHeard(lines: seq<string>, r: Rec, lost: bool, m: nat, link: Link)
    requires m < |lines| && HostLines(lines) && LoadableRec(r) && lines[m] == LineOf(Full(r))
    requires Passes(r, link.channel(m, lines[m]), lost) && !ChainAt(lines, m, link).loader.booted
    ensures TakenAt(lines, m, link)
    ensures var now := ChainAt(lines, m, link).loader;
            ChainAt(lines, m + 1, link).loader == if lost then now else Apply(now, r)
    ensures ChainAt(lines, m + 1, link).count == ChainAt(lines, m, link).count + if lost then 0 else 1
    ensures r != Eof ==> !ChainAt(lines, m + 1, link).loader.booted
  {
    hide Hear, Taken, Passes, ChainAt, LineOf, Full, Apply, LoadableRec;
    ChainNext(lines, m, link);
    PassesTaken(ChainAt(lines, m, link), r, link.channel(m, lines[m]), lost, link.noise);
  }

  /** Every line of such a run is taken for acknowledged, and the device ends up with the surviving records alone. */
  lemma {:induction false} RunHeard(lines: seq<string>, recs: seq<Rec>, lost: seq<bool>, n: nat, link: Link)
    requires |lines| == |recs| == |lost| && n <= |recs| && HostLines(lines) && Loadable(recs) && EndsOnce(recs)
    requires forall i :: 0 <= i < |recs| ==> lines[i] == LineOf(Full(recs[i]))
    requires forall i :: 0 <= i < |recs| ==> Passes(recs[i], link.channel(i, lines[i]), lost[i])
    ensures forall i :: 0 <= i < n ==> TakenAt(lines, i, link)
    ensures ChainAt(lines, n, link).loader == ApplyAll(IDLE_LOADER, Survivors(recs[..n], lost[..n]))
    ensures ChainAt(lines, n, link).count == |Survivors(recs[..n], lost[..n])|
    ensures (forall i :: 0 <= i < n ==> recs[i] != Eof) ==> !ChainAt(lines, n, link).loader.booted
  {
    hide TakenAt, Passes, ChainAt, LineOf, Full, Apply, ApplyAll, LoadableRec, Survivors, HostLines;
    if n == 0 {
      NotBootedYet(lines, link);
      NoSurvivors(recs, lost);
    } else {
      var m := n - 1;
      RunHeard(lines, recs, lost, m, link);
      LineHeard(lines, recs[m], lost[m], m, link);
      SurvivorsNext(recs, lost, m);
      ApplySnoc(IDLE_LOADER, Survivors(recs[..m], lost[..m]), recs[m]);
    }
  }

  lemma NoSurvivors(recs: seq<Rec>, lost: seq<bool>)
    requires |recs| == |lost|
    ensures ApplyAll(IDLE_LOADER, Survivors(recs[..0], lost[..0])) == IDLE_LOADER && !IDLE_LOADER.booted
    ensures Survivors(recs[..0], lost[..0]) == []
  {
  }

  lemma ApplySnoc(l: Loader, recs: seq<Rec>, r: Rec)
    ensures ApplyAll(l, recs + [r]) == Apply(ApplyAll(l, recs), r) && recs + [] == recs
  {
    ApplyConcat(l, recs, [r]);
    ApplyOne(ApplyAll(l, recs), r, []);
    assert [r] + [] == [r];
  }

  /** With no record lost, all survive. */
  lemma {:induction false} AllSurvive(recs: seq<Rec>, lost: seq<bool>)
    requires |recs| == |lost| && forall i :: 0 <= i < |lost| ==> !lost[i]
    ensures Survivors(recs, lost) == recs
  {
    if recs != [] {
      AllSurvive(recs[..|recs| - 1], lost[..|recs| - 1]);
    }
  }

  // ----- What a completed flash leaves in memory -------------------------------------

  lemma {:induction false} DataRecsLoadable(rest: seq<byte>, offset: int, upper: int)
    requires 0 <= offset
    ensures Loadable(DataRecs(rest, offset, upper, 16))
    ensures Eof !in DataRecs(rest, offset, upper, 16)
    decreases |rest|
  {
    if rest != [] {
      var k := Min(16, |rest|);
      DataRecsLoadable(rest[k..], NextOffset(offset) + k, NextUpper(offset, upper));
    }
  }

  /** The record stream of main: an optional network.conf without end-of-file, then the kernel with it. */
  function StreamRecs(conf: Option<seq<byte>>, kernel: seq<byte>, base: int): seq<Rec> {
    (if conf.Some? then ImageRecs(conf.value, NETWORK_CONF_BASE, 16, false) else [])
    + ImageRecs(kernel, base, 16, true)
  }

  method Stream(conf: Option<seq<byte>>, kernel: seq<byte>, base: int) returns (records: seq<string>)
    ensures Texts(records, StreamRecs(conf, kernel, base))
  {
    records := [];
    ghost var recs := [];
    if conf.Some? {
      var c := KernelToHexRecords(conf.value, NETWORK_CONF_BASE, 16, false);
      records := c.value;
      recs := ImageRecs(conf.value, NETWORK_CONF_BASE, 16, false);
    }
    var k := KernelToHexRecords(kernel, base, 16, true);
    TextsConcat(records, recs, k.value, ImageRecs(kernel, base, 16, true));
    records := records + k.value;
  }

  lemma StreamLoadable(conf: Option<seq<byte>>, kernel: seq<byte>, base: int)
    ensures Loadable(StreamRecs(conf, kernel, base))
    ensures var recs := StreamRecs(conf, kernel, base);
            recs != [] && recs[|recs| - 1] == Eof && Eof !in recs[..|recs| - 1] && EndsOnce(recs)
  {
    var confRecs := if conf.Some? then ImageRecs(conf.value, NETWORK_CONF_BASE, 16, false) else [];
    if conf.Some? {
      BodyLoadable(conf.value, NETWORK_CONF_BASE);
    }
    BodyLoadable(kernel, base);
    var body := ImageRecs(kernel, base, 16, false);
    assert ImageRecs(kernel, base, 16, true) == body + [Eof];
    assert StreamRecs(conf, kernel, base) == confRecs + body + [Eof];
  }

  lemma BodyLoadable(bytes: seq<byte>, base: int)
    ensures Loadable(ImageRecs(bytes, base, 16, false)) && Eof !in ImageRecs(bytes, base, 16, false)
  {
    DataRecsLoadable(bytes, base % 0x1_0000, base / 0x1_0000 % 0x1_0000);
  }

  /** Both images lie inside the 32-bit address space that records can name. */
  predicate Placed(conf: Option<seq<byte>>, kernel: seq<byte>, base: nat) {
    && base < 0x1_0000_0000 && base + |kernel| <= 0x1_0000_0000
    && (conf.Some? ==> 0x2000_0000 + |conf.value| <= 0x1_0000_0000)
  }

  /** The kernel's records are exact: a 16-byte-aligned base always is. */
  predicate KernelFits(kernel: seq<byte>, base: nat) {
    Fits(base % 0x1_0000, |kernel|, 16)
  }

  predicate Disjoint(conf: Option<seq<byte>>, kernel: seq<byte>, base: nat) {
    conf.Some? ==> base + |kernel| <= 0x2000_0000 || 0x2000_0000 + |conf.value| <= base
  }

  /** network.conf at 0x20000000 and the kernel at its base. */
  function Target(conf: Option<seq<byte>>, kernel: seq<byte>, base: nat): map<int, byte> {
    (if conf.Some? then Image(0x2000_0000, conf.value) else map[]) + Image(base, kernel)
  }

  /** The channel delivers the records, all but the masked ones undamaged. */
  ghost predicate Carries(channel: Channel, recs: seq<Rec>, lost: seq<bool>)
    requires Loadable(recs)
  {
    |lost| == |recs| && forall i :: 0 <= i < |recs| ==> Passes(recs[i], channel(i, LineOf(Full(recs[i]))), lost[i])
  }

  /**
   * A flash on which any records are masked: it ends no differently from an undamaged one, is reported as sent
   * on a prompt port, and leaves the device booted with the other records alone.
   */
  method FlashDamaged(conf: Option<seq<byte>>, kernel: seq<byte>, base: nat, ghost lost: seq<bool>,
                      link: Link, writes: nat -> int, arrivals: nat -> int)
    returns (r: FlashResult, ch: Chain)
    requires Loadable(StreamRecs(conf, kernel, base)) && Carries(link.channel, StreamRecs(conf, kernel, base), lost)
    ensures r == Sent || r.WriteRefused? || r.Timeout?
    ensures (forall n: nat :: writes(n) > 0 && arrivals(n) > 0) ==> r == Sent
    ensures r == Sent ==> ch.loader == ApplyAll(IDLE_LOADER, Survivors(StreamRecs(conf, kernel, base), lost))
    ensures r == Sent ==> ch.loader.booted && ch.count == |Survivors(StreamRecs(conf, kernel, base), lost)|
  {
    hide StreamRecs, TakenAt, ChainAt, Passes, LoadableRec, Survivors, ApplyAll;
    var lines := Stream(conf, kernel, base);
    ghost var recs := StreamRecs(conf, kernel, base);
    StreamLoadable(conf, kernel, base);
    LinesAreHostLines(lines, recs);
    RunHeard(lines, recs, lost, |recs|, link);
    assert recs[..|recs|] == recs && lost[..|recs|] == lost;
    EndSurvives(recs, lost, link.channel);
    r, ch := FlashOver(lines, link, writes, arrivals);
  }

  /** A stream's end record gets through, so the device boots. */
  lemma EndSurvives(recs: seq<Rec>, lost: seq<bool>, channel: Channel)
    requires Loadable(recs) && Carries(channel, recs, lost) && recs != [] && recs[|recs| - 1] == Eof
    ensures ApplyAll(IDLE_LOADER, Survivors(recs, lost)).booted
  {
    hide Masked, Full, LineOf, LoadableRec, Survivors, ApplyAll;
    var n := |recs| - 1;
    EndNeverMasked(channel(n, LineOf(Full(recs[n]))));
    assert Passes(recs[n], channel(n, LineOf(Full(recs[n]))), lost[n]);
    SurvivorsNext(recs, lost, n);
    assert recs[..n + 1] == recs && lost[..n + 1] == lost;
    ApplySnoc(IDLE_LOADER, Survivors(recs[..n], lost[..n]), Eof);
    EofBoots(ApplyAll(IDLE_LOADER, Survivors(recs[..n], lost[..n])));
  }

  lemma EofBoots(l: Loader)
    ensures Apply(l, Eof).booted
  {
  }

  /**
   * The whole flash over a clear line: it ends only in success, a refused write or a silence, and in success on a
   * prompt port. Then the device boots and has network.conf at 0x20000000, the kernel at its base and nothing else
   * exactly when the kernel's records fit.
   */
  method Flash(conf: Option<seq<byte>>, kernel: seq<byte>, base: nat, check: byte, noise: Noise,
               writes: nat -> int, arrivals: nat -> int)
    returns (r: FlashResult, ch: Chain)
    ensures r == Sent || r.WriteRefused? || r.Timeout?
    ensures (forall n: nat :: writes(n) > 0 && arrivals(n) > 0) ==> r == Sent
    ensures r == Sent ==> ch.loader == ApplyAll(IDLE_LOADER, StreamRecs(conf, kernel, base)) && ch.loader.booted
    ensures r == Sent && Placed(conf, kernel, base) && KernelFits(kernel, base) ==>
              ch.loader.mem == Target(conf, kernel, base)
    ensures r == Sent && Placed(conf, kernel, base) && Disjoint(conf, kernel, base) && !KernelFits(kernel, base) ==>
              ch.loader.mem != Target(conf, kernel, base)
  {
    hide StreamRecs, Fits, LineOf, LoadableRec;
    ghost var recs := StreamRecs(conf, kernel, base);
    ghost var lost := seq(|recs|, _ => false);
    StreamLoadable(conf, kernel, base);
    AllSurvive(recs, lost);
    StreamBoots(conf, kernel, base);
    r, ch := FlashDamaged(conf, kernel, base, lost, Link(Clear(), check, noise), writes, arrivals);
    if Placed(conf, kernel, base) {
      StreamLoads(conf, kernel, base);
    }
  }

  /**
   * A kernel of one record that is masked: the flash is reported as sent, and the device jumps to memory it never
   * wrote.
   */
  lemma OneRecordLost(kernel: seq<byte>)
    requires 1 <= |kernel| <= 16
    ensures var recs := StreamRecs(None, kernel, 0x8_0000);
            && recs == [Ext(8), Data(0, kernel), Eof]
            && ApplyAll(IDLE_LOADER, Survivors(recs, [false, true, false])) == Loader(8, map[], true)
            && ApplyAll(IDLE_LOADER, recs).mem == Image(0x8_0000, kernel) != map[]
  {
    var r, image := Data(0, kernel), Image(0x8_0000, kernel);
    OneRecordStream(kernel);
    hide StreamRecs;
    SurvivorsOfThree([Ext(8), r, Eof], [false, true, false]);
    hide Survivors;
    ApplyOne(IDLE_LOADER, Ext(8), [Eof]);
    ApplyOne(Loader(8, map[], false), Eof, []);
    assert [Ext(8)] + [Eof] == [Ext(8), Eof] && [Eof] + [] == [Eof];
    ApplyOne(IDLE_LOADER, Ext(8), [r, Eof]);
    ApplyOne(Loader(8, map[], false), r, [Eof]);
    ApplyOne(Loader(8, image, false), Eof, []);
    assert [Ext(8)] + [r, Eof] == [Ext(8), r, Eof] && [r] + [Eof] == [r, Eof];
    assert map[] + image == image && 0x8_0000 in image;
  }

  lemma OneRecordStream(kernel: seq<byte>)
    requires 1 <= |kernel| <= 16
    ensures StreamRecs(None, kernel, 0x8_0000) == [Ext(8), Data(0, kernel), Eof]
  {
    assert kernel[..|kernel|] == kernel && kernel[|kernel|..] == [];
    assert DataRecs([], |kernel|, 8, 16) == [];
    assert DataRecs(kernel, 0, 8, 16) == [Data(0, kernel)];
  }

  lemma SurvivorsOfThree(recs: seq<Rec>, lost: seq<bool>)
    requires |recs| == |lost| == 3
    ensures Survivors(recs, lost) == (if lost[0] then [] else [recs[0]]) + (if lost[1] then [] else [recs[1]])
                                     + (if lost[2] then [] else [recs[2]])
  {
    SurvivorsNext(recs, lost, 0);
    SurvivorsNext(recs, lost, 1);
    SurvivorsNext(recs, lost, 2);
    assert recs[..0] == [] && lost[..0] == [];
    assert recs[..3] == recs && lost[..3] == lost;
  }

  /** The address record can always be masked: then the whole kernel is written to address 0, and booted. */
  lemma AddressRecordLost(kernel: seq<byte>) returns (channel: Channel)
    requires 1 <= |kernel| <= 16
    ensures var recs := StreamRecs(None, kernel, 0x8_0000);
            && Loadable(recs) && Carries(channel, recs, [true, false, false])
            && ApplyAll(IDLE_LOADER, Survivors(recs, [true, false, false])) == Loader(0, Image(0, kernel), true)
            && ApplyAll(IDLE_LOADER, recs).mem == Image(0x8_0000, kernel) != Image(0, kernel)
  {
    hide StreamRecs, Masked, Full, LineOf, Carries, Survivors, ApplyAll, Image;
    StreamLoadable(None, kernel, 0x8_0000);
    OneRecordStream(kernel);
    channel := AddressMasked([Ext(8), Data(0, kernel), Eof]);
    SurvivorsOfThree([Ext(8), Data(0, kernel), Eof], [true, false, false]);
    assert [] + [Data(0, kernel)] + [Eof] == [Data(0, kernel), Eof];
    WithoutAddress(kernel);
    OneRecordLost(kernel);
    ImagesDiffer(kernel);
  }

  lemma AddressMasked(recs: seq<Rec>) returns (channel: Channel)
    requires |recs| == 3 && Loadable(recs) && recs[0] == Ext(8)
    ensures Carries(channel, recs, [true, false, false])
  {
    KnownChecksums();
    MaskedExists(Ext(8));
    hide Masked, Full, LineOf, Carries;
    var bad :| Masked(Ext(8), bad);
    channel := OneReplaced(recs, [true, false, false], 0, bad);
  }

  lemma ImagesDiffer(kernel: seq<byte>)
    requires 1 <= |kernel| <= 16
    ensures Image(0x8_0000, kernel) != Image(0, kernel)
  {
    assert 0x8_0000 !in Image(0, kernel) && 0x8_0000 in Image(0x8_0000, kernel);
  }

  lemma WithoutAddress(kernel: seq<byte>)
    requires 1 <= |kernel| <= 16
    ensures ApplyAll(IDLE_LOADER, [Data(0, kernel), Eof]) == Loader(0, Image(0, kernel), true)
  {
    var r, image := Data(0, kernel), Image(0, kernel);
    ApplyOne(IDLE_LOADER, r, [Eof]);
    ApplyOne(Loader(0, image, false), Eof, []);
    assert [r] + [Eof] == [r, Eof] && [Eof] + [] == [Eof];
    assert map[] + image == image;
  }

  /** Such a channel exists unless the record's checksum happens to be 0xFF: it damages one byte of one line. */
  lemma OneByteLosesARecord(kernel: seq<byte>)
    requires 1 <= |kernel| <= 16
    ensures Loadable(StreamRecs(None, kernel, 0x8_0000))
    ensures (exists channel :: Carries(channel, StreamRecs(None, kernel, 0x8_0000), [false, true, false])) <==>
            RecordChecksum(Raw(0, 0, kernel)) != 0xFF
  {
    StreamLoadable(None, kernel, 0x8_0000);
    OneRecordLost(kernel);
    hide StreamRecs, Masked, Full, LineOf, Survivors, Carries;
    var recs, r := StreamRecs(None, kernel, 0x8_0000), Data(0, kernel);
    LastOfData(kernel);
    MaskedExists(r);
    if RecordChecksum(Raw(0, 0, kernel)) != 0xFF {
      var bad :| Masked(r, bad);
      var channel := OneReplaced(recs, [false, true, false], 1, bad);
    }
    if channel :| Carries(channel, recs, [false, true, false]) {
      SecondIsMasked(recs, channel);
    }
  }

  lemma LastOfData(d: seq<byte>)
    requires |d| <= 16
    ensures Full(Data(0, d))[|Full(Data(0, d))| - 1] == RecordChecksum(Raw(0, 0, d))
  {
  }

  /** A channel that damages one line of the stream. */
  lemma OneReplaced(recs: seq<Rec>, lost: seq<bool>, n: nat, bad: string) returns (channel: Channel)
    requires |recs| == |lost| && n < |recs| && Loadable(recs) && Masked(recs[n], bad)
    requires forall i :: 0 <= i < |lost| ==> (lost[i] <==> i == n)
    ensures Carries(channel, recs, lost)
  {
    hide Masked, Full, LineOf, LoadableRec;
    channel := (i: nat, line: string) => if i == n then bad else line;
  }

  lemma SecondIsMasked(recs: seq<Rec>, channel: Channel)
    requires |recs| == 3 && Loadable(recs) && Carries(channel, recs, [false, true, false])
    ensures exists line :: Masked(recs[1], line)
  {
    hide Masked, Full, LineOf, LoadableRec;
    var lost := [false, true, false];
    assert Passes(recs[1], channel(1, LineOf(Full(recs[1]))), lost[1]);
  }

  lemma StreamBoots(conf: Option<seq<byte>>, kernel: seq<byte>, base: nat)
    ensures ApplyAll(IDLE_LOADER, StreamRecs(conf, kernel, base)).booted
  {
    hide ApplyAll, StreamRecs;
    StreamLoadable(conf, kernel, base);
    var recs := StreamRecs(conf, kernel, base);
    assert recs == recs[..|recs| - 1] + [Eof];
    ApplySnoc(IDLE_LOADER, recs[..|recs| - 1], Eof);
  }

  lemma StreamLoads(conf: Option<seq<byte>>, kernel: seq<byte>, base: nat)
    requires Placed(conf, kernel, base)
    ensures var final := ApplyAll(IDLE_LOADER, StreamRecs(conf, kernel, base));
            && (KernelFits(kernel, base) ==> final.mem == Target(conf, kernel, base))
            && (Disjoint(conf, kernel, base) && !KernelFits(kernel, base) ==> final.mem != Target(conf, kernel, base))
  {
    hide Fits, ApplyAll, ImageRecs;
    var confRecs := if conf.Some? then ImageRecs(conf.value, NETWORK_CONF_BASE, 16, false) else [];
    ApplyConcat(IDLE_LOADER, confRecs, ImageRecs(kernel, base, 16, true));
    var before := ApplyAll(IDLE_LOADER, confRecs);
    if conf.Some? {
      AlignedBaseFits(NETWORK_CONF_BASE, |conf.value|);
      ImageLoads(IDLE_LOADER, conf.value, NETWORK_CONF_BASE, false);
      assert before.mem == Image(NETWORK_CONF_BASE, conf.value);
    } else {
      NothingLoads(IDLE_LOADER);
      assert before.mem == map[];
    }
    ImageLoads(before, kernel, base, true);
    if Disjoint(conf, kernel, base) && !KernelFits(kernel, base) {
      var last := base + |kernel| - 1;
      assert last !in before.mem;
      assert last in Target(conf, kernel, base);
    }
  }

  lemma NothingLoads(l: Loader)
    ensures ApplyAll(l, []) == l
  {
  }

  /** An image whose records fit is written over what was there; otherwise its last byte is not put in its place. */
  lemma ImageLoads(l: Loader, kernel: seq<byte>, base: nat, includeEof: bool)
    requires base < 0x1_0000_0000 && base + |kernel| <= 0x1_0000_0000
    ensures var final := ApplyAll(l, ImageRecs(kernel, base, 16, includeEof));
            && (KernelFits(kernel, base) ==> final.mem == l.mem + Image(base, kernel))
            && (!KernelFits(kernel, base) ==>
                  kernel != [] && (base + |kernel| - 1 !in l.mem ==> base + |kernel| - 1 !in final.mem))
  {
    hide Fits;
    var offset, upper := base % 0x1_0000, base / 0x1_0000;
    ImageRecsFrom(l, kernel, offset, upper, base, 16, includeEof);
    FitsIff(offset, |kernel|, 16);
    var l0 := l.(upper := upper);
    hide ApplyAll, ImageRecs, LoadRest;
    if KernelFits(kernel, base) {
      RecsWriteImage(l0, kernel, offset, upper, 16, base);
      WroteIsImage(l.mem, LoadRest(l0, kernel, offset, upper, 16).mem, base, kernel);
    } else if base + |kernel| - 1 !in l.mem {
      MisfitLosesLastByte(l0, kernel, offset, upper, 16, base + |kernel| - 1);
    }
  }
}
