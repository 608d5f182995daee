/**
 * The stop-and-wait flash protocol: the host writes one record, waits for its two-byte answer,
 * and goes on only when the answer is that record's acknowledgement.
 */
module FlashSender {
  import opened Bytes
  import opened IntelHex
  import opened Chainloader

  // ----- The far end of the wire -----------------------------------------------

  /** The device's line reader (cl_getline): the line being read, the lines read, and all bytes it ever answered. */
  datatype Device = Device(partial: string, lines: seq<string>, out: seq<byte>)

  const SILENT_DEVICE := Device("", [], [])

  /** Any device: what it answers on completing a line may depend on all lines so far. */
  type Answer = seq<string> -> seq<byte>

  function Receive(d: Device, c: char, answer: Answer): Device {
    if c == '\n' then Device("", d.lines + [d.partial], d.out + answer(d.lines + [d.partial]))
    else if c == '\r' || |d.partial| >= LINE_MAX then d
    else d.(partial := d.partial + [c])
  }

  function Feed(d: Device, s: string, answer: Answer): Device
    decreases |s|
  {
    if s == "" then d else Feed(Receive(d, s[0], answer), s[1..], answer)
  }

  lemma {:induction false} FeedConcat(d: Device, a: string, b: string, answer: Answer)
    ensures Feed(d, a + b, answer) == Feed(Feed(d, a, answer), b, answer)
    decreases |a|
  {
    if a == "" {
      assert a + b == b;
    } else {
      assert (a + b)[0] == a[0] && (a + b)[1..] == a[1..] + b;
      FeedConcat(Receive(d, a[0], answer), a[1..], b, answer);
    }
  }

  /** Whatever is sent up to a line feed, the device reads its first 78 characters, carriage returns left out. */
  lemma {:induction false} FirstCharactersAreRead(d: Device, s: string, answer: Answer)
    requires |d.partial| <= 78 && '\n' !in s
    ensures Feed(d, s, answer) == d.(partial := (d.partial + Printed(s))[..Min(78, |d.partial| + |Printed(s)|)])
    decreases |s|
  {
    if s != "" {
      FirstCharactersAreRead(Receive(d, s[0], answer), s[1..], answer);
      assert s == [s[0]] + s[1..];
      assert d.partial + ([s[0]] + Printed(s[1..])) == d.partial + [s[0]] + Printed(s[1..]);
    }
  }

  /** A text without its carriage returns. */
  function Printed(s: string): string {
    if s == "" then "" else (if s[0] == '\r' then "" else [s[0]]) + Printed(s[1..])
  }

  /** All bytes the device answers to a run of lines. */
  function Answers(lines: seq<string>, answer: Answer): seq<byte> {
    if lines == [] then [] else Answers(lines[..|lines| - 1], answer) + answer(lines)
  }

  /** A line the device can read back: no line ends inside, and not too long. */
  predicate Clean(rec: string) {
    |rec| <= LINE_MAX && forall c :: c in rec ==> c != '\r' && c != '\n'
  }

  lemma {:induction false} FeedLine(d: Device, rec: string, answer: Answer)
    requires |d.partial| + |rec| <= LINE_MAX && forall c :: c in rec ==> c != '\r' && c != '\n'
    ensures Feed(d, rec, answer) == d.(partial := d.partial + rec)
    decreases |rec|
  {
    if rec == "" {
      assert d.partial + rec == d.partial;
    } else {
      assert rec[0] in rec && forall c :: c in rec[1..] ==> c in rec;
      FeedLine(Receive(d, rec[0], answer), rec[1..], answer);
      assert d.partial + [rec[0]] + rec[1..] == d.partial + rec;
    }
  }

  lemma FeedRecord(d: Device, rec: string, answer: Answer)
    requires d.partial == "" && Clean(rec)
    ensures Feed(d, rec + "\r\n", answer) == Device("", d.lines + [rec], d.out + answer(d.lines + [rec]))
  {
    FeedConcat(d, rec, "\r\n", answer);
    FeedLine(d, rec, answer);
    var d1 := Feed(d, rec, answer);
    assert d1 == d.(partial := rec);
    assert "\r\n"[1..] == "\n" && "\n"[1..] == "";
    assert Feed(d1, "\r\n", answer) == Feed(Receive(d1, '\r', answer), "\n", answer);
    assert Feed(d1, "\n", answer) == Feed(Receive(d1, '\n', answer), "", answer);
  }

  // ----- The serial port, under any schedule of short writes and reads ------------

  class Port {
    const writes: nat -> int   // how many characters the n-th os.write will take
    const arrivals: nat -> int    // how many bytes the n-th os.read will find in time
    const answer: Answer
    var tick: nat
    var sent: string
    var device: Device
    var got: seq<byte>
    var log: seq<(nat, seq<byte>)>  // per os.write: characters sent and bytes read before it

    ghost predicate Valid()
      reads this
    {
      && device == Feed(SILENT_DEVICE, sent, answer)
      && got <= device.out
    }

    /** No write is refused and no read comes too early. */
    ghost predicate Prompt() {
      forall n: nat :: writes(n) > 0 && arrivals(n) > 0
    }

    constructor (writes: nat -> int, arrivals: nat -> int, answer: Answer)
      ensures Valid() && sent == "" && got == [] && log == [] && device == SILENT_DEVICE
      ensures this.answer == answer && this.writes == writes && this.arrivals == arrivals
    {
      this.writes, this.arrivals, this.answer := writes, arrivals, answer;
      tick, sent, device, got, log := 0, "", SILENT_DEVICE, [], [];
    }

    /** os.write: takes some prefix of the data, or nothing. */
    method OsWrite(data: string) returns (n: int)
      requires Valid()
      modifies this
      ensures Valid() && n <= |data| && got == old(got)
      ensures sent == old(sent) + if n > 0 then data[..n] else ""
      ensures log == old(log) + [(|old(sent)|, got)]
      ensures Prompt() && data != "" ==> n > 0
    {
      n := Min(writes(tick), |data|);
      tick := tick + 1;
      log := log + [(|sent|, got)];
      if n > 0 {
        FeedConcat(SILENT_DEVICE, sent, data[..n], answer);
        sent := sent + data[..n];
        device := Feed(device, data[..n], answer);
        FeedOnlyAnswers(old(device), data[..n], answer);
      }
    }

    /** os.read: at most k of the bytes the device has answered and the host has not read. */
    method OsRead(k: nat) returns (chunk: seq<byte>)
      requires Valid()
      modifies this
      ensures Valid() && |chunk| <= k && got == old(got) + chunk
      ensures sent == old(sent) && device == old(device) && log == old(log)
      ensures Prompt() && k > 0 && |old(got)| < |device.out| ==> chunk != []
    {
      var n := Min(Min(arrivals(tick), k), |device.out| - |got|);
      tick := tick + 1;
      chunk := if n > 0 then device.out[|got|..|got| + n] else [];
      got := got + chunk;
    }
  }

  lemma {:induction false} FeedOnlyAnswers(d: Device, s: string, answer: Answer)
    ensures d.out <= Feed(d, s, answer).out
    decreases |s|
  {
    if s != "" {
      FeedOnlyAnswers(Receive(d, s[0], answer), s[1..], answer);
    }
  }

  /** Every os.write of this step came after exactly `before` had been sent and `got` read. */
  ghost predicate Logged(log: seq<(nat, seq<byte>)>, from: nat, to: nat, got: seq<byte>) {
    forall e :: e in log ==> from <= e.0 < to && e.1 == got
  }

  /** _write_all: loop over partial writes; a refusal leaves a strict prefix sent. */
  method WriteAll(p: Port, data: string) returns (ok: bool)
    requires p.Valid()
    modifies p
    ensures p.Valid() && p.got == old(p.got)
    ensures ok ==> p.sent == old(p.sent) + data
    ensures !ok ==> exists k :: 0 <= k < |data| && p.sent == old(p.sent) + data[..k]
    ensures old(p.log) <= p.log
    ensures Logged(p.log[|old(p.log)|..], |old(p.sent)|, |old(p.sent)| + |data|, p.got)
    ensures p.Prompt() ==> ok
  {
    var total := 0;
    while total < |data|
      invariant 0 <= total <= |data|
      invariant p.Valid() && p.got == old(p.got)
      invariant p.sent == old(p.sent) + data[..total]
      invariant old(p.log) <= p.log
      invariant Logged(p.log[|old(p.log)|..], |old(p.sent)|, |old(p.sent)| + |data|, p.got)
    {
      var n := p.OsWrite(data[total..]);
      if n <= 0 {
        return false;
      }
      assert data[..total] + data[total..][..n] == data[..total + n];
      total := total + n;
    }
    assert data[..|data|] == data;
    return true;
  }

  // ----- The sender -----------------------------------------------------------------

  datatype FlashResult =
    | Sent
    | WriteRefused(record: nat)
    | Timeout(record: nat)
    | LenMismatch(record: nat)
    | Nak(record: nat)
    | Mismatch(record: nat)

  predicate Sendable(rec: string) {
    Clean(rec) && 2 <= |rec| && IsHexDigit(rec[|rec| - 2]) && IsHexDigit(rec[|rec| - 1])
  }

  /** int(record[-2:], 16) */
  function Expected(rec: string): byte
    requires Sendable(rec)
  {
    16 * HexValue(rec[|rec| - 2]) + HexValue(rec[|rec| - 1])
  }

  function Ack(rec: string): seq<byte>
    requires Sendable(rec)
  {
    [|rec|, Expected(rec)]
  }

  function Wire(records: seq<string>): string {
    if records == [] then "" else Wire(records[..|records| - 1]) + (records[|records| - 1] + "\r\n")
  }

  function Acks(records: seq<string>): (a: seq<byte>)
    requires forall r :: r in records ==> Sendable(r)
    ensures |a| == 2 * |records|
  {
    if records == [] then [] else Acks(records[..|records| - 1]) + Ack(records[|records| - 1])
  }

  /** The device after the lines of some records, whatever it answers. */
  lemma {:induction false} FeedWire(records: seq<string>, answer: Answer)
    requires forall r :: r in records ==> Clean(r)
    ensures Feed(SILENT_DEVICE, Wire(records), answer) == Device("", records, Answers(records, answer))
  {
    if records != [] {
      var init, rec := records[..|records| - 1], records[|records| - 1];
      assert records == init + [rec];
      FeedWire(init, answer);
      FeedConcat(SILENT_DEVICE, Wire(init), rec + "\r\n", answer);
      FeedRecord(Device("", init, Answers(init, answer)), rec, answer);
    }
  }

  /** How a run that stopped at record i ended, told by the bytes read for it. */
  predicate Stopped(r: FlashResult, rec: string, answer: seq<byte>)
    requires Sendable(rec)
  {
    match r
    case Sent => false
    case WriteRefused(_) => answer == []
    case Timeout(_) => |answer| < 2
    case LenMismatch(_) => |answer| == 2 && answer[0] != |rec|
    case Nak(_) => answer == [|rec|, 0xFF - Expected(rec)]
    case Mismatch(_) =>
      |answer| == 2 && answer[0] == |rec| && answer[1] != Expected(rec) && answer[1] != 0xFF - Expected(rec)
  }

  /** Nothing of record i is written before the exact acknowledgements of records 0..i-1 were read. */
  ghost predicate Disciplined(log: seq<(nat, seq<byte>)>, records: seq<string>)
    requires forall r :: r in records ==> Sendable(r)
  {
    forall e :: e in log ==> exists i :: 0 <= i < |records| && WriteInRecord(e, records, i)
  }

  predicate WriteInRecord(e: (nat, seq<byte>), records: seq<string>, i: nat)
    requires i < |records| && forall r :: r in records ==> Sendable(r)
  {
    |Wire(records[..i])| <= e.0 < |Wire(records[..i + 1])| && e.1 == Acks(records[..i])
  }

  /** Read the two answer bytes, however they trickle in; short on a timeout. */
  method ReadAnswer(p: Port) returns (ack: seq<byte>)
    requires p.Valid()
    modifies p
    ensures p.Valid() && |ack| <= 2 && p.got == old(p.got) + ack
    ensures p.sent == old(p.sent) && p.device == old(p.device) && p.log == old(p.log)
    ensures p.Prompt() && |old(p.got)| + 2 <= |p.device.out| ==> |ack| == 2
  {
    ack := [];
    while |ack| < 2
      invariant p.Valid() && |ack| <= 2 && p.got == old(p.got) + ack
      invariant p.sent == old(p.sent) && p.device == old(p.device) && p.log == old(p.log)
      decreases 2 - |ack|
    {
      var chunk := p.OsRead(2 - |ack|);
      if chunk == [] {
        return;
      }
      ack := ack + chunk;
    }
  }

  method SendRecord(p: Port, rec: string, i: nat) returns (r: FlashResult)
    requires p.Valid() && Sendable(rec)
    modifies p
    ensures p.Valid() && old(p.got) <= p.got
    ensures r == Sent ==> p.got == old(p.got) + Ack(rec)
    ensures r != Sent ==> Stopped(r, rec, p.got[|old(p.got)|..]) && r.record == i
    ensures !r.WriteRefused? ==> p.sent == old(p.sent) + (rec + "\r\n")
    ensures r.WriteRefused? ==> exists k :: 0 <= k < |rec| + 2 && p.sent == old(p.sent) + (rec + "\r\n")[..k]
    ensures old(p.log) <= p.log
    ensures Logged(p.log[|old(p.log)|..], |old(p.sent)|, |old(p.sent)| + |rec| + 2, old(p.got))
    ensures p.Prompt() && old(p.got) + Ack(rec) <= Feed(old(p.device), rec + "\r\n", p.answer).out ==> r == Sent
  {
    var expected := Expected(rec);
    FeedConcat(SILENT_DEVICE, p.sent, rec + "\r\n", p.answer);
    var ok := WriteAll(p, rec + "\r\n");
    if !ok {
      return WriteRefused(i);
    }
    var ack := ReadAnswer(p);
    assert p.got[|old(p.got)|..] == ack;
    if |ack| < 2 {
      return Timeout(i);
    }
    if ack[0] != |rec| {
      return LenMismatch(i);
    }
    if ack[1] == expected {
      return Sent;
    } else if ack[1] == 0xFF - expected {
      return Nak(i);
    }
    return Mismatch(i);
  }

  /** The device answers each record with its acknowledgement by the time the next one is due. */
  ghost predicate Acknowledged(records: seq<string>, answer: Answer)
    requires forall r :: r in records ==> Sendable(r)
  {
    forall i :: 0 <= i <= |records| ==> AckedUpTo(records, answer, i)
  }

  predicate AckedUpTo(records: seq<string>, answer: Answer, i: nat)
    requires i <= |records| && forall r :: r in records ==> Sendable(r)
  {
    Acks(records[..i]) <= Answers(records[..i], answer)
  }

  /**
   * The record loop, against any device and any schedule. Success means every line was delivered
   * and the bytes read are exactly the acknowledgements, in order; a stop at record i means records
   * 0..i-1 were acknowledged and tells what was read for record i; and throughout, no byte of a
   * record is written before all earlier ones were acknowledged. On a prompt port, success is
   * exactly what an acknowledging device gets.
   */
  method SendRecords(p: Port, records: seq<string>) returns (r: FlashResult)
    requires p.Valid() && p.sent == "" && p.got == [] && p.log == []
    requires forall rec :: rec in records ==> Sendable(rec)
    modifies p
    ensures p.Valid() && Disciplined(p.log, records)
    ensures r == Sent ==> p.sent == Wire(records) && p.device.lines == records && p.got == Acks(records)
    ensures r != Sent ==>
              && r.record < |records|
              && Acks(records[..r.record]) <= p.got
              && Stopped(r, records[r.record], p.got[2 * r.record..])
              && (!r.WriteRefused? ==> p.device.lines == records[..r.record + 1])
    ensures r == Sent ==> Acknowledged(records, p.answer)
    ensures p.Prompt() && Acknowledged(records, p.answer) ==> r == Sent
  {
    hide Feed, Disciplined, AckedUpTo, Acks, Wire, Answers, Ack, Stopped, Logged, Expected;
    NothingYet(records, p.answer);
    for i := 0 to |records|
      invariant p.Valid() && Disciplined(p.log, records)
      invariant p.sent == Wire(records[..i]) && p.got == Acks(records[..i])
      invariant forall j :: 0 <= j <= i ==> AckedUpTo(records, p.answer, j)
    {
      WireSoFar(records, p.answer, i);
      ghost var log0 := p.log;
      var step := SendRecord(p, records[i], i);
      assert records[..i + 1][..i] == records[..i];
      LogExtends(log0, p.log, records, i);
      WireSoFar(records, p.answer, i + 1);
      AckedNext(records, p.answer, i);
      if step != Sent {
        return step;
      }
    }
    assert records[..|records|] == records;
    WireSoFar(records, p.answer, |records|);
    return Sent;
  }

  lemma NothingYet(records: seq<string>, answer: Answer)
    requires forall r :: r in records ==> Sendable(r)
    ensures Disciplined([], records) && AckedUpTo(records, answer, 0) && Wire(records[..0]) == ""
            && Acks(records[..0]) == []
  {
  }

  /** The device after the first records. */
  lemma WireSoFar(records: seq<string>, answer: Answer, i: nat)
    requires i <= |records| && forall r :: r in records ==> Sendable(r)
    ensures Feed(SILENT_DEVICE, Wire(records[..i]), answer) == Device("", records[..i], Answers(records[..i], answer))
    ensures AckedUpTo(records, answer, i) <==> Acks(records[..i]) <= Answers(records[..i], answer)
  {
    forall rec | rec in records[..i] ensures Clean(rec) {
      assert rec in records && Sendable(rec);
    }
    FeedWire(records[..i], answer);
  }

  /** One record further: what the device has to have answered. */
  lemma AckedNext(records: seq<string>, answer: Answer, i: nat)
    requires i < |records| && forall r :: r in records ==> Sendable(r)
    ensures Acks(records[..i + 1]) == Acks(records[..i]) + Ack(records[i])
    ensures Wire(records[..i + 1]) == Wire(records[..i]) + (records[i] + "\r\n")
    ensures Feed(Device("", records[..i], Answers(records[..i], answer)), records[i] + "\r\n", answer).out ==
            Answers(records[..i + 1], answer)
  {
    assert records[..i + 1][..i] == records[..i] && records[..i] + [records[i]] == records[..i + 1];
    assert records[i] in records;
    FeedRecord(Device("", records[..i], Answers(records[..i], answer)), records[i], answer);
  }

  lemma LogExtends(log0: seq<(nat, seq<byte>)>, log: seq<(nat, seq<byte>)>, records: seq<string>, i: nat)
    requires i < |records| && forall r :: r in records ==> Sendable(r)
    requires Disciplined(log0, records) && log0 <= log
    requires Logged(log[|log0|..], |Wire(records[..i])|, |Wire(records[..i])| + |records[i]| + 2, Acks(records[..i]))
    ensures Disciplined(log, records)
  {
    assert records[..i + 1][..i] == records[..i];
    forall e | e in log ensures exists j :: 0 <= j < |records| && WriteInRecord(e, records, j) {
      assert log == log0 + log[|log0|..];
      if e in log0 {
      } else {
        assert WriteInRecord(e, records, i);
      }
    }
  }
}
