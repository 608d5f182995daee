/**
 * The UART chainloader: one line buffer that is never cleared, the record parser that works on it, and the
 * two bytes it answers. A refused record is answered with the complement of the byte sum it found, not of the
 * checksum byte it received.
 */
module Chainloader {
  import opened Bytes
  import opened IntelHex

  const LINE_BUF_SIZE := 80
  const LINE_MAX := 78
  const MIN_RECORD := 11

  // ----- Reading a record from the line buffer ------------------------------------------

  /** Two hexadecimal digits at `i` of the buffer. */
  predicate PairLegible(buf: string, i: nat) {
    i + 1 < |buf| && IsHexDigit(buf[i]) && IsHexDigit(buf[i + 1])
  }

  /** cl_hex_byte, on digits */
  function Pair(buf: string, i: nat): byte
    requires PairLegible(buf, i)
  {
    16 * HexValue(buf[i]) + HexValue(buf[i + 1])
  }

  /** How many bytes the record claims: count, address, type, data and checksum. */
  function Claimed(buf: string): nat
    requires PairLegible(buf, 1)
  {
    5 + Pair(buf, 1)
  }

  /** Everything the parser will read lies in the buffer and is hexadecimal. */
  predicate Legible(buf: string) {
    PairLegible(buf, 1) && forall k :: 0 <= k < Claimed(buf) ==> PairLegible(buf, 1 + 2 * k)
  }

  /** The record's bytes, whatever line of the past they were left by. */
  function RawOf(buf: string): (raw: seq<byte>)
    requires Legible(buf)
    ensures |raw| == Claimed(buf) && forall k :: 0 <= k < |raw| ==> raw[k] == Pair(buf, 1 + 2 * k)
  {
    seq(Claimed(buf), k requires 0 <= k < Claimed(buf) => Pair(buf, 1 + 2 * k))
  }

  // ----- Judging a record ---------------------------------------------------------------

  /** What the parser returns, with the byte it leaves for the answer. */
  datatype Verdict = Accepted(check: byte, rec: Rec) | Refused(check: byte)

  /** What the device makes of characters that are no digits, and of stack bytes no record filled: anything. */
  datatype Noise = Noise(verdict: string -> Verdict, upper: string -> u16)

  /** cl_parse_hex_record; `check` is the byte left by the record before */
  function Judge(buf: string, check: byte, noise: Noise): Verdict
    requires |buf| == LINE_BUF_SIZE
  {
    if buf[0] != ':' then Refused(check)
    else if !Legible(buf) then noise.verdict(buf)
    else
      var raw := RawOf(buf);
      var last := raw[|raw| - 1];
      if Sum(raw) % 0x100 != 0 then Refused(Sum(raw) % 0x100)
      else if raw[3] == 0 then Accepted(last, Data(Word(raw[1], raw[2]), raw[4..|raw| - 1]))
      else if raw[3] == 1 then Accepted(last, Eof)
      else if raw[3] == 4 then Accepted(last, Ext(if raw[0] >= 2 then Word(raw[4], raw[5]) else noise.upper(buf)))
      else Refused(last)
  }

  // ----- The receive loop ---------------------------------------------------------------

  /** The line buffer, the byte kept for the answer, the record count, and the memory written so far. */
  datatype Chain = Chain(buf: string, check: byte, count: nat, loader: Loader) {
    predicate Valid() {
      |buf| == LINE_BUF_SIZE
    }
  }

  /** A zeroed buffer; the answer byte is whatever its register held. */
  function PowerOn(check: byte): (ch: Chain)
    ensures ch.Valid()
  {
    Chain(seq(LINE_BUF_SIZE, _ => '\0'), check, 0, IDLE_LOADER)
  }

  /** cl_getline keeps at most 78 characters. */
  function Kept(line: string): (s: string)
    ensures |s| <= LINE_MAX
  {
    line[..Min(|line|, LINE_MAX)]
  }

  /** The line over what was in the buffer. */
  function Overlay(buf: string, line: string): (r: string)
    requires |buf| == LINE_BUF_SIZE
    ensures |r| == LINE_BUF_SIZE
  {
    Kept(line) + buf[|Kept(line)|..]
  }

  /** At most 78 characters of a line reach the 80 of the buffer; what a line does not reach stays. */
  lemma OverlayIs(buf: string, line: string)
    requires |buf| == 80
    ensures var r := Overlay(buf, line);
            |r| == 80 && forall i :: 0 <= i < 80 ==> r[i] == if i < |line| && i < 78 then line[i] else buf[i]
  {
  }

  /** BOOT:NNNN and a line end, as bytes. */
  function BootMessage(count: nat): seq<byte> {
    var n := count % 0x1_0000;
    [0x42, 0x4F, 0x4F, 0x54, 0x3A]
    + [HexDigit(n / 0x1000) as int, HexDigit(n / 0x100 % 16) as int, HexDigit(n / 16 % 16) as int,
       HexDigit(n % 16) as int]
    + [0x0D, 0x0A]
  }

  /** The message can be read back: the count, mod 2^16, in four hexadecimal digits. */
  lemma BootMessageReads(count: nat)
    ensures var m := BootMessage(count);
            && |m| == 11 && m[..5] == [0x42, 0x4F, 0x4F, 0x54, 0x3A] && m[9..] == [0x0D, 0x0A]
            && DigitAt(m, 5) * 0x1000 + DigitAt(m, 6) * 0x100 + DigitAt(m, 7) * 0x10 + DigitAt(m, 8) == count % 0x1_0000
  {
    var n := count % 0x1_0000;
    HexDigitValue(n / 0x1000);
    HexDigitValue(n / 0x100 % 16);
    HexDigitValue(n / 16 % 16);
    HexDigitValue(n % 16);
    FourDigits(n);
    hide HexDigit, HexValue, IsHexDigit;
  }

  /** The value of the hexadecimal digit at a place, 0 when there is none. */
  function DigitAt(m: seq<byte>, i: nat): int {
    if i < |m| && IsHexDigit(m[i] as char) then HexValue(m[i] as char) else 0
  }

  lemma FourDigits(n: u16)
    ensures n / 0x1000 * 0x1000 + n / 0x100 % 16 * 0x100 + n / 16 % 16 * 0x10 + n % 16 == n
  {
    assert n / 0x100 == n / 0x1000 * 16 + n / 0x100 % 16 by {
      assert n / 0x100 / 16 == n / 0x1000;
    }
    assert n / 16 == n / 0x100 * 16 + n / 16 % 16 by {
      assert n / 16 / 16 == n / 0x100;
    }
  }

  /** One turn of the receive loop; a line too short for a record ends the transfer like an end record. */
  function Hear(ch: Chain, line: string, noise: Noise): (r: Chain)
    requires ch.Valid()
    ensures r.Valid()
  {
    var buf := Overlay(ch.buf, line);
    if ch.loader.booted then ch
    else if |line| < MIN_RECORD then Chain(buf, ch.check, ch.count + 1, ch.loader.(booted := true))
    else
      match Judge(buf, ch.check, noise)
      case Refused(c) => Chain(buf, c, ch.count, ch.loader)
      case Accepted(c, rec) => Chain(buf, c, ch.count + 1, Apply(ch.loader, rec))
  }

  /** What that turn answers; after the jump to the kernel there is nobody to answer. */
  function Reply(ch: Chain, line: string, noise: Noise): seq<byte>
    requires ch.Valid()
  {
    var n: byte := |Kept(line)|;
    if ch.loader.booted then []
    else if |line| < MIN_RECORD then [n, ch.check] + BootMessage(ch.count + 1)
    else
      match Judge(Overlay(ch.buf, line), ch.check, noise)
      case Refused(c) => [n, 0xFF - c]
      case Accepted(c, rec) => [n, c] + (if rec == Eof then BootMessage(ch.count + 1) else [])
  }

  /** The device after some lines. */
  function HearAll(ch: Chain, lines: seq<string>, noise: Noise): (r: Chain)
    requires ch.Valid()
    ensures r.Valid()
  {
    if lines == [] then ch else Hear(HearAll(ch, lines[..|lines| - 1], noise), lines[|lines| - 1], noise)
  }

  // ----- Records made by the host ---------------------------------------------------------

  /** Where the digits of a byte stand in its hexadecimal text. */
  lemma {:induction false} HexAt(raw: seq<byte>, k: nat)
    requires k < |raw|
    ensures Hex(raw)[2 * k] == HexByte(raw[k])[0] && Hex(raw)[2 * k + 1] == HexByte(raw[k])[1]
  {
    if k > 0 {
      HexAt(raw[1..], k - 1);
    }
  }

  /** Bytes of a record that says how long it is. */
  predicate Counted(full: seq<byte>) {
    |full| >= 5 && full[0] == |full| - 5 && 1 + 2 * |full| <= LINE_MAX
  }

  function LineOf(full: seq<byte>): string {
    ":" + Hex(full)
  }

  /** A printed record is read back exactly, whatever earlier lines left behind it in the buffer. */
  lemma LineIsRead(buf: string, full: seq<byte>)
    requires |buf| == LINE_BUF_SIZE && Counted(full)
    ensures var b := Overlay(buf, LineOf(full));
            b[0] == ':' && Legible(b) && RawOf(b) == full
  {
    var b := Overlay(buf, LineOf(full));
    forall k | 0 <= k < |full| ensures PairLegible(b, 1 + 2 * k) && Pair(b, 1 + 2 * k) == full[k] {
      HexAt(full, k);
      HexByteRoundTrip(full[k]);
    }
    assert Pair(b, 1 + 2 * 0) == full[0];
  }

  /** A line under 11 characters is answered with the byte kept, counted, and followed by the boot message. */
  lemma ShortLineEnds(ch: Chain, line: string, noise: Noise)
    requires ch.Valid() && !ch.loader.booted && |line| < 11
    ensures Reply(ch, line, noise) == [|line|, ch.check] + BootMessage(ch.count + 1)
    ensures var after := Hear(ch, line, noise);
            after.count == ch.count + 1 && after.check == ch.check && after.loader == ch.loader.(booted := true)
  {
  }
}
