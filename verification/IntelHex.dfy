/**
 * Intel HEX records (Intel "Hexadecimal Object File Format Specification", rev. A, 1988) as the
 * UART loader uses them: printing, parsing, segmentation of an image, and what the records mean.
 */
module IntelHex {
  import opened Bytes

  // ----- Hex text --------------------------------------------------------------

  function HexDigit(n: int): char
    requires 0 <= n < 16
  {
    if n < 10 then ('0' as int + n) as char else ('A' as int + n - 10) as char
  }

  function HexByte(b: byte): string {
    [HexDigit(b / 16), HexDigit(b % 16)]
  }

  /** bytes.hex().upper() */
  function Hex(raw: seq<byte>): (s: string)
    ensures |s| == 2 * |raw|
  {
    if raw == [] then "" else HexByte(raw[0]) + Hex(raw[1..])
  }

  function HexValue(c: char): (v: int)
    requires IsHexDigit(c)
    ensures 0 <= v < 16
  {
    if c <= '9' then c as int - '0' as int
    else if c <= 'F' then c as int - 'A' as int + 10
    else c as int - 'a' as int + 10
  }

  predicate IsAsciiSpace(c: char) {
    c == ' ' || '\t' <= c <= '\r'
  }

  /** bytes.fromhex: byte pairs, white space allowed between them. */
  function FromHex(s: string): Result<seq<byte>> {
    if s == "" then Ok([])
    else if IsAsciiSpace(s[0]) then FromHex(s[1..])
    else if |s| >= 2 && IsHexDigit(s[0]) && IsHexDigit(s[1]) then
      match FromHex(s[2..])
      case Err(e) => Err(e)
      case Ok(rest) =>
        var b: byte := 16 * HexValue(s[0]) + HexValue(s[1]);
        Ok([b] + rest)
    else Err("non-hexadecimal number found in fromhex() arg")
  }

  /** How a text begins decides what fromhex makes of it: white space is passed over, two digits are a byte. */
  lemma FromHexBegins(c: char, d: char, rest: string)
    ensures FromHex("") == Ok([])
    ensures c == ' ' || c == '\t' || c == '\n' || c == '\r' || c as int == 0x0B || c as int == 0x0C ==>
              FromHex([c] + rest) == FromHex(rest)
    ensures IsHexDigit(c) && IsHexDigit(d) ==>
              match FromHex(rest)
              case Ok(raw) => FromHex([c, d] + rest) == Ok([16 * HexValue(c) + HexValue(d)] + raw)
              case Err(_) => FromHex([c, d] + rest).Err?
    ensures IsHexDigit(c) && !IsHexDigit(d) ==> FromHex([c, d] + rest).Err? && FromHex([c]).Err?
  {
    assert ([c] + rest)[1..] == rest && ([c, d] + rest)[2..] == rest;
  }

  lemma HexByteRoundTrip(b: byte)
    ensures IsHexDigit(HexByte(b)[0]) && IsHexDigit(HexByte(b)[1]) && !IsAsciiSpace(HexByte(b)[0])
    ensures 16 * HexValue(HexByte(b)[0]) + HexValue(HexByte(b)[1]) == b
  {
    HexDigitValue(b / 16);
    HexDigitValue(b % 16);
  }

  lemma HexDigitValue(n: int)
    requires 0 <= n < 16
    ensures IsHexDigit(HexDigit(n)) && HexValue(HexDigit(n)) == n && !IsAsciiSpace(HexDigit(n))
  {
  }

  lemma {:induction false} HexRoundTrip(raw: seq<byte>)
    ensures FromHex(Hex(raw)) == Ok(raw)
  {
    hide IsHexDigit, IsAsciiSpace, HexValue, HexDigit;
    if raw != [] {
      var text := Hex(raw);
      HexByteRoundTrip(raw[0]);
      assert text[0] == HexByte(raw[0])[0] && text[1] == HexByte(raw[0])[1];
      assert text[2..] == Hex(raw[1..]);
      HexRoundTrip(raw[1..]);
      assert raw == [raw[0]] + raw[1..];
    }
  }

  lemma {:induction false} HexIsPrintable(raw: seq<byte>)
    ensures forall c :: c in Hex(raw) ==> IsHexDigit(c)
  {
    if raw != [] {
      HexByteRoundTrip(raw[0]);
      HexIsPrintable(raw[1..]);
    }
  }

  lemma {:induction false} HexConcat(a: seq<byte>, b: seq<byte>)
    ensures Hex(a + b) == Hex(a) + Hex(b)
  {
    if a == [] {
      assert a + b == b;
    } else {
      assert (a + b)[1..] == a[1..] + b;
      HexConcat(a[1..], b);
    }
  }

  // ----- One record ------------------------------------------------------------

  function Sum(raw: seq<byte>): nat {
    if raw == [] then 0 else raw[0] + Sum(raw[1..])
  }

  lemma {:induction false} SumConcat(a: seq<byte>, b: seq<byte>)
    ensures Sum(a + b) == Sum(a) + Sum(b)
  {
    if a == [] {
      assert a + b == b;
    } else {
      assert (a + b)[1..] == a[1..] + b;
      SumConcat(a[1..], b);
    }
  }

  /** The bytes of a record before the checksum. */
  function Raw(recType: byte, address: int, data: seq<byte>): seq<byte>
    requires |data| <= 0xFF
  {
    [|data|, address / 0x100 % 0x100, address % 0x100, recType] + data
  }

  /** (~sum + 1) & 0xFF */
  function RecordChecksum(raw: seq<byte>): byte {
    var s: int := Sum(raw);
    (-s) % 0x100
  }

  /** make_hex_record */
  function MakeRecord(recType: byte, address: int, data: seq<byte>): Result<string> {
    if |data| > 0xFF then Err("bytes must be in range(0, 256)")
    else
      var raw := Raw(recType, address, data);
      Ok(":" + Hex(raw) + HexByte(RecordChecksum(raw)))
  }

  /** verify_checksum */
  function VerifyChecksum(record: string): Result<bool> {
    if record == "" || record[0] != ':' then Ok(false)
    else if |record[1..]| % 2 != 0 then Ok(false)
    else
      match FromHex(record[1..])
      case Err(e) => Err(e)
      case Ok(raw) => Ok(Sum(raw) % 0x100 == 0)
  }

  datatype Parsed = NotARecord | Parsed(recType: byte, address: u16, data: seq<byte>, checksumValid: bool)

  /** parse_hex_record */
  function ParseRecord(record: string): Result<Parsed> {
    if record == "" || record[0] != ':' then Ok(NotARecord)
    else
      match FromHex(record[1..])
      case Err(e) => Err(e)
      case Ok(raw) =>
        if |raw| < 4 then Err("index out of range")
        else
          var ll: int := raw[0];
          Ok(Parsed(raw[3], Word(raw[1], raw[2]), raw[4..Min(4 + ll, |raw|)], Sum(raw) % 0x100 == 0))
  }

  lemma MadeRecordBytes(recType: byte, address: int, data: seq<byte>)
    requires |data| <= 0xFF
    ensures var raw := Raw(recType, address, data);
            MakeRecord(recType, address, data) == Ok(":" + Hex(raw + [RecordChecksum(raw)]))
  {
    var raw := Raw(recType, address, data);
    var c := RecordChecksum(raw);
    HexConcat(raw, [c]);
    assert [c][1..] == [];
    assert Hex([c]) == HexByte(c) + Hex([]) == HexByte(c);
    assert ":" + Hex(raw) + HexByte(c) == ":" + (Hex(raw) + HexByte(c));
  }

  /** The checksum byte makes the record's bytes sum to 0 mod 256. */
  lemma ChecksumCancels(raw: seq<byte>)
    ensures Sum(raw + [RecordChecksum(raw)]) % 0x100 == 0
  {
    var c := RecordChecksum(raw);
    SumConcat(raw, [c]);
    assert [c][1..] == [];
    assert Sum([c]) == c;
  }

  /** A made record verifies and parses back to its type, its 16-bit address and its data. */
  lemma RecordRoundTrip(recType: byte, address: int, data: seq<byte>)
    ensures MakeRecord(recType, address, data).Ok? <==> |data| <= 0xFF
    ensures |data| <= 0xFF ==>
              var text := MakeRecord(recType, address, data).value;
              && |text| == 11 + 2 * |data|
              && VerifyChecksum(text) == Ok(true)
              && ParseRecord(text) == Ok(Parsed(recType, address % 0x1_0000, data, true))
              && text[|text| - 2..] == HexByte(RecordChecksum(Raw(recType, address, data)))
  {
    if |data| <= 0xFF {
      var raw := Raw(recType, address, data);
      MadeRecordBytes(recType, address, data);
      ChecksumCancels(raw);
      BytesOfText(MakeRecord(recType, address, data).value, raw + [RecordChecksum(raw)]);
      RawFields(recType, address, data);
    }
  }

  /** Reading back bytes printed as a record body. */
  lemma BytesOfText(text: string, full: seq<byte>)
    requires text == ":" + Hex(full)
    ensures text[1..] == Hex(full) && FromHex(text[1..]) == Ok(full)
    ensures VerifyChecksum(text) == Ok(Sum(full) % 0x100 == 0)
  {
    assert text[1..] == Hex(full);
    HexRoundTrip(full);
    assert text != "" && text[0] == ':' && |text[1..]| % 2 == 0 by {
      EvenLength(|full|);
    }
  }

  lemma EvenLength(n: nat)
    ensures 2 * n % 2 == 0
  {
  }

  lemma RawFields(recType: byte, address: int, data: seq<byte>)
    requires |data| <= 0xFF
    ensures var raw := Raw(recType, address, data);
            var full := raw + [RecordChecksum(raw)];
            && full[0] == |data| && full[3] == recType && full[4..4 + |data|] == data
            && Word(full[1], full[2]) == address % 0x1_0000
  {
  }

  /** Damage to any single byte of a verifying record is detected. */
  lemma SingleByteDamageDetected(raw: seq<byte>, i: nat, b: byte)
    requires i < |raw| && VerifyChecksum(":" + Hex(raw)) == Ok(true) && b != raw[i]
    ensures VerifyChecksum(":" + Hex(raw[i := b])) == Ok(false)
  {
    hide VerifyChecksum, Hex, Sum;
    BytesOfText(":" + Hex(raw), raw);
    BytesOfText(":" + Hex(raw[i := b]), raw[i := b]);
    SumUpdate(raw, i, b);
    ByteChangeShows(Sum(raw), raw[i], b);
  }

  /** The parser says so too, and still gives the fields that stand in the record. */
  lemma DamageIsFlagged(raw: seq<byte>, i: nat, b: byte)
    requires 4 <= |raw| && i < |raw| && Sum(raw) % 0x100 == 0 && b != raw[i]
    ensures ParseRecord(":" + Hex(raw)).Ok? && ParseRecord(":" + Hex(raw)).value.checksumValid
    ensures var r, bad := ParseRecord(":" + Hex(raw[i := b])), raw[i := b];
            && r.Ok? && r.value.Parsed? && !r.value.checksumValid
            && r.value.recType == bad[3] && r.value.address == Word(bad[1], bad[2])
  {
    hide Hex, Sum;
    BytesOfText(":" + Hex(raw), raw);
    BytesOfText(":" + Hex(raw[i := b]), raw[i := b]);
    SumUpdate(raw, i, b);
    ByteChangeShows(Sum(raw), raw[i], b);
  }

  lemma ByteChangeShows(sum: int, a: byte, b: byte)
    requires sum % 0x100 == 0 && a != b
    ensures (sum - a + b) % 0x100 != 0
  {
  }

  lemma {:induction false} SumUpdate(raw: seq<byte>, i: nat, b: byte)
    requires i < |raw|
    ensures Sum(raw[i := b]) == Sum(raw) - raw[i] + b
  {
    if i == 0 {
      assert raw[0 := b][1..] == raw[1..];
    } else {
      assert raw[i := b][1..] == raw[1..][i - 1 := b];
      SumUpdate(raw[1..], i - 1, b);
    }
  }

  // ----- Segmenting an image ---------------------------------------------------

  datatype Rec = Ext(upper: int) | Data(address: int, bytes: seq<byte>) | Eof

  /** The text of a record, when it can be made. */
  function Text(r: Rec): Result<string> {
    match r
    case Ext(u) => MakeRecord(4, 0, [u / 0x100 % 0x100, u % 0x100])
    case Data(a, d) => MakeRecord(0, a, d)
    case Eof => MakeRecord(1, 0, [])
  }

  /** The offset and the upper half that the next data record will carry. */
  function NextOffset(offset: int): int {
    if offset > 0xFFFF then 0 else offset
  }

  function NextUpper(offset: int, upper: int): int {
    if offset > 0xFFFF then upper + 1 else upper
  }

  /** The records of one chunk: an extended-address record first when the offset ran over. */
  function ChunkRecs(c: seq<byte>, offset: int, upper: int): seq<Rec> {
    if offset > 0xFFFF then [Ext(upper + 1), Data(0, c)] else [Data(offset, c)]
  }

  /** The data records of the rest of an image, with the extended-address records between them. */
  function DataRecs(rest: seq<byte>, offset: int, upper: int, chunk: nat): seq<Rec>
    requires chunk > 0
    decreases |rest|
  {
    if rest == [] then []
    else
      var k := Min(chunk, |rest|);
      ChunkRecs(rest[..k], offset, upper)
      + DataRecs(rest[k..], NextOffset(offset) + k, NextUpper(offset, upper), chunk)
  }

  function ImageRecs(kernel: seq<byte>, base: int, chunk: nat, includeEof: bool): seq<Rec>
    requires chunk > 0
  {
    var upper := base / 0x1_0000 % 0x1_0000;
    [Ext(upper)] + DataRecs(kernel, base % 0x1_0000, upper, chunk) + if includeEof then [Eof] else []
  }

  predicate Texts(records: seq<string>, recs: seq<Rec>) {
    |records| == |recs| && forall i :: 0 <= i < |recs| ==> Text(recs[i]) == Ok(records[i])
  }

  lemma TextsConcat(r1: seq<string>, a: seq<Rec>, r2: seq<string>, b: seq<Rec>)
    requires Texts(r1, a) && Texts(r2, b)
    ensures Texts(r1 + r2, a + b)
  {
  }

  /** The image that a chunk size gets through: a negative step makes the range empty. */
  function Segmented(kernel: seq<byte>, chunk: int): seq<byte> {
    if chunk > 0 then kernel else []
  }

  /** The largest record a chunk size asks for fits its count byte. */
  predicate Countable(kernel: seq<byte>, chunk: int) {
    chunk < 0 || (chunk > 0 && Min(|kernel|, chunk) <= 0xFF)
  }

  /** kernel_to_hex_records: raises on a zero chunk size, and on a first chunk above 255 bytes. */
  method KernelToHexRecords(kernel: seq<byte>, base: int, chunk: int, includeEof: bool) returns (r: Result<seq<string>>)
    ensures r.Ok? <==> Countable(kernel, chunk)
    ensures r.Ok? ==>
              Texts(r.value, ImageRecs(Segmented(kernel, chunk), base, if chunk > 0 then chunk else 1, includeEof))
    ensures chunk >= 1 && r.Ok? ==> Texts(r.value, ImageRecs(kernel, base, chunk, includeEof))
    ensures chunk < 0 ==> r.Ok? && Texts(r.value, [Ext(base / 0x1_0000 % 0x1_0000)] + if includeEof then [Eof] else [])
  {
    var upper16 := base / 0x1_0000 % 0x1_0000;
    var ext := ExtRecord(upper16);
    if chunk == 0 {
      return Err("range() arg 3 must not be zero");
    }
    var step := if chunk > 0 then chunk else 1;
    var data := SegmentRecords(Segmented(kernel, chunk), base % 0x1_0000, upper16, step);
    if data.Err? {
      return data;
    }
    ghost var recs := DataRecs(Segmented(kernel, chunk), base % 0x1_0000, upper16, step);
    TextsConcat([ext], [Ext(upper16)], data.value, recs);
    var records := [ext] + data.value;
    if includeEof {
      var eof := EofRecord();
      TextsConcat(records, [Ext(upper16)] + recs, [eof], [Eof]);
      records := records + [eof];
    }
    r := Ok(records);
  }

  /** The loop over the image. */
  method SegmentRecords(kernel: seq<byte>, offset0: int, upper0: int, chunk: nat) returns (r: Result<seq<string>>)
    requires chunk > 0
    ensures r.Ok? <==> Min(|kernel|, chunk) <= 0xFF
    ensures r.Ok? ==> Texts(r.value, DataRecs(kernel, offset0, upper0, chunk))
  {
    hide Text, DataRecs, ChunkRecs;
    var offset, upper16 := offset0, upper0;
    var records: seq<string> := [];
    ghost var whole := DataRecs(kernel, offset, upper16, chunk);
    ghost var done, more: seq<Rec> := [], whole;
    var i := 0;
    assert kernel[i..] == kernel;
    while i < |kernel|
      invariant 0 <= i <= |kernel|
      invariant i > 0 ==> Min(|kernel|, chunk) <= 0xFF
      invariant more == DataRecs(kernel[i..], offset, upper16, chunk)
      invariant Texts(records, done) && done + more == whole
    {
      var c := kernel[i..Min(i + chunk, |kernel|)];
      DataRecsUnfold(kernel, i, offset, upper16, chunk);
      if |c| > 0xFF {
        return Err("bytes must be in range(0, 256)");
      }
      ghost var recs := ChunkRecs(c, offset, upper16);
      var texts;
      texts, offset, upper16 := ChunkRecords(c, offset, upper16);
      i := i + |c|;
      more := DataRecs(kernel[i..], offset, upper16, chunk);
      TextsConcat(records, done, texts, recs);
      ConcatAssoc(done, recs, more);
      records, done := records + texts, done + recs;
    }
    assert kernel[|kernel|..] == [];
    NoDataRecs(offset, upper16, chunk);
    assert done + [] == done;
    r := Ok(records);
  }

  lemma NoDataRecs(offset: int, upper: int, chunk: nat)
    requires chunk > 0
    ensures DataRecs([], offset, upper, chunk) == []
  {
  }

  /** The loop body: an extended-address record when the offset ran over, then the chunk. */
  method ChunkRecords(c: seq<byte>, offset: int, upper: int) returns (texts: seq<string>, offset': int, upper': int)
    requires |c| <= 0xFF
    ensures Texts(texts, ChunkRecs(c, offset, upper))
    ensures offset' == NextOffset(offset) + |c| && upper' == NextUpper(offset, upper)
  {
    texts, offset', upper' := [], offset, upper;
    if offset > 0xFFFF {
      upper' := upper + 1;
      var ext := ExtRecord(upper');
      texts := [ext];
      offset' := 0;
    }
    var data := DataRecord(offset', c);
    texts := texts + [data];
    offset' := offset' + |c|;
  }

  lemma DataRecsUnfold(kernel: seq<byte>, i: nat, offset: int, upper: int, chunk: nat)
    requires chunk > 0 && i < |kernel|
    ensures var c := kernel[i..Min(i + chunk, |kernel|)];
            DataRecs(kernel[i..], offset, upper, chunk) ==
            ChunkRecs(c, offset, upper)
            + DataRecs(kernel[i + |c|..], NextOffset(offset) + |c|, NextUpper(offset, upper), chunk)
  {
    var rest, k := kernel[i..], Min(chunk, |kernel| - i);
    assert rest[..k] == kernel[i..i + k] && rest[k..] == kernel[i + k..];
  }

  method EofRecord() returns (text: string)
    ensures Text(Eof) == Ok(text)
  {
    text := MakeRecord(1, 0, []).value;
  }

  method ExtRecord(upper: int) returns (text: string)
    ensures Text(Ext(upper)) == Ok(text)
  {
    text := MakeRecord(4, 0, [upper / 0x100 % 0x100, upper % 0x100]).value;
  }

  method DataRecord(address: int, bytes: seq<byte>) returns (text: string)
    requires |bytes| <= 0xFF
    ensures Text(Data(address, bytes)) == Ok(text)
  {
    text := MakeRecord(0, address, bytes).value;
  }

  // ----- What the records mean to the loader ------------------------------------

  /** The loader: its extended base, the memory it wrote, and whether it was told to stop and jump. */
  datatype Loader = Loader(upper: int, mem: map<int, byte>, booted: bool)

  const IDLE_LOADER := Loader(0, map[], false)

  /** `bytes` stored from address `at` on. */
  function Image(at: int, bytes: seq<byte>): (m: map<int, byte>)
    ensures forall a :: a in m <==> at <= a < at + |bytes|
    ensures forall a :: a in m ==> m[a] == bytes[a - at]
  {
    var span := Interval(at, at + |bytes|);
    map a | a in span :: bytes[a - at]
  }

  /** Type 04 sets the upper 16 address bits, type 00 writes, type 01 ends the transfer. */
  function Apply(l: Loader, r: Rec): Loader {
    match r
    case Ext(u) => l.(upper := u % 0x1_0000)
    case Data(a, d) => l.(mem := l.mem + Image(l.upper * 0x1_0000 + a, d))
    case Eof => l.(booted := true)
  }

  function ApplyAll(l: Loader, recs: seq<Rec>): Loader
    decreases recs
  {
    if recs == [] then l else ApplyAll(Apply(l, recs[0]), recs[1..])
  }

  lemma {:induction false} ApplyConcat(l: Loader, a: seq<Rec>, b: seq<Rec>)
    ensures ApplyAll(l, a + b) == ApplyAll(ApplyAll(l, a), b)
    decreases a
  {
    if a == [] {
      assert a + b == b;
    } else {
      assert (a + b)[1..] == a[1..] + b;
      ApplyConcat(Apply(l, a[0]), a[1..], b);
    }
  }

  /** The least multiple of c that is at least n, for n >= 1. */
  function RoundUp(n: int, c: nat): (r: int)
    requires c > 0
    ensures r >= c && r >= n
    decreases n
  {
    if n <= c then c else c + RoundUp(n - c, c)
  }

  /**
   * When the records put every byte where it belongs: no record follows one that crosses a 64 KiB
   * boundary, because the offset is reset to 0 however far past the boundary the record went.
   */
  predicate Fits(offset: int, len: nat, chunk: nat)
    requires chunk > 0
  {
    var room := 0x1_0000 - offset;
    || len <= RoundUp(room, chunk)
    || (room % chunk == 0 && (len - room <= RoundUp(0x1_0000, chunk) || 0x1_0000 % chunk == 0))
  }

  lemma ModMinus(n: int, c: int)
    requires c > 0
    ensures (n - c) % c == n % c
  {
    var q := n / c;
    assert n == c * q + n % c;
    assert n - c == c * (q - 1) + n % c;
    ModUnique(n - c, c, q - 1, n % c);
  }

  lemma ModUnique(n: int, c: int, q: int, r: int)
    requires c > 0 && n == c * q + r && 0 <= r < c
    ensures n % c == r
  {
    var q', r' := n / c, n % c;
    assert c * (q - q') == r' - r;
    if q > q' {
      MulAtLeast(c, q - q');
    } else if q < q' {
      MulAtLeast(c, q' - q);
    }
  }

  lemma MulAtLeast(c: int, k: int)
    requires c > 0 && k >= 1
    ensures c * k >= c
  {
  }

  lemma ModSmall(n: int, c: int)
    requires 0 <= n < c
    ensures n % c == n
  {
    ModUnique(n, c, 0, n);
  }

  /** What one full chunk does to the condition. */
  lemma FitsStep(offset: int, len: nat, chunk: nat)
    requires 0 <= offset <= 0xFFFF && 0 < chunk < len
    ensures offset + chunk < 0x1_0000 ==> (Fits(offset, len, chunk) <==> Fits(offset + chunk, len - chunk, chunk))
    ensures offset + chunk == 0x1_0000 ==> (Fits(offset, len, chunk) <==> Fits(0, len - chunk, chunk))
    ensures offset + chunk > 0x1_0000 ==> !Fits(offset, len, chunk)
  {
    var room := 0x1_0000 - offset;
    if room > chunk {
      ModMinus(room, chunk);
    } else if room == chunk {
      ModMinus(chunk, chunk);
      ModSmall(0, chunk);
    } else {
      ModSmall(room, chunk);
    }
  }

  /** Fits, followed record by record: only the last record may cross a boundary. */
  predicate NoRecordAfterCrossing(offset: int, len: nat, chunk: nat)
    requires chunk > 0
    decreases len
  {
    len <= chunk
    || (offset + chunk <= 0x1_0000 && NoRecordAfterCrossing(NextOffset(offset + chunk), len - chunk, chunk))
  }

  lemma {:induction false} FitsIff(offset: int, len: nat, chunk: nat)
    requires chunk > 0 && 0 <= offset <= 0xFFFF
    ensures NoRecordAfterCrossing(offset, len, chunk) <==> Fits(offset, len, chunk)
    decreases len
  {
    if len > chunk {
      FitsStep(offset, len, chunk);
      if offset + chunk <= 0x1_0000 {
        FitsIff(NextOffset(offset + chunk), len - chunk, chunk);
      }
    }
  }

  /** The loader after the records of one chunk. */
  function AfterChunk(l: Loader, c: seq<byte>, offset: int, upper: int): Loader {
    Loader(NextUpper(offset, upper),
           l.mem + Image(NextUpper(offset, upper) * 0x1_0000 + NextOffset(offset), c), l.booted)
  }

  /** One chunk's records, applied. */
  lemma ApplyChunk(l: Loader, c: seq<byte>, offset: int, upper: int, more: seq<Rec>)
    requires l.upper == upper && 0 <= NextUpper(offset, upper) <= 0xFFFF
    ensures ApplyAll(l, ChunkRecs(c, offset, upper) + more) == ApplyAll(AfterChunk(l, c, offset, upper), more)
  {
    if offset > 0xFFFF {
      ApplyExt(l, upper + 1);
      ApplyOne(l, Ext(upper + 1), [Data(0, c)] + more);
      assert ChunkRecs(c, offset, upper) + more == [Ext(upper + 1)] + ([Data(0, c)] + more);
      ApplyOne(Apply(l, Ext(upper + 1)), Data(0, c), more);
    } else {
      ApplyOne(l, Data(offset, c), more);
    }
  }

  lemma ApplyExt(l: Loader, upper: int)
    requires 0 <= upper <= 0xFFFF
    ensures Apply(l, Ext(upper)) == l.(upper := upper)
  {
  }

  lemma ApplyOne(l: Loader, r: Rec, more: seq<Rec>)
    ensures ApplyAll(l, [r] + more) == ApplyAll(Apply(l, r), more)
  {
    assert ([r] + more)[1..] == more;
  }

  /** The loader after the rest of an image, chunk by chunk. */
  function LoadRest(l: Loader, rest: seq<byte>, offset: int, upper: int, chunk: nat): Loader
    requires chunk > 0
    decreases |rest|
  {
    if rest == [] then l
    else
      var k := Min(chunk, |rest|);
      LoadRest(AfterChunk(l, rest[..k], offset, upper), rest[k..], NextOffset(offset) + k, NextUpper(offset, upper),
               chunk)
  }

  lemma {:induction false} LoadRestApplies(l: Loader, rest: seq<byte>, offset: int, upper: int, chunk: nat)
    requires chunk > 0 && 0 <= offset && 0 <= upper && l.upper == upper
    requires upper * 0x1_0000 + offset + |rest| <= 0x1_0000_0000
    ensures ApplyAll(l, DataRecs(rest, offset, upper, chunk)) == LoadRest(l, rest, offset, upper, chunk)
    decreases |rest|
  {
    if rest != [] {
      var k := Min(chunk, |rest|);
      ApplyChunk(l, rest[..k], offset, upper,
                 DataRecs(rest[k..], NextOffset(offset) + k, NextUpper(offset, upper), chunk));
      LoadRestApplies(AfterChunk(l, rest[..k], offset, upper), rest[k..],
                      NextOffset(offset) + k, NextUpper(offset, upper), chunk);
    }
  }

  lemma {:induction false} LoadRestKeepsBooted(l: Loader, rest: seq<byte>, offset: int, upper: int, chunk: nat)
    requires chunk > 0
    ensures LoadRest(l, rest, offset, upper, chunk).booted == l.booted
    decreases |rest|
  {
    if rest != [] {
      var k := Min(chunk, |rest|);
      LoadRestKeepsBooted(AfterChunk(l, rest[..k], offset, upper), rest[k..],
                          NextOffset(offset) + k, NextUpper(offset, upper), chunk);
    }
  }

  /** m1 is m0 with `bytes` stored from `at` on. */
  ghost predicate Wrote(m0: map<int, byte>, m1: map<int, byte>, at: int, bytes: seq<byte>) {
    && (forall a :: a in m1 <==> a in m0 || at <= a < at + |bytes|)
    && (forall a :: a in m1 ==> m1[a] == if at <= a < at + |bytes| then bytes[a - at] else m0[a])
  }

  lemma WroteIsImage(m0: map<int, byte>, m1: map<int, byte>, at: int, bytes: seq<byte>)
    requires Wrote(m0, m1, at, bytes)
    ensures m1 == m0 + Image(at, bytes)
  {
  }

  lemma WroteThenWrote(m0: map<int, byte>, m1: map<int, byte>, m2: map<int, byte>, at: int, bytes: seq<byte>, k: nat)
    requires k <= |bytes| && Wrote(m0, m1, at, bytes[..k]) && Wrote(m1, m2, at + k, bytes[k..])
    ensures Wrote(m0, m2, at, bytes)
  {
  }

  lemma WroteImage(m0: map<int, byte>, at: int, bytes: seq<byte>)
    ensures Wrote(m0, m0 + Image(at, bytes), at, bytes)
  {
  }

  lemma ChunkLandsAt(l: Loader, c: seq<byte>, offset: int, upper: int, at: int)
    requires 0 <= offset <= 0x1_0000 && at == upper * 0x1_0000 + offset
    ensures Wrote(l.mem, AfterChunk(l, c, offset, upper).mem, at, c)
    ensures NextUpper(offset, upper) * 0x1_0000 + NextOffset(offset) == at
  {
    assert NextUpper(offset, upper) * 0x1_0000 + NextOffset(offset) == at;
    WroteImage(l.mem, at, c);
  }

  lemma {:induction false} RecsWriteImage(l: Loader, rest: seq<byte>, offset: int, upper: int, chunk: nat, at: int)
    requires chunk > 0 && 0 <= offset <= 0x1_0000 && at == upper * 0x1_0000 + offset
    requires NoRecordAfterCrossing(NextOffset(offset), |rest|, chunk)
    ensures Wrote(l.mem, LoadRest(l, rest, offset, upper, chunk).mem, at, rest)
    decreases |rest|
  {
    if rest != [] {
      var k := Min(chunk, |rest|);
      var l1, tail := AfterChunk(l, rest[..k], offset, upper), rest[k..];
      var off1, up1 := NextOffset(offset) + k, NextUpper(offset, upper);
      var l2 := LoadRest(l1, tail, off1, up1, chunk);
      ChunkLandsAt(l, rest[..k], offset, upper, at);
      if |rest| > chunk {
        RecsWriteImage(l1, tail, off1, up1, chunk, at + k);
      }
      assert Wrote(l1.mem, l2.mem, at + k, tail);
      WroteThenWrote(l.mem, l1.mem, l2.mem, at, rest, k);
    }
  }

  /** Records never write at or beyond the place where the last byte would end up without resets. */
  lemma {:induction false} RecsWriteBelow(l: Loader, rest: seq<byte>, offset: int, upper: int, chunk: nat, a: int)
    requires chunk > 0 && 0 <= offset
    requires a >= upper * 0x1_0000 + offset + |rest| && a !in l.mem
    ensures a !in LoadRest(l, rest, offset, upper, chunk).mem
    decreases |rest|
  {
    if rest != [] {
      var k := Min(chunk, |rest|);
      RecsWriteBelow(AfterChunk(l, rest[..k], offset, upper), rest[k..],
                     NextOffset(offset) + k, NextUpper(offset, upper), chunk, a);
    }
  }

  /** When a record follows a crossing, the last byte of the image is never written in its place. */
  lemma {:induction false} MisfitLosesLastByte(l: Loader, rest: seq<byte>, offset: int, upper: int, chunk: nat,
                                              last: int)
    requires chunk > 0 && 0 <= offset && (offset > 0x1_0000 ==> rest != [])
    requires offset <= 0x1_0000 ==> !NoRecordAfterCrossing(NextOffset(offset), |rest|, chunk)
    requires last == upper * 0x1_0000 + offset + |rest| - 1 && last !in l.mem
    ensures last !in LoadRest(l, rest, offset, upper, chunk).mem
    decreases |rest|
  {
    var k := Min(chunk, |rest|);
    var l1 := AfterChunk(l, rest[..k], offset, upper);
    if offset <= 0x1_0000 {
      assert k < |rest|;
      MisfitLosesLastByte(l1, rest[k..], NextOffset(offset) + k, NextUpper(offset, upper), chunk, last);
    } else {
      RecsWriteBelow(l1, rest[k..], NextOffset(offset) + k, NextUpper(offset, upper), chunk, last);
    }
  }

  /**
   * The records of an image, interpreted by the loader, write exactly the image at its base and
   * nothing else if and only if the base, length and chunk size fit.
   */
  lemma HexImageExact(kernel: seq<byte>, base: nat, chunk: nat, includeEof: bool)
    requires chunk > 0 && base + |kernel| <= 0x1_0000_0000 && base < 0x1_0000_0000
    ensures var final := ApplyAll(IDLE_LOADER, ImageRecs(kernel, base, chunk, includeEof));
            && (final.mem == Image(base, kernel) <==> Fits(base % 0x1_0000, |kernel|, chunk))
            && final.booted == includeEof
  {
    var offset, upper := base % 0x1_0000, base / 0x1_0000;
    ImageRecsFrom(IDLE_LOADER, kernel, offset, upper, base, chunk, includeEof);
    var l := IDLE_LOADER.(upper := upper);
    FitsIff(offset, |kernel|, chunk);
    LoadRestExact(l, kernel, offset, upper, chunk, base);
  }

  lemma LoadRestExact(l: Loader, kernel: seq<byte>, offset: int, upper: int, chunk: nat, base: nat)
    requires chunk > 0 && 0 <= offset <= 0xFFFF && base == upper * 0x1_0000 + offset && l.mem == map[]
    ensures LoadRest(l, kernel, offset, upper, chunk).mem == Image(base, kernel) <==>
              NoRecordAfterCrossing(offset, |kernel|, chunk)
  {
    if NoRecordAfterCrossing(offset, |kernel|, chunk) {
      RecsWriteImage(l, kernel, offset, upper, chunk, base);
      WroteIsImage(map[], LoadRest(l, kernel, offset, upper, chunk).mem, base, kernel);
      assert map[] + Image(base, kernel) == Image(base, kernel);
    } else {
      MisfitLosesLastByte(l, kernel, offset, upper, chunk, base + |kernel| - 1);
      assert base + |kernel| - 1 in Image(base, kernel);
    }
  }

  /** The leading extended-address record sets the base; the end-of-file record only ends the transfer. */
  lemma ImageRecsFrom(l: Loader, kernel: seq<byte>, offset: int, upper: int, base: nat, chunk: nat, includeEof: bool)
    requires chunk > 0 && base < 0x1_0000_0000 && base + |kernel| <= 0x1_0000_0000
    requires offset == base % 0x1_0000 && upper == base / 0x1_0000
    ensures var data := LoadRest(l.(upper := upper), kernel, offset, upper, chunk);
            var final := ApplyAll(l, ImageRecs(kernel, base, chunk, includeEof));
            final.mem == data.mem && final.booted == (l.booted || includeEof)
  {
    var l0 := l.(upper := upper);
    var recs := DataRecs(kernel, offset, upper, chunk);
    var eof := if includeEof then [Eof] else [];
    var all := ImageRecs(kernel, base, chunk, includeEof);
    assert all == [Ext(upper)] + (recs + eof);
    ApplyOne(l, Ext(upper), recs + eof);
    ApplyConcat(l0, recs, eof);
    LoadRestApplies(l0, kernel, offset, upper, chunk);
    LoadRestKeepsBooted(l0, kernel, offset, upper, chunk);
    ApplyOne(ApplyAll(l0, recs), Eof, []);
    assert [Eof] + [] == [Eof];
  }

  /** An unaligned crossing breaks it: 32 bytes at 0xFFF8 in 16-byte records. */
  lemma UnalignedCrossingBreaks(kernel: seq<byte>)
    requires |kernel| == 32
    ensures ApplyAll(IDLE_LOADER, ImageRecs(kernel, 0xFFF8, 16, true)).mem != Image(0xFFF8, kernel)
  {
    HexImageExact(kernel, 0xFFF8, 16, true);
  }

  /** The default 16-byte chunks are exact for every 16-byte-aligned base. */
  lemma AlignedBaseFits(base: nat, len: nat)
    requires base % 16 == 0
    ensures Fits(base % 0x1_0000, len, 16)
  {
    assert (0x1_0000 - base % 0x1_0000) % 16 == 0;
    assert 0x1_0000 % 16 == 0;
  }
}
