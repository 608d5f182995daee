/** Bytes, fixed-width fields and the result type shared by every component. */
module Bytes {

  type byte = x: int | 0 <= x < 0x100

  type u16 = x: int | 0 <= x < 0x1_0000

  const ETH_HDR_LEN := 14
  const IP_HDR_MIN := 20
  const ETH_FRAME_MAX := 1514

  /** A Python call that may raise: the value, or the reason it was refused. */
  datatype Result<+T> = Ok(value: T) | Err(error: string)

  datatype Option<+T> = None | Some(value: T)

  predicate IsHexDigit(c: char) {
    '0' <= c <= '9' || 'A' <= c <= 'F' || 'a' <= c <= 'f'
  }

  /** (hi << 8) | lo */
  function Word(hi: int, lo: int): int {
    hi * 0x100 + lo
  }

  /** struct.pack("!H", w) */
  function PackBE16(w: u16): (b: seq<byte>)
    ensures |b| == 2
  {
    [w / 0x100, w % 0x100]
  }

  /** struct.pack("<H", w) */
  function PackLE16(w: u16): (b: seq<byte>)
    ensures |b| == 2
  {
    [w % 0x100, w / 0x100]
  }

  /** struct.unpack_from("!H", b, i) */
  function UnpackBE16(b: seq<byte>, i: nat): u16
    requires i + 2 <= |b|
  {
    Word(b[i], b[i + 1])
  }

  /** struct.unpack_from("<H", b, i) */
  function UnpackLE16(b: seq<byte>, i: nat): u16
    requires i + 2 <= |b|
  {
    Word(b[i + 1], b[i])
  }

  /** int.from_bytes(b, "little") */
  function LittleEndian(b: seq<byte>): nat {
    if b == [] then 0 else b[0] + 0x100 * LittleEndian(b[1..])
  }

  /** struct.unpack_from("<I", b, i) */
  function UnpackLE32(b: seq<byte>, i: nat): nat
    requires i + 4 <= |b|
  {
    LittleEndian(b[i..i + 4])
  }

  /** struct.unpack_from("<Q", b, i) */
  function UnpackLE64(b: seq<byte>, i: nat): nat
    requires i + 8 <= |b|
  {
    LittleEndian(b[i..i + 8])
  }

  lemma LittleEndian4(b: seq<byte>)
    requires |b| == 4
    ensures LittleEndian(b) == Word(b[1], b[0]) + 0x1_0000 * Word(b[3], b[2])
  {
    assert b[1..][1..] == b[2..] && b[2..][1..] == b[3..] && b[3..][1..] == [];
    assert LittleEndian(b[3..]) == b[3] as int;
    assert LittleEndian(b[2..]) == b[2] + 0x100 * LittleEndian(b[3..]);
    assert LittleEndian(b[1..]) == b[1] + 0x100 * LittleEndian(b[2..]);
  }

  lemma LittleEndian8(b: seq<byte>)
    requires |b| == 8
    ensures LittleEndian(b) == LittleEndian(b[..4]) + 0x1_0000_0000 * LittleEndian(b[4..])
  {
    LittleEndian4(b[..4]);
    assert b[1..][1..] == b[2..] && b[2..][1..] == b[3..] && b[3..][1..] == b[4..];
    assert LittleEndian(b[3..]) == b[3] + 0x100 * LittleEndian(b[4..]);
    assert LittleEndian(b[2..]) == b[2] + 0x100 * LittleEndian(b[3..]);
  }

  lemma {:induction false} LittleEndianZero(b: seq<byte>)
    requires forall i :: 0 <= i < |b| ==> b[i] == 0
    ensures LittleEndian(b) == 0
  {
    if b != [] {
      LittleEndianZero(b[1..]);
    }
  }

  /** Overwrite the bytes of `b` from `k` on with `field`. */
  function Splice(b: seq<byte>, k: nat, field: seq<byte>): (r: seq<byte>)
    requires k + |field| <= |b|
    ensures |r| == |b|
  {
    b[..k] + field + b[k + |field|..]
  }

  lemma ConcatAssoc<T>(a: seq<T>, b: seq<T>, c: seq<T>)
    ensures a + b + c == a + (b + c)
  {
  }

  lemma SpliceAfterPrefix(prefix: seq<byte>, body: seq<byte>, k: nat, field: seq<byte>)
    requires k + |field| <= |body|
    ensures Splice(prefix + body, |prefix| + k, field) == prefix + Splice(body, k, field)
    ensures forall i :: k <= i < |body| ==> (prefix + body)[|prefix| + i] == body[i]
  {
    assert (prefix + body)[..|prefix| + k] == prefix + body[..k];
    assert (prefix + body)[|prefix| + k + |field|..] == body[k + |field|..];
  }

  /** The integers of [lo, hi). */
  function Interval(lo: int, hi: int): (r: set<int>)
    ensures forall b :: b in r <==> lo <= b < hi
    decreases hi - lo
  {
    if lo >= hi then {} else Interval(lo, hi - 1) + {hi - 1}
  }

  function Min(a: int, b: int): int {
    if a <= b then a else b
  }
}
