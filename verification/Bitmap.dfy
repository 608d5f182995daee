/**
 * The 256-bit reassembly bitmap: one bit per 8-byte unit, packed eight to a byte, and the
 * set of units it stands for.
 */
module Bitmap {
  import opened Bytes

  const BITMAP_BYTES := 32
  const BITMAP_BITS := 256

  type Bits = b: seq<bv8> | |b| == 32 witness seq(32, _ => 0)

  /** 1 << k */
  function Mask(k: int): bv8
    requires 0 <= k < 8
  {
    (1 as bv8) << k
  }

  predicate Bit(x: bv8, k: int)
    requires 0 <= k < 8
  {
    x & Mask(k) != 0
  }

  /** bitmap_has_bit */
  predicate HasBit(bm: Bits, b: int)
    requires 0 <= b < BITMAP_BITS
  {
    Bit(bm[b / 8], b % 8)
  }

  /** The abstract value of a bitmap: the units whose bit is set. */
  function Units(bm: Bits): set<int> {
    set b | 0 <= b < BITMAP_BITS && HasBit(bm, b)
  }

  const EMPTY_BITMAP: Bits := seq(32, _ => 0)

  // ----- One byte -----------------------------------------------------------

  lemma MaskValues()
    ensures Mask(0) == 1 && Mask(1) == 2 && Mask(2) == 4 && Mask(3) == 8
    ensures Mask(4) == 16 && Mask(5) == 32 && Mask(6) == 64 && Mask(7) == 128
  {
  }

  lemma OrSetsBits(x: bv8, y: bv8, j: int)
    requires 0 <= j < 8
    ensures Bit(x | y, j) <==> Bit(x, j) || Bit(y, j)
  {
    var m := Mask(j);
    assert (x | y) & m == (x & m) | (y & m);
  }

  lemma MaskHasOneBit(k: int, j: int)
    requires 0 <= k < 8 && 0 <= j < 8
    ensures Bit(Mask(k), j) <==> j == k
  {
    MaskValues();
  }

  lemma ZeroHasNoBits(j: int)
    requires 0 <= j < 8
    ensures !Bit(0, j)
  {
    MaskValues();
  }

  predicate LowBitsSet(x: bv8, r: int)
    requires 0 <= r <= 8
  {
    && (r > 0 ==> Bit(x, 0)) && (r > 1 ==> Bit(x, 1)) && (r > 2 ==> Bit(x, 2)) && (r > 3 ==> Bit(x, 3))
    && (r > 4 ==> Bit(x, 4)) && (r > 5 ==> Bit(x, 5)) && (r > 6 ==> Bit(x, 6)) && (r > 7 ==> Bit(x, 7))
  }

  /** (x & mask) == mask for mask = (1 << r) - 1 says that the low r bits are all set. */
  lemma LowBits(x: bv8, r: int)
    requires 0 <= r <= 8
    ensures var mask := if r == 8 then 0xFF else Mask(r) - 1;
            x & mask == mask <==> forall k :: 0 <= k < r ==> Bit(x, k)
  {
    assert (forall k :: 0 <= k < r ==> Bit(x, k)) <==> LowBitsSet(x, r);
    LowBitsMask(x, r);
  }

  lemma LowBitsMask(x: bv8, r: int)
    requires 0 <= r <= 8
    ensures var mask := if r == 8 then 0xFF else Mask(r) - 1;
            x & mask == mask <==> LowBitsSet(x, r)
  {
    MaskValues();
    LowBitsConstants(x);
  }

  lemma LowBitsConstants(x: bv8)
    ensures x & 0 == 0
    ensures x & 1 == 1 <==> x & 1 != 0
    ensures x & 3 == 3 <==> x & 1 != 0 && x & 2 != 0
    ensures x & 7 == 7 <==> x & 3 == 3 && x & 4 != 0
    ensures x & 15 == 15 <==> x & 7 == 7 && x & 8 != 0
    ensures x & 31 == 31 <==> x & 15 == 15 && x & 16 != 0
    ensures x & 63 == 63 <==> x & 31 == 31 && x & 32 != 0
    ensures x & 127 == 127 <==> x & 63 == 63 && x & 64 != 0
    ensures x & 255 == 255 <==> x & 127 == 127 && x & 128 != 0
  {
  }

  // ----- make_bitmap, bitmap_or, bitmap_all_set ------------------------------

  /** The units a byte range touches, as make_bitmap counts them. */
  function RangeUnits(start: int, end: int): set<int> {
    Interval(start / 8, (end - 1) / 8 + 1)
  }

  method SetBit(bm: array<bv8>, b: int)
    requires bm.Length == BITMAP_BYTES && 0 <= b < BITMAP_BITS
    modifies bm
    ensures Units(bm[..]) == old(Units(bm[..])) + {b}
  {
    ghost var was := bm[..];
    bm[b / 8] := bm[b / 8] | Mask(b % 8);
    forall c | 0 <= c < BITMAP_BITS
      ensures HasBit(bm[..], c) <==> HasBit(was, c) || c == b
    {
      if c / 8 == b / 8 {
        OrSetsBits(was[b / 8], Mask(b % 8), c % 8);
        MaskHasOneBit(b % 8, c % 8);
      }
    }
  }

  lemma EmptyBitmapHasNoUnits(bm: Bits)
    requires forall i :: 0 <= i < 32 ==> bm[i] == 0
    ensures Units(bm) == {}
  {
    forall b | 0 <= b < BITMAP_BITS ensures !HasBit(bm, b) {
      ZeroHasNoBits(b % 8);
    }
  }

  /** The inner loop of make_bitmap. */
  method SetRange(bm: array<bv8>, start: int, end: int)
    requires bm.Length == BITMAP_BYTES && 0 <= start && (end - 1) / 8 < BITMAP_BITS
    modifies bm
    ensures Units(bm[..]) == old(Units(bm[..])) + RangeUnits(start, end)
  {
    var startBit, endBit := start / 8, (end - 1) / 8;
    var b := startBit;
    while b < endBit + 1
      invariant startBit <= b <= endBit + 1 || startBit == b > endBit
      invariant Units(bm[..]) == old(Units(bm[..])) + Interval(startBit, b)
    {
      SetBit(bm, b);
      b := b + 1;
    }
  }

  function AllRangeUnits(ranges: seq<(int, int)>): set<int> {
    if ranges == [] then {}
    else AllRangeUnits(ranges[..|ranges| - 1]) + RangeUnits(ranges[|ranges| - 1].0, ranges[|ranges| - 1].1)
  }

  /** make_bitmap: exactly the units touched by some range. */
  method MakeBitmap(ranges: seq<(int, int)>) returns (bm: Bits)
    requires forall r :: r in ranges ==> 0 <= r.0 && (r.1 - 1) / 8 < BITMAP_BITS
    ensures Units(bm) == AllRangeUnits(ranges)
  {
    var a := new bv8[32](_ => 0);
    EmptyBitmapHasNoUnits(a[..]);
    for n := 0 to |ranges|
      invariant Units(a[..]) == AllRangeUnits(ranges[..n])
    {
      assert ranges[..n + 1][..n] == ranges[..n];
      SetRange(a, ranges[n].0, ranges[n].1);
    }
    assert ranges[..|ranges|] == ranges;
    bm := a[..];
  }

  function Or(a: Bits, b: Bits): (r: Bits)
    ensures Units(r) == Units(a) + Units(b)
  {
    var r := seq(32, i requires 0 <= i < 32 => a[i] | b[i]);
    assert Units(r) == Units(a) + Units(b) by {
      forall c | 0 <= c < BITMAP_BITS ensures HasBit(r, c) <==> HasBit(a, c) || HasBit(b, c) {
        OrSetsBits(a[c / 8], b[c / 8], c % 8);
      }
    }
    r
  }

  method AllSet(bm: Bits, totalBits: nat) returns (all: bool)
    requires totalBits <= BITMAP_BITS
    ensures all <==> forall b :: 0 <= b < totalBits ==> b in Units(bm)
  {
    var fullBytes := totalBits / 8;
    for i := 0 to fullBytes
      invariant forall b :: 0 <= b < 8 * i ==> HasBit(bm, b)
    {
      LowBits(bm[i], 8);
      assert bm[i] & 0xFF == bm[i];
      if bm[i] != 0xFF {
        var k :| 0 <= k < 8 && !Bit(bm[i], k);
        assert (8 * i + k) / 8 == i && (8 * i + k) % 8 == k;
        assert 8 * i + k !in Units(bm);
        return false;
      }
    }
    var remaining := totalBits % 8;
    if remaining != 0 {
      var mask := Mask(remaining) - 1;
      LowBits(bm[fullBytes], remaining);
      if bm[fullBytes] & mask != mask {
        var k :| 0 <= k < remaining && !Bit(bm[fullBytes], k);
        assert 8 * fullBytes + k !in Units(bm);
        return false;
      }
    }
    return true;
  }

  /** The bitmap is determined by its units: nothing is lost by reasoning about the set. */
  lemma UnitsAreFaithful(a: Bits, b: Bits)
    ensures Units(a) == Units(b) <==> a == b
  {
    if Units(a) == Units(b) {
      forall i | 0 <= i < 32 ensures a[i] == b[i] {
        forall k | 0 <= k < 8 ensures Bit(a[i], k) == Bit(b[i], k) {
          assert (8 * i + k) / 8 == i && (8 * i + k) % 8 == k;
          assert HasBit(a, 8 * i + k) <==> 8 * i + k in Units(a);
          assert HasBit(b, 8 * i + k) <==> 8 * i + k in Units(b);
        }
        SameBitsSameByte(a[i], b[i]);
      }
    }
  }

  lemma SameBitsSameByte(x: bv8, y: bv8)
    requires forall k :: 0 <= k < 8 ==> Bit(x, k) == Bit(y, k)
    ensures x == y
  {
    MaskValues();
    assert Bit(x, 0) == Bit(y, 0) && Bit(x, 1) == Bit(y, 1) && Bit(x, 2) == Bit(y, 2) && Bit(x, 3) == Bit(y, 3);
    assert Bit(x, 4) == Bit(y, 4) && Bit(x, 5) == Bit(y, 5) && Bit(x, 6) == Bit(y, 6) && Bit(x, 7) == Bit(y, 7);
  }
}
