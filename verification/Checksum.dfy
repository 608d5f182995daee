/**
 * The ones' complement checksum of RFC 1071, in its big-endian form (IP, ICMP, UDP,
 * TCP builders) and in the little-endian form of the TCP oracle.
 */
module Checksum {
  import opened Bytes

  // ----- Specification ------------------------------------------------------

  /** Sum of the big-endian 16-bit words; an odd tail byte is a high byte. */
  function SumBE(d: seq<byte>): nat {
    if |d| == 0 then 0
    else if |d| == 1 then Word(d[0], 0)
    else Word(d[0], d[1]) + SumBE(d[2..])
  }

  /** Sum of the little-endian 16-bit words; an odd tail byte is a low byte. */
  function SumLE(d: seq<byte>): nat {
    if |d| == 0 then 0
    else if |d| == 1 then Word(0, d[0])
    else Word(d[1], d[0]) + SumLE(d[2..])
  }

  /** The value the carry-folding loop reaches. */
  function Fold(s: nat): nat
    decreases s
  {
    if s < 0x1_0000 then s else Fold(s % 0x1_0000 + s / 0x1_0000)
  }

  function InternetChecksum(d: seq<byte>): u16 {
    FoldResidue(SumBE(d));
    0xFFFF - Fold(SumBE(d))
  }

  // ----- Folding ------------------------------------------------------------

  /** Folding keeps the residue mod 65535, lands in 0..65535, and reaches 0 only from 0. */
  lemma {:induction false} FoldResidue(s: nat)
    ensures Fold(s) <= 0xFFFF
    ensures Fold(s) == 0 <==> s == 0
    ensures Fold(s) % 0xFFFF == s % 0xFFFF
    decreases s
  {
    if s >= 0x1_0000 {
      var t := s % 0x1_0000 + s / 0x1_0000;
      assert s == t + 0xFFFF * (s / 0x1_0000);
      MultipleIsNoop(t, s / 0x1_0000);
      FoldResidue(t);
    }
  }

  lemma ResidueIsUnique(x: int, y: int)
    requires 1 <= x <= 0xFFFF && 1 <= y <= 0xFFFF && x % 0xFFFF == y % 0xFFFF
    ensures x == y
  {
  }

  lemma MultipleIsNoop(a: int, k: int)
    ensures (a + 0xFFFF * k) % 0xFFFF == a % 0xFFFF
  {
    var r := a % 0xFFFF;
    var q := a / 0xFFFF;
    assert a + 0xFFFF * k == 0xFFFF * (q + k) + r;
  }

  /** Folding is complete: it identifies two sums exactly when they agree mod 65535 and on being zero. */
  lemma FoldCongruent(a: nat, b: nat)
    ensures Fold(a) == Fold(b) <==> a % 0xFFFF == b % 0xFFFF && (a == 0 <==> b == 0)
  {
    FoldResidue(a);
    FoldResidue(b);
    if a % 0xFFFF == b % 0xFFFF && a != 0 && b != 0 {
      ResidueIsUnique(Fold(a), Fold(b));
    }
  }

  method FoldCarries(sum: nat) returns (s: nat)
    ensures s == Fold(sum) && s < 0x1_0000
  {
    s := sum;
    while s / 0x1_0000 != 0
      invariant Fold(s) == Fold(sum)
      decreases s
    {
      s := s % 0x1_0000 + s / 0x1_0000;
    }
  }

  /** ip_checksum: pad, sum the words, fold, complement. */
  method IpChecksum(data: seq<byte>) returns (c: u16)
    ensures c == InternetChecksum(data)
  {
    var padded := if |data| % 2 == 1 then data + [0] else data;
    PaddingKeepsSum(data);
    var s, i := 0, 0;
    while i < |padded|
      invariant 0 <= i <= |padded| && i % 2 == 0
      invariant s + SumBE(padded[i..]) == SumBE(padded)
    {
      assert padded[i..][2..] == padded[i + 2..];
      s := s + UnpackBE16(padded, i);
      i := i + 2;
    }
    var f := FoldCarries(s);
    c := 0xFFFF - f;
  }

  lemma {:induction false} PaddingKeepsSum(d: seq<byte>)
    ensures |d| % 2 == 1 ==> SumBE(d + [0]) == SumBE(d)
  {
    hide Word;
    if |d| >= 2 {
      PaddingKeepsSum(d[2..]);
      assert (d + [0])[2..] == d[2..] + [0];
    } else if |d| == 1 {
      assert (d + [0])[2..] == [];
    }
  }

  lemma {:induction false} SumConcat(a: seq<byte>, b: seq<byte>)
    requires |a| % 2 == 0
    ensures SumBE(a + b) == SumBE(a) + SumBE(b)
    ensures SumLE(a + b) == SumLE(a) + SumLE(b)
  {
    if a == [] {
      assert a + b == b;
    } else {
      assert (a + b)[2..] == a[2..] + b;
      SumConcat(a[2..], b);
    }
  }

  // ----- Insert, then verify ------------------------------------------------

  /** The effect on the sum of storing one word at an even offset. */
  lemma {:induction false} SumSplice(d: seq<byte>, k: nat, w: u16)
    requires k % 2 == 0 && k + 2 <= |d|
    ensures SumBE(Splice(d, k, PackBE16(w))) == SumBE(d) - UnpackBE16(d, k) + w
  {
    var r := Splice(d, k, PackBE16(w));
    if k == 0 {
      assert r[2..] == d[2..];
    } else {
      assert r[2..] == Splice(d[2..], k - 2, PackBE16(w));
      SumSplice(d[2..], k - 2, w);
    }
  }

  /** A buffer verifies exactly when its word sum is a positive multiple of 65535. */
  lemma VerifiesIff(d: seq<byte>)
    ensures InternetChecksum(d) == 0 <==> SumBE(d) > 0 && SumBE(d) % 0xFFFF == 0
  {
    FoldResidue(SumBE(d));
  }

  /**
   * Storing the checksum of a buffer in its zeroed even-offset field makes the buffer
   * verify, whatever the buffer's length; so does UDP's 0xFFFF in place of 0; and no
   * other value does, up to the two spellings of zero.
   */
  lemma InsertVerifies(d: seq<byte>, k: nat, w: u16)
    requires k % 2 == 0 && k + 2 <= |d| && UnpackBE16(d, k) == 0
    ensures w == InternetChecksum(d) ==> InternetChecksum(Splice(d, k, PackBE16(w))) == 0
    ensures w == 0xFFFF && InternetChecksum(d) == 0 ==> InternetChecksum(Splice(d, k, PackBE16(w))) == 0
    ensures InternetChecksum(Splice(d, k, PackBE16(w))) == 0 && w != 0 && w != 0xFFFF ==> w == InternetChecksum(d)
  {
    hide SumBE, Fold, Splice, PackBE16, Word;
    SumSplice(d, k, w);
    VerifiesIff(Splice(d, k, PackBE16(w)));
    FoldResidue(SumBE(d));
    ComplementResidue(SumBE(d), Fold(SumBE(d)), w);
  }

  lemma ComplementResidue(s: nat, f: nat, w: u16)
    requires f <= 0xFFFF && (f == 0 <==> s == 0) && f % 0xFFFF == s % 0xFFFF
    ensures w == 0xFFFF - f ==> s + w > 0 && (s + w) % 0xFFFF == 0
    ensures w == 0xFFFF && f == 0xFFFF ==> s + w > 0 && (s + w) % 0xFFFF == 0
    ensures (s + w) % 0xFFFF == 0 && w != 0 && w != 0xFFFF ==> w == 0xFFFF - f
  {
    var q := s / 0xFFFF - f / 0xFFFF;
    assert s == f + 0xFFFF * q;
    assert s + w == f + w + 0xFFFF * q;
    MultipleIsNoop(f + w, q);
  }

  /**
   * Replacing one word of a verifying buffer goes unnoticed exactly for 0 -> 0xFFFF, and for
   * 0xFFFF -> 0 when some other word is non-zero.
   */
  lemma SingleWordChange(d: seq<byte>, k: nat, w: u16)
    requires k % 2 == 0 && k + 2 <= |d| && InternetChecksum(d) == 0
    requires w != UnpackBE16(d, k)
    ensures InternetChecksum(Splice(d, k, PackBE16(w))) == 0 <==>
              || (UnpackBE16(d, k) == 0 && w == 0xFFFF)
              || (UnpackBE16(d, k) == 0xFFFF && w == 0 && SumBE(d) != 0xFFFF)
  {
    hide SumBE, InternetChecksum, Fold, Splice, PackBE16, Word;
    SumSplice(d, k, w);
    SumSplice(d, k, 0);
    VerifiesIff(d);
    VerifiesIff(Splice(d, k, PackBE16(w)));
    WordChange(SumBE(d), SumBE(Splice(d, k, PackBE16(0))), UnpackBE16(d, k), w);
  }

  /** A positive multiple of 65535 in which one word `a` of a sum, the rest being `rest`, becomes `w`. */
  lemma WordChange(s: nat, rest: nat, a: u16, w: u16)
    requires s > 0 && s % 0xFFFF == 0 && s == rest + a && a != w
    ensures rest + w > 0 && (rest + w) % 0xFFFF == 0 <==>
              || (a == 0 && w == 0xFFFF)
              || (a == 0xFFFF && w == 0 && s != 0xFFFF)
  {
    SameResidue(s, a, w);
    assert rest + w == s - a + w;
  }

  lemma SameResidue(s: nat, a: u16, b: u16)
    requires s % 0xFFFF == 0 && a != b
    ensures (s - a + b) % 0xFFFF == 0 <==> (a == 0 && b == 0xFFFF) || (a == 0xFFFF && b == 0)
  {
    assert s == 0xFFFF * (s / 0xFFFF);
    MultipleIsNoop(b - a, s / 0xFFFF);
  }

  // ----- Byte-order independence (section 2(B) of RFC 1071) ------------------

  /** Swapping the bytes of every word multiplies the sum by 256 mod 65535. */
  lemma {:induction false} SumsAreByteSwapped(d: seq<byte>)
    ensures SumLE(d) % 0xFFFF == (0x100 * SumBE(d)) % 0xFFFF
    ensures SumLE(d) == 0 <==> SumBE(d) == 0
  {
    if |d| == 1 {
      SwappedStep(0, 0, d[0], 0);
    } else if |d| >= 2 {
      SumsAreByteSwapped(d[2..]);
      SwappedStep(SumLE(d[2..]), SumBE(d[2..]), d[0], d[1]);
    }
  }

  lemma SwappedStep(le: nat, be: nat, hi: int, lo: int)
    requires le % 0xFFFF == (0x100 * be) % 0xFFFF
    ensures (Word(lo, hi) + le) % 0xFFFF == (0x100 * (Word(hi, lo) + be)) % 0xFFFF
  {
    var q := (0x100 * be) / 0xFFFF - le / 0xFFFF;
    assert 0x100 * be == le + 0xFFFF * q;
    assert 0x100 * (Word(hi, lo) + be) == Word(lo, hi) + le + 0xFFFF * (q + hi);
    MultipleIsNoop(Word(lo, hi) + le, q + hi);
  }

  function SwapBytes(w: int): int {
    Word(w % 0x100, w / 0x100)
  }

  /** Folding commutes with swapping bytes. */
  lemma FoldSwaps(le: nat, be: nat)
    requires le % 0xFFFF == (0x100 * be) % 0xFFFF
    requires le == 0 <==> be == 0
    ensures Fold(le) == SwapBytes(Fold(be)) && Fold(be) <= 0xFFFF
  {
    FoldResidue(le);
    FoldResidue(be);
    var y := Fold(be);
    if be > 0 {
      var q := be / 0xFFFF - y / 0xFFFF;
      assert be == y + 0xFFFF * q;
      assert 0x100 * be == SwapBytes(y) + 0xFFFF * (y / 0x100 + 0x100 * q);
      MultipleIsNoop(SwapBytes(y), y / 0x100 + 0x100 * q);
      ResidueIsUnique(Fold(le), SwapBytes(y));
    }
  }

  /** The complements of a word and of its byte swap are the same two wire bytes. */
  lemma SwappedWireBytes(y: u16)
    ensures 0 <= SwapBytes(y) <= 0xFFFF
    ensures PackLE16(0xFFFF - SwapBytes(y)) == PackBE16(0xFFFF - y)
  {
    var hi, lo := y / 0x100, y % 0x100;
    assert 0xFFFF - SwapBytes(y) == Word(0xFF - lo, 0xFF - hi);
    assert 0xFFFF - y == Word(0xFF - hi, 0xFF - lo);
  }

  /** The two checksums of one buffer are the same two wire bytes. */
  lemma ChecksumWireBytes(d: seq<byte>)
    ensures Fold(SumLE(d)) <= 0xFFFF
    ensures PackLE16(0xFFFF - Fold(SumLE(d))) == PackBE16(InternetChecksum(d))
  {
    assert Fold(SumLE(d)) == SwapBytes(Fold(SumBE(d))) && Fold(SumBE(d)) <= 0xFFFF by {
      SumsAreByteSwapped(d);
      FoldSwaps(SumLE(d), SumBE(d));
    }
    SwappedWireBytes(Fold(SumBE(d)));
  }

  // ----- The two TCP checksums ----------------------------------------------

  function PseudoHeader(src: seq<byte>, dst: seq<byte>, proto: byte, length: u16): seq<byte> {
    src + dst + [0, proto] + PackBE16(length)
  }

  /** tcp_checksum of the packet builders: big-endian over pseudo-header and segment. */
  function TcpChecksumBE(src: seq<byte>, dst: seq<byte>, segment: seq<byte>): u16
    requires |segment| <= 0xFFFF
  {
    InternetChecksum(PseudoHeader(src, dst, 6, |segment|) + segment)
  }

  /** What the oracle accumulates before the segment: the pseudo-header in native halfwords. */
  function PseudoSum(src: seq<byte>, dst: seq<byte>, tcpLen: nat): nat
    requires |src| == 4 && |dst| == 4
  {
    var tcpLenNbo := Word(tcpLen % 0x100, tcpLen / 0x100 % 0x100);
    UnpackLE16(src, 0) + UnpackLE16(src, 2) + UnpackLE16(dst, 0) + UnpackLE16(dst, 2)
    + 0x0600 + tcpLenNbo
  }

  /**
   * tcp_checksum_calc of the oracle: little-endian halfwords read from a whole frame. Stored
   * little-endian, it is byte for byte the builders' checksum stored big-endian.
   */
  method TcpChecksumCalc(frame: seq<byte>) returns (c: u16)
    requires |frame| >= ETH_HDR_LEN + IP_HDR_MIN
    ensures |frame| - 34 <= 0xFFFF ==>
              PackLE16(c) == PackBE16(TcpChecksumBE(frame[26..30], frame[30..34], frame[34..]))
  {
    var ipSrc := frame[ETH_HDR_LEN + 12..ETH_HDR_LEN + 16];
    var ipDst := frame[ETH_HDR_LEN + 16..ETH_HDR_LEN + 20];
    var tcpData := frame[ETH_HDR_LEN + IP_HDR_MIN..];
    var tcpLen := |tcpData|;
    var acc := PseudoSum(ipSrc, ipDst, tcpLen);
    var i := 0;
    while i + 1 < tcpLen
      invariant 0 <= i <= tcpLen && i % 2 == 0
      invariant acc + SumLE(tcpData[i..]) == PseudoSum(ipSrc, ipDst, tcpLen) + SumLE(tcpData)
    {
      assert tcpData[i..][2..] == tcpData[i + 2..];
      acc := acc + UnpackLE16(tcpData, i);
      i := i + 2;
    }
    if i < tcpLen {
      acc := acc + tcpData[i];
    }
    if tcpLen <= 0xFFFF {
      var whole := PseudoHeader(ipSrc, ipDst, 6, tcpLen) + tcpData;
      assert acc == SumLE(whole) by {
        PseudoSumLE(ipSrc, ipDst, tcpLen);
        SumConcat(PseudoHeader(ipSrc, ipDst, 6, tcpLen), tcpData);
      }
      ChecksumWireBytes(whole);
    }
    var folded := FoldCarries(acc);
    c := 0xFFFF - folded;
  }

  lemma PseudoSumLE(src: seq<byte>, dst: seq<byte>, length: u16)
    requires |src| == 4 && |dst| == 4
    ensures SumLE(PseudoHeader(src, dst, 6, length)) == PseudoSum(src, dst, length)
  {
    var tail := [0, 6] + PackBE16(length);
    assert tail == [0, 6, length / 0x100, length % 0x100];
    assert PseudoHeader(src, dst, 6, length) == src + (dst + tail);
    SumConcat(src, dst + tail);
    SumConcat(dst, tail);
    FourByteSum(src);
    FourByteSum(dst);
    FourByteSum(tail);
  }

  lemma FourByteSum(d: seq<byte>)
    requires |d| == 4
    ensures SumLE(d) == UnpackLE16(d, 0) + UnpackLE16(d, 2)
  {
    var t := d[2..];
    assert t[2..] == [];
    assert SumLE(t) == Word(t[1], t[0]) + SumLE(t[2..]);
  }

  /**
   * End to end: a segment of any length up to 65535 whose zeroed checksum field is filled the
   * oracle's way, little-endian sum stored little-endian, is accepted by the big-endian verifier.
   */
  lemma OracleSegmentVerifies(src: seq<byte>, dst: seq<byte>, segment: seq<byte>, c: u16)
    requires |src| == 4 && |dst| == 4
    requires 18 <= |segment| <= 0xFFFF && UnpackBE16(segment, 16) == 0
    requires PackLE16(c) == PackBE16(TcpChecksumBE(src, dst, segment))
    ensures TcpChecksumBE(src, dst, Splice(segment, 16, PackLE16(c))) == 0
  {
    var pseudo := PseudoHeader(src, dst, 6, |segment|);
    var w := TcpChecksumBE(src, dst, segment);
    InsertVerifies(pseudo + segment, 28, w);
    assert Splice(pseudo + segment, 28, PackBE16(w)) == pseudo + Splice(segment, 16, PackBE16(w));
  }
}
