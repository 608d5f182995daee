/**
 * IPv4 headers and fragments on the wire: the header builder and parser, the fragment splitter,
 * and the reference reassembler that sorts by offset and joins.
 */
module IpFrames {
  import opened Bytes
  import opened Checksum
  import Reasm
  import ReasmOrder

  const ETHERTYPE_IPV4: u16 := 0x0800
  const IP_VERSION_4 := 4
  const IP_FLAG_MF := 0x2000
  const IP_FRAG_OFFSET_MASK := 0x1FFF

  type Ipv4Addr = a: seq<byte> | |a| == 4 witness [0, 0, 0, 0]

  // ----- Header build and parse ----------------------------------------------

  datatype HeaderArgs = HeaderArgs(
    src: Ipv4Addr, dst: Ipv4Addr, protocol: int, payloadLen: int, ttl: int, ident: int,
    flags: int, fragOff: int, tos: int, version: int, ihl: int)

  datatype Header = Header(
    version: int, ihl: int, tos: int, totalLength: int, ident: int, flags: int, fragOff: int,
    ttl: int, protocol: int, checksum: int, src: Ipv4Addr, dst: Ipv4Addr)

  /** The header bytes with a given checksum field. */
  function PackHeader(a: HeaderArgs, checksum: u16): (h: seq<byte>)
    requires InRange(a)
    ensures |h| == 20
  {
    var total, fragWord := a.payloadLen + IP_HDR_MIN, a.flags + a.fragOff / 8;
    [a.version * 16 + a.ihl, a.tos, total / 0x100, total % 0x100,
     a.ident / 0x100, a.ident % 0x100, fragWord / 0x100, fragWord % 0x100,
     a.ttl, a.protocol, checksum / 0x100, checksum % 0x100] + a.src + a.dst
  }

  /** What the range checks and struct.pack let through. */
  predicate InRange(a: HeaderArgs) {
    && 0 <= a.version <= 0xF && 0 <= a.ihl <= 0xF && 0 <= a.tos <= 0xFF && 0 <= a.ttl <= 0xFF
    && 0 <= a.protocol <= 0xFF && 0 <= a.ident <= 0xFFFF
    && 0 <= a.payloadLen <= 0xFFFF - IP_HDR_MIN
    && 0 <= a.fragOff <= IP_FRAG_OFFSET_MASK * 8 && a.fragOff % 8 == 0
    && 0 <= a.flags <= 0xE000 && a.flags % 0x2000 == 0
  }

  /** build_ipv4_header, with the checksum computed (None) or forced. */
  function BuildHeader(a: HeaderArgs, forced: Option<int>): Result<seq<byte>> {
    if !(0 <= a.version <= 0xF) then Err("version out of range")
    else if !(0 <= a.ihl <= 0xF) then Err("ihl out of range")
    else if !(0 <= a.tos <= 0xFF) then Err("tos out of range")
    else if !(0 <= a.ttl <= 0xFF) then Err("ttl out of range")
    else if !(0 <= a.protocol <= 0xFF) then Err("protocol out of range")
    else if !(0 <= a.ident <= 0xFFFF) then Err("ident out of range")
    else if a.payloadLen < 0 || a.payloadLen > 0xFFFF - IP_HDR_MIN then Err("payload_len out of range")
    else if a.fragOff < 0 || a.fragOff > IP_FRAG_OFFSET_MASK * 8 then Err("frag_off out of range")
    else if a.fragOff % 8 != 0 then Err("frag_off must be multiple of 8")
    else if a.flags % 0x2000 != 0 then Err("flags must not overlap frag_off bits")
    else if !(0 <= a.flags <= 0xE000) then Err("struct.error: frag_word does not fit 16 bits")
    else
      var header := PackHeader(a, 0);
      match forced
      case None => Ok(header[..10] + PackBE16(InternetChecksum(header)) + header[12..])
      case Some(c) =>
        if 0 <= c <= 0xFFFF then Ok(header[..10] + PackBE16(c) + header[12..])
        else Err("checksum out of range")
  }

  /** parse_ipv4_header */
  function ParseHeader(data: seq<byte>): (r: Result<Header>)
    ensures r.Ok? <==> |data| >= 20
  {
    if |data| < IP_HDR_MIN then Err("too short for IPv4 header")
    else
      var fragWord := UnpackBE16(data, 6);
      Ok(Header(data[0] / 16, data[0] % 16, data[1], UnpackBE16(data, 2), UnpackBE16(data, 4),
                fragWord / 0x2000 * 0x2000, fragWord % 0x2000 * 8,
                data[8], data[9], UnpackBE16(data, 10), data[12..16], data[16..20]))
  }

  /** The packed header parses back field by field. */
  lemma ParsePacked(a: HeaderArgs, c: u16)
    requires InRange(a)
    ensures ParseHeader(PackHeader(a, c)) == Ok(Header(
              a.version, a.ihl, a.tos, a.payloadLen + 20, a.ident, a.flags, a.fragOff, a.ttl, a.protocol, c,
              a.src, a.dst))
  {
    PackedFields(a, c);
    FragWordFields(a.flags, a.fragOff);
  }

  lemma PackedFields(a: HeaderArgs, c: u16)
    requires InRange(a)
    ensures var h := PackHeader(a, c);
            && h[0] / 16 == a.version && h[0] % 16 == a.ihl
            && UnpackBE16(h, 2) == a.payloadLen + 20 && UnpackBE16(h, 4) == a.ident
            && UnpackBE16(h, 6) == a.flags + a.fragOff / 8 && UnpackBE16(h, 10) == c
            && h[12..16] == a.src && h[16..20] == a.dst
  {
    WordSplits(a.payloadLen + 20);
    WordSplits(a.ident);
    WordSplits(a.flags + a.fragOff / 8);
    WordSplits(c);
  }

  lemma WordSplits(w: u16)
    ensures Word(w / 0x100, w % 0x100) == w
  {
  }

  lemma FragWordFields(flags: int, fragOff: int)
    requires flags % 0x2000 == 0 && 0 <= fragOff <= IP_FRAG_OFFSET_MASK * 8 && fragOff % 8 == 0
    ensures (flags + fragOff / 8) / 0x2000 * 0x2000 == flags && (flags + fragOff / 8) % 0x2000 * 8 == fragOff
  {
  }

  /**
   * Building succeeds exactly for in-range fields; the header is 20 bytes, parses back to the
   * fields it was built from, and verifies when its checksum was computed.
   */
  lemma HeaderRoundTrip(a: HeaderArgs, forced: Option<int>)
    ensures BuildHeader(a, forced).Ok? <==> InRange(a) && (forced.Some? ==> 0 <= forced.value <= 0xFFFF)
    ensures BuildHeader(a, forced).Ok? ==>
              var h := BuildHeader(a, forced).value;
              && |h| == 20 && ParseHeader(h).Ok?
              && var p := ParseHeader(h).value;
              && p == Header(a.version, a.ihl, a.tos, a.payloadLen + 20, a.ident, a.flags, a.fragOff,
                             a.ttl, a.protocol, p.checksum, a.src, a.dst)
              && (forced.Some? ==> p.checksum == forced.value)
              && (forced.None? ==> InternetChecksum(h) == 0)
  {
    BuiltIsPacked(a, forced);
    if BuildHeader(a, forced).Ok? {
      ParsePacked(a, if forced.Some? then forced.value else InternetChecksum(PackHeader(a, 0)));
      PackedVerifies(a);
    }
  }

  lemma BuiltIsPacked(a: HeaderArgs, forced: Option<int>)
    ensures BuildHeader(a, forced).Ok? <==> InRange(a) && (forced.Some? ==> 0 <= forced.value <= 0xFFFF)
    ensures BuildHeader(a, forced).Ok? ==>
              BuildHeader(a, forced).value ==
              PackHeader(a, if forced.Some? then forced.value else InternetChecksum(PackHeader(a, 0)))
  {
    if BuildHeader(a, forced).Ok? {
      PackedSplice(a, if forced.Some? then forced.value else InternetChecksum(PackHeader(a, 0)));
    }
  }

  lemma PackedVerifies(a: HeaderArgs)
    requires InRange(a)
    ensures InternetChecksum(PackHeader(a, InternetChecksum(PackHeader(a, 0)))) == 0
  {
    var zero := PackHeader(a, 0);
    PackedSplice(a, InternetChecksum(zero));
    InsertVerifies(zero, 10, InternetChecksum(zero));
  }

  lemma PackedSplice(a: HeaderArgs, c: u16)
    requires InRange(a)
    ensures var zero := PackHeader(a, 0);
            zero[..10] + PackBE16(c) + zero[12..] == PackHeader(a, c) == Splice(zero, 10, PackBE16(c))
  {
  }

  // ----- UDP -------------------------------------------------------------------

  const IP_PROTO_UDP: byte := 17

  function UdpSegment(srcPort: u16, dstPort: u16, length: u16, checksum: u16, payload: seq<byte>): seq<byte> {
    [srcPort / 0x100, srcPort % 0x100, dstPort / 0x100, dstPort % 0x100,
     length / 0x100, length % 0x100, checksum / 0x100, checksum % 0x100] + payload
  }

  /** The computed UDP checksum: 0 is sent as 0xFFFF (RFC 768). */
  function UdpChecksum(pseudo: seq<byte>, zeroed: seq<byte>): (c: u16)
    ensures c != 0
  {
    var c := InternetChecksum(pseudo + zeroed);
    if c == 0 then 0xFFFF else c
  }

  /** build_udp_header: a forced checksum, one computed for the given addresses, or 0 for "not computed" */
  function BuildUdp(srcPort: int, dstPort: int, payload: seq<byte>, checksum: Option<int>,
                    addrs: Option<(Ipv4Addr, Ipv4Addr)>): Result<seq<byte>> {
    if !(0 <= srcPort <= 0xFFFF) then Err("src_port out of range")
    else if !(0 <= dstPort <= 0xFFFF) then Err("dst_port out of range")
    else if 8 + |payload| > 0xFFFF then Err("udp length out of range")
    else
      var length := 8 + |payload|;
      match (checksum, addrs)
      case (None, Some((src, dst))) =>
        var c := UdpChecksum(PseudoHeader(src, dst, IP_PROTO_UDP, length),
                             UdpSegment(srcPort, dstPort, length, 0, payload));
        Ok(UdpSegment(srcPort, dstPort, length, c, payload))
      case (None, None) => Ok(UdpSegment(srcPort, dstPort, length, 0, payload))
      case (Some(c), _) =>
        if 0 <= c <= 0xFFFF then Ok(UdpSegment(srcPort, dstPort, length, c, payload)) else Err("checksum out of range")
  }

  /**
   * Building succeeds exactly for fields in range. The datagram carries its ports, length and payload and the forced
   * checksum; one that is computed is never 0 on the wire and verifies under the pseudo-header; otherwise it is 0.
   */
  lemma UdpVerifies(srcPort: int, dstPort: int, payload: seq<byte>, checksum: Option<int>,
                    addrs: Option<(Ipv4Addr, Ipv4Addr)>)
    ensures BuildUdp(srcPort, dstPort, payload, checksum, addrs).Ok? <==>
            && 0 <= srcPort <= 0xFFFF && 0 <= dstPort <= 0xFFFF && 8 + |payload| <= 0xFFFF
            && (checksum.Some? ==> 0 <= checksum.value <= 0xFFFF)
    ensures BuildUdp(srcPort, dstPort, payload, checksum, addrs).Ok? ==>
              var seg := BuildUdp(srcPort, dstPort, payload, checksum, addrs).value;
              && |seg| == 8 + |payload| <= 0xFFFF && seg[8..] == payload
              && UnpackBE16(seg, 0) == srcPort && UnpackBE16(seg, 2) == dstPort && UnpackBE16(seg, 4) == |seg|
              && (checksum.Some? ==> UnpackBE16(seg, 6) == checksum.value)
              && (checksum.None? && addrs.None? ==> UnpackBE16(seg, 6) == 0)
              && (checksum.None? && addrs.Some? ==>
                    && UnpackBE16(seg, 6) != 0
                    && InternetChecksum(PseudoHeader(addrs.value.0, addrs.value.1, 17, |seg|) + seg) == 0)
  {
    hide InternetChecksum, UdpSegment;
    var r := BuildUdp(srcPort, dstPort, payload, checksum, addrs);
    if r.Ok? {
      var length := 8 + |payload|;
      match (checksum, addrs)
      case (None, Some((src, dst))) =>
        var pseudo := PseudoHeader(src, dst, IP_PROTO_UDP, length);
        var w := UdpChecksum(pseudo, UdpSegment(srcPort, dstPort, length, 0, payload));
        UdpFields(srcPort, dstPort, length, w, payload);
        UdpInsert(pseudo, srcPort, dstPort, length, w, payload);
      case (None, None) => UdpFields(srcPort, dstPort, length, 0, payload);
      case (Some(c), _) => UdpFields(srcPort, dstPort, length, c, payload);
    }
  }

  lemma UdpInsert(pseudo: seq<byte>, srcPort: u16, dstPort: u16, length: u16, w: u16, payload: seq<byte>)
    requires |pseudo| % 2 == 0
    requires var c := InternetChecksum(pseudo + UdpSegment(srcPort, dstPort, length, 0, payload));
             w == if c == 0 then 0xFFFF else c
    ensures InternetChecksum(pseudo + UdpSegment(srcPort, dstPort, length, w, payload)) == 0
  {
    hide InternetChecksum, UdpSegment, PackBE16, Word, Splice;
    var zero := UdpSegment(srcPort, dstPort, length, 0, payload);
    UdpFields(srcPort, dstPort, length, 0, payload);
    UdpSplice(srcPort, dstPort, length, w, payload);
    SpliceAfterPrefix(pseudo, zero, 6, PackBE16(w));
    assert (pseudo + zero)[|pseudo| + 6] == zero[6] && (pseudo + zero)[|pseudo| + 7] == zero[7];
    InsertVerifies(pseudo + zero, |pseudo| + 6, w);
  }

  lemma UdpSplice(srcPort: u16, dstPort: u16, length: u16, w: u16, payload: seq<byte>)
    ensures UdpSegment(srcPort, dstPort, length, w, payload)
         == Splice(UdpSegment(srcPort, dstPort, length, 0, payload), 6, PackBE16(w))
  {
  }

  lemma UdpFields(srcPort: u16, dstPort: u16, length: u16, w: u16, payload: seq<byte>)
    ensures var seg := UdpSegment(srcPort, dstPort, length, w, payload);
            && |seg| == 8 + |payload| && seg[8..] == payload
            && UnpackBE16(seg, 0) == srcPort && UnpackBE16(seg, 2) == dstPort
            && UnpackBE16(seg, 4) == length && UnpackBE16(seg, 6) == w
  {
  }

  // ----- Frames ----------------------------------------------------------------

  /** build_eth_header */
  function EthHeader(dst: seq<byte>, src: seq<byte>, etherType: u16): (r: Result<seq<byte>>)
    ensures r.Ok? ==> |r.value| == ETH_HDR_LEN
  {
    if |dst| != 6 || |src| != 6 then Err("dst and src MACs must be exactly 6 bytes")
    else Ok(dst + src + PackBE16(etherType))
  }

  /** Two bytes in network order. */
  function Two(hi: int, lo: int): int {
    256 * hi + lo
  }

  /** Python slicing f[lo:hi]: clamped to the buffer. */
  function PySlice(f: seq<byte>, lo: nat, hi: nat): seq<byte> {
    var h := Min(hi, |f|);
    if lo <= h then f[lo..h] else []
  }

  /** The fragment a frame carries, read off its IP header. */
  function ParseFrame(f: seq<byte>): Result<Reasm.Fragment> {
    match ParseHeader(PySlice(f, ETH_HDR_LEN, ETH_HDR_LEN + IP_HDR_MIN))
    case Err(e) => Err(e)
    case Ok(h) =>
      Ok(Reasm.Fragment(h.fragOff, PySlice(f, ETH_HDR_LEN + IP_HDR_MIN, ETH_HDR_LEN + h.totalLength),
                        h.flags / IP_FLAG_MF % 2 == 1))
  }

  /** Every header that is parsed, from its literal positions. */
  lemma ParsedFrom(d: seq<byte>)
    requires |d| >= 20
    ensures ParseHeader(d).Ok?
    ensures var h := ParseHeader(d).value;
            && 16 * h.version + h.ihl == d[0] && 0 <= h.ihl < 16 && h.tos == d[1]
            && h.totalLength == Two(d[2], d[3]) && h.ident == Two(d[4], d[5])
            && h.flags + h.fragOff / 8 == Two(d[6], d[7]) && h.flags == (d[6] / 0x20) as int * 0x2000
            && h.fragOff == 8 * Two(d[6] % 0x20, d[7])
            && h.ttl == d[8] && h.protocol == d[9] && h.checksum == Two(d[10], d[11])
            && h.src == d[12..16] && h.dst == d[16..20]
  {
    FlagWord(d[6], d[7]);
    WordParts(Two(d[6], d[7]));
    Nibbles(d[0]);
    UnpackIsTwo(d, 2);
    UnpackIsTwo(d, 4);
    UnpackIsTwo(d, 6);
    UnpackIsTwo(d, 10);
    hide UnpackBE16, Two;
  }

  lemma UnpackIsTwo(d: seq<byte>, i: nat)
    requires i + 2 <= |d|
    ensures UnpackBE16(d, i) == Two(d[i], d[i + 1])
  {
  }

  lemma Nibbles(b: byte)
    ensures 16 * (b / 16) as int + b % 16 == b && 0 <= b % 16 < 16
  {
  }

  lemma WordParts(w: int)
    ensures w / 0x2000 * 0x2000 + w % 0x2000 * 8 / 8 == w
  {
  }

  lemma FlagWord(hi: byte, lo: byte)
    ensures Two(hi, lo) / 0x2000 * 0x2000 == hi / 0x20 * 0x2000 && Two(hi, lo) % 0x2000 == Two(hi % 0x20, lo)
  {
    assert Two(hi, lo) == hi / 0x20 * 0x2000 + Two(hi % 0x20, lo);
  }

  /** Every frame that is parsed: its fragment's place, its More Fragments bit, and its data up to the total length. */
  lemma FragmentFrom(f: seq<byte>)
    ensures ParseFrame(f).Ok? <==> |f| >= 34
    ensures |f| >= 34 ==>
              var frag, end := ParseFrame(f).value, 14 + Two(f[16], f[17]);
              && frag.off == 8 * Two(f[20] % 0x20, f[21]) && (frag.mf <==> f[20] / 0x20 % 2 == 1)
              && frag.data == if end <= 34 then [] else if end <= |f| then f[34..end] else f[34..]
  {
    hide ParseHeader;
    var ip := PySlice(f, 14, 34);
    if |f| >= 34 {
      assert ip == f[14..34] && ip[2] == f[16] && ip[3] == f[17] && ip[6] == f[20] && ip[7] == f[21];
      ParsedFrom(ip);
      FlagBit(f[20] / 0x20);
      DataFrom(f, Two(f[16], f[17]));
    }
  }

  lemma FlagBit(k: int)
    ensures k * 0x2000 / 0x2000 == k
  {
  }

  lemma DataFrom(f: seq<byte>, total: nat)
    requires |f| >= 34
    ensures var end := 14 + total;
            PySlice(f, 34, end) == if end <= 34 then [] else if end <= |f| then f[34..end] else f[34..]
  {
  }

  datatype Envelope = Envelope(
    srcMac: seq<byte>, dstMac: seq<byte>, src: Ipv4Addr, dst: Ipv4Addr, protocol: int, ident: int, ttl: int)
  {
    predicate Valid() {
      && |srcMac| == 6 && |dstMac| == 6
      && 0 <= protocol <= 0xFF && 0 <= ident <= 0xFFFF && 0 <= ttl <= 0xFF
    }

    function Args(f: Reasm.Fragment): HeaderArgs {
      HeaderArgs(src, dst, protocol, |f.data|, ttl, ident, if f.mf then IP_FLAG_MF else 0, f.off, 0, IP_VERSION_4, 5)
    }
  }

  /** One iteration of the splitter: header, Ethernet header, chunk. */
  function FrameOf(env: Envelope, f: Reasm.Fragment): Result<seq<byte>> {
    match BuildHeader(env.Args(f), None)
    case Err(e) => Err(e)
    case Ok(ip) =>
      match EthHeader(env.dstMac, env.srcMac, ETHERTYPE_IPV4)
      case Err(e) => Err(e)
      case Ok(eth) => Ok(eth + ip + f.data)
  }

  /** A fragment survives the wire, and its header verifies. */
  lemma FrameRoundTrip(env: Envelope, f: Reasm.Fragment)
    ensures FrameOf(env, f).Ok? ==>
              && ParseFrame(FrameOf(env, f).value) == Ok(f)
              && GoodFrame(FrameOf(env, f).value) && env.Valid()
    ensures FrameOf(env, f).Ok? <==> env.Valid() && Carriable(f)
  {
    var a := env.Args(f);
    HeaderRoundTrip(a, None);
    var ip, eth := BuildHeader(a, None), EthHeader(env.dstMac, env.srcMac, ETHERTYPE_IPV4);
    if ip.Ok? && eth.Ok? {
      var frame := eth.value + ip.value + f.data;
      assert PySlice(frame, 14, 34) == frame[14..34] == ip.value;
      assert PySlice(frame, 34, 14 + 20 + |f.data|) == f.data;
    }
  }

  /** A fragment's frame, byte for byte: whom it goes to, what its IP header says, and the data. */
  predicate Layout(env: Envelope, f: Reasm.Fragment, frame: seq<byte>) {
    && |frame| == 34 + |f.data|
    && frame[..6] == env.dstMac && frame[6..12] == env.srcMac && frame[12..16] == [0x08, 0x00, 0x45, 0x00]
    && Two(frame[16], frame[17]) == 20 + |f.data| && Two(frame[18], frame[19]) == env.ident
    && Two(frame[20], frame[21]) == (if f.mf then 0x2000 else 0) + f.off / 8
    && frame[22] == env.ttl && frame[23] == env.protocol
    && InternetChecksum(frame[14..34]) == 0
    && frame[26..30] == env.src && frame[30..34] == env.dst && frame[34..] == f.data
  }

  lemma FrameLayout(env: Envelope, f: Reasm.Fragment)
    ensures FrameOf(env, f).Ok? ==> Layout(env, f, FrameOf(env, f).value)
  {
    if FrameOf(env, f).Ok? {
      FrameRoundTrip(env, f);
      var ip := BuildHeader(env.Args(f), None).value;
      HeaderLayout(env.Args(f), None);
      var frame := FrameOf(env, f).value;
      hide BuildHeader, InternetChecksum, ParseFrame;
      assert frame[14..34] == ip && frame[34..] == f.data;
      HeaderInFrame(frame, ip);
    }
  }

  lemma HeaderInFrame(frame: seq<byte>, ip: seq<byte>)
    requires |ip| == 20 && |frame| >= 34 && frame[14..34] == ip
    ensures frame[26..30] == ip[12..16] && frame[30..34] == ip[16..20]
    ensures forall i :: 0 <= i < 20 ==> frame[14 + i] == ip[i]
    ensures frame[14] == ip[0] && frame[15] == ip[1] && frame[16] == ip[2] && frame[17] == ip[3] && frame[18] == ip[4]
    ensures frame[19] == ip[5] && frame[20] == ip[6] && frame[21] == ip[7] && frame[22] == ip[8] && frame[23] == ip[9]
  {
    forall i | 0 <= i < 20 ensures frame[14 + i] == ip[i] {
      assert frame[14..34][i] == frame[14 + i];
    }
    assert frame[26..30] == frame[14..34][12..16] && frame[30..34] == frame[14..34][16..20];
  }

  /** Every header that is built, byte for byte. */
  lemma HeaderLayout(a: HeaderArgs, forced: Option<int>)
    ensures BuildHeader(a, forced).Ok? ==>
              var ip := BuildHeader(a, forced).value;
              && |ip| == 20 && ip[0] == 16 * a.version + a.ihl && ip[1] == a.tos
              && Two(ip[2], ip[3]) == 20 + a.payloadLen && Two(ip[4], ip[5]) == a.ident
              && Two(ip[6], ip[7]) == a.flags + a.fragOff / 8
              && ip[8] == a.ttl && ip[9] == a.protocol && (forced.Some? ==> Two(ip[10], ip[11]) == forced.value)
              && ip[12..16] == a.src && ip[16..20] == a.dst
  {
    BuiltIsPacked(a, forced);
    hide BuildHeader, InternetChecksum;
  }

  /** An offset that the 13-bit field can hold and a length that the total length can. */
  predicate Carriable(f: Reasm.Fragment) {
    f.off % 8 == 0 && f.off <= MAX_FRAG_OFFSET && |f.data| <= 0xFFFF - IP_HDR_MIN
  }

  const MAX_FRAG_OFFSET: nat := IP_FRAG_OFFSET_MASK * 8

  /** The payload lengths whose pieces all fit their frames: the first piece by length, the last by offset. */
  predicate Splittable(n: nat, fragSize: int)
    requires fragSize > 0
  {
    Min(fragSize, n) <= 0xFFFF - IP_HDR_MIN && n <= (MAX_FRAG_OFFSET / fragSize + 1) * fragSize
  }

  predicate Fragmentable(payload: seq<byte>, fragSize: int) {
    fragSize > 0 && fragSize % 8 == 0 && payload != []
  }

  function Parsed(frames: seq<seq<byte>>): seq<Result<Reasm.Fragment>> {
    seq(|frames|, i requires 0 <= i < |frames| => ParseFrame(frames[i]))
  }

  /** The frames parse to these fragments, one for one. */
  predicate Carry(frames: seq<seq<byte>>, frags: seq<Reasm.Fragment>) {
    && |frames| == |frags|
    && forall i :: 0 <= i < |frames| ==> ParseFrame(frames[i]) == Ok(frags[i])
  }

  /**
   * build_fragment_frames: the frames carry consecutive aligned pieces of the payload, all but the
   * last with MF set; every IP header verifies. It succeeds exactly for usable arguments and a payload
   * whose pieces fit.
   */
  method BuildFragmentFrames(env: Envelope, payload: seq<byte>, fragSize: int)
    returns (r: Result<seq<seq<byte>>>, ghost frags: seq<Reasm.Fragment>)
    ensures r.Ok? ==> Carry(r.value, frags) && ReasmOrder.Tiling(frags, payload)
    ensures r.Ok? ==> forall f :: f in r.value ==> GoodFrame(f)
    ensures r.Ok? ==> forall i :: 0 <= i < |frags| ==> Layout(env, frags[i], r.value[i])
    ensures r.Ok? ==> forall f :: f in frags ==> |f.data| <= fragSize
    ensures r.Ok? <==> Fragmentable(payload, fragSize) && env.Valid() && Splittable(|payload|, fragSize)
  {
    hide Splittable, Progress, FrameOf, GoodFrame, ParseFrame, Layout;
    frags := [];
    if fragSize <= 0 {
      return Err("frag_size must be > 0"), frags;
    }
    if fragSize % 8 != 0 {
      return Err("frag_size must be multiple of 8"), frags;
    }
    if |payload| == 0 {
      return Err("payload must be non-empty to fragment"), frags;
    }
    var frames: seq<seq<byte>> := [];
    var offset := 0;
    NoProgress(fragSize, |payload|);
    while offset < |payload|
      invariant Progress(|frames|, fragSize, |payload|, offset)
      invariant SplitSoFar(env, payload, fragSize, frames, frags, offset)
    {
      ProgressStands(|frames|, fragSize, |payload|, offset);
      var frag := PieceAt(payload, offset, fragSize);
      var frame := FrameOf(env, frag);
      FrameRoundTrip(env, frag);
      if frame.Err? {
        if env.Valid() {
          ProgressFails(|frames|, fragSize, |payload|, frag);
        }
        return Err(frame.error), frags;
      }
      ProgressNext(|frames|, fragSize, |payload|, frag);
      ExtendSplit(env, payload, fragSize, frames, frags, frag);
      frames := frames + [frame.value];
      frags := frags + [frag];
      offset := offset + |frag.data|;
    }
    ProgressStands(|frames|, fragSize, |payload|, offset);
    TilingDone(frags, payload);
    ProgressDone(|frames|, fragSize, |payload|);
    r := Ok(frames);
  }

  /** After k frames the splitter stands at k whole pieces, or at the end; all pieces before fitted. */
  predicate Progress(k: nat, size: int, n: nat, offset: nat) {
    && size > 0 && size % 8 == 0 && offset <= n && (offset < n ==> offset % 8 == 0 && offset == k * size)
    && (offset == n ==> 0 < k && n <= k * size)
    && (k > 0 ==> Min(size, n) <= 0xFFFF - IP_HDR_MIN && (k - 1) * size <= MAX_FRAG_OFFSET)
  }

  lemma ProgressStands(k: nat, size: int, n: nat, offset: nat)
    requires Progress(k, size, n, offset)
    ensures offset <= n && (offset < n ==> offset % 8 == 0)
  {
  }

  lemma NoProgress(size: int, n: nat)
    requires size > 0 && size % 8 == 0 && n > 0
    ensures Progress(0, size, n, 0)
  {
  }

  lemma ProgressNext(k: nat, size: int, n: nat, f: Reasm.Fragment)
    requires Progress(k, size, n, f.off) && f.off < n && |f.data| == Min(size, n - f.off) && Carriable(f)
    ensures Progress(k + 1, size, n, f.End())
  {
    FirstIsLongest(f.off, k, size);
    NextMultiple(k, size);
    if f.End() < n {
      EightfoldAdds(f.off, size);
    }
  }

  lemma EightfoldAdds(a: int, b: int)
    requires a % 8 == 0 && b % 8 == 0
    ensures (a + b) % 8 == 0
  {
  }

  lemma ProgressFails(k: nat, size: int, n: nat, f: Reasm.Fragment)
    requires Progress(k, size, n, f.off) && f.off < n && |f.data| == Min(size, n - f.off) && !Carriable(f)
    ensures !Splittable(n, size)
  {
    FirstIsLongest(f.off, k, size);
    NextMultiple(k, size);
    if k > 0 {
      OffsetFits(size, k - 1);
      OffsetFits(size, k);
      var q := MAX_FRAG_OFFSET / size;
      if k <= q {
        TimesMonotone(k, q, size);
        QuotientBounds(MAX_FRAG_OFFSET, size);
      } else {
        TimesMonotone(q + 1, k, size);
      }
    }
  }

  lemma ProgressDone(k: nat, size: int, n: nat)
    requires n > 0 && Progress(k, size, n, n)
    ensures Splittable(n, size)
  {
    OffsetFits(size, k - 1);
  }

  /** The chunk the splitter cuts at `offset`, with MF set unless it is the last. */
  function PieceAt(payload: seq<byte>, offset: nat, fragSize: int): (f: Reasm.Fragment)
    requires offset < |payload| && offset % 8 == 0 && fragSize > 0 && fragSize % 8 == 0
    ensures f.off == offset && ReasmOrder.Piece(f, payload) && |f.data| == Min(fragSize, |payload| - offset)
    ensures f.mf <==> f.End() < |payload|
    ensures f.End() < |payload| ==> f.End() % 8 == 0
  {
    var chunk := payload[offset..Min(offset + fragSize, |payload|)];
    var isLast := offset + |chunk| >= |payload|;
    Reasm.Fragment(offset, chunk, !isLast)
  }

  /** The pieces whose offsets fit are the first MAX_FRAG_OFFSET / size + 1 ones. */
  lemma OffsetFits(size: int, k: nat)
    requires size > 0
    ensures k * size <= MAX_FRAG_OFFSET <==> (k + 1) * size <= (MAX_FRAG_OFFSET / size + 1) * size
  {
    var q := MAX_FRAG_OFFSET / size;
    assert q * size <= MAX_FRAG_OFFSET < (q + 1) * size by {
      QuotientBounds(MAX_FRAG_OFFSET, size);
    }
    if k <= q {
      TimesMonotone(k, q, size);
      TimesMonotone(k + 1, q + 1, size);
    } else {
      TimesMonotone(q + 1, k, size);
      NextMultiple(k, size);
    }
  }

  lemma QuotientBounds(n: nat, d: int)
    requires d > 0
    ensures n / d * d <= n < (n / d + 1) * d
  {
  }

  lemma TimesMonotone(a: int, b: int, d: int)
    requires a <= b && d > 0
    ensures a * d <= b * d
  {
  }

  lemma NextMultiple(k: int, d: int)
    ensures (k + 1) * d == k * d + d
  {
  }

  lemma FirstIsLongest(offset: nat, k: nat, size: int)
    requires size > 0 && offset == k * size
    ensures k == 0 <==> offset == 0
    ensures k > 0 ==> offset >= size
  {
    if k > 0 {
      TimesMonotone(1, k, size);
    }
  }

  predicate GoodFrame(f: seq<byte>) {
    |f| >= 34 && InternetChecksum(f[14..34]) == 0
  }

  ghost predicate SplitSoFar(env: Envelope, payload: seq<byte>, fragSize: int,
                             frames: seq<seq<byte>>, frags: seq<Reasm.Fragment>, offset: nat) {
    && Carry(frames, frags) && TilingSoFar(frags, payload, offset)
    && (forall f :: f in frames ==> GoodFrame(f))
    && (forall i :: 0 <= i < |frags| ==> Layout(env, frags[i], frames[i]))
    && (forall f :: f in frags ==> |f.data| <= fragSize)
    && (frames != [] ==> env.Valid())
  }

  lemma ExtendSplit(env: Envelope, payload: seq<byte>, fragSize: int,
                    frames: seq<seq<byte>>, frags: seq<Reasm.Fragment>, f: Reasm.Fragment)
    requires SplitSoFar(env, payload, fragSize, frames, frags, f.off) && f.off < |payload|
    requires ReasmOrder.Piece(f, payload) && (f.mf <==> f.End() < |payload|) && |f.data| <= fragSize
    requires FrameOf(env, f).Ok?
    ensures SplitSoFar(env, payload, fragSize, frames + [FrameOf(env, f).value], frags + [f], f.End())
  {
    FrameRoundTrip(env, f);
    FrameLayout(env, f);
    hide FrameOf, ParseFrame, GoodFrame, Layout;
    ExtendTiling(frags, payload, f);
  }

  /** The pieces cut so far reach up to `offset`. */
  ghost predicate TilingSoFar(frags: seq<Reasm.Fragment>, payload: seq<byte>, offset: nat) {
    && (frags == [] <==> offset == 0)
    && (frags != [] ==> frags[0].off == 0 && frags[|frags| - 1].End() == offset)
    && (forall k :: 0 <= k < |frags| ==>
          ReasmOrder.Piece(frags[k], payload) && (frags[k].mf <==> frags[k].End() < |payload|))
    && (forall k {:trigger ReasmOrder.Follows(frags, k)} :: 0 <= k < |frags| - 1 ==>
          ReasmOrder.Follows(frags, k) && frags[k].End() < |payload|)
  }

  lemma ExtendTiling(frags: seq<Reasm.Fragment>, payload: seq<byte>, f: Reasm.Fragment)
    requires TilingSoFar(frags, payload, f.off) && f.off < |payload|
    requires ReasmOrder.Piece(f, payload) && (f.mf <==> f.End() < |payload|)
    ensures TilingSoFar(frags + [f], payload, f.End())
  {
    var ext := frags + [f];
    forall k {:trigger ReasmOrder.Follows(ext, k)} | 0 <= k < |ext| - 1
      ensures ReasmOrder.Follows(ext, k) && ext[k].End() < |payload|
    {
      if k < |frags| - 1 {
        assert ReasmOrder.Follows(frags, k);
      }
    }
  }

  lemma TilingDone(frags: seq<Reasm.Fragment>, payload: seq<byte>)
    requires payload != [] && TilingSoFar(frags, payload, |payload|)
    ensures ReasmOrder.Tiling(frags, payload)
  {
    forall k | 0 <= k < |frags| ensures frags[k].mf <==> k < |frags| - 1 {
      if k < |frags| - 1 {
        assert ReasmOrder.Follows(frags, k);
      }
    }
  }

  // ----- The reference reassembler: parse, sort by offset, join -----------------

  /** The stable sort of pieces by offset. */
  function Sorted(ps: seq<Reasm.Fragment>): seq<Reasm.Fragment> {
    if ps == [] then [] else Insert(Sorted(ps[..|ps| - 1]), ps[|ps| - 1])
  }

  function Insert(sorted: seq<Reasm.Fragment>, p: Reasm.Fragment): seq<Reasm.Fragment> {
    if sorted == [] || p.off < sorted[0].off then [p] + sorted
    else [sorted[0]] + Insert(sorted[1..], p)
  }

  function Joined(ps: seq<Reasm.Fragment>): seq<byte> {
    if ps == [] then [] else ps[0].data + Joined(ps[1..])
  }

  /** reassemble_fragments_python */
  method ReassembleFragments(frames: seq<seq<byte>>) returns (r: Result<seq<byte>>)
    ensures r.Ok? <==> forall f :: f in frames ==> ParseFrame(f).Ok?
    ensures forall frags :: Carry(frames, frags) ==> r == Ok(Joined(Sorted(frags)))
  {
    var pieces: seq<Reasm.Fragment> := [];
    for i := 0 to |frames|
      invariant Carry(frames[..i], pieces)
    {
      var p := ParseFrame(frames[i]);
      if p.Err? {
        assert frames[i] in frames;
        return Err(p.error);
      }
      pieces := pieces + [p.value];
    }
    assert frames[..|frames|] == frames;
    forall f | f in frames ensures ParseFrame(f).Ok? {
      var i :| 0 <= i < |frames| && frames[i] == f;
    }
    forall frags | Carry(frames, frags) ensures frags == pieces {
      CarryIsUnique(frames, frags, pieces);
    }
    r := Ok(Joined(Sorted(pieces)));
  }

  lemma CarryIsUnique(frames: seq<seq<byte>>, a: seq<Reasm.Fragment>, b: seq<Reasm.Fragment>)
    requires Carry(frames, a) && Carry(frames, b)
    ensures a == b
  {
    forall i | 0 <= i < |a| ensures a[i] == b[i] {
      assert ParseFrame(frames[i]) == Ok(a[i]) == Ok(b[i]);
    }
  }

  ghost predicate Ascending(ps: seq<Reasm.Fragment>) {
    forall i, j :: 0 <= i < j < |ps| ==> ps[i].off <= ps[j].off
  }

  ghost predicate StrictlyAscending(ps: seq<Reasm.Fragment>) {
    forall i, j :: 0 <= i < j < |ps| ==> ps[i].off < ps[j].off
  }

  lemma {:induction false} InsertKeepsElements(s: seq<Reasm.Fragment>, p: Reasm.Fragment)
    ensures multiset(Insert(s, p)) == multiset(s) + multiset{p}
  {
    if s != [] && p.off >= s[0].off {
      InsertKeepsElements(s[1..], p);
      assert s == [s[0]] + s[1..];
    }
  }

  lemma {:induction false} InsertedElements(s: seq<Reasm.Fragment>, p: Reasm.Fragment)
    ensures forall q :: q in Insert(s, p) ==> q == p || q in s
  {
    if s != [] && p.off >= s[0].off {
      InsertedElements(s[1..], p);
    }
  }

  lemma AscendingCons(head: Reasm.Fragment, rest: seq<Reasm.Fragment>)
    requires Ascending(rest) && forall q :: q in rest ==> head.off <= q.off
    ensures Ascending([head] + rest)
  {
    var s := [head] + rest;
    forall i, j | 0 <= i < j < |s| ensures s[i].off <= s[j].off {
      assert s[j] == rest[j - 1] && rest[j - 1] in rest;
      if i > 0 {
        assert s[i] == rest[i - 1];
      }
    }
  }

  lemma {:induction false} InsertSorts(s: seq<Reasm.Fragment>, p: Reasm.Fragment)
    requires Ascending(s)
    ensures Ascending(Insert(s, p))
  {
    if s != [] && p.off >= s[0].off {
      InsertSorts(s[1..], p);
      InsertedElements(s[1..], p);
      AscendingCons(s[0], Insert(s[1..], p));
    } else {
      AscendingCons(p, s);
    }
  }

  lemma {:induction false} SortSorts(ps: seq<Reasm.Fragment>)
    ensures Ascending(Sorted(ps))
    ensures multiset(Sorted(ps)) == multiset(ps)
  {
    if ps != [] {
      hide Ascending, Insert;
      var init, last := ps[..|ps| - 1], ps[|ps| - 1];
      SortSorts(init);
      InsertSorts(Sorted(init), last);
      InsertKeepsElements(Sorted(init), last);
      assert ps == init + [last];
      assert multiset(ps) == multiset(init) + multiset{last};
    }
  }

  lemma {:induction false} SortedIsUnique(a: seq<Reasm.Fragment>, b: seq<Reasm.Fragment>)
    requires StrictlyAscending(a) && Ascending(b) && multiset(a) == multiset(b)
    ensures a == b
  {
    assert |a| == |multiset(a)| == |multiset(b)| == |b|;
    if a != [] {
      SameHead(a, b);
      TailMultiset(a);
      TailMultiset(b);
      TailsAscend(a, b);
      hide Ascending, StrictlyAscending;
      SortedIsUnique(a[1..], b[1..]);
      assert a == [a[0]] + a[1..] && b == [b[0]] + b[1..];
    }
  }

  lemma TailMultiset<T>(s: seq<T>)
    requires s != []
    ensures multiset(s[1..]) == multiset(s) - multiset{s[0]}
  {
    assert s == [s[0]] + s[1..];
  }

  lemma TailsAscend(a: seq<Reasm.Fragment>, b: seq<Reasm.Fragment>)
    requires StrictlyAscending(a) && Ascending(b) && a != [] && b != []
    ensures StrictlyAscending(a[1..]) && Ascending(b[1..])
  {
  }

  lemma SameHead(a: seq<Reasm.Fragment>, b: seq<Reasm.Fragment>)
    requires StrictlyAscending(a) && Ascending(b) && multiset(a) == multiset(b) && a != [] && b != []
    ensures a[0] == b[0]
  {
    assert a[0] in multiset(b) && b[0] in multiset(a);
    var i :| 0 <= i < |b| && b[i] == a[0];
    var j :| 0 <= j < |a| && a[j] == b[0];
  }

  lemma {:induction false} TilingJoins(frags: seq<Reasm.Fragment>, payload: seq<byte>, k: nat)
    requires ReasmOrder.Tiling(frags, payload) && k < |frags|
    ensures Joined(frags[k..]) == payload[frags[k].off..]
    decreases |frags| - k
  {
    var f := frags[k];
    assert ReasmOrder.Piece(f, payload);
    assert frags[k..][1..] == frags[k + 1..];
    if k + 1 < |frags| {
      assert ReasmOrder.Follows(frags, k);
      TilingJoins(frags, payload, k + 1);
      assert payload[f.off..] == payload[f.off..f.End()] + payload[f.End()..];
    } else {
      assert payload[f.off..] == payload[f.off..f.End()];
    }
  }

  /** The reference reassembler undoes the splitter for every reordering of the frames. */
  lemma SortAndJoinUndoesSplit(frags: seq<Reasm.Fragment>, payload: seq<byte>, shuffled: seq<Reasm.Fragment>)
    requires ReasmOrder.Tiling(frags, payload) && multiset(shuffled) == multiset(frags)
    ensures Joined(Sorted(shuffled)) == payload
  {
    SortSorts(shuffled);
    forall i, j | 0 <= i < j < |frags| ensures frags[i].off < frags[j].off {
      ReasmOrder.TilingOrdered(frags, payload, i, j);
      assert ReasmOrder.Piece(frags[i], payload);
    }
    SortedIsUnique(frags, Sorted(shuffled));
    TilingJoins(frags, payload, 0);
    assert frags[0..] == frags;
  }

  /**
   * The engine refines sort-and-join: fed the fragments in any order with any duplicates, it hands
   * up exactly what the reference makes of any reordering of the distinct frames.
   */
  lemma EngineRefinesReference(buf: seq<byte>, frags: seq<Reasm.Fragment>, payload: seq<byte>,
                               arrivals: seq<Reasm.Fragment>, i: nat, shuffled: seq<Reasm.Fragment>)
    requires |buf| == Reasm.REASM_BUF_SIZE && ReasmOrder.Tiling(frags, payload)
    requires |payload| <= ReasmOrder.REASM_COMPLETE_LIMIT
    requires ReasmOrder.AllFrom(frags, arrivals) && i < |arrivals|
    requires !ReasmOrder.Arrived(frags, arrivals[..i]) && ReasmOrder.Arrived(frags, arrivals[..i + 1])
    requires multiset(shuffled) == multiset(frags)
    ensures var r := ReasmOrder.OutcomeAt(buf, arrivals, i);
            r.reason == Reasm.OkComplete && r.payload == Joined(Sorted(shuffled)) && !r.post.active
  {
    ReasmOrder.AnyOrderReassembles(buf, frags, payload, arrivals, i);
    SortAndJoinUndoesSplit(frags, payload, shuffled);
    assert arrivals[..i + 1] == arrivals[..i] + [arrivals[i]];
    LastMissingIsNew(frags, arrivals[..i], arrivals[i]);
  }

  lemma LastMissingIsNew(frags: seq<Reasm.Fragment>, before: seq<Reasm.Fragment>, f: Reasm.Fragment)
    requires !ReasmOrder.Arrived(frags, before) && ReasmOrder.Arrived(frags, before + [f])
    ensures f !in before
  {
    var g :| g in frags && g !in before;
    assert g in before + [f];
  }

  // ----- From wire to wire ----------------------------------------------------------------

  /** The packed-bitmap engine fed the frames of a run one by one, from a free slot: what it answers to the last. */
  method FeedFrames(arrivals: seq<seq<byte>>, buf: seq<byte>, ghost frags: seq<Reasm.Fragment>)
    returns (reason: Reasm.Reason, slot: Reasm.SlotImage, data: seq<byte>)
    requires |buf| == Reasm.REASM_BUF_SIZE && arrivals != [] && Carry(arrivals, frags)
    ensures Reasm.Outcome(reason, slot.Abs(), data) == ReasmOrder.OutcomeAt(buf, frags, |frags| - 1)
  {
    slot := Reasm.FreeImage(buf);
    reason, data := Reasm.OkIncomplete, [];
    for i := 0 to |arrivals|
      invariant slot.Abs() == Reasm.Run(buf, frags[..i]).slot
      invariant i > 0 ==> Reasm.Outcome(reason, slot.Abs(), data) == ReasmOrder.OutcomeAt(buf, frags, i - 1)
    {
      hide ParseFrame, Reasm.Step;
      var f := ParseFrame(arrivals[i]).value;
      reason, slot, data := Reasm.Oracle(slot, f, true);
      assert frags[..i + 1][..i] == frags[..i];
      RunNext(buf, frags[..i], f);
      assert frags[..i] + [f] == frags[..i + 1];
    }
  }

  lemma RunNext(buf: seq<byte>, before: seq<Reasm.Fragment>, f: Reasm.Fragment)
    requires |buf| == Reasm.REASM_BUF_SIZE
    ensures Reasm.Run(buf, before + [f]).slot == Reasm.Step(Reasm.Run(buf, before).slot, f, true).post
  {
    assert (before + [f])[..|before|] == before;
  }

  /** An order in which all n frames of a datagram arrive, with any repetitions, the last of them only at its end. */
  predicate JustComplete(order: seq<nat>, n: nat) {
    && order != []
    && (forall k :: 0 <= k < |order| ==> order[k] < n)
    && (forall i :: 0 <= i < n ==> i in order)
    && exists i :: 0 <= i < n && MissingUntilLast(order, i)
  }

  predicate MissingUntilLast(order: seq<nat>, i: nat) {
    order != [] && i !in order[..|order| - 1]
  }

  function Picked<T>(s: seq<T>, order: seq<nat>): (r: seq<T>)
    requires forall k :: 0 <= k < |order| ==> order[k] < |s|
    ensures |r| == |order| && forall k :: 0 <= k < |r| ==> r[k] == s[order[k]]
  {
    seq(|order|, k requires 0 <= k < |order| => s[order[k]])
  }

  /** Arriving in such an order, the fragments are complete with the last and not before. */
  lemma PickedComplete(frags: seq<Reasm.Fragment>, payload: seq<byte>, order: seq<nat>)
    requires ReasmOrder.Tiling(frags, payload) && JustComplete(order, |frags|)
    ensures var got := Picked(frags, order);
            && ReasmOrder.AllFrom(frags, got) && |got| > 0
            && !ReasmOrder.Arrived(frags, got[..|got| - 1]) && ReasmOrder.Arrived(frags, got)
  {
    var got, last := Picked(frags, order), |order| - 1;
    forall f | f in frags ensures f in got {
      var i :| 0 <= i < |frags| && frags[i] == f;
      assert i in order;
      var k :| 0 <= k < |order| && order[k] == i;
      assert got[k] == f;
    }
    var m :| 0 <= m < |frags| && MissingUntilLast(order, m);
    forall k | 0 <= k < last ensures got[k] != frags[m] {
      assert order[k] in order[..last];
      var lo, hi := if order[k] < m then order[k] else m, if order[k] < m then m else order[k];
      ReasmOrder.TilingOrdered(frags, payload, lo, hi);
    }
    assert frags[m] in frags && frags[m] !in got[..last];
  }

  /**
   * End to end over wire frames: a payload is split, and its frames are fed to the packed-bitmap engine in any order
   * with any repetitions until the last missing one. The engine then hands up exactly what the reference makes of the
   * frames: the payload.
   */
  method EngineAgreesWithReference(env: Envelope, payload: seq<byte>, fragSize: int, order: seq<nat>, buf: seq<byte>)
    returns (frames: Result<seq<seq<byte>>>, reason: Reasm.Reason, data: seq<byte>, reference: Result<seq<byte>>)
    requires |buf| == Reasm.REASM_BUF_SIZE && |payload| <= ReasmOrder.REASM_COMPLETE_LIMIT
    ensures frames.Ok? <==> Fragmentable(payload, fragSize) && env.Valid() && Splittable(|payload|, fragSize)
    ensures frames.Ok? && JustComplete(order, |frames.value|) ==>
            reason == Reasm.OkComplete && Ok(data) == reference == Ok(payload)
  {
    reason, data, reference := Reasm.OkIncomplete, [], Err("not reassembled");
    ghost var frags;
    frames, frags := BuildFragmentFrames(env, payload, fragSize);
    if frames.Ok? && JustComplete(order, |frames.value|) {
      PickedComplete(frags, payload, order);
      ghost var got := Picked(frags, order);
      hide ParseFrame, ReasmOrder.Tiling, Splittable, GoodFrame;
      reference := ReassembleFragments(frames.value);
      SortAndJoinUndoesSplit(frags, payload, frags);
      var slot;
      reason, slot, data := FeedFrames(Picked(frames.value, order), buf, got);
      assert got[..|got|] == got;
      EngineRefinesReference(buf, frags, payload, got, |got| - 1, frags);
    }
  }
}
