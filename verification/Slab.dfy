/**
 * The appliance packer: routes and their content written in place into a fixed-size slab, the
 * loader's view of that slab, and patching it into a kernel image that is then truncated.
 */
module Slab {
  import opened Bytes
  import opened Decimal
  import opened Text

  const HDR_SIZE := 24
  const ROUTES_OFF := 24
  const ROUTE_SIZE := 48
  const MAX_PATH_BYTES := 1024

  const HDR_VERSION := 8
  const HDR_RCOUNT := 12
  const HDR_CLEN := 16
  const HDR_KSIZE := 20

  const VERSION_V1 := 1
  const HM_GET_HEAD := 3

  /** b"WSPINONE" */
  const MAGIC_NONE: seq<byte> := [87, 83, 80, 73, 78, 79, 78, 69]

  /** b"WSPIAPLI" */
  const MAGIC_V1: seq<byte> := [87, 83, 80, 73, 65, 80, 76, 73]

  const U32: nat := 0x1_0000_0000
  const U64: nat := 0x1_0000_0000_0000_0000

  /** The two sizes that a build may override; the rest of the layout follows. */
  datatype Layout = Layout(maxRoutes: nat, contentMax: nat) {
    function ContentOff(): nat {
      ROUTES_OFF + maxRoutes * ROUTE_SIZE
    }

    function SlabSize(): nat {
      ContentOff() + contentMax
    }
  }

  datatype Route = Route(path: string, body: seq<byte>, mime: string)

  // ----- Text as bytes --------------------------------------------------------------

  /** s.encode("ascii") */
  function Encode(s: string): (b: seq<byte>)
    requires IsAscii(s)
    ensures |b| == |s|
  {
    seq(|s|, i requires 0 <= i < |s| => s[i] as int)
  }

  function Decode(b: seq<byte>): (s: string)
    ensures |s| == |b|
  {
    seq(|b|, i requires 0 <= i < |b| => b[i] as char)
  }

  lemma DecodeEncode(s: string)
    requires IsAscii(s)
    ensures Decode(Encode(s)) == s
  {
  }

  // ----- The response header --------------------------------------------------------

  function Line(s: string): string {
    s + "\r\n"
  }

  /** build_header, before it is encoded */
  function Header(bodyLen: nat, mime: string): string {
    Line("HTTP/1.1 200 OK") + Line("Server: ws_pi5") + Line("Content-Type: " + mime)
    + Line("Content-Length: " + Dec(bodyLen)) + Line("")
  }

  const MIME_TYPES: seq<(string, string)> :=
    [ (".html", "text/html; charset=utf-8"), (".htm", "text/html; charset=utf-8"), (".css", "text/css"),
      (".js", "application/javascript"), (".json", "application/json"), (".txt", "text/plain; charset=utf-8"),
      (".png", "image/png"), (".jpg", "image/jpeg"), (".jpeg", "image/jpeg"), (".gif", "image/gif"),
      (".svg", "image/svg+xml"), (".ico", "image/x-icon"), (".webp", "image/webp") ]

  /** MIME_TYPES.get(suffix, default) */
  function LookUp(table: seq<(string, string)>, suffix: string, default_: string): (mime: string)
    ensures mime == default_ || (suffix, mime) in table
    ensures forall i :: 0 <= i < |table| && FirstFor(table, suffix, i) ==> mime == table[i].1
    ensures (forall i :: 0 <= i < |table| ==> table[i].0 != suffix) ==> mime == default_
  {
    if table == [] then default_ else if table[0].0 == suffix then table[0].1 else LookUp(table[1..], suffix, default_)
  }

  /** The i-th entry is the first for the suffix. */
  predicate FirstFor(table: seq<(string, string)>, suffix: string, i: nat)
    requires i < |table|
  {
    table[i].0 == suffix && forall j :: 0 <= j < i ==> table[j].0 != suffix
  }

  /** content_type_for, given the lower-cased suffix */
  function ContentTypeFor(suffix: string): string {
    LookUp(MIME_TYPES, suffix, "application/octet-stream")
  }

  /** Every listed suffix has its own type. */
  lemma TypesBySuffix()
    ensures ContentTypeFor(".html") == ContentTypeFor(".htm") == "text/html; charset=utf-8"
    ensures ContentTypeFor(".css") == "text/css" && ContentTypeFor(".js") == "application/javascript"
    ensures ContentTypeFor(".json") == "application/json" && ContentTypeFor(".txt") == "text/plain; charset=utf-8"
    ensures ContentTypeFor(".png") == "image/png" && ContentTypeFor(".jpg") == ContentTypeFor(".jpeg") == "image/jpeg"
    ensures ContentTypeFor(".gif") == "image/gif" && ContentTypeFor(".svg") == "image/svg+xml"
    ensures ContentTypeFor(".ico") == "image/x-icon" && ContentTypeFor(".webp") == "image/webp"
  {
    TypesAreListed();
    hide ContentTypeFor;
    var t := MIME_TYPES;
    assert t[0].0 == ".html" && t[1].0 == ".htm" && t[2].0 == ".css" && t[3].0 == ".js" && t[4].0 == ".json";
    assert t[5].0 == ".txt" && t[6].0 == ".png" && t[7].0 == ".jpg" && t[8].0 == ".jpeg" && t[9].0 == ".gif";
    assert t[10].0 == ".svg" && t[11].0 == ".ico" && t[12].0 == ".webp";
  }

  lemma TypesAreListed()
    ensures |MIME_TYPES| == 13 && forall i :: 0 <= i < 13 ==> ContentTypeFor(MIME_TYPES[i].0) == MIME_TYPES[i].1
  {
    SuffixesDiffer();
    hide LookUp, MIME_TYPES;
    forall i | 0 <= i < 13 ensures ContentTypeFor(MIME_TYPES[i].0) == MIME_TYPES[i].1 {
      assert FirstFor(MIME_TYPES, MIME_TYPES[i].0, i);
    }
  }

  lemma SuffixesDiffer()
    ensures |MIME_TYPES| == 13 && forall i, j :: 0 <= i < j < 13 ==> MIME_TYPES[i].0 != MIME_TYPES[j].0
  {
  }

  /** The number a header line declares, when it is a Content-Length line. */
  function DeclaredLength(line: string): Option<nat> {
    var name := "Content-Length: ";
    if |name| < |line| && line[..|name|] == name && line[|line| - 1] == '\r' then
      var digits := line[|name|..|line| - 1];
      if digits != "" && AllDigits(digits) then Some(IntOf(digits)) else None
    else None
  }

  /** Every length declared by the header, in order. */
  function DeclaredLengths(lines: seq<string>): seq<nat> {
    if lines == [] then []
    else
      var rest := DeclaredLengths(lines[1..]);
      if DeclaredLength(lines[0]).Some? then [DeclaredLength(lines[0]).value] + rest else rest
  }

  /** The header cut at its line feeds. */
  function HeaderLines(bodyLen: nat, mime: string): seq<string> {
    ["HTTP/1.1 200 OK" + "\r", "Server: ws_pi5" + "\r", "Content-Type: " + mime + "\r",
     "Content-Length: " + Dec(bodyLen) + "\r", "" + "\r", ""]
  }

  lemma JoinCons(a: string, rest: seq<string>)
    requires rest != []
    ensures Join([""], '\n') == "" && Join([a + "\r"] + rest, '\n') == Line(a) + Join(rest, '\n')
  {
    assert ([a + "\r"] + rest)[1..] == rest;
  }

  lemma JoinFive(a: string, b: string, c: string, d: string, e: string)
    ensures Join([a + "\r", b + "\r", c + "\r", d + "\r", e + "\r", ""], '\n') ==
            Line(a) + Line(b) + Line(c) + Line(d) + Line(e)
  {
    hide Join, Line;
    var l5 := [""];
    var l4 := [e + "\r"] + l5;
    var l3 := [d + "\r"] + l4;
    var l2 := [c + "\r"] + l3;
    var l1 := [b + "\r"] + l2;
    JoinCons(e, l5);
    JoinCons(d, l4);
    JoinCons(c, l3);
    JoinCons(b, l2);
    JoinCons(a, l1);
    assert [a + "\r", b + "\r", c + "\r", d + "\r", e + "\r", ""] == [a + "\r"] + l1;
    ConcatAssoc(Line(a), Line(b), Line(c));
  }

  /** Cut at its line feeds, the header is the intended lines and exactly one of them declares a length: the body's. */
  lemma ContentLengthIsBodyLength(n: nat, mime: string)
    requires '\n' !in mime
    ensures Split(Header(n, mime), '\n') == HeaderLines(n, mime)
    ensures DeclaredLengths(Split(Header(n, mime), '\n')) == [n]
  {
    hide Split, Join, Line, DeclaredLength, DeclaredLengths;
    JoinFive("HTTP/1.1 200 OK", "Server: ws_pi5", "Content-Type: " + mime, "Content-Length: " + Dec(n), "");
    SplitJoin(HeaderLines(n, mime), '\n');
    LinesDeclare(n, mime);
  }

  lemma LinesDeclare(n: nat, mime: string)
    ensures DeclaredLengths(HeaderLines(n, mime)) == [n]
  {
    hide DeclaredLength;
    var l := HeaderLines(n, mime);
    assert l[1..][1..] == l[2..] && l[2..][1..] == l[3..] && l[3..][1..] == l[4..] && l[4..][1..] == l[5..]
           && l[5..][1..] == [];
    OthersDeclareNothing(mime);
    DeclaresItsNumber(n);
    assert DeclaredLengths(l[5..]) == [];
    assert DeclaredLengths(l[4..]) == [];
    assert DeclaredLengths(l[3..]) == [n];
    assert DeclaredLengths(l[2..]) == [n];
    assert DeclaredLengths(l[1..]) == [n];
  }

  lemma OthersDeclareNothing(mime: string)
    ensures DeclaredLength("HTTP/1.1 200 OK" + "\r").None? && DeclaredLength("Server: ws_pi5" + "\r").None?
    ensures DeclaredLength("Content-Type: " + mime + "\r").None?
    ensures DeclaredLength("" + "\r").None? && DeclaredLength("").None?
  {
    assert ("Content-Type: " + mime + "\r")[8] == 'T' && "Content-Length: "[8] == 'L';
  }

  lemma DeclaresItsNumber(n: nat)
    ensures DeclaredLength("Content-Length: " + Dec(n) + "\r") == Some(n)
  {
    var name := "Content-Length: ";
    var line := name + Dec(n) + "\r";
    assert line[..|name|] == name;
    assert line[|name|..|line| - 1] == Dec(n);
    PrintThenRead(n);
  }

  // ----- Fields ---------------------------------------------------------------------

  /** Outside [lo, hi) nothing differs. */
  ghost predicate SameOutside(s: seq<byte>, t: seq<byte>, lo: nat, hi: nat) {
    |s| == |t| && forall i :: 0 <= i < |s| && !(lo <= i < hi) ==> t[i] == s[i]
  }

  /** struct.pack_into("<I", slab, at, v): refused when the value does not fit the field */
  method PackU32(slab: array<byte>, at: nat, v: nat) returns (ok: bool)
    requires at + 4 <= slab.Length
    modifies slab
    ensures ok == (v < U32)
    ensures ok ==> UnpackLE32(slab[..], at) == v
    ensures SameOutside(old(slab[..]), slab[..], at, at + 4)
  {
    ok := v < U32;
    if ok {
      var v1 := v / 0x100;
      var v2 := v1 / 0x100;
      var v3 := v2 / 0x100;
      slab[at], slab[at + 1], slab[at + 2], slab[at + 3] := v % 0x100, v1 % 0x100, v2 % 0x100, v3;
      LittleEndian4(slab[..][at..at + 4]);
    }
  }

  /** struct.pack_into("<Q", slab, at, v) */
  method PackU64(slab: array<byte>, at: nat, v: nat) returns (ok: bool)
    requires at + 8 <= slab.Length
    modifies slab
    ensures ok == (v < U64)
    ensures ok ==> UnpackLE64(slab[..], at) == v
    ensures SameOutside(old(slab[..]), slab[..], at, at + 8)
  {
    ok := v < U64;
    if ok {
      var low := PackU32(slab, at, v % U32);
      ghost var half := slab[..];
      var high := PackU32(slab, at + 4, v / U32);
      SameU32(half, slab[..], at, at + 4, at + 8);
      ghost var field := slab[..][at..at + 8];
      LittleEndian8(field);
      assert field[..4] == slab[..][at..at + 4] && field[4..] == slab[..][at + 4..at + 8];
    }
  }

  // ----- Route entries --------------------------------------------------------------

  datatype Entry = Entry(
    pathLen: nat, bodyLen: nat, pathOff: nat, bodyOff: nat, hdrOff: nat, hdrLen: nat,
    flags: byte, methods: byte, handler: nat)

  function EntryOff(i: nat): nat {
    ROUTES_OFF + i * ROUTE_SIZE
  }

  function EntryAt(s: seq<byte>, i: nat): Entry
    requires EntryOff(i) + ROUTE_SIZE <= |s|
  {
    var e := EntryOff(i);
    Entry(UnpackLE32(s, e), UnpackLE32(s, e + 4), UnpackLE64(s, e + 8), UnpackLE64(s, e + 16), UnpackLE64(s, e + 24),
          UnpackLE32(s, e + 32), s[e + 36], s[e + 37], UnpackLE64(s, e + 40))
  }

  lemma SameEntry(s: seq<byte>, t: seq<byte>, i: nat)
    requires EntryOff(i) + ROUTE_SIZE <= |s| && EntryOff(i) + ROUTE_SIZE <= |t|
    requires forall k :: EntryOff(i) <= k < EntryOff(i) + ROUTE_SIZE ==> t[k] == s[k]
    ensures EntryAt(t, i) == EntryAt(s, i)
  {
    hide LittleEndian;
    var e := EntryOff(i);
    assert t[e..e + 4] == s[e..e + 4] && t[e + 4..e + 8] == s[e + 4..e + 8] && t[e + 8..e + 16] == s[e + 8..e + 16];
    assert t[e + 16..e + 24] == s[e + 16..e + 24] && t[e + 24..e + 32] == s[e + 24..e + 32];
    assert t[e + 32..e + 36] == s[e + 32..e + 36] && t[e + 40..e + 48] == s[e + 40..e + 48];
  }

  predicate EntryPacks(e: Entry) {
    e.pathLen < U32 && e.bodyLen < U32 && e.pathOff < U64 && e.bodyOff < U64 && e.hdrOff < U64 && e.hdrLen < U32
  }

  lemma SameU32(s: seq<byte>, t: seq<byte>, i: nat, lo: nat, hi: nat)
    requires i + 4 <= |s| && SameOutside(s, t, lo, hi) && (i + 4 <= lo || hi <= i)
    ensures UnpackLE32(t, i) == UnpackLE32(s, i)
  {
    assert t[i..i + 4] == s[i..i + 4];
  }

  lemma SameU64(s: seq<byte>, t: seq<byte>, i: nat, lo: nat, hi: nat)
    requires i + 8 <= |s| && SameOutside(s, t, lo, hi) && (i + 8 <= lo || hi <= i)
    ensures UnpackLE64(t, i) == UnpackLE64(s, i)
  {
    assert t[i..i + 8] == s[i..i + 8];
  }

  /** The three offset fields and the header length; everything before them and after them stays. */
  method EmitOffsets(slab: array<byte>, entry: nat, pathOff: nat, bodyOff: nat, hdrOff: nat, hdrLen: nat)
    returns (ok: bool)
    requires entry + ROUTE_SIZE <= slab.Length
    modifies slab
    ensures SameOutside(old(slab[..]), slab[..], entry + 8, entry + 36)
    ensures ok == (pathOff < U64 && bodyOff < U64 && hdrOff < U64 && hdrLen < U32)
    ensures ok ==>
      && UnpackLE64(slab[..], entry + 8) == pathOff && UnpackLE64(slab[..], entry + 16) == bodyOff
      && UnpackLE64(slab[..], entry + 24) == hdrOff && UnpackLE32(slab[..], entry + 32) == hdrLen
  {
    hide UnpackLE32, UnpackLE64;
    ok := PackU64(slab, entry + 8, pathOff);
    if !ok { return; }
    ghost var s1 := slab[..];
    ok := PackU64(slab, entry + 16, bodyOff);
    if !ok { return; }
    ghost var s2 := slab[..];
    ok := PackU64(slab, entry + 24, hdrOff);
    if !ok { return; }
    ghost var s3 := slab[..];
    ok := PackU32(slab, entry + 32, hdrLen);
    SameU64(s1, s2, entry + 8, entry + 16, entry + 24);
    SameU64(s2, s3, entry + 8, entry + 24, entry + 32);
    SameU64(s2, s3, entry + 16, entry + 24, entry + 32);
    SameU64(s3, slab[..], entry + 8, entry + 32, entry + 36);
    SameU64(s3, slab[..], entry + 16, entry + 32, entry + 36);
    SameU64(s3, slab[..], entry + 24, entry + 32, entry + 36);
  }

  /** _emit_route_entry: the handler field is left as it was */
  method EmitRouteEntry(slab: array<byte>, idx: nat, pathOff: nat, pathLen: nat, bodyOff: nat, bodyLen: nat,
                        hdrOff: nat, hdrLen: nat)
    returns (ok: bool)
    requires EntryOff(idx) + ROUTE_SIZE <= slab.Length
    modifies slab
    ensures SameOutside(old(slab[..]), slab[..], EntryOff(idx), EntryOff(idx) + ROUTE_SIZE)
    ensures ok == EntryPacks(Entry(pathLen, bodyLen, pathOff, bodyOff, hdrOff, hdrLen, 0, HM_GET_HEAD, 0))
    ensures ok ==>
      EntryAt(slab[..], idx) ==
      Entry(pathLen, bodyLen, pathOff, bodyOff, hdrOff, hdrLen, 0, HM_GET_HEAD, EntryAt(old(slab[..]), idx).handler)
  {
    hide UnpackLE32, UnpackLE64;
    var entry := EntryOff(idx);
    ghost var s0 := slab[..];
    ok := PackU32(slab, entry, pathLen);
    if !ok { return; }
    ghost var s1 := slab[..];
    ok := PackU32(slab, entry + 4, bodyLen);
    if !ok { return; }
    ghost var s2 := slab[..];
    SameU32(s1, s2, entry, entry + 4, entry + 8);
    ok := EmitOffsets(slab, entry, pathOff, bodyOff, hdrOff, hdrLen);
    if !ok { return; }
    ghost var s3 := slab[..];
    SameU32(s2, s3, entry, entry + 8, entry + 36);
    SameU32(s2, s3, entry + 4, entry + 8, entry + 36);
    slab[entry + 36] := 0;
    slab[entry + 37] := HM_GET_HEAD;
    SameLengths(s3, slab[..], entry);
    SameOffsets(s3, slab[..], entry);
    assert SameOutside(s0, slab[..], entry, entry + 38);
    SameU64(s0, slab[..], entry + 40, entry, entry + 38);
  }

  lemma SameLengths(s: seq<byte>, t: seq<byte>, e: nat)
    requires e + ROUTE_SIZE <= |s| && SameOutside(s, t, e + 36, e + 38)
    ensures UnpackLE32(t, e) == UnpackLE32(s, e) && UnpackLE32(t, e + 4) == UnpackLE32(s, e + 4)
            && UnpackLE32(t, e + 32) == UnpackLE32(s, e + 32)
  {
    hide UnpackLE32;
    SameU32(s, t, e, e + 36, e + 38);
    SameU32(s, t, e + 4, e + 36, e + 38);
    SameU32(s, t, e + 32, e + 36, e + 38);
  }

  lemma SameOffsets(s: seq<byte>, t: seq<byte>, e: nat)
    requires e + ROUTE_SIZE <= |s| && SameOutside(s, t, e + 36, e + 38)
    ensures UnpackLE64(t, e + 8) == UnpackLE64(s, e + 8) && UnpackLE64(t, e + 16) == UnpackLE64(s, e + 16)
            && UnpackLE64(t, e + 24) == UnpackLE64(s, e + 24)
  {
    hide UnpackLE64;
    SameU64(s, t, e + 8, e + 36, e + 38);
    SameU64(s, t, e + 16, e + 36, e + 38);
    SameU64(s, t, e + 24, e + 36, e + 38);
  }

  // ----- Content --------------------------------------------------------------------

  /** What one route must satisfy to be packed: encodable text and a bounded path. */
  predicate RouteOk(r: Route) {
    IsAscii(r.path) && |r.path| <= MAX_PATH_BYTES && IsAscii(r.mime)
  }

  predicate RoutesOk(routes: seq<Route>) {
    forall i :: 0 <= i < |routes| ==> RouteOk(routes[i])
  }

  lemma AsciiConcat(a: string, b: string)
    ensures IsAscii(a + b) <==> IsAscii(a) && IsAscii(b)
  {
    assert forall i :: 0 <= i < |a| ==> a[i] == (a + b)[i];
    assert forall i :: 0 <= i < |b| ==> b[i] == (a + b)[|a| + i];
  }

  lemma LineIsAscii(s: string)
    ensures IsAscii(Line(s)) <==> IsAscii(s)
  {
    AsciiConcat(s, "\r\n");
  }

  lemma ConstantsAreAscii(n: nat)
    ensures IsAscii("HTTP/1.1 200 OK") && IsAscii("Server: ws_pi5") && IsAscii("")
    ensures IsAscii("Content-Type: ") && IsAscii("Content-Length: ") && IsAscii(Dec(n))
  {
    hide Dec;
  }

  lemma HeaderIsAscii(n: nat, mime: string)
    ensures IsAscii(Header(n, mime)) <==> IsAscii(mime)
  {
    hide IsAscii, Line, Dec;
    var status, server := Line("HTTP/1.1 200 OK"), Line("Server: ws_pi5");
    var contentType, length := "Content-Type: " + mime, "Content-Length: " + Dec(n);
    ConstantsAreAscii(n);
    LineIsAscii("HTTP/1.1 200 OK");
    LineIsAscii("Server: ws_pi5");
    AsciiConcat(status, server);
    AsciiConcat("Content-Type: ", mime);
    AsciiConcat("Content-Length: ", Dec(n));
    LineIsAscii(contentType);
    LineIsAscii(length);
    LineIsAscii("");
    AsciiConcat(status + server, Line(contentType));
    AsciiConcat(status + server + Line(contentType), Line(length));
    AsciiConcat(status + server + Line(contentType) + Line(length), Line(""));
  }

  function HeaderBytes(r: Route): seq<byte>
    requires RouteOk(r)
  {
    HeaderIsAscii(|r.body|, r.mime);
    Encode(Header(|r.body|, r.mime))
  }

  function Content(routes: seq<Route>): seq<byte>
    requires RoutesOk(routes)
  {
    if routes == [] then []
    else
      var r := routes[|routes| - 1];
      Content(routes[..|routes| - 1]) + (Encode(r.path) + HeaderBytes(r) + r.body)
  }

  lemma ContentNext(routes: seq<Route>, i: nat)
    requires RoutesOk(routes) && i < |routes|
    ensures Content(routes[..i + 1]) ==
            Content(routes[..i]) + (Encode(routes[i].path) + HeaderBytes(routes[i]) + routes[i].body)
  {
    assert routes[..i + 1][..i] == routes[..i];
  }

  /** What the first routes contribute is a prefix of the content. */
  lemma {:induction false} ContentPrefix(routes: seq<Route>, i: nat)
    requires RoutesOk(routes) && i <= |routes|
    ensures Content(routes[..i]) <= Content(routes)
  {
    if i < |routes| {
      ContentPrefix(routes[..|routes| - 1], i);
      assert routes[..|routes| - 1][..i] == routes[..i];
    } else {
      assert routes[..i] == routes;
    }
  }

  /** The entry of route i: its three spans follow the content of the routes before it. */
  function EntryFor(routes: seq<Route>, i: nat): Entry
    requires RoutesOk(routes) && i < |routes|
  {
    var r, at := routes[i], |Content(routes[..i])|;
    var hdr := at + |r.path|;
    var body := hdr + |HeaderBytes(r)|;
    Entry(|r.path|, |r.body|, at, body, hdr, |HeaderBytes(r)|, 0, HM_GET_HEAD, 0)
  }

  predicate Buildable(l: Layout, routes: seq<Route>) {
    && |routes| <= l.maxRoutes && |routes| < U32
    && RoutesOk(routes)
    && |Content(routes)| <= l.contentMax && |Content(routes)| < U32
  }

  /** The bytes that routes take up. */
  function TotalBytes(routes: seq<Route>): nat {
    if routes == [] then 0
    else
      var r := routes[|routes| - 1];
      TotalBytes(routes[..|routes| - 1]) + |r.path| + |Header(|r.body|, r.mime)| + |r.body|
  }

  lemma {:induction false} ContentLength(routes: seq<Route>)
    requires RoutesOk(routes)
    ensures |Content(routes)| == TotalBytes(routes)
  {
    hide IsAscii, Header;
    if routes != [] {
      ContentLength(routes[..|routes| - 1]);
    }
  }

  /** What can be built: not too many routes, paths up to 1024 ASCII characters, and all bytes within the budget. */
  lemma {:induction false} BuildableExactly(l: Layout, routes: seq<Route>)
    ensures Buildable(l, routes) <==>
            && |routes| <= l.maxRoutes && |routes| < 0x1_0000_0000
            && (forall i :: 0 <= i < |routes| ==>
                  IsAscii(routes[i].path) && |routes[i].path| <= 1024 && IsAscii(routes[i].mime))
            && TotalBytes(routes) <= l.contentMax && TotalBytes(routes) < 0x1_0000_0000
  {
    hide IsAscii, Header, Content, TotalBytes;
    if RoutesOk(routes) {
      ContentLength(routes);
    }
  }

  lemma BuildablePacks(routes: seq<Route>, i: nat)
    requires RoutesOk(routes) && i < |routes| && |Content(routes)| < U32
    ensures EntryPacks(EntryFor(routes, i))
  {
    ContentNext(routes, i);
    ContentPrefix(routes, i + 1);
  }

  // ----- The packed slab ------------------------------------------------------------

  /** The header, the entries and the content of `routes` as they lie in a slab or in its leading part. */
  predicate Written(l: Layout, s: seq<byte>, routes: seq<Route>) {
    && |routes| <= l.maxRoutes && RoutesOk(routes)
    && l.ContentOff() + |Content(routes)| <= |s|
    && s[..8] == MAGIC_V1
    && UnpackLE32(s, HDR_VERSION) == VERSION_V1
    && UnpackLE32(s, HDR_RCOUNT) == |routes|
    && UnpackLE32(s, HDR_CLEN) == |Content(routes)|
    && EntriesWritten(s, routes, |routes|)
    && s[l.ContentOff()..l.ContentOff() + |Content(routes)|] == Content(routes)
  }

  predicate EntriesWritten(s: seq<byte>, routes: seq<Route>, n: nat)
    requires RoutesOk(routes) && n <= |routes| && EntryOff(n) <= |s|
  {
    forall i :: 0 <= i < n ==> EntryAt(s, i) == EntryFor(routes, i)
  }

  ghost predicate ZeroFrom(s: seq<byte>, lo: nat, hi: nat) {
    hi <= |s| && forall k :: lo <= k < hi ==> s[k] == 0
  }

  lemma EntriesStay(s: seq<byte>, t: seq<byte>, routes: seq<Route>, n: nat)
    requires RoutesOk(routes) && n <= |routes| && EntryOff(n) <= |s| && EntryOff(n) <= |t|
    requires forall k :: ROUTES_OFF <= k < EntryOff(n) ==> t[k] == s[k]
    requires EntriesWritten(s, routes, n)
    ensures EntriesWritten(t, routes, n)
  {
    hide EntryAt, EntryFor;
    forall i | 0 <= i < n ensures EntryAt(t, i) == EntryFor(routes, i) {
      assert EntryOff(i) + ROUTE_SIZE <= EntryOff(n);
      SameEntry(s, t, i);
    }
  }

  /** The magic, the version, the route count and a given content length are in place. */
  ghost predicate HeadWritten(s: seq<byte>, routes: nat, clen: nat) {
    && |s| >= HDR_SIZE && s[..8] == MAGIC_V1 && UnpackLE32(s, HDR_VERSION) == VERSION_V1
    && UnpackLE32(s, HDR_RCOUNT) == routes && UnpackLE32(s, HDR_CLEN) == clen && UnpackLE32(s, HDR_KSIZE) == 0
  }

  lemma HeadStays(s: seq<byte>, t: seq<byte>, routes: nat, clen: nat, lo: nat, hi: nat)
    requires HeadWritten(s, routes, clen) && SameOutside(s, t, lo, hi) && HDR_SIZE <= lo
    ensures HeadWritten(t, routes, clen)
  {
    assert t[..8] == s[..8];
    hide UnpackLE32;
    SameU32(s, t, HDR_VERSION, lo, hi);
    SameU32(s, t, HDR_RCOUNT, lo, hi);
    SameU32(s, t, HDR_CLEN, lo, hi);
    SameU32(s, t, HDR_KSIZE, lo, hi);
  }

  method StartSlab(l: Layout, routes: nat) returns (slab: array<byte>, ok: bool)
    ensures fresh(slab) && slab.Length == l.SlabSize()
    ensures ok == (routes < U32)
    ensures ok ==> HeadWritten(slab[..], routes, 0) && ZeroFrom(slab[..], HDR_SIZE, slab.Length)
  {
    slab := new byte[l.SlabSize()](_ => 0);
    forall k | 0 <= k < 8 {
      slab[k] := MAGIC_V1[k];
    }
    ghost var s0 := slab[..];
    hide LittleEndian;
    ok := PackU32(slab, HDR_VERSION, VERSION_V1);
    ghost var s1 := slab[..];
    ok := PackU32(slab, HDR_RCOUNT, routes);
    if ok {
      assert slab[..][..8] == MAGIC_V1;
      SameU32(s1, slab[..], HDR_VERSION, HDR_RCOUNT, HDR_CLEN);
      LittleEndianZero(slab[..][HDR_CLEN..HDR_KSIZE]);
      LittleEndianZero(slab[..][HDR_KSIZE..HDR_SIZE]);
    }
  }

  /** The final content length and the content itself, over the zeros that were there. */
  method FinishSlab(slab: array<byte>, at: nat, content: seq<byte>, ghost routes: nat) returns (ok: bool)
    requires HDR_SIZE <= at && at + |content| <= slab.Length
    requires HeadWritten(slab[..], routes, 0)
    modifies slab
    ensures ok == (|content| < U32)
    ensures ok ==> HeadWritten(slab[..], routes, |content|) && slab[at..at + |content|] == content
    ensures forall k :: HDR_SIZE <= k < slab.Length && !(at <= k < at + |content|) ==> slab[k] == old(slab[k])
  {
    ghost var s0 := slab[..];
    ok := PackU32(slab, HDR_CLEN, |content|);
    if ok {
      ghost var s1 := slab[..];
      assert s1[..8] == s0[..8];
      SameU32(s0, s1, HDR_VERSION, HDR_CLEN, HDR_KSIZE);
      SameU32(s0, s1, HDR_RCOUNT, HDR_CLEN, HDR_KSIZE);
      SameU32(s0, s1, HDR_KSIZE, HDR_CLEN, HDR_KSIZE);
      forall k | 0 <= k < |content| {
        slab[at + k] := content[k];
      }
      HeadStays(s1, slab[..], routes, |content|, at, at + |content|);
    }
  }

  lemma EntryOfPrefix(routes: seq<Route>, n: nat, i: nat)
    requires RoutesOk(routes) && i < n <= |routes|
    ensures EntryFor(routes[..n], i) == EntryFor(routes, i)
  {
    assert routes[..n][..i] == routes[..i];
  }

  /** The handler field of an entry that is still all zeros. */
  lemma FreshHandler(s: seq<byte>, i: nat)
    requires EntryOff(i + 1) <= |s| && ZeroFrom(s, EntryOff(i), |s|)
    ensures EntryAt(s, i).handler == 0
  {
    var e := EntryOff(i);
    LittleEndianZero(s[e + 40..e + 48]);
  }

  lemma EntryIsNext(s: seq<byte>, t: seq<byte>, routes: seq<Route>, i: nat)
    requires |routes| == i + 1 && RoutesOk(routes) && EntryOff(i + 1) <= |s|
    requires SameOutside(s, t, EntryOff(i), EntryOff(i + 1))
    requires EntriesWritten(s, routes[..i], i) && EntryAt(t, i) == EntryFor(routes, i)
    ensures EntriesWritten(t, routes, i + 1)
  {
    EntriesStay(s, t, routes[..i], i);
    hide EntryAt, EntryFor;
    forall j | 0 <= j < i + 1 ensures EntryAt(t, j) == EntryFor(routes, j) {
      if j < i {
        EntryOfPrefix(routes, i, j);
      }
    }
  }

  /** An entry that does not pack means the content is too long for its length field. */
  lemma UnpackableIsTooLong(l: Layout, routes: seq<Route>, i: nat)
    requires i < |routes| && (RoutesOk(routes[..i + 1]) ==> !EntryPacks(EntryFor(routes[..i + 1], i)))
    ensures !Buildable(l, routes)
  {
    if Buildable(l, routes) {
      BuildablePacks(routes, i);
      EntryOfPrefix(routes, i + 1, i);
    }
  }

  /** What the packing loop has established after `n` routes. */
  ghost predicate Packed(s: seq<byte>, routes: seq<Route>, n: nat, content: seq<byte>) {
    && n <= |routes| && EntryOff(n) <= |s| && RoutesOk(routes[..n])
    && content == Content(routes[..n])
    && HeadWritten(s, |routes|, 0)
    && EntriesWritten(s, routes[..n], n)
    && ZeroFrom(s, EntryOff(n), |s|)
  }

  lemma PackedNext(s: seq<byte>, t: seq<byte>, routes: seq<Route>, i: nat, content: seq<byte>, content': seq<byte>)
    requires i < |routes| && EntryOff(i + 1) <= |s| && Packed(s, routes, i, content) && RoutesOk(routes[..i + 1])
    requires SameOutside(s, t, EntryOff(i), EntryOff(i + 1)) && EntryAt(t, i) == EntryFor(routes[..i + 1], i)
    requires content' == Content(routes[..i + 1])
    ensures Packed(t, routes, i + 1, content')
  {
    hide EntryAt, EntryFor, HeadWritten, Content;
    assert routes[..i + 1][..i] == routes[..i];
    EntryIsNext(s, t, routes[..i + 1], i);
    HeadStays(s, t, |routes|, 0, EntryOff(i), EntryOff(i + 1));
  }

  /** The loop body of build_slab: append one route's content and write its entry, or refuse the route. */
  method PackRoute(slab: array<byte>, routes: seq<Route>, idx: nat, content: seq<byte>) returns (r: Result<seq<byte>>)
    requires idx < |routes| && EntryOff(idx + 1) <= slab.Length
    requires Packed(slab[..], routes, idx, content)
    modifies slab
    ensures r.Ok? <==> RoutesOk(routes[..idx + 1]) && EntryPacks(EntryFor(routes[..idx + 1], idx))
    ensures r.Ok? ==> Packed(slab[..], routes, idx + 1, r.value)
  {
    hide EntryAt, Header, IsAscii, HeadWritten;
    var route := routes[idx];
    if !IsAscii(route.path) {
      return Err("UnicodeEncodeError");
    }
    if |route.path| > MAX_PATH_BYTES {
      return Err("path exceeds MAX_PATH_BYTES");
    }
    HeaderIsAscii(|route.body|, route.mime);
    if !IsAscii(Header(|route.body|, route.mime)) {
      return Err("UnicodeEncodeError");
    }
    var pathBytes, hdrBytes := Encode(route.path), Encode(Header(|route.body|, route.mime));
    var pathOff := |content|;
    var content' := content + pathBytes;
    var hdrOff := |content'|;
    content' := content' + hdrBytes;
    var bodyOff := |content'|;
    content' := content' + route.body;
    ghost var before, done := slab[..], routes[..idx + 1];
    assert done[..idx] == routes[..idx];
    assert content' == Content(done);
    FreshHandler(before, idx);
    var ok := EmitRouteEntry(slab, idx, pathOff, |pathBytes|, bodyOff, |route.body|, hdrOff, |hdrBytes|);
    if !ok {
      return Err("struct.error");
    }
    PackedNext(before, slab[..], routes, idx, content, content');
    r := Ok(content');
  }

  /** build_slab: refused exactly when the routes do not fit, and otherwise a slab that holds them */
  method BuildSlab(l: Layout, routes: seq<Route>) returns (r: Result<seq<byte>>)
    ensures r.Ok? <==> Buildable(l, routes)
    ensures r.Ok? ==> |r.value| == l.SlabSize() && Written(l, r.value, routes) && UnpackLE32(r.value, HDR_KSIZE) == 0
    ensures r.Ok? ==> ZeroFrom(r.value, EntryOff(|routes|), l.ContentOff())
    ensures r.Ok? ==> ZeroFrom(r.value, l.ContentOff() + |Content(routes)|, |r.value|)
  {
    hide UnpackLE32, EntryAt, EntryFor, IsAscii, Content;
    if |routes| > l.maxRoutes {
      return Err("too many routes");
    }
    var slab, ok := StartSlab(l, |routes|);
    if !ok {
      return Err("struct.error");
    }
    var content: seq<byte> := [];
    NothingPacked(slab[..], routes);
    for idx := 0 to |routes|
      invariant fresh(slab) && slab.Length == l.SlabSize()
      invariant Packed(slab[..], routes, idx, content)
    {
      var packed := PackRoute(slab, routes, idx, content);
      if packed.Err? {
        UnpackableIsTooLong(l, routes, idx);
        return packed;
      }
      content := packed.value;
    }
    assert routes[..|routes|] == routes;
    if |content| > l.contentMax {
      return Err("content exceeds APPLIANCE_CONTENT_MAX");
    }
    ghost var before := slab[..];
    ok := FinishSlab(slab, l.ContentOff(), content, |routes|);
    if !ok {
      return Err("struct.error");
    }
    EntriesStay(before, slab[..], routes, |routes|);
    r := Ok(slab[..]);
  }

  lemma NothingPacked(s: seq<byte>, routes: seq<Route>)
    requires |s| >= HDR_SIZE
    ensures RoutesOk(routes[..0]) && Content(routes[..0]) == [] && EntriesWritten(s, routes[..0], 0)
  {
  }
}
