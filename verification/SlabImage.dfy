/**
 * Reading a packed slab back, and patching one into a kernel image: the loader recovers every
 * route from the slab, from its truncated form and from the packaged image alike.
 */
module SlabImage {
  import opened Bytes
  import opened Decimal
  import opened Text
  import opened Slab

  // ----- Loading --------------------------------------------------------------------

  /** What is served for one route. */
  datatype Page = Page(path: seq<byte>, header: seq<byte>, body: seq<byte>)

  predicate EntryInside(e: Entry, clen: nat) {
    e.pathOff + e.pathLen <= clen && e.hdrOff + e.hdrLen <= clen && e.bodyOff + e.bodyLen <= clen
  }

  function PageOf(e: Entry, content: seq<byte>): Page
    requires EntryInside(e, |content|)
  {
    Page(content[e.pathOff..e.pathOff + e.pathLen], content[e.hdrOff..e.hdrOff + e.hdrLen],
         content[e.bodyOff..e.bodyOff + e.bodyLen])
  }

  /** The first `n` route entries, resolved against the content. */
  function LoadPages(s: seq<byte>, content: seq<byte>, n: nat): Result<seq<Page>>
    requires EntryOff(n) <= |s|
  {
    if n == 0 then Ok([])
    else
      var e := EntryAt(s, n - 1);
      var rest := LoadPages(s, content, n - 1);
      if rest.Err? then rest
      else if EntryInside(e, |content|) then Ok(rest.value + [PageOf(e, content)])
      else Err("entry outside the content")
  }

  /** A loader that trusts nothing but the layout constants and the bytes from the slab's start on. */
  function Load(l: Layout, s: seq<byte>): Result<seq<Page>> {
    if |s| < l.ContentOff() then Err("short slab")
    else if s[..8] != MAGIC_V1 then Err("no magic")
    else if UnpackLE32(s, HDR_VERSION) != VERSION_V1 then Err("unknown version")
    else if UnpackLE32(s, HDR_RCOUNT) > l.maxRoutes then Err("too many routes")
    else if l.ContentOff() + UnpackLE32(s, HDR_CLEN) > |s| then Err("short content")
    else LoadPages(s, s[l.ContentOff()..l.ContentOff() + UnpackLE32(s, HDR_CLEN)], UnpackLE32(s, HDR_RCOUNT))
  }

  function Pages(routes: seq<Route>): seq<Page>
    requires RoutesOk(routes)
  {
    seq(|routes|, i requires 0 <= i < |routes| => Page(Encode(routes[i].path), HeaderBytes(routes[i]), routes[i].body))
  }

  lemma ThreeSlices(all: seq<byte>, before: seq<byte>, p: seq<byte>, h: seq<byte>, b: seq<byte>)
    requires before + (p + h + b) <= all
    ensures
      var hdr := |before| + |p|;
      var body := hdr + |h|;
      body + |b| <= |all| && all[|before|..hdr] == p && all[hdr..body] == h && all[body..body + |b|] == b
  {
    var next := before + (p + h + b);
    assert all[..|next|] == next;
  }

  lemma EntryYieldsPage(routes: seq<Route>, i: nat)
    requires RoutesOk(routes) && i < |routes|
    ensures EntryInside(EntryFor(routes, i), |Content(routes)|)
    ensures PageOf(EntryFor(routes, i), Content(routes)) == Pages(routes)[i]
  {
    hide IsAscii, HeaderBytes, Content;
    ContentNext(routes, i);
    ContentPrefix(routes, i + 1);
    ThreeSlices(Content(routes), Content(routes[..i]), Encode(routes[i].path), HeaderBytes(routes[i]), routes[i].body);
  }

  lemma {:induction false} PagesLoad(s: seq<byte>, routes: seq<Route>, n: nat)
    requires RoutesOk(routes) && n <= |routes| && EntryOff(|routes|) <= |s|
    requires EntriesWritten(s, routes, |routes|)
    ensures LoadPages(s, Content(routes), n) == Ok(Pages(routes)[..n])
  {
    hide EntryAt, EntryFor, Content, PageOf, EntryInside, IsAscii;
    if n > 0 {
      PagesLoad(s, routes, n - 1);
      EntryYieldsPage(routes, n - 1);
      assert EntryAt(s, n - 1) == EntryFor(routes, n - 1);
      assert Pages(routes)[..n] == Pages(routes)[..n - 1] + [Pages(routes)[n - 1]];
    }
  }

  /** Whatever holds the header, entries and content of the routes loads to exactly those routes, in order. */
  lemma WrittenLoads(l: Layout, s: seq<byte>, routes: seq<Route>)
    requires Written(l, s, routes)
    ensures Load(l, s) == Ok(Pages(routes))
  {
    hide EntryAt, EntryFor, Content, UnpackLE32, LoadPages, IsAscii;
    PagesLoad(s, routes, |routes|);
    assert Pages(routes)[..|routes|] == Pages(routes);
  }

  /** The header of a written slab, at its places. */
  lemma {:induction false} HeadLayout(l: Layout, s: seq<byte>, routes: seq<Route>)
    requires Written(l, s, routes)
    ensures s[..8] == [0x57, 0x53, 0x50, 0x49, 0x41, 0x50, 0x4C, 0x49]
    ensures UnpackLE32(s, 8) == 1 && UnpackLE32(s, 12) == |routes| && UnpackLE32(s, 16) == |Content(routes)|
  {
  }

  /** What is sent before a body. */
  function Preamble(n: nat, mime: string): string {
    "HTTP/1.1 200 OK" + "\r\n" + "Server: ws_pi5" + "\r\n" + "Content-Type: " + mime + "\r\n"
    + "Content-Length: " + Dec(n) + "\r\n" + "\r\n"
  }

  lemma PreambleIsHeader(n: nat, mime: string)
    ensures Header(n, mime) == Preamble(n, mime)
  {
    hide Dec;
    Regroup("HTTP/1.1 200 OK", "\r\n", "Server: ws_pi5", "Content-Type: ", mime, "Content-Length: ", Dec(n));
    assert Line("") == "\r\n";
  }

  lemma Regroup(a: string, end: string, b: string, c: string, m: string, d: string, n: string)
    ensures (a + end) + (b + end) + ((c + m) + end) + ((d + n) + end) + end ==
            a + end + b + end + c + m + end + d + n + end + end
  {
    ConcatAssoc(a + end, b, end);
    var x := a + end + b + end;
    assert x + ((c + m) + end) == x + c + m + end;
    var y := x + c + m + end;
    assert y + ((d + n) + end) == y + d + n + end;
  }

  /** The n bytes at an offset of the content. */
  predicate StandsAt(l: Layout, s: seq<byte>, off: nat, bytes: seq<byte>) {
    var at := 24 + 48 * l.maxRoutes + off;
    at + |bytes| <= |s| && s[at..at + |bytes|] == bytes
  }

  /** The entry of every route, at its places, and what its three spans hold. */
  lemma {:induction false} EntryLayout(l: Layout, s: seq<byte>, routes: seq<Route>, i: nat)
    requires Written(l, s, routes) && i < |routes|
    ensures var e, r := 24 + 48 * i, routes[i];
            && e + 48 <= |s|
            && UnpackLE32(s, e) == |r.path| && UnpackLE32(s, e + 4) == |r.body|
            && UnpackLE32(s, e + 32) == |Preamble(|r.body|, r.mime)|
            && s[e + 36] == 0 && s[e + 37] == 3 && UnpackLE64(s, e + 40) == 0
            && IsAscii(r.path) && IsAscii(Preamble(|r.body|, r.mime))
            && StandsAt(l, s, UnpackLE64(s, e + 8), Encode(r.path))
            && StandsAt(l, s, UnpackLE64(s, e + 24), Encode(Preamble(|r.body|, r.mime)))
            && StandsAt(l, s, UnpackLE64(s, e + 16), r.body)
  {
    hide UnpackLE32, UnpackLE64, IsAscii, Content, Header, Preamble, EntryFor, EntryAt, HeaderBytes, Pages, StandsAt;
    var r, entry := routes[i], EntryFor(routes, i);
    assert EntryAt(s, i) == entry;
    FieldsOf(s, i);
    EntryOfRoute(routes, i);
    SpanStands(l, s, routes, entry.pathOff, Encode(r.path));
    SpanStands(l, s, routes, entry.hdrOff, Encode(Preamble(|r.body|, r.mime)));
    SpanStands(l, s, routes, entry.bodyOff, r.body);
  }

  lemma FieldsOf(s: seq<byte>, i: nat)
    requires EntryOff(i) + ROUTE_SIZE <= |s|
    ensures var e, entry := 24 + 48 * i, EntryAt(s, i);
            && e + 48 <= |s|
            && entry.pathLen == UnpackLE32(s, e) && entry.bodyLen == UnpackLE32(s, e + 4)
            && entry.pathOff == UnpackLE64(s, e + 8) && entry.bodyOff == UnpackLE64(s, e + 16)
            && entry.hdrOff == UnpackLE64(s, e + 24) && entry.hdrLen == UnpackLE32(s, e + 32)
            && entry.flags == s[e + 36] && entry.methods == s[e + 37] && entry.handler == UnpackLE64(s, e + 40)
  {
    hide UnpackLE32, UnpackLE64;
  }

  lemma {:induction false} EntryOfRoute(routes: seq<Route>, i: nat)
    requires RoutesOk(routes) && i < |routes|
    ensures var r, entry := routes[i], EntryFor(routes, i);
            && IsAscii(r.path) && IsAscii(Preamble(|r.body|, r.mime))
            && entry.pathLen == |r.path| && entry.bodyLen == |r.body| && entry.hdrLen == |Preamble(|r.body|, r.mime)|
            && entry.flags == 0 && entry.methods == 3 && entry.handler == 0
            && SpanIs(Content(routes), entry.pathOff, Encode(r.path))
            && SpanIs(Content(routes), entry.hdrOff, Encode(Preamble(|r.body|, r.mime)))
            && SpanIs(Content(routes), entry.bodyOff, r.body)
  {
    hide IsAscii, Content, Header, Preamble;
    var r := routes[i];
    PreambleIsHeader(|r.body|, r.mime);
    HeaderIsAscii(|r.body|, r.mime);
    EntryYieldsPage(routes, i);
  }

  predicate SpanIs(content: seq<byte>, off: nat, part: seq<byte>) {
    off + |part| <= |content| && content[off..off + |part|] == part
  }

  lemma {:induction false} SpanStands(l: Layout, s: seq<byte>, routes: seq<Route>, off: nat, part: seq<byte>)
    requires Written(l, s, routes) && SpanIs(Content(routes), off, part)
    ensures StandsAt(l, s, off, part)
  {
    hide Content, EntriesWritten, UnpackLE32;
    ContentSlice(s, l.ContentOff(), Content(routes), off, part);
  }

  lemma ContentSlice(s: seq<byte>, at: nat, content: seq<byte>, off: nat, part: seq<byte>)
    requires at + |content| <= |s| && s[at..at + |content|] == content
    requires off + |part| <= |content| && content[off..off + |part|] == part
    ensures at + off + |part| <= |s| && s[at + off..at + off + |part|] == part
  {
    forall k | 0 <= k < |part| ensures s[at + off + k] == part[k] {
      assert part[k] == content[off..off + |part|][k] == content[off + k] == s[at..at + |content|][off + k];
    }
  }

  /** Cutting the slab anywhere after its last used content byte loses nothing. */
  lemma TruncatedIsWritten(l: Layout, s: seq<byte>, n: nat, routes: seq<Route>)
    requires Written(l, s, routes) && l.ContentOff() + |Content(routes)| <= n <= |s|
    ensures Written(l, s[..n], routes)
  {
    hide EntryFor, EntryAt, Content, IsAscii, LittleEndian;
    var t, used := s[..n], l.ContentOff() + |Content(routes)|;
    assert t[..8] == s[..8];
    assert t[HDR_VERSION..HDR_RCOUNT] == s[HDR_VERSION..HDR_RCOUNT];
    assert t[HDR_RCOUNT..HDR_CLEN] == s[HDR_RCOUNT..HDR_CLEN] && t[HDR_CLEN..HDR_KSIZE] == s[HDR_CLEN..HDR_KSIZE];
    assert t[l.ContentOff()..used] == s[l.ContentOff()..used];
    EntriesStay(s, t, routes, |routes|);
  }

  /** The declared Content-Length of every page loaded from packed routes is the length of its body. */
  lemma PagesDeclareTheirLength(routes: seq<Route>, i: nat)
    requires RoutesOk(routes) && i < |routes| && '\n' !in routes[i].mime
    ensures DeclaredLengths(Split(Decode(Pages(routes)[i].header), '\n')) == [|Pages(routes)[i].body|]
  {
    hide IsAscii, Header, DeclaredLengths, Split;
    var r := routes[i];
    HeaderIsAscii(|r.body|, r.mime);
    DecodeEncode(Header(|r.body|, r.mime));
    ContentLengthIsBodyLength(|r.body|, r.mime);
  }

  lemma MimeHasNoLineFeed(suffix: string)
    ensures '\n' !in ContentTypeFor(suffix)
  {
    TypesHaveNoLineFeed();
    hide LookUp, MIME_TYPES;
  }

  lemma TypesHaveNoLineFeed()
    ensures forall i :: 0 <= i < |MIME_TYPES| ==> '\n' !in MIME_TYPES[i].1
    ensures '\n' !in "application/octet-stream"
  {
  }

  // ----- Spans ----------------------------------------------------------------------

  datatype Part = PathPart | HeaderPart | BodyPart

  predicate InPart(e: Entry, part: Part, k: nat) {
    match part
    case PathPart => e.pathOff <= k < e.pathOff + e.pathLen
    case HeaderPart => e.hdrOff <= k < e.hdrOff + e.hdrLen
    case BodyPart => e.bodyOff <= k < e.bodyOff + e.bodyLen
  }

  /** The route whose content holds byte `k`. */
  lemma {:induction false} OwnerOf(routes: seq<Route>, k: nat) returns (i: nat)
    requires RoutesOk(routes) && k < |Content(routes)|
    ensures i < |routes| && |Content(routes[..i])| <= k < |Content(routes[..i + 1])|
  {
    hide IsAscii, HeaderBytes;
    var n := |routes| - 1;
    assert routes[..n + 1] == routes;
    if k < |Content(routes[..n])| {
      i := OwnerOf(routes[..n], k);
      assert routes[..n][..i] == routes[..i] && routes[..n][..i + 1] == routes[..i + 1];
    } else {
      i := n;
    }
  }

  lemma ContentGrows(routes: seq<Route>, i: nat, j: nat)
    requires RoutesOk(routes) && i <= j <= |routes|
    ensures |Content(routes[..i])| <= |Content(routes[..j])|
  {
    ContentPrefix(routes[..j], i);
    assert routes[..j][..i] == routes[..i];
  }

  lemma EntrySpans(routes: seq<Route>, i: nat)
    requires RoutesOk(routes) && i < |routes|
    ensures
      var e := EntryFor(routes, i);
      && e.pathOff == |Content(routes[..i])| && e.hdrOff == e.pathOff + e.pathLen && e.bodyOff == e.hdrOff + e.hdrLen
      && e.bodyOff + e.bodyLen == |Content(routes[..i + 1])|
  {
    ContentNext(routes, i);
  }

  /** The spans tile the content: every byte of [0, clen) belongs to one part of one route, and to no other. */
  lemma SpansTile(routes: seq<Route>, k: nat)
    requires RoutesOk(routes) && k < |Content(routes)|
    ensures exists i, part :: 0 <= i < |routes| && InPart(EntryFor(routes, i), part, k)
    ensures forall i, part, j, part' |
              && 0 <= i < |routes| && InPart(EntryFor(routes, i), part, k)
              && 0 <= j < |routes| && InPart(EntryFor(routes, j), part', k) ::
              i == j && part == part'
  {
    hide EntryFor, Content;
    var i := OwnerOf(routes, k);
    EntrySpans(routes, i);
    var e := EntryFor(routes, i);
    var part := if k < e.hdrOff then PathPart else if k < e.bodyOff then HeaderPart else BodyPart;
    assert InPart(e, part, k);
    forall j, other | 0 <= j < |routes| && InPart(EntryFor(routes, j), other, k) ensures j == i && other == part {
      EntrySpans(routes, j);
      if j < i {
        ContentGrows(routes, j + 1, i);
      } else if i < j {
        ContentGrows(routes, i + 1, j);
      }
    }
  }

  // ----- The kernel image -----------------------------------------------------------

  predicate MatchAt(image: seq<byte>, pattern: seq<byte>, k: int) {
    0 <= k && k + |pattern| <= |image| && image[k..k + |pattern|] == pattern
  }

  /** image.find(pattern, from): the first match at or after `from` */
  function Find(image: seq<byte>, pattern: seq<byte>, from: nat): (r: Option<nat>)
    ensures r.None? ==> forall k :: from <= k ==> !MatchAt(image, pattern, k)
    ensures r.Some? ==> from <= r.value && MatchAt(image, pattern, r.value)
                        && forall k :: from <= k < r.value ==> !MatchAt(image, pattern, k)
    decreases |image| - from
  {
    if from + |pattern| > |image| then None
    else if MatchAt(image, pattern, from) then Some(from)
    else if from == |image| then None
    else Find(image, pattern, from + 1)
  }

  /** A pattern that stands somewhere is found there or before. */
  lemma FoundWhereItStands(pre: seq<byte>, pattern: seq<byte>, post: seq<byte>)
    ensures var r := Find(pre + pattern + post, pattern, 0);
            && r.Some? && r.value <= |pre| && r.value + |pattern| <= |pre + pattern + post|
            && (pre + pattern + post)[r.value..r.value + |pattern|] == pattern
  {
    var image := pre + pattern + post;
    assert image[|pre|..|pre| + |pattern|] == pattern;
    assert MatchAt(image, pattern, |pre|);
  }

  /** The marker occurs at `off` and nowhere else, and the whole slab lies inside the image. */
  ghost predicate SlabIsAt(l: Layout, image: seq<byte>, off: nat) {
    && MatchAt(image, MAGIC_NONE, off)
    && (forall k :: MatchAt(image, MAGIC_NONE, k) ==> k == off)
    && off + l.SlabSize() <= |image|
  }

  /** The marker is the eight characters WSPINONE. */
  lemma MarkerIs()
    ensures MAGIC_NONE == [0x57, 0x53, 0x50, 0x49, 0x4E, 0x4F, 0x4E, 0x45]
  {
  }

  /** find_slab_offset: succeeds exactly when the marker is unique and the slab fits */
  function FindSlabOffset(l: Layout, image: seq<byte>): (r: Result<nat>)
    ensures r.Ok? ==> SlabIsAt(l, image, r.value)
    ensures r.Err? ==> forall off: nat :: !SlabIsAt(l, image, off)
  {
    var off := Find(image, MAGIC_NONE, 0);
    if off.None? then Err("marker not found")
    else if Find(image, MAGIC_NONE, off.value + 1).Some? then Err("marker appears more than once")
    else if off.value + l.SlabSize() > |image| then Err("image truncated")
    else Ok(off.value)
  }

  /** package, from reading the base image to the bytes written out */
  method Package(l: Layout, image: seq<byte>, routes: seq<Route>) returns (r: Result<seq<byte>>, ghost off: nat)
    ensures r.Ok? <==>
            && (exists at: nat :: SlabIsAt(l, image, at) && UnpackLE32(image, at + HDR_KSIZE) == l.SlabSize())
            && Buildable(l, routes)
    ensures r.Ok? ==>
              && SlabIsAt(l, image, off)
              && |r.value| == off + l.ContentOff() + |Content(routes)| <= |image|
              && r.value[..off] == image[..off]
              && Load(l, r.value[off..]) == Ok(Pages(routes)) && Written(l, r.value[off..], routes)
  {
    hide Written, UnpackLE32, Load, IsAscii, Content, Find, MatchAt;
    var found := FindSlabOffset(l, image);
    if found.Err? {
      return Err(found.error), 0;
    }
    off := found.value;
    if UnpackLE32(image, found.value + HDR_KSIZE) != l.SlabSize() {
      return Err("kernel/packager slab-size mismatch"), off;
    }
    var slab := BuildSlab(l, routes);
    if slab.Err? {
      return Err(slab.error), off;
    }
    assert UnpackLE32(image, off + HDR_KSIZE) == l.SlabSize();
    var newImage := Splice(image, found.value, slab.value);
    WrittenSize(l, slab.value, routes);
    var truncateAt := found.value + l.ContentOff() + UnpackLE32(slab.value, HDR_CLEN);
    var out := newImage[..truncateAt];
    var used := l.ContentOff() + UnpackLE32(slab.value, HDR_CLEN);
    assert out[off..] == slab.value[..used];
    TruncatedIsWritten(l, slab.value, used, routes);
    WrittenLoads(l, out[off..], routes);
    r := Ok(out);
  }

  lemma WrittenSize(l: Layout, s: seq<byte>, routes: seq<Route>)
    requires Written(l, s, routes)
    ensures RoutesOk(routes) && HDR_SIZE <= l.ContentOff() && |s| >= l.ContentOff() + |Content(routes)|
    ensures UnpackLE32(s, HDR_CLEN) == |Content(routes)|
  {
  }
}
