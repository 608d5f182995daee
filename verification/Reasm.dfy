/**
 * The IPv4 fragment reassembly engine: one slot, its 8-byte-unit bitmap and its data buffer,
 * stepped by arriving fragments (section 3.2 of RFC 791, overlaps refused as in RFC 5722).
 */
module Reasm {
  import opened Bytes
  import opened Bitmap

  const REASM_BUF_SIZE := 2048

  /** A fragment as the engine sees it: byte offset, payload, More Fragments flag. */
  datatype Fragment = Fragment(off: nat, data: seq<byte>, mf: bool) {
    function End(): nat {
      off + |data|
    }

    predicate Covers(p: int) {
      off <= p < End()
    }

    /** Does the fragment touch the 8-byte unit u? */
    predicate Touches(u: int) {
      off / 8 <= u <= (End() - 1) / 8
    }

    function Units(): (s: set<int>)
      ensures forall u :: u in s <==> Touches(u)
    {
      RangeUnits(off, End())
    }

    /** No unit in common. */
    predicate Apart(g: Fragment) {
      (End() - 1) / 8 < g.off / 8 || (g.End() - 1) / 8 < off / 8
    }
  }

  datatype Reason =
    | OkComplete | OkIncomplete
    | DropNonaligned | DropNoSlot | DropOverlap | DropBounds | DropOversized

  /** The slot with its bitmap abstracted to the set of units received. */
  datatype Slot = Slot(active: bool, haveLast: bool, totalLen: nat, units: set<int>, buf: seq<byte>) {
    predicate Valid() {
      |buf| == REASM_BUF_SIZE && totalLen <= REASM_BUF_SIZE
    }

    /** Every unit of [0, total_len) has arrived, and total_len is known. */
    predicate Full() {
      haveLast && Interval(0, (totalLen + 7) / 8) <= units
    }
  }

  /** What one arrival does: the reason code, the slot afterwards, the payload handed up. */
  datatype Outcome = Outcome(reason: Reason, post: Slot, payload: seq<byte>)

  function FreeSlot(buf: seq<byte>): Slot {
    Slot(false, false, 0, {}, buf)
  }

  /** The matching slot, allocated on the spot when there is none. */
  function Allocated(s: Slot): Slot {
    if s.active then s else Slot(true, false, 0, {}, s.buf)
  }

  /** Copy the payload, set the bits, note the total length on MF=0. */
  function Accept(s: Slot, f: Fragment): Slot
    requires s.Valid() && f.End() <= REASM_BUF_SIZE
  {
    Slot(true, s.haveLast || !f.mf, if f.mf then s.totalLen else f.End(),
         s.units + f.Units(), Splice(s.buf, f.off, f.data))
  }

  /** Hand up a full slot, or drop it when it would not fit a frame; either way free it. */
  function Settle(s: Slot): Outcome
    requires s.Valid()
  {
    if !s.Full() then Outcome(OkIncomplete, s, [])
    else if s.totalLen + ETH_HDR_LEN + IP_HDR_MIN > ETH_FRAME_MAX
    then Outcome(DropOversized, FreeSlot(s.buf), [])
    else Outcome(OkComplete, FreeSlot(s.buf), s.buf[..s.totalLen])
  }

  /** The decision the oracle predicts, for an arbitrary slot value. */
  function Step(s: Slot, f: Fragment, poolFree: bool): (r: Outcome)
    requires s.Valid()
    ensures r.post.Valid()
  {
    if |f.data| < 1 || f.End() > REASM_BUF_SIZE then Outcome(DropBounds, s, [])
    else if f.mf && |f.data| % 8 != 0 then Outcome(DropNonaligned, s, [])
    else if !s.active && !poolFree then Outcome(DropNoSlot, Allocated(s), [])
    else if f.Units() * Allocated(s).units != {} then Outcome(DropOverlap, Allocated(s), [])
    else Settle(Accept(Allocated(s), f))
  }

  // ----- The oracle on the packed bitmap refines Step -------------------------

  /** The slot as laid out in memory, with the 32-byte bitmap. */
  datatype SlotImage = SlotImage(active: bool, haveLast: bool, totalLen: nat, bitmap: Bits, buf: seq<byte>) {
    function Abs(): Slot {
      Slot(active, haveLast, totalLen, Bitmap.Units(bitmap), buf)
    }
  }

  /** A free slot whose buffer holds anything. */
  method FreeImage(buf: seq<byte>) returns (s: SlotImage)
    ensures s.Abs() == FreeSlot(buf)
  {
    EmptyBitmapHasNoUnits(EMPTY_BITMAP);
    s := SlotImage(false, false, 0, EMPTY_BITMAP, buf);
  }

  method Oracle(s: SlotImage, f: Fragment, poolFree: bool)
    returns (reason: Reason, post: SlotImage, payload: seq<byte>)
    requires s.Abs().Valid()
    ensures Outcome(reason, post.Abs(), payload) == Step(s.Abs(), f, poolFree)
  {
    if |f.data| < 1 || f.off + |f.data| > REASM_BUF_SIZE {
      return DropBounds, s, [];
    }
    if f.mf && |f.data| % 8 != 0 {
      return DropNonaligned, s, [];
    }
    EmptyBitmapHasNoUnits(EMPTY_BITMAP);
    var base := s;
    if !s.active {
      base := SlotImage(true, false, 0, EMPTY_BITMAP, s.buf);
      if !poolFree {
        return DropNoSlot, base, [];
      }
    }
    assert base.Abs() == Allocated(s.Abs());
    var overlap := Overlaps(base.bitmap, f.off / 8, (f.off + |f.data| - 1) / 8);
    if overlap {
      return DropOverlap, base, [];
    }
    var accepted := AcceptImage(base, f);
    reason, post, payload := SettleImage(accepted);
  }

  /** The overlap loop: is any bit of [startBit, endBit] already set? */
  method Overlaps(bm: Bits, startBit: nat, endBit: int) returns (hit: bool)
    requires endBit < BITMAP_BITS
    ensures hit <==> Interval(startBit, endBit + 1) * Bitmap.Units(bm) != {}
  {
    var b := startBit;
    while b < endBit + 1
      invariant startBit <= b
      invariant forall c :: c in Interval(startBit, b) ==> c !in Bitmap.Units(bm)
    {
      if HasBit(bm, b) {
        assert b in Interval(startBit, endBit + 1) * Bitmap.Units(bm);
        return true;
      }
      b := b + 1;
    }
    return false;
  }

  method AcceptImage(s: SlotImage, f: Fragment) returns (post: SlotImage)
    requires s.active && s.Abs().Valid() && |f.data| > 0 && f.End() <= REASM_BUF_SIZE
    ensures post.Abs() == Accept(s.Abs(), f)
  {
    var newBits := MakeBitmap([(f.off, f.off + |f.data|)]);
    SingleRange((f.off, f.off + |f.data|));
    post := s.(bitmap := Or(s.bitmap, newBits), buf := Splice(s.buf, f.off, f.data));
    if !f.mf {
      post := post.(haveLast := true, totalLen := f.off + |f.data|);
    }
  }

  method SettleImage(s: SlotImage) returns (reason: Reason, post: SlotImage, payload: seq<byte>)
    requires s.active && s.Abs().Valid()
    ensures Outcome(reason, post.Abs(), payload) == Settle(s.Abs())
  {
    EmptyBitmapHasNoUnits(EMPTY_BITMAP);
    var all := false;
    if s.haveLast {
      all := AllSet(s.bitmap, (s.totalLen + 7) / 8);
    }
    if !all {
      return OkIncomplete, s, [];
    }
    var freed := SlotImage(false, false, 0, EMPTY_BITMAP, s.buf);
    if s.totalLen + ETH_HDR_LEN + IP_HDR_MIN > ETH_FRAME_MAX {
      return DropOversized, freed, [];
    }
    return OkComplete, freed, s.buf[..s.totalLen];
  }

  lemma SingleRange(r: (int, int))
    ensures AllRangeUnits([r]) == RangeUnits(r.0, r.1)
  {
    assert AllRangeUnits([r][..0]) == {};
  }

  // ----- Safety over all runs -------------------------------------------------

  /** The slot together with the fragments it accepted since it was allocated. */
  datatype Track = Track(slot: Slot, acc: seq<Fragment>)

  function TrackStep(t: Track, f: Fragment, poolFree: bool): Track
    requires t.slot.Valid()
  {
    var r := Step(t.slot, f, poolFree);
    match r.reason
    case OkIncomplete => Track(r.post, t.acc + [f])
    case OkComplete => Track(r.post, [])
    case DropOversized => Track(r.post, [])
    case _ => Track(r.post, t.acc)
  }

  /** Feed a whole run of arrivals to a free slot whose buffer holds anything. */
  function Run(buf: seq<byte>, arrivals: seq<Fragment>): (t: Track)
    requires |buf| == REASM_BUF_SIZE
    ensures t.slot.Valid()
  {
    if arrivals == [] then Track(FreeSlot(buf), [])
    else TrackStep(Run(buf, arrivals[..|arrivals| - 1]), arrivals[|arrivals| - 1], true)
  }

  /**
   * The same when the pool may be full at an arrival; a slot refused for that is then a stranger's, active and empty.
   */
  function PoolRun(buf: seq<byte>, arrivals: seq<(Fragment, bool)>): (t: Track)
    requires |buf| == REASM_BUF_SIZE
    ensures t.slot.Valid()
  {
    if arrivals == [] then Track(FreeSlot(buf), [])
    else
      var (f, poolFree) := arrivals[|arrivals| - 1];
      TrackStep(PoolRun(buf, arrivals[..|arrivals| - 1]), f, poolFree)
  }

  /** End of the most recently accepted MF=0 fragment. */
  function TotalLen(acc: seq<Fragment>): nat {
    if acc == [] then 0
    else if !acc[|acc| - 1].mf then acc[|acc| - 1].End()
    else TotalLen(acc[..|acc| - 1])
  }

  /** An acceptable fragment; on the wire an offset counts 8-byte units. */
  predicate Storable(f: Fragment) {
    && f.off % 8 == 0 && |f.data| > 0 && f.End() <= REASM_BUF_SIZE
    && (f.mf ==> |f.data| % 8 == 0)
  }

  ghost predicate UnitsInv(units: set<int>, acc: seq<Fragment>) {
    && (forall i :: 0 <= i < |acc| ==> Storable(acc[i]))
    && (forall i, j :: 0 <= i < j < |acc| ==> acc[i].Apart(acc[j]))
    && (forall u :: u in units <==> exists i :: 0 <= i < |acc| && acc[i].Touches(u))
  }

  ghost predicate DataInv(buf: seq<byte>, acc: seq<Fragment>) {
    && |buf| == REASM_BUF_SIZE
    && (forall i, p :: 0 <= i < |acc| && acc[i].Covers(p) && p < REASM_BUF_SIZE ==>
          buf[p] == acc[i].data[p - acc[i].off])
  }

  ghost predicate LastInv(haveLast: bool, totalLen: nat, acc: seq<Fragment>) {
    && (haveLast <==> exists i :: 0 <= i < |acc| && !acc[i].mf)
    && totalLen == TotalLen(acc)
  }

  /**
   * The slot is its accepted fragments: the bitmap is the disjoint union of their units, each
   * one's bytes still stand in the buffer as they arrived, and total_len is the last MF=0's end.
   */
  ghost predicate Inv(t: Track) {
    && t.slot.Valid()
    && UnitsInv(t.slot.units, t.acc)
    && DataInv(t.slot.buf, t.acc)
    && LastInv(t.slot.haveLast, t.slot.totalLen, t.acc)
    && (!t.slot.active ==> t.acc == [])
  }

  lemma ApartWithoutCommonUnit(f: Fragment, g: Fragment)
    requires forall u :: f.Touches(u) ==> !g.Touches(u)
    requires |f.data| > 0 && |g.data| > 0
    ensures f.Apart(g)
  {
    assert f.Touches(f.off / 8) ==> !g.Touches(f.off / 8);
    assert f.Touches(g.off / 8) ==> !g.Touches(g.off / 8);
  }

  lemma ApartUnit(f: Fragment, g: Fragment, u: int)
    requires f.Apart(g) || g.Apart(f)
    ensures f.Touches(u) ==> !g.Touches(u)
  {
  }

  lemma CoversTouches(f: Fragment, p: int)
    ensures f.Covers(p) ==> f.Touches(p / 8)
  {
  }

  lemma AcceptKeepsUnits(units: set<int>, acc: seq<Fragment>, f: Fragment)
    requires UnitsInv(units, acc) && Storable(f) && f.Units() * units == {}
    ensures UnitsInv(units + f.Units(), acc + [f])
  {
    forall u | f.Touches(u) ensures u !in units {
      assert u in units ==> u in f.Units() * units;
    }
    forall i | 0 <= i < |acc| ensures acc[i].Apart(f) {
      ApartWithoutCommonUnit(acc[i], f);
    }
    var acc' := acc + [f];
    forall u ensures u in units + f.Units() <==> exists i :: 0 <= i < |acc'| && acc'[i].Touches(u) {
      if u in units {
        var i :| 0 <= i < |acc| && acc[i].Touches(u);
        assert acc'[i].Touches(u);
      }
      if u in f.Units() {
        assert acc'[|acc|].Touches(u);
      }
      if i :| 0 <= i < |acc'| && acc'[i].Touches(u) {
        assert i < |acc| ==> acc[i].Touches(u);
      }
    }
  }

  /** No byte is written twice: accepting a fragment apart from the others leaves theirs alone. */
  lemma AcceptKeepsData(buf: seq<byte>, acc: seq<Fragment>, f: Fragment)
    requires DataInv(buf, acc) && Storable(f)
    requires forall i :: 0 <= i < |acc| ==> Storable(acc[i]) && acc[i].Apart(f)
    ensures DataInv(Splice(buf, f.off, f.data), acc + [f])
  {
    var acc', buf' := acc + [f], Splice(buf, f.off, f.data);
    forall i, p | 0 <= i < |acc'| && acc'[i].Covers(p) && p < REASM_BUF_SIZE
      ensures buf'[p] == acc'[i].data[p - acc'[i].off]
    {
      if i < |acc| {
        assert acc[i].Apart(f);
        ApartBytes(acc[i], f, p);
      }
    }
  }

  lemma ApartBytes(f: Fragment, g: Fragment, p: int)
    requires f.Apart(g) && f.Covers(p)
    ensures !g.Covers(p)
  {
    CoversTouches(f, p);
    ApartUnit(f, g, p / 8);
    CoversTouches(g, p);
  }

  lemma AcceptKeepsLast(haveLast: bool, totalLen: nat, acc: seq<Fragment>, f: Fragment)
    requires LastInv(haveLast, totalLen, acc)
    ensures LastInv(haveLast || !f.mf, if f.mf then totalLen else f.End(), acc + [f])
  {
    var acc' := acc + [f];
    assert acc'[..|acc|] == acc && acc'[|acc|] == f;
    if i :| 0 <= i < |acc| && !acc[i].mf {
      assert !acc'[i].mf;
    }
  }

  lemma AcceptKeepsInv(t: Track, f: Fragment)
    requires Inv(t) && Storable(f) && f.Units() * t.slot.units == {}
    ensures Inv(Track(Accept(t.slot, f), t.acc + [f]))
  {
    AcceptKeepsUnits(t.slot.units, t.acc, f);
    var acc' := t.acc + [f];
    forall i | 0 <= i < |t.acc| ensures t.acc[i].Apart(f) {
      assert acc'[i].Apart(acc'[|t.acc|]);
    }
    AcceptKeepsData(t.slot.buf, t.acc, f);
    AcceptKeepsLast(t.slot.haveLast, t.slot.totalLen, t.acc, f);
  }

  /** An arrival that is neither dropped nor refused is storable, apart from the rest, and accepted. */
  lemma StepAccepts(t: Track, f: Fragment, poolFree: bool)
    requires Inv(t) && f.off % 8 == 0
    requires var r := Step(t.slot, f, poolFree).reason; r == OkIncomplete || r == OkComplete || r == DropOversized
    ensures Storable(f) && f.Units() * Allocated(t.slot).units == {} && Inv(Track(Allocated(t.slot), t.acc))
    ensures Step(t.slot, f, poolFree) == Settle(Accept(Allocated(t.slot), f))
  {
  }

  lemma StepKeepsInv(t: Track, f: Fragment, poolFree: bool)
    requires Inv(t) && f.off % 8 == 0
    ensures Inv(TrackStep(t, f, poolFree))
  {
    hide UnitsInv, DataInv, LastInv;
    AllocatedInv(t);
    var reason := Step(t.slot, f, poolFree).reason;
    if reason == OkIncomplete || reason == OkComplete || reason == DropOversized {
      StepAccepts(t, f, poolFree);
      AcceptKeepsInv(Track(Allocated(t.slot), t.acc), f);
      FreshInv(Accept(Allocated(t.slot), f).buf);
    }
  }

  lemma AllocatedInv(t: Track)
    requires Inv(t)
    ensures Inv(Track(Allocated(t.slot), t.acc))
  {
  }

  /** Every run, in any order and with any fragments, keeps the invariant. */
  lemma {:induction false} RunKeepsInv(buf: seq<byte>, arrivals: seq<Fragment>)
    requires |buf| == REASM_BUF_SIZE && forall f :: f in arrivals ==> f.off % 8 == 0
    ensures Inv(Run(buf, arrivals))
  {
    if arrivals != [] {
      var n := |arrivals| - 1;
      RunKeepsInv(buf, arrivals[..n]);
      StepKeepsInv(Run(buf, arrivals[..n]), arrivals[n], true);
    }
  }

  /** Whether or not the pool has a free slot at each arrival. */
  lemma {:induction false} PoolRunKeepsInv(buf: seq<byte>, arrivals: seq<(Fragment, bool)>)
    requires |buf| == REASM_BUF_SIZE && forall i :: 0 <= i < |arrivals| ==> arrivals[i].0.off % 8 == 0
    ensures Inv(PoolRun(buf, arrivals))
  {
    hide Inv, Step;
    if arrivals == [] {
      FreshInv(buf);
    } else {
      var n := |arrivals| - 1;
      PoolRunKeepsInv(buf, arrivals[..n]);
      StepKeepsInv(PoolRun(buf, arrivals[..n]), arrivals[n].0, arrivals[n].1);
    }
  }

  lemma FreshInv(buf: seq<byte>)
    requires |buf| == REASM_BUF_SIZE
    ensures Inv(Track(FreeSlot(buf), []))
  {
  }

  // ----- What a completed datagram is made of ---------------------------------

  ghost predicate Covered(acc: seq<Fragment>, p: int) {
    exists i :: 0 <= i < |acc| && acc[i].Covers(p)
  }

  /** No accepted fragment ends in the middle of a unit before the end of the datagram. */
  ghost predicate NoShortUnit(acc: seq<Fragment>, total: nat) {
    forall i :: 0 <= i < |acc| ==> acc[i].End() % 8 == 0 || acc[i].End() >= total
  }

  /** f is the arrival that completes a datagram after an arbitrary run, the pool free or full at each arrival. */
  ghost predicate Completes(buf: seq<byte>, arrivals: seq<(Fragment, bool)>, f: Fragment, poolFree: bool) {
    && |buf| == REASM_BUF_SIZE
    && (forall i :: 0 <= i < |arrivals| ==> arrivals[i].0.off % 8 == 0) && f.off % 8 == 0
    && Step(PoolRun(buf, arrivals).slot, f, poolFree).reason == OkComplete
  }

  /** The fragments a completed datagram was put together from, in order of acceptance. */
  function Parts(buf: seq<byte>, arrivals: seq<(Fragment, bool)>, f: Fragment, poolFree: bool): seq<Fragment>
    requires |buf| == REASM_BUF_SIZE
  {
    PoolRun(buf, arrivals).acc + [f]
  }

  function Payload(buf: seq<byte>, arrivals: seq<(Fragment, bool)>, f: Fragment, poolFree: bool): seq<byte>
    requires |buf| == REASM_BUF_SIZE
  {
    Step(PoolRun(buf, arrivals).slot, f, poolFree).payload
  }

  lemma CompletionInv(buf: seq<byte>, arrivals: seq<(Fragment, bool)>, f: Fragment, poolFree: bool) returns (full: Slot)
    requires Completes(buf, arrivals, f, poolFree)
    ensures Inv(Track(full, Parts(buf, arrivals, f, poolFree))) && full.Full()
    ensures Payload(buf, arrivals, f, poolFree) == full.buf[..full.totalLen]
  {
    var t := PoolRun(buf, arrivals);
    PoolRunKeepsInv(buf, arrivals);
    StepAccepts(t, f, poolFree);
    AcceptKeepsInv(Track(Allocated(t.slot), t.acc), f);
    full := Accept(Allocated(t.slot), f);
  }

  /**
   * Every byte handed up that an accepted fragment covers comes from exactly one of them, and is
   * that fragment's byte.
   */
  lemma CompletionContents(buf: seq<byte>, arrivals: seq<(Fragment, bool)>, f: Fragment, poolFree: bool)
    requires Completes(buf, arrivals, f, poolFree)
    ensures var acc, payload := Parts(buf, arrivals, f, poolFree), Payload(buf, arrivals, f, poolFree);
            && |payload| == TotalLen(acc)
            && (forall i, p :: 0 <= i < |acc| && acc[i].Covers(p) && p < |payload| ==>
                  payload[p] == acc[i].data[p - acc[i].off])
            && (forall i, j, p :: 0 <= i < j < |acc| && acc[i].Covers(p) ==> !acc[j].Covers(p))
  {
    var full := CompletionInv(buf, arrivals, f, poolFree);
    assert full.totalLen <= REASM_BUF_SIZE;
    CoveredOnce(full.units, Parts(buf, arrivals, f, poolFree));
  }

  lemma CoveredOnce(units: set<int>, acc: seq<Fragment>)
    requires UnitsInv(units, acc)
    ensures forall i, j, p :: 0 <= i < j < |acc| && acc[i].Covers(p) ==> !acc[j].Covers(p)
  {
    forall i, j, p | 0 <= i < j < |acc| && acc[i].Covers(p) ensures !acc[j].Covers(p) {
      ApartBytes(acc[i], acc[j], p);
    }
  }

  /**
   * Completion means every byte of [0, total_len) was written exactly when no accepted fragment
   * ends inside a unit before total_len.
   */
  lemma CompletionIsExact(buf: seq<byte>, arrivals: seq<(Fragment, bool)>, f: Fragment, poolFree: bool)
    requires Completes(buf, arrivals, f, poolFree)
    ensures var acc, total := Parts(buf, arrivals, f, poolFree), |Payload(buf, arrivals, f, poolFree)|;
            (forall p :: 0 <= p < total ==> Covered(acc, p)) <==> NoShortUnit(acc, total)
  {
    var full := CompletionInv(buf, arrivals, f, poolFree);
    FullCoverage(full.units, Parts(buf, arrivals, f, poolFree), full.totalLen);
  }

  lemma FullCoverage(units: set<int>, acc: seq<Fragment>, total: nat)
    requires UnitsInv(units, acc) && Interval(0, (total + 7) / 8) <= units
    ensures (forall p :: 0 <= p < total ==> Covered(acc, p)) <==> NoShortUnit(acc, total)
  {
    if NoShortUnit(acc, total) {
      forall p | 0 <= p < total ensures Covered(acc, p) {
        assert p / 8 in Interval(0, (total + 7) / 8);
        var i :| 0 <= i < |acc| && acc[i].Touches(p / 8);
        UnitHoldsByte(acc[i], p, total);
      }
    }
    if i :| 0 <= i < |acc| && acc[i].End() % 8 != 0 && acc[i].End() < total {
      ShortUnitUncovered(acc, i);
    }
  }

  lemma UnitHoldsByte(f: Fragment, p: nat, total: nat)
    requires f.off % 8 == 0 && f.Touches(p / 8) && p < total
    requires f.End() % 8 == 0 || f.End() >= total
    ensures f.Covers(p)
  {
  }

  lemma ShortUnitUncovered(acc: seq<Fragment>, i: nat)
    requires forall j :: 0 <= j < |acc| ==> Storable(acc[j])
    requires forall j, k :: 0 <= j < k < |acc| ==> acc[j].Apart(acc[k])
    requires i < |acc| && acc[i].End() % 8 != 0
    ensures !Covered(acc, acc[i].End())
  {
    var p := acc[i].End();
    assert acc[i].Touches(p / 8);
    forall j | 0 <= j < |acc| ensures !acc[j].Covers(p) {
      if j != i {
        ApartUnit(acc[i], acc[j], p / 8);
        CoversTouches(acc[j], p);
      }
    }
  }

  /** With at most one MF=0 fragment among its parts, a completed datagram has no unwritten byte. */
  lemma OneLastFragmentSuffices(buf: seq<byte>, arrivals: seq<(Fragment, bool)>, f: Fragment, poolFree: bool)
    requires Completes(buf, arrivals, f, poolFree)
    requires var acc := Parts(buf, arrivals, f, poolFree);
             forall i, j :: 0 <= i < j < |acc| ==> acc[i].mf || acc[j].mf
    ensures forall p :: 0 <= p < |Payload(buf, arrivals, f, poolFree)| ==> Covered(Parts(buf, arrivals, f, poolFree), p)
  {
    var full := CompletionInv(buf, arrivals, f, poolFree);
    OneLastNoShortUnit(Parts(buf, arrivals, f, poolFree));
    FullCoverage(full.units, Parts(buf, arrivals, f, poolFree), full.totalLen);
  }

  lemma OneLastNoShortUnit(acc: seq<Fragment>)
    requires forall i :: 0 <= i < |acc| ==> Storable(acc[i])
    requires forall i, j :: 0 <= i < j < |acc| ==> acc[i].mf || acc[j].mf
    ensures NoShortUnit(acc, TotalLen(acc))
  {
    forall i | 0 <= i < |acc| ensures acc[i].End() % 8 == 0 || acc[i].End() >= TotalLen(acc) {
      if acc[i].mf {
        WholeUnitsEndAligned(acc[i]);
      } else {
        assert forall j :: 0 <= j < |acc| && j != i ==> acc[j].mf;
        OnlyLastGivesTotal(acc, i);
      }
    }
  }

  lemma WholeUnitsEndAligned(f: Fragment)
    requires Storable(f) && f.mf
    ensures f.End() % 8 == 0
  {
  }

  lemma {:induction false} OnlyLastGivesTotal(acc: seq<Fragment>, i: nat)
    requires i < |acc| && !acc[i].mf && forall j :: 0 <= j < |acc| && j != i ==> acc[j].mf
    ensures TotalLen(acc) == acc[i].End()
  {
    if i < |acc| - 1 {
      OnlyLastGivesTotal(acc[..|acc| - 1], i);
    }
  }

  /**
   * The hypothesis is needed: MF=0 fragments [8, 13) and [16, 24) then [0, 8) complete a 24-byte
   * datagram whose byte 13 no fragment carried; it is whatever the buffer held before.
   */
  lemma TwoLastFragmentsLeakStaleBytes(buf: seq<byte>, a: Fragment, b: Fragment, c: Fragment)
    requires |buf| == REASM_BUF_SIZE
    requires a.off == 8 && |a.data| == 5 && !a.mf
    requires b.off == 16 && |b.data| == 8 && !b.mf
    requires c.off == 0 && |c.data| == 8 && c.mf
    ensures var before := [(a, true), (b, true)];
            && Completes(buf, before, c, true) && Parts(buf, before, c, true) == [a, b, c]
            && |Payload(buf, before, c, true)| == 24 && Payload(buf, before, c, true)[13] == buf[13]
    ensures !Covered([a, b, c], 13)
  {
    assert a.Units() == {1} && b.Units() == {2} && c.Units() == {0};
    var s1 := Slot(true, true, 13, {1}, Splice(buf, 8, a.data));
    assert !s1.Full() by {
      assert 0 in Interval(0, 2);
    }
    AcceptedStep(buf, [], a, s1);
    var s2 := Slot(true, true, 24, {1, 2}, Splice(s1.buf, 16, b.data));
    assert !s2.Full() by {
      assert 0 in Interval(0, 3);
    }
    assert [(a, true)] + [(b, true)] == [(a, true), (b, true)];
    AcceptedStep(buf, [(a, true)], b, s2);
    var s3 := Accept(s2, c);
    assert s3.Full() by {
      assert Interval(0, 3) == {0, 1, 2};
    }
    assert s3.buf[13] == s2.buf[13] == s1.buf[13] == buf[13];
  }

  /** One accepted arrival, computed. */
  lemma AcceptedStep(buf: seq<byte>, arrivals: seq<(Fragment, bool)>, f: Fragment, post: Slot)
    requires |buf| == REASM_BUF_SIZE && Storable(f)
    requires var base := Allocated(PoolRun(buf, arrivals).slot);
             base.units * f.Units() == {} && Accept(base, f) == post && !post.Full()
    ensures PoolRun(buf, arrivals + [(f, true)]) == Track(post, PoolRun(buf, arrivals).acc + [f])
  {
    assert (arrivals + [(f, true)])[..|arrivals|] == arrivals;
  }
}
