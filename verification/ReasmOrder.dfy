/**
 * Any-order reassembly: whatever the order and duplication in which the fragments of a datagram
 * arrive, the engine hands up the datagram at the arrival of the last missing one.
 */
module ReasmOrder {
  import opened Bytes
  import opened Bitmap
  import opened Reasm

  const REASM_COMPLETE_LIMIT := 1480

  /** `frags` cuts `payload` into consecutive pieces, all but the last of whole 8-byte units with MF=1. */
  ghost predicate Tiling(frags: seq<Fragment>, payload: seq<byte>) {
    && |frags| > 0 && frags[0].off == 0
    && frags[|frags| - 1].End() == |payload|
    && (forall k :: 0 <= k < |frags| ==> Piece(frags[k], payload) && (frags[k].mf <==> k < |frags| - 1))
    && (forall k {:trigger Follows(frags, k)} :: 0 <= k < |frags| - 1 ==> Follows(frags, k))
  }

  predicate Piece(f: Fragment, payload: seq<byte>) {
    && f.off % 8 == 0 && |f.data| > 0 && f.End() <= |payload|
    && f.data == payload[f.off..f.End()]
    && (f.mf ==> |f.data| % 8 == 0)
  }

  predicate Follows(frags: seq<Fragment>, k: int)
    requires 0 <= k < |frags| - 1
  {
    frags[k + 1].off == frags[k].End()
  }

  lemma {:induction false} TilingOrdered(frags: seq<Fragment>, payload: seq<byte>, i: nat, j: nat)
    requires Tiling(frags, payload) && i < j < |frags|
    ensures frags[i].End() <= frags[j].off && frags[i].Apart(frags[j]) && frags[i] != frags[j]
    decreases j
  {
    assert Follows(frags, j - 1);
    assert frags[i].mf;
    assert Piece(frags[i], payload) && Piece(frags[j], payload) && Piece(frags[j - 1], payload);
    if i < j - 1 {
      TilingOrdered(frags, payload, i, j - 1);
    }
    UnitsOrdered(frags[i], frags[j]);
  }

  lemma UnitsOrdered(f: Fragment, g: Fragment)
    requires f.End() <= g.off && g.off % 8 == 0 && f.off % 8 == 0 && |f.data| > 0 && |f.data| % 8 == 0
    ensures f.Apart(g)
  {
  }

  /** Every byte, and so every unit, of the payload lies in some piece. */
  lemma {:induction false} TilingCovers(frags: seq<Fragment>, payload: seq<byte>, n: nat, p: nat) returns (k: nat)
    requires Tiling(frags, payload) && 0 < n <= |frags| && p < frags[n - 1].End()
    ensures k < n && frags[k].Covers(p)
    decreases n
  {
    if frags[n - 1].Covers(p) {
      k := n - 1;
    } else {
      assert n > 1;
      assert Follows(frags, n - 2);
      k := TilingCovers(frags, payload, n - 1, p);
    }
  }

  // ----- The slot in mid-reassembly ------------------------------------------

  ghost predicate AllFrom(frags: seq<Fragment>, arrivals: seq<Fragment>) {
    forall f :: f in arrivals ==> f in frags
  }

  /** Every fragment has arrived. */
  ghost predicate Arrived(frags: seq<Fragment>, arrivals: seq<Fragment>) {
    forall f :: f in frags ==> f in arrivals
  }

  /** The slot holds exactly the distinct fragments that arrived, and their bytes of the payload. */
  ghost predicate Holds(s: Slot, frags: seq<Fragment>, payload: seq<byte>, arrivals: seq<Fragment>)
    requires |frags| > 0
  {
    && s.Valid()
    && (s.active <==> arrivals != [])
    && UnitsHeld(s.units, arrivals)
    && (s.haveLast <==> frags[|frags| - 1] in arrivals)
    && (s.haveLast ==> s.totalLen == |payload|)
    && BytesHeld(s.buf, payload, arrivals)
  }

  /** The bitmap's units are those the arrivals touch. */
  ghost predicate UnitsHeld(units: set<int>, arrivals: seq<Fragment>) {
    forall u :: u in units <==> exists f :: f in arrivals && f.Touches(u)
  }

  /** The bytes of the arrivals stand in the buffer as in the payload. */
  ghost predicate BytesHeld(buf: seq<byte>, payload: seq<byte>, arrivals: seq<Fragment>)
    requires |buf| == REASM_BUF_SIZE
  {
    forall f, p :: f in arrivals && f.Covers(p) && p < REASM_BUF_SIZE && p < |payload| ==> buf[p] == payload[p]
  }

  lemma ArrivedUnits(frags: seq<Fragment>, payload: seq<byte>, arrivals: seq<Fragment>, f: Fragment, u: int)
    requires Tiling(frags, payload) && AllFrom(frags, arrivals) && f in frags
    requires f.Touches(u) && f !in arrivals
    ensures !exists g :: g in arrivals && g.Touches(u)
  {
    var i :| 0 <= i < |frags| && frags[i] == f;
    forall g | g in arrivals ensures !g.Touches(u) {
      var j :| 0 <= j < |frags| && frags[j] == g;
      if i < j {
        TilingOrdered(frags, payload, i, j);
      } else if j < i {
        TilingOrdered(frags, payload, j, i);
      }
      ApartUnit(f, g, u);
    }
  }

  /** The slot is full exactly when every fragment has arrived. */
  lemma FullIffArrived(s: Slot, frags: seq<Fragment>, payload: seq<byte>, arrivals: seq<Fragment>)
    requires Tiling(frags, payload) && AllFrom(frags, arrivals) && Holds(s, frags, payload, arrivals)
    ensures s.Full() <==> Arrived(frags, arrivals)
  {
    if Arrived(frags, arrivals) {
      forall u | u in Interval(0, (|payload| + 7) / 8) ensures u in s.units {
        ArrivedCoversUnit(frags, payload, arrivals, u);
      }
    } else {
      var f :| f in frags && f !in arrivals;
      MissingLeavesHole(frags, payload, arrivals, f);
      assert f.off / 8 !in s.units;
    }
  }

  lemma ArrivedCoversUnit(frags: seq<Fragment>, payload: seq<byte>, arrivals: seq<Fragment>, u: nat)
    requires Tiling(frags, payload) && Arrived(frags, arrivals) && 8 * u < |payload|
    ensures exists f :: f in arrivals && f.Touches(u)
  {
    var k := TilingCovers(frags, payload, |frags|, 8 * u);
    CoversTouches(frags[k], 8 * u);
    assert frags[k] in arrivals;
  }

  lemma MissingLeavesHole(frags: seq<Fragment>, payload: seq<byte>, arrivals: seq<Fragment>, f: Fragment)
    requires Tiling(frags, payload) && AllFrom(frags, arrivals) && f in frags && f !in arrivals
    ensures !exists g :: g in arrivals && g.Touches(f.off / 8)
    ensures f.off / 8 in Interval(0, (|payload| + 7) / 8)
  {
    var i :| 0 <= i < |frags| && frags[i] == f;
    assert Piece(frags[i], payload);
    ArrivedUnits(frags, payload, arrivals, f, f.off / 8);
  }

  lemma HoldsAfterAccept(s: Slot, frags: seq<Fragment>, payload: seq<byte>, arrivals: seq<Fragment>, f: Fragment)
    requires Tiling(frags, payload) && |payload| <= REASM_BUF_SIZE
    requires Holds(s, frags, payload, arrivals) && f in frags
    ensures f.End() <= REASM_BUF_SIZE
    ensures Holds(Accept(Allocated(s), f), frags, payload, arrivals + [f])
  {
    var i :| 0 <= i < |frags| && frags[i] == f;
    assert Piece(frags[i], payload);
    UnitsAfterAccept(s.units, arrivals, f);
    NoUnitsYet(s.units, arrivals);
    BytesAfterAccept(s.buf, payload, arrivals, f);
    hide UnitsHeld, BytesHeld, Tiling;
  }

  lemma NoUnitsYet(units: set<int>, arrivals: seq<Fragment>)
    requires UnitsHeld(units, arrivals)
    ensures arrivals == [] ==> units == {}
  {
    assert forall u :: u in units ==> exists g :: g in arrivals && g.Touches(u);
  }

  lemma BytesAfterAccept(buf: seq<byte>, payload: seq<byte>, arrivals: seq<Fragment>, f: Fragment)
    requires |buf| == REASM_BUF_SIZE && BytesHeld(buf, payload, arrivals) && Piece(f, payload)
             && f.End() <= REASM_BUF_SIZE
    ensures BytesHeld(Splice(buf, f.off, f.data), payload, arrivals + [f])
  {
    var post := Splice(buf, f.off, f.data);
    forall g, p | g in arrivals + [f] && g.Covers(p) && p < REASM_BUF_SIZE && p < |payload|
      ensures post[p] == payload[p]
    {
      if f.Covers(p) {
        assert post[p] == f.data[p - f.off] == payload[p];
      } else {
        assert g in arrivals && post[p] == buf[p];
      }
    }
  }

  lemma UnitsAfterAccept(units: set<int>, arrivals: seq<Fragment>, f: Fragment)
    requires UnitsHeld(units, arrivals)
    ensures UnitsHeld(units + f.Units(), arrivals + [f])
  {
    assert f in arrivals + [f];
    forall u | u in units + f.Units() ensures exists g :: g in arrivals + [f] && g.Touches(u) {
      if u in units {
        var g :| g in arrivals && g.Touches(u);
        assert g in arrivals + [f];
      }
    }
  }

  /** A duplicate changes nothing: the same fragments have arrived. */
  lemma HoldsAfterDuplicate(s: Slot, frags: seq<Fragment>, payload: seq<byte>, arrivals: seq<Fragment>, f: Fragment)
    requires |frags| > 0 && Holds(s, frags, payload, arrivals) && f in arrivals
    ensures Holds(s, frags, payload, arrivals + [f])
  {
    assert forall g :: g in arrivals + [f] <==> g in arrivals;
  }

  lemma StepOnArrival(s: Slot, frags: seq<Fragment>, payload: seq<byte>, arrivals: seq<Fragment>, f: Fragment)
    requires Tiling(frags, payload) && |payload| <= REASM_BUF_SIZE
    requires AllFrom(frags, arrivals) && f in frags && Holds(s, frags, payload, arrivals)
    ensures f in arrivals ==> Step(s, f, true) == Outcome(DropOverlap, s, [])
    ensures f !in arrivals ==> f.End() <= REASM_BUF_SIZE && Step(s, f, true) == Settle(Accept(Allocated(s), f))
  {
    var i :| 0 <= i < |frags| && frags[i] == f;
    assert Piece(frags[i], payload);
    assert arrivals == [] ==> s.units == {} by {
      assert forall u :: u in s.units ==> exists g :: g in arrivals && g.Touches(u);
    }
    if f in arrivals {
      assert f.Touches(f.off / 8);
      assert f.off / 8 in f.Units() * s.units;
    } else {
      forall u | u in f.Units() ensures u !in s.units {
        ArrivedUnits(frags, payload, arrivals, f, u);
      }
    }
  }

  // ----- The theorem -----------------------------------------------------------

  /** What the engine answers to the i-th arrival of a run. */
  function OutcomeAt(buf: seq<byte>, arrivals: seq<Fragment>, i: nat): Outcome
    requires |buf| == REASM_BUF_SIZE && i < |arrivals|
  {
    Step(Run(buf, arrivals[..i]).slot, arrivals[i], true)
  }

  lemma {:induction false} RunHolds(buf: seq<byte>, frags: seq<Fragment>, payload: seq<byte>, arrivals: seq<Fragment>)
    requires |buf| == REASM_BUF_SIZE && Tiling(frags, payload) && |payload| <= REASM_BUF_SIZE
    requires AllFrom(frags, arrivals) && !Arrived(frags, arrivals)
    ensures Holds(Run(buf, arrivals).slot, frags, payload, arrivals)
  {
    if arrivals != [] {
      var n := |arrivals| - 1;
      var before, f := arrivals[..n], arrivals[n];
      assert arrivals == before + [f];
      RunHolds(buf, frags, payload, before);
      var s := Run(buf, before).slot;
      StepOnArrival(s, frags, payload, before, f);
      if f in before {
        HoldsAfterDuplicate(s, frags, payload, before, f);
      } else {
        HoldsAfterAccept(s, frags, payload, before, f);
        FullIffArrived(Accept(Allocated(s), f), frags, payload, arrivals);
      }
    }
  }

  /** The expected answer to an arrival while the datagram is still incomplete. */
  function Expected(frags: seq<Fragment>, payload: seq<byte>, before: seq<Fragment>, f: Fragment): (Reason, seq<byte>) {
    if f in before then (DropOverlap, [])
    else if exists g :: g in frags && g !in before + [f] then (OkIncomplete, [])
    else if |payload| <= REASM_COMPLETE_LIMIT then (OkComplete, payload)
    else (DropOversized, [])
  }

  /**
   * For every payload of at most 2048 bytes cut into aligned pieces, and every sequence of arrivals
   * of those pieces in any order with any duplicates: while some piece is missing, a piece already
   * seen is dropped as an overlap and a new one is accepted; the arrival of the last missing piece
   * yields the whole payload, or is dropped as oversized above 1480 bytes, and frees the slot.
   */
  lemma AnyOrderReassembles(buf: seq<byte>, frags: seq<Fragment>, payload: seq<byte>, arrivals: seq<Fragment>, i: nat)
    requires |buf| == REASM_BUF_SIZE && Tiling(frags, payload) && |payload| <= REASM_BUF_SIZE
    requires AllFrom(frags, arrivals) && i < |arrivals| && !Arrived(frags, arrivals[..i])
    ensures var r := OutcomeAt(buf, arrivals, i);
            && (r.reason, r.payload) == Expected(frags, payload, arrivals[..i], arrivals[i])
            && (Arrived(frags, arrivals[..i + 1]) <==> !r.post.active)
  {
    var before, f := arrivals[..i], arrivals[i];
    assert arrivals[..i + 1] == before + [f];
    RunHolds(buf, frags, payload, before);
    var s := Run(buf, before).slot;
    StepOnArrival(s, frags, payload, before, f);
    if f in before {
      assert Arrived(frags, before + [f]) ==> Arrived(frags, before);
    } else {
      HoldsAfterAccept(s, frags, payload, before, f);
      var post := Accept(Allocated(s), f);
      FullIffArrived(post, frags, payload, before + [f]);
      if Arrived(frags, before + [f]) {
        AllBytesHeld(post, frags, payload, before + [f]);
      }
    }
  }

  lemma AllBytesHeld(s: Slot, frags: seq<Fragment>, payload: seq<byte>, arrivals: seq<Fragment>)
    requires Tiling(frags, payload) && |payload| <= REASM_BUF_SIZE
    requires Holds(s, frags, payload, arrivals) && Arrived(frags, arrivals)
    ensures s.buf[..|payload|] == payload
  {
    forall p | 0 <= p < |payload| ensures s.buf[p] == payload[p] {
      var k := TilingCovers(frags, payload, |frags|, p);
      assert frags[k] in arrivals;
    }
  }

  /** Above 2048 bytes no order of arrivals ever completes: the MF=0 fragment never fits. */
  lemma {:induction false} TooLargeNeverCompletes(buf: seq<byte>, frags: seq<Fragment>, payload: seq<byte>,
                                                arrivals: seq<Fragment>)
    requires |buf| == REASM_BUF_SIZE && Tiling(frags, payload) && |payload| > REASM_BUF_SIZE
    requires AllFrom(frags, arrivals)
    ensures !Run(buf, arrivals).slot.haveLast
    ensures forall i :: 0 <= i < |arrivals| ==>
              var r := OutcomeAt(buf, arrivals, i).reason;
              r == DropBounds || r == DropOverlap || r == OkIncomplete
  {
    if arrivals != [] {
      var n := |arrivals| - 1;
      var before, f := arrivals[..n], arrivals[n];
      TooLargeNeverCompletes(buf, frags, payload, before);
      assert f in arrivals;
      var k :| 0 <= k < |frags| && frags[k] == f;
      assert Piece(frags[k], payload);
      forall i | 0 <= i < n ensures OutcomeAt(buf, arrivals, i) == OutcomeAt(buf, before, i) {
        assert arrivals[..i] == before[..i];
      }
    }
  }
}
