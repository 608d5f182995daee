/**
 * Every reason code of the reassembly engine, over every run: what an arrival does is decided by the fragments
 * accepted so far and the pool alone.
 */
module ReasmReasons {
  import opened Bytes
  import opened Bitmap
  import opened Reasm

  predicate InBounds(f: Fragment) {
    1 <= |f.data| && f.off + |f.data| <= 2048
  }

  predicate WholeUnits(f: Fragment) {
    f.mf ==> |f.data| % 8 == 0
  }

  /** No accepted fragment shares an 8-byte unit with this one. */
  ghost predicate NoOverlap(acc: seq<Fragment>, f: Fragment) {
    forall i, u :: 0 <= i < |acc| && acc[i].Touches(u) ==> !f.Touches(u)
  }

  /** The end is known, and every unit before it was touched. */
  ghost predicate Complete(acc: seq<Fragment>) {
    && (exists i :: 0 <= i < |acc| && !acc[i].mf)
    && forall u :: 0 <= u && 8 * u < TotalLen(acc) ==> exists i :: 0 <= i < |acc| && acc[i].Touches(u)
  }

  /** The arrival is taken: it could be stored, it has a slot, and it overlaps nothing. */
  ghost predicate Taken(t: Track, f: Fragment, poolFree: bool) {
    InBounds(f) && WholeUnits(f) && (t.slot.active || poolFree) && NoOverlap(t.acc, f)
  }

  /** Each reason has exactly its condition. */
  ghost predicate ReasonFits(t: Track, f: Fragment, poolFree: bool, reason: Reason) {
    var acc := t.acc + [f];
    match reason
    case DropBounds => !InBounds(f)
    case DropNonaligned => InBounds(f) && !WholeUnits(f)
    case DropNoSlot => InBounds(f) && WholeUnits(f) && !t.slot.active && !poolFree
    case DropOverlap => InBounds(f) && WholeUnits(f) && (t.slot.active || poolFree) && !NoOverlap(t.acc, f)
    case OkIncomplete => Taken(t, f, poolFree) && !Complete(acc)
    case OkComplete => Taken(t, f, poolFree) && Complete(acc) && TotalLen(acc) <= 1480
    case DropOversized => Taken(t, f, poolFree) && Complete(acc) && TotalLen(acc) > 1480
  }

  lemma UnitsOverlap(t: Track, f: Fragment)
    requires Inv(t)
    ensures f.Units() * Allocated(t.slot).units == {} <==> NoOverlap(t.acc, f)
  {
    AllocatedInv(t);
    var units := Allocated(t.slot).units;
    assert UnitsInv(units, t.acc);
    if f.Units() * units == {} {
      forall i, u | 0 <= i < |t.acc| && t.acc[i].Touches(u) ensures !f.Touches(u) {
        assert u in units;
        assert u !in f.Units() * units;
      }
    }
    if u :| u in f.Units() * units {
      var i :| 0 <= i < |t.acc| && t.acc[i].Touches(u);
      assert f.Touches(u);
    }
  }

  lemma FullIsComplete(t: Track)
    requires Inv(t)
    ensures t.slot.Full() <==> Complete(t.acc)
  {
    var total := TotalLen(t.acc);
    forall u ensures u in Interval(0, (total + 7) / 8) <==> 0 <= u && 8 * u < total {
    }
    if t.slot.Full() {
      forall u | 0 <= u && 8 * u < total ensures exists i :: 0 <= i < |t.acc| && t.acc[i].Touches(u) {
        assert u in Interval(0, (total + 7) / 8);
      }
    }
    if Complete(t.acc) {
      forall u | u in Interval(0, (total + 7) / 8) ensures u in t.slot.units {
        assert 0 <= u && 8 * u < total;
      }
    }
  }

  /** What an arrival that is taken makes of the slot, before it is settled. */
  lemma TakenSlot(t: Track, f: Fragment, poolFree: bool) returns (a: Slot)
    requires Inv(t) && f.off % 8 == 0 && Taken(t, f, poolFree)
    ensures a.Valid() && a.active && Step(t.slot, f, poolFree) == Settle(a)
    ensures a.totalLen == TotalLen(t.acc + [f]) && (a.Full() <==> Complete(t.acc + [f]))
    ensures Written(t.slot.buf, a.buf, f)
  {
    a := Accept(Allocated(t.slot), f);
    StepIsSettle(t, f, poolFree);
    UnitsOverlap(t, f);
    AllocatedInv(t);
    AcceptWrites(Allocated(t.slot), f);
    hide Inv, UnitsInv, DataInv, LastInv;
    AcceptKeepsInv(Track(Allocated(t.slot), t.acc), f);
    FullIsComplete(Track(a, t.acc + [f]));
    AcceptedTotal(Track(a, t.acc + [f]));
  }

  /** What an accepted arrival settles to. */
  lemma SettledReason(t: Track, f: Fragment, poolFree: bool)
    requires Inv(t) && f.off % 8 == 0 && Taken(t, f, poolFree)
    ensures ReasonFits(t, f, poolFree, Step(t.slot, f, poolFree).reason)
  {
    var a := TakenSlot(t, f, poolFree);
    hide Inv, NoOverlap, Complete, Step, Written;
  }

  lemma AcceptedTotal(t: Track)
    requires Inv(t)
    ensures t.slot.totalLen == TotalLen(t.acc)
  {
  }

  lemma ReasonHolds(t: Track, f: Fragment, poolFree: bool)
    requires Inv(t) && f.off % 8 == 0
    ensures ReasonFits(t, f, poolFree, Step(t.slot, f, poolFree).reason)
  {
    if Taken(t, f, poolFree) {
      SettledReason(t, f, poolFree);
    } else {
      UnitsOverlap(t, f);
      hide Inv, NoOverlap, Complete, Accept, Settle;
    }
  }

  lemma OneReasonFits(t: Track, f: Fragment, poolFree: bool, a: Reason, b: Reason)
    requires ReasonFits(t, f, poolFree, a) && ReasonFits(t, f, poolFree, b)
    ensures a == b
  {
    hide InBounds, WholeUnits, NoOverlap, Complete, TotalLen;
  }

  /**
   * Over every run, with the pool free or full at any arrival: the reason given is the one whose condition holds, and
   * no other's does.
   */
  lemma ReasonsAreExact(buf: seq<byte>, arrivals: seq<(Fragment, bool)>, f: Fragment, poolFree: bool)
    requires |buf| == 2048 && f.off % 8 == 0 && forall i :: 0 <= i < |arrivals| ==> arrivals[i].0.off % 8 == 0
    ensures var t := PoolRun(buf, arrivals);
            forall reason: Reason :: ReasonFits(t, f, poolFree, reason) <==> reason == Step(t.slot, f, poolFree).reason
  {
    PoolRunKeepsInv(buf, arrivals);
    var t := PoolRun(buf, arrivals);
    hide PoolRun, Inv, Step, ReasonFits;
    ReasonHolds(t, f, poolFree);
    forall reason: Reason | ReasonFits(t, f, poolFree, reason) ensures reason == Step(t.slot, f, poolFree).reason {
      OneReasonFits(t, f, poolFree, reason, Step(t.slot, f, poolFree).reason);
    }
  }

  /** The bytes of the fragment are in the buffer, and no other has changed. */
  ghost predicate Written(before: seq<byte>, after: seq<byte>, f: Fragment) {
    && |after| == |before|
    && forall p :: 0 <= p < |after| ==>
         after[p] == if f.off <= p < f.off + |f.data| then f.data[p - f.off] else before[p]
  }

  /** What one arrival leaves behind: the track, and the payload handed up. */
  ghost predicate EffectFits(t: Track, f: Fragment, poolFree: bool, t': Track, payload: seq<byte>) {
    var parts := t.acc + [f];
    && t'.acc == (if !Taken(t, f, poolFree) then t.acc else if Complete(parts) then [] else parts)
    && (t'.slot.active <==>
          if !Taken(t, f, poolFree) then t.slot.active || (InBounds(f) && WholeUnits(f)) else !Complete(parts))
    && (if Taken(t, f, poolFree) then Written(t.slot.buf, t'.slot.buf, f) else t'.slot.buf == t.slot.buf)
    && payload == if Taken(t, f, poolFree) && Complete(parts) && TotalLen(parts) <= 1480 then Prefix(t'.slot.buf, parts)
                  else []
  }

  function Prefix(buf: seq<byte>, parts: seq<Fragment>): seq<byte> {
    if TotalLen(parts) <= |buf| then buf[..TotalLen(parts)] else []
  }

  lemma TakenEffect(t: Track, f: Fragment, poolFree: bool)
    requires Inv(t) && f.off % 8 == 0 && Taken(t, f, poolFree)
    ensures EffectFits(t, f, poolFree, TrackStep(t, f, poolFree), Step(t.slot, f, poolFree).payload)
  {
    var a := TakenSlot(t, f, poolFree);
    hide Inv, NoOverlap, Complete, Step, Written;
  }

  lemma StepIsSettle(t: Track, f: Fragment, poolFree: bool)
    requires Inv(t) && f.off % 8 == 0 && Taken(t, f, poolFree)
    ensures Step(t.slot, f, poolFree) == Settle(Accept(Allocated(t.slot), f))
  {
    UnitsOverlap(t, f);
    hide Inv, NoOverlap;
  }

  lemma AcceptWrites(s: Slot, f: Fragment)
    requires s.Valid() && f.End() <= 2048
    ensures Written(s.buf, Accept(s, f).buf, f)
  {
  }

  lemma RefusedEffect(t: Track, f: Fragment, poolFree: bool)
    requires Inv(t) && !Taken(t, f, poolFree)
    ensures EffectFits(t, f, poolFree, TrackStep(t, f, poolFree), Step(t.slot, f, poolFree).payload)
  {
    UnitsOverlap(t, f);
    hide Inv, NoOverlap, Complete, Accept, Settle;
  }

  /**
   * And nothing else happens: an arrival that is taken is written and joins the accepted ones, which a completion
   * clears with the slot; any other leaves bytes and accepted fragments alone.
   */
  lemma EffectsAreExact(buf: seq<byte>, arrivals: seq<(Fragment, bool)>, f: Fragment, poolFree: bool)
    requires |buf| == 2048 && f.off % 8 == 0 && forall i :: 0 <= i < |arrivals| ==> arrivals[i].0.off % 8 == 0
    ensures var t, t' := PoolRun(buf, arrivals), PoolRun(buf, arrivals + [(f, poolFree)]);
            EffectFits(t, f, poolFree, t', Step(t.slot, f, poolFree).payload)
  {
    PoolRunKeepsInv(buf, arrivals);
    var t, t' := PoolRun(buf, arrivals), PoolRun(buf, arrivals + [(f, poolFree)]);
    assert (arrivals + [(f, poolFree)])[..|arrivals|] == arrivals;
    assert t' == TrackStep(t, f, poolFree);
    hide PoolRun, EffectFits, Inv, TrackStep;
    if Taken(t, f, poolFree) {
      TakenEffect(t, f, poolFree);
    } else {
      RefusedEffect(t, f, poolFree);
    }
  }
}
