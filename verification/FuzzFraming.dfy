/**
 * The length-prefixed frame sequences of the TCP sequence fuzzer: the packer of the seed corpus and
 * the harness loop that takes a sequence apart, with the exact condition under which they agree.
 */
module FuzzFraming {
  import opened Bytes

  const MAX_INPUT := 8192
  const MAX_FRAMES := 32

  type Frame = seq<byte>

  /** What the harness does next: hand a frame to the stack, or close the first connection that can be. */
  datatype Event = Deliver(frame: Frame) | CloseFirst

  // ----- Packing --------------------------------------------------------------------

  predicate Packable(frames: seq<Frame>) {
    forall i :: 0 <= i < |frames| ==> |frames[i]| < 0x1_0000
  }

  function Packed(frames: seq<Frame>): seq<byte>
    requires Packable(frames)
  {
    if frames == [] then [] else PackBE16(|frames[0]|) + frames[0] + Packed(frames[1..])
  }

  lemma {:induction false} PackedSnoc(frames: seq<Frame>, i: nat)
    requires Packable(frames) && i < |frames|
    ensures Packed(frames[..i + 1]) == Packed(frames[..i]) + PackBE16(|frames[i]|) + frames[i]
  {
    var done, next := frames[..i + 1], frames[..i];
    if i == 0 {
      assert done[1..] == [];
    } else {
      PackedSnoc(frames[1..], i - 1);
      assert done[1..] == frames[1..][..i] && next[1..] == frames[1..][..i - 1];
    }
  }

  /** pack_sequence: a frame too long for its length field is a struct.error */
  method PackSequence(frames: seq<Frame>) returns (r: Result<seq<byte>>)
    ensures r.Ok? <==> Packable(frames)
    ensures r.Ok? ==> r.value == Packed(frames) && Lays(r.value, frames)
  {
    var out: seq<byte> := [];
    for i := 0 to |frames|
      invariant Packable(frames[..i])
      invariant out == Packed(frames[..i])
    {
      if |frames[i]| >= 0x1_0000 {
        return Err("struct.error");
      }
      PackedSnoc(frames[..i + 1], i);
      assert frames[..i + 1][..i] == frames[..i] && frames[..i + 1][..i + 1] == frames[..i + 1];
      out := out + PackBE16(|frames[i]|) + frames[i];
    }
    assert frames[..|frames|] == frames;
    PackedLays(frames);
    r := Ok(out);
  }

  // ----- The harness loop -------------------------------------------------------------

  /** What the loop does with the bytes still ahead of it, when `left` more frames may be taken. */
  function Events(b: seq<byte>, left: nat): seq<Event>
    decreases left
  {
    if |b| < 2 || left == 0 then []
    else
      var flen := UnpackBE16(b, 0);
      if flen == 0 then [CloseFirst] + Events(b[2..], left - 1)
      else if 2 + flen > |b| then []
      else
        var n := Min(flen, ETH_FRAME_MAX);
        [Deliver(b[2..2 + n])] + Events(b[2 + n..], left - 1)
  }

  /** The byte-by-byte copy into a frame buffer of its own. */
  method TakeFrame(input: array<byte>, total: nat, off: nat, flen: nat) returns (frame: Frame)
    requires flen <= ETH_FRAME_MAX && off + flen <= total <= input.Length
    ensures frame == input[..total][off..off + flen]
  {
    ghost var data := input[..total];
    var buf := new byte[ETH_FRAME_MAX];
    for i := 0 to flen
      invariant forall k :: 0 <= k < i ==> buf[k] == data[off + k]
    {
      buf[i] := input[off + i];
    }
    frame := buf[..flen];
  }

  /** The big-endian length at `off`. */
  method ReadLength(input: array<byte>, total: nat, off: nat) returns (flen: u16)
    requires off + 2 <= total <= input.Length
    ensures flen == UnpackBE16(input[..total], off)
  {
    flen := Word(input[off], input[off + 1]);
  }

  lemma NothingLeft(b: seq<byte>, left: nat)
    requires |b| < 2 || left == 0
    ensures Events(b, left) == []
  {
  }

  lemma NextClose(b: seq<byte>, off: nat, left: nat)
    requires off + 2 <= |b| && left > 0 && UnpackBE16(b, off) == 0
    ensures Events(b[off..], left) == [CloseFirst] + Events(b[off + 2..], left - 1)
  {
    assert b[off..][2..] == b[off + 2..];
  }

  lemma NextFrame(b: seq<byte>, off: nat, left: nat)
    requires off + 2 <= |b| && left > 0 && UnpackBE16(b, off) > 0
    ensures
      var flen := UnpackBE16(b, off);
      var n := Min(flen, ETH_FRAME_MAX);
      Events(b[off..], left) ==
      if off + 2 + flen > |b| then [] else [Deliver(b[off + 2..off + 2 + n])] + Events(b[off + 2 + n..], left - 1)
  {
    var n := Min(UnpackBE16(b, off), ETH_FRAME_MAX);
    if off + 2 + n <= |b| {
      assert b[off..][2 + n..] == b[off + 2 + n..] && b[off..][2..2 + n] == b[off + 2..off + 2 + n];
    }
  }

  /** main, after the read of `total` bytes into the input buffer */
  method RunInput(input: array<byte>, total: nat) returns (events: seq<Event>)
    requires input.Length == 8192 && total <= 8192
    ensures events == Events(input[..total], 32)
  {
    hide Events, UnpackBE16;
    ghost var data := input[..total];
    events := [];
    var off, nframes := 0, 0;
    assert data[0..] == data;
    while off + 2 <= total && nframes < MAX_FRAMES
      invariant off <= total && nframes <= MAX_FRAMES
      invariant input[..total] == data
      invariant Events(data, MAX_FRAMES) == events + Events(data[off..], MAX_FRAMES - nframes)
      decreases total - off
    {
      var flen := ReadLength(input, total, off);
      ghost var left := MAX_FRAMES - nframes;
      off := off + 2;
      if flen == 0 {
        NextClose(data, off - 2, left);
        events := events + [CloseFirst];
        nframes := nframes + 1;
        continue;
      }
      NextFrame(data, off - 2, left);
      if off + flen > total {
        assert events + [] == events;
        return;
      }
      if flen > ETH_FRAME_MAX {
        flen := ETH_FRAME_MAX;
      }
      var frame := TakeFrame(input, total, off, flen);
      events := events + [Deliver(frame)];
      off := off + flen;
      nframes := nframes + 1;
    }
    NothingLeft(data[off..], MAX_FRAMES - nframes);
  }

  /** The big-endian number at a place. */
  function LengthAt(b: seq<byte>, o: nat): int
    requires o + 2 <= |b|
  {
    256 * (b[o] as int) + b[o + 1]
  }

  /** One step of the loop at place `o`: what it does, and where it goes on. */
  predicate StepsTo(b: seq<byte>, o: nat, e: Event, o': nat) {
    && o + 2 <= |b| && o + 2 + LengthAt(b, o) <= |b|
    && var n := LengthAt(b, o);
    && o' == o + 2 + (if n > 1514 then 1514 else n)
    && (if n == 0 then e == CloseFirst else o + 2 <= o' <= |b| && e == Deliver(b[o + 2..o']))
  }

  /**
   * The events of an input with the places they are read from: the loop goes on while there is a step, up to 32 times.
   */
  ghost predicate ReadsAt(b: seq<byte>, at: seq<nat>, events: seq<Event>, limit: nat) {
    && |at| == |events| + 1 && at[0] == 0 && |events| <= limit
    && (forall k :: 0 <= k < |events| ==> StepsTo(b, at[k], events[k], at[k + 1]))
    && (|events| == limit || forall e, o :: !StepsTo(b, at[|events|], e, o))
  }

  lemma EventsStep(b: seq<byte>, left: nat)
    ensures Events(b, left) == [] <==> left == 0 || forall e, o :: !StepsTo(b, 0, e, o)
    ensures Events(b, left) != [] ==>
              left > 0 && exists o :: 0 <= o <= |b| && StepsTo(b, 0, Events(b, left)[0], o)
                                      && Events(b, left)[1..] == Events(b[o..], left - 1)
  {
    if |b| >= 2 && left > 0 {
      var n := LengthAt(b, 0);
      if 2 + n <= |b| {
        var o := 2 + if n > 1514 then 1514 else n;
        assert StepsTo(b, 0, Events(b, left)[0], o);
      }
    }
  }

  /** For every input: the loop's events are read at the right places, cut at 1514 bytes, until none can be read. */
  lemma {:induction false} EventsAreRead(b: seq<byte>, left: nat) returns (at: seq<nat>)
    ensures ReadsAt(b, at, Events(b, left), left)
    decreases left
  {
    EventsStep(b, left);
    var events := Events(b, left);
    hide Events, StepsTo;
    if events == [] {
      at := [0];
    } else {
      var o :| 0 <= o <= |b| && StepsTo(b, 0, events[0], o) && events[1..] == Events(b[o..], left - 1);
      var rest := EventsAreRead(b[o..], left - 1);
      at := [0] + Moved(rest, o);
      forall k | 0 <= k < |events| ensures StepsTo(b, at[k], events[k], at[k + 1]) {
        if k > 0 {
          StepInside(b[o..], rest, events[1..], left - 1, k - 1);
          StepMoves(b, o, rest[k - 1], events[k], rest[k]);
        }
      }
      forall e, o' | |events| < left ensures !StepsTo(b, at[|events|], e, o') {
        StepMovesBack(b, o, rest[|events| - 1], e, o');
      }
    }
  }

  function Moved(at: seq<nat>, o: nat): seq<nat> {
    seq(|at|, i requires 0 <= i < |at| => at[i] + o)
  }

  lemma StepInside(b: seq<byte>, at: seq<nat>, events: seq<Event>, limit: nat, k: nat)
    requires ReadsAt(b, at, events, limit) && k < |events|
    ensures StepsTo(b, at[k], events[k], at[k + 1])
  {
  }

  lemma LengthMoves(b: seq<byte>, o: nat, p: nat)
    requires o + p + 2 <= |b|
    ensures LengthAt(b[o..], p) == LengthAt(b, p + o)
  {
    assert b[o..][p] == b[p + o] && b[o..][p + 1] == b[p + o + 1];
  }

  lemma SliceMoves(b: seq<byte>, o: nat, p: nat, q: nat)
    requires o <= |b| && p <= q <= |b| - o
    ensures b[o..][p..q] == b[p + o..q + o]
  {
  }

  /** A step behind a place is a step there. */
  lemma StepMoves(b: seq<byte>, o: nat, p: nat, e: Event, q: nat)
    requires o <= |b| && StepsTo(b[o..], p, e, q)
    ensures StepsTo(b, p + o, e, q + o)
  {
    LengthMoves(b, o, p);
    hide LengthAt;
    if e.Deliver? {
      SliceMoves(b, o, p + 2, q);
    }
  }

  /** And none there is one that is not behind the place. */
  lemma StepMovesBack(b: seq<byte>, o: nat, p: nat, e: Event, q: nat)
    requires o <= |b| && forall e', q' :: !StepsTo(b[o..], p, e', q')
    ensures !StepsTo(b, p + o, e, q)
  {
    if p + o + 2 <= |b| && o <= q <= |b| {
      LengthMoves(b, o, p);
      hide LengthAt;
      if p + 2 <= q - o {
        SliceMoves(b, o, p + 2, q - o);
      }
      assert !StepsTo(b[o..], p, e, q - o);
    }
  }

  // ----- The two together -------------------------------------------------------------

  /** The events that a list of frames asks for: an empty frame is a close. */
  function Asked(frames: seq<Frame>): (r: seq<Event>)
    ensures |r| == |frames|
  {
    if frames == [] then []
    else [if frames[0] == [] then CloseFirst else Deliver(frames[0])] + Asked(frames[1..])
  }

  function EventSize(e: Event): nat {
    2 + (if e.Deliver? then |e.frame| else 0)
  }

  function TotalSize(events: seq<Event>): nat {
    if events == [] then 0 else EventSize(events[0]) + TotalSize(events[1..])
  }

  /** No input gives more events than allowed, a frame above the Ethernet maximum, or more bytes than it had. */
  lemma {:induction false} EventsAreBounded(b: seq<byte>, left: nat)
    ensures |Events(b, left)| <= left && TotalSize(Events(b, left)) <= |b|
    ensures forall i :: 0 <= i < |Events(b, left)| ==> EventSize(Events(b, left)[i]) <= 2 + ETH_FRAME_MAX
    decreases left
  {
    if |b| >= 2 && left > 0 {
      var flen := UnpackBE16(b, 0);
      var n := if flen == 0 then 0 else Min(flen, ETH_FRAME_MAX);
      if 2 + flen <= |b| {
        EventsAreBounded(b[2 + n..], left - 1);
        assert Events(b, left)[1..] == Events(b[2 + n..], left - 1);
      }
    }
  }

  predicate Short(frames: seq<Frame>) {
    forall i :: 0 <= i < |frames| ==> |frames[i]| <= ETH_FRAME_MAX
  }

  /** The bytes are the frames one after the other, each behind its length. */
  ghost predicate Lays(b: seq<byte>, frames: seq<Frame>) {
    if frames == [] then b == []
    else
      var f := frames[0];
      && |b| >= 2 + |f| && UnpackBE16(b, 0) == |f| && b[2..2 + |f|] == f
      && Lays(b[2 + |f|..], frames[1..])
  }

  lemma LengthReadsBack(f: Frame, rest: seq<byte>)
    requires |f| < 0x1_0000
    ensures
      var b := PackBE16(|f|) + f + rest;
      UnpackBE16(b, 0) == |f| && b[2..2 + |f|] == f && b[2 + |f|..] == rest
  {
    var w := |f|;
    assert Word(w / 0x100, w % 0x100) == w;
  }

  lemma {:induction false} PackedLays(frames: seq<Frame>)
    requires Packable(frames)
    ensures Lays(Packed(frames), frames)
  {
    hide PackBE16;
    if frames != [] {
      LengthReadsBack(frames[0], Packed(frames[1..]));
      PackedLays(frames[1..]);
    }
  }

  /** Frames that are few and short enough come out exactly as they went in. */
  lemma {:induction false} ShortFramesDelivered(b: seq<byte>, frames: seq<Frame>, left: nat)
    requires Lays(b, frames) && Short(frames) && |frames| <= left
    ensures Events(b, left) == Asked(frames)
    decreases |frames|
  {
    hide Events, UnpackBE16;
    if frames == [] {
      NothingLeft(b, left);
    } else {
      var f := frames[0];
      ShortFramesDelivered(b[2 + |f|..], frames[1..], left - 1);
      assert b[0..] == b;
      if f == [] {
        NextClose(b, 0, left);
      } else {
        NextFrame(b, 0, left);
      }
    }
  }

  lemma {:induction false} AskedSize(b: seq<byte>, frames: seq<Frame>)
    requires Lays(b, frames)
    ensures TotalSize(Asked(frames)) == |b|
    ensures forall i :: 0 <= i < |frames| ==> EventSize(Asked(frames)[i]) == 2 + |frames[i]|
    decreases |frames|
  {
    if frames != [] {
      AskedSize(b[2 + |frames[0]|..], frames[1..]);
      assert Asked(frames)[1..] == Asked(frames[1..]);
    }
  }

  /** What read() leaves in the input buffer. */
  function Received(b: seq<byte>): seq<byte> {
    b[..Min(|b|, MAX_INPUT)]
  }

  /**
   * The harness replays a packed sequence faithfully exactly when it has at most 32 frames, none of them longer
   * than an Ethernet frame, and fits the input buffer.
   */
  lemma FramingIsExact(b: seq<byte>, frames: seq<Frame>)
    requires Lays(b, frames)
    ensures Events(Received(b), MAX_FRAMES) == Asked(frames) <==>
            |frames| <= 32 && (forall i :: 0 <= i < |frames| ==> |frames[i]| <= 1514) && |b| <= 8192
  {
    if |frames| <= MAX_FRAMES && Short(frames) && |b| <= MAX_INPUT {
      ShortFramesDelivered(b, frames, MAX_FRAMES);
      assert Received(b) == b;
    }
    if Events(Received(b), MAX_FRAMES) == Asked(frames) {
      EventsAreBounded(Received(b), MAX_FRAMES);
      AskedSize(b, frames);
      forall i | 0 <= i < |frames| ensures |frames[i]| <= ETH_FRAME_MAX {
        assert EventSize(Asked(frames)[i]) == 2 + |frames[i]|;
      }
    }
  }

  /** A frame one byte too long is cut, and what follows is misread: here a frame is lost and a close invented. */
  lemma LongFrameDesynchronises(f: Frame, x: byte, b: seq<byte>)
    requires |f| == ETH_FRAME_MAX + 1 && f[ETH_FRAME_MAX] == 0 && Lays(b, [f, [x]])
    ensures Events(Received(b), MAX_FRAMES) == [Deliver(f[..ETH_FRAME_MAX]), CloseFirst]
  {
    hide Events, Lays, UnpackBE16;
    LongFrameBytes(f, x, b);
    var rest: seq<byte> := [0, 0, 1, x];
    assert b[0..] == b && rest[0..] == rest && Received(b) == b;
    NextFrame(b, 0, MAX_FRAMES);
    NextClose(rest, 0, MAX_FRAMES - 1);
    NextFrame(rest, 2, MAX_FRAMES - 2);
    assert b[2..1516] == b[2..1517][..1514];
  }

  /** What lies behind the cut: the byte left over, then the length and the byte of the next frame. */
  lemma LongFrameBytes(f: Frame, x: byte, b: seq<byte>)
    requires |f| == ETH_FRAME_MAX + 1 && f[ETH_FRAME_MAX] == 0 && Lays(b, [f, [x]])
    ensures |b| == 1520 && UnpackBE16(b, 0) == 1515 && b[2..1517] == f && b[1516..] == [0, 0, 1, x]
    ensures UnpackBE16([0, 0, 1, x], 0) == 0 && UnpackBE16([0, 0, 1, x], 2) == 0x100 + x as int
  {
    var frames: seq<Frame> := [f, [x]];
    var tail := b[1517..];
    assert frames[0] == f && frames[1..] == [[x]];
    TailLays(tail, x);
    hide Lays;
    assert b[1516] == b[2..1517][1514] == 0;
    assert b[1516..] == [b[1516]] + tail;
  }

  lemma TailLays(tail: seq<byte>, x: byte)
    requires Lays(tail, [[x]])
    ensures tail == [0, 1, x]
  {
    var last: seq<Frame> := [[x]];
    assert last[0] == [x] && last[1..] == [];
    assert tail[2..3] == [x] && tail[3..] == [];
  }
}
