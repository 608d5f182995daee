/** Waiting for frames on a live capture: a cursor over a log that is read again from its start on every poll. */
module Capture {
  import opened Bytes

  const READY_PROBE_ETHERTYPE := 0x88B5

  type Frame = seq<byte>

  /** A captured packet; a broken one raises when it is turned into bytes. */
  datatype Packet = Packet(data: Frame) | Broken

  /** What looking at a packet comes to; a caller's predicate may raise. */
  datatype Look = Match | NoMatch | Raises

  type Predicate = Frame -> Look

  /** Frames too short for an Ethernet header and readiness probes are passed over, the rest is up to the caller. */
  function LookAt(p: Packet, wanted: Predicate): Look {
    if p.Broken? then Raises
    else if |p.data| < 14 || Word(p.data[12], p.data[13]) == READY_PROBE_ETHERTYPE then NoMatch
    else wanted(p.data)
  }

  /** All the frames that match, in capture order. */
  function Matching(log: seq<Packet>, wanted: Predicate): seq<Frame> {
    if log == [] then []
    else
      var p := log[|log| - 1];
      Matching(log[..|log| - 1], wanted) + (if LookAt(p, wanted) == Match && p.Packet? then [p.data] else [])
  }

  lemma MatchingNext(log: seq<Packet>, wanted: Predicate, i: nat)
    requires i < |log|
    ensures Matching(log[..i + 1], wanted) ==
            Matching(log[..i], wanted)
            + (if LookAt(log[i], wanted) == Match && log[i].Packet? then [log[i].data] else [])
  {
    assert log[..i + 1][..i] == log[..i];
  }

  lemma {:induction false} MatchingGrows(log: seq<Packet>, wanted: Predicate, i: nat, j: nat)
    requires i <= j <= |log|
    ensures Matching(log[..i], wanted) <= Matching(log[..j], wanted)
    decreases j - i
  {
    if i < j {
      MatchingGrows(log, wanted, i, j - 1);
      MatchingNext(log, wanted, j - 1);
    }
  }

  // ----- How far the polls get ----------------------------------------------------------

  /** Where a poll that can read `p` packets leaves the cursor: behind all of them, or behind the first that raises. */
  function Advance(log: seq<Packet>, wanted: Predicate, from: nat, p: nat): (to: nat)
    requires from <= |log| && p <= |log|
    ensures from <= to <= |log| && (from <= p ==> to <= p) && (from >= p ==> to == from)
    decreases p - from
  {
    if from >= p then from
    else if LookAt(log[from], wanted) == Raises then from + 1
    else Advance(log, wanted, from + 1, p)
  }

  predicate Readable(log: seq<Packet>, polls: seq<nat>) {
    forall i :: 0 <= i < |polls| ==> polls[i] <= |log|
  }

  /** The cursor after all polls. */
  function Cursor(log: seq<Packet>, wanted: Predicate, polls: seq<nat>): (c: nat)
    requires Readable(log, polls)
    ensures c <= |log|
  {
    if polls == [] then 0
    else Advance(log, wanted, Cursor(log, wanted, polls[..|polls| - 1]), polls[|polls| - 1])
  }

  lemma CursorNext(log: seq<Packet>, wanted: Predicate, polls: seq<nat>, k: nat)
    requires Readable(log, polls) && k < |polls|
    ensures Cursor(log, wanted, polls[..k + 1]) == Advance(log, wanted, Cursor(log, wanted, polls[..k]), polls[k])
  {
    assert polls[..k + 1][..k] == polls[..k];
  }

  lemma {:induction false} CursorGrows(log: seq<Packet>, wanted: Predicate, polls: seq<nat>, k: nat)
    requires Readable(log, polls) && k <= |polls|
    ensures Cursor(log, wanted, polls[..k]) <= Cursor(log, wanted, polls)
    decreases |polls| - k
  {
    if k < |polls| {
      CursorNext(log, wanted, polls, k);
      CursorGrows(log, wanted, polls, k + 1);
    } else {
      assert polls[..k] == polls;
    }
  }

  lemma NothingRead(log: seq<Packet>, polls: seq<nat>, wanted: Predicate)
    requires Readable(log, polls)
    ensures Cursor(log, wanted, polls[..0]) == 0 && Matching(log[..0], wanted) == []
  {
  }

  // ----- The wait -----------------------------------------------------------------------

  /** The number of matches that ends the wait: the first one already does when fewer than one is asked for. */
  function Needed(count: int): nat {
    if count < 1 then 1 else count
  }

  /** What the wait returns: the matches among the packets passed, up to the number that ends it. */
  function Expected(log: seq<Packet>, polls: seq<nat>, wanted: Predicate, count: int): seq<Frame>
    requires Readable(log, polls)
  {
    var all := Matching(log[..Cursor(log, wanted, polls)], wanted);
    if |all| >= Needed(count) then all[..Needed(count)] else all
  }

  /**
   * wait_for_frames: each poll yields the first packets of the log, as many as were readable then, and
   * stops there, at the end of the file or by an exception alike; an exception while looking at a packet
   * ends the poll behind that packet; the deadline ends the polls.
   */
  method WaitForFrames(log: seq<Packet>, polls: seq<nat>, wanted: Predicate, count: int) returns (matches: seq<Frame>)
    requires Readable(log, polls)
    ensures matches == Expected(log, polls, wanted, count)
  {
    hide Cursor, Matching, LookAt;
    matches := [];
    var seenOffset := 0;
    NothingRead(log, polls, wanted);
    for k := 0 to |polls|
      invariant seenOffset == Cursor(log, wanted, polls[..k]) <= |log|
      invariant matches == Matching(log[..seenOffset], wanted)
      invariant |matches| < Needed(count)
    {
      CursorNext(log, wanted, polls, k);
      var done;
      matches, seenOffset, done := ReadPoll(log, polls[k], wanted, count, seenOffset, matches);
      if done {
        CutAtLast(log, polls, wanted, count, seenOffset, k);
        return;
      }
    }
    assert polls[..|polls|] == polls;
  }

  /** One poll: the packets before the cursor are skipped, the others looked at one by one. */
  method ReadPoll(log: seq<Packet>, p: nat, wanted: Predicate, count: int, seen: nat, found: seq<Frame>)
    returns (matches: seq<Frame>, seenOffset: nat, done: bool)
    requires p <= |log| && seen <= |log| && found == Matching(log[..seen], wanted) && |found| < Needed(count)
    ensures seen <= seenOffset <= Advance(log, wanted, seen, p)
    ensures matches == Matching(log[..seenOffset], wanted)
    ensures if done then |matches| == Needed(count)
            else seenOffset == Advance(log, wanted, seen, p) && |matches| < Needed(count)
  {
    hide Matching, LookAt;
    matches, seenOffset, done := found, seen, false;
    var idx := 0;
    while idx < p
      invariant idx <= p && seen <= seenOffset <= |log|
      invariant seenOffset == (if idx > seen then idx else seen)
      invariant Advance(log, wanted, seenOffset, p) == Advance(log, wanted, seen, p)
      invariant matches == Matching(log[..seenOffset], wanted) && |matches| < Needed(count)
    {
      if idx < seenOffset {
        idx := idx + 1;
        continue;
      }
      MatchingNext(log, wanted, idx);
      seenOffset := idx + 1;
      var look := Inspect(log[idx], wanted);
      if look == Raises {
        return;
      }
      idx := idx + 1;
      if look == Match {
        matches := matches + [log[idx - 1].data];
        if |matches| >= count {
          done := true;
          return;
        }
      }
    }
  }

  /** The body of the packet loop, to its last test. */
  method Inspect(p: Packet, wanted: Predicate) returns (look: Look)
    ensures look == LookAt(p, wanted) && (look == Match ==> p.Packet?)
  {
    if p.Broken? {
      return Raises;
    }
    var data := p.data;
    if |data| < 14 {
      return NoMatch;
    }
    var etype := Word(data[12], data[13]);
    if etype == READY_PROBE_ETHERTYPE {
      return NoMatch;
    }
    look := wanted(data);
  }

  /**
   * Stopping at the match that completes the count leaves exactly the first matches of all that the polls would pass.
   */
  lemma CutAtLast(log: seq<Packet>, polls: seq<nat>, wanted: Predicate, count: int, seen: nat, k: nat)
    requires Readable(log, polls) && k < |polls| && seen <= Cursor(log, wanted, polls[..k + 1])
    requires seen <= |log| && |Matching(log[..seen], wanted)| == Needed(count)
    ensures Matching(log[..seen], wanted) == Expected(log, polls, wanted, count)
  {
    CursorGrows(log, wanted, polls, k + 1);
    MatchingGrows(log, wanted, seen, Cursor(log, wanted, polls));
  }

  // ----- Which packets are returned, and how far a poll gets --------------------------------

  /** Long enough for an Ethernet header, no readiness probe, and what the caller wants. */
  predicate Wants(p: Packet, wanted: Predicate) {
    p.Packet? && |p.data| >= 14 && !(p.data[12] == 0x88 && p.data[13] == 0xB5) && wanted(p.data) == Match
  }

  lemma LooksAre(p: Packet, wanted: Predicate)
    ensures LookAt(p, wanted) == Match <==> Wants(p, wanted)
    ensures LookAt(p, wanted) == Raises <==>
            || p.Broken?
            || (|p.data| >= 14 && !(p.data[12] == 0x88 && p.data[13] == 0xB5) && wanted(p.data) == Raises)
  {
  }

  /** The matches stand in the log in their order, and every wanted packet is one of them. */
  ghost predicate StandAt(log: seq<Packet>, wanted: Predicate, frames: seq<Frame>, at: seq<nat>) {
    && |at| == |frames| && (forall a, b :: 0 <= a < b < |at| ==> at[a] < at[b])
    && (forall a :: 0 <= a < |at| ==> at[a] < |log| && log[at[a]] == Packet(frames[a]) && Wants(log[at[a]], wanted))
    && forall i :: 0 <= i < |log| && Wants(log[i], wanted) ==> i in at
  }

  lemma {:induction false} MatchingStands(log: seq<Packet>, wanted: Predicate) returns (at: seq<nat>)
    ensures StandAt(log, wanted, Matching(log, wanted), at)
  {
    hide Wants, LookAt, StandAt;
    if log == [] {
      at := [];
      NothingStands(wanted);
    } else {
      var n := |log| - 1;
      at := MatchingStands(log[..n], wanted);
      LooksAre(log[n], wanted);
      MatchIsPacket(log[n], wanted);
      assert log == log[..n] + [log[n]];
      at := OneMoreStands(log[..n], log[n], wanted, Matching(log[..n], wanted), at);
    }
  }

  lemma NothingStands(wanted: Predicate)
    ensures StandAt([], wanted, Matching([], wanted), [])
  {
  }

  lemma OneMoreStands(log: seq<Packet>, p: Packet, wanted: Predicate, frames: seq<Frame>, at: seq<nat>)
    returns (at': seq<nat>)
    requires StandAt(log, wanted, frames, at) && (Wants(p, wanted) ==> p.Packet?)
    ensures StandAt(log + [p], wanted, frames + (if Wants(p, wanted) then [p.data] else []), at')
  {
    hide Wants;
    var log', n := log + [p], |at|;
    if Wants(p, wanted) {
      at' := at + [|log|];
      var frames' := frames + [p.data];
      assert at'[n] == |log| && frames'[n] == p.data && log'[|log|] == p;
      forall a | 0 <= a < n ensures at'[a] == at[a] < |log| && log'[at[a]] == log[at[a]] && frames'[a] == frames[a] {
      }
      forall i | 0 <= i < |log'| && Wants(log'[i], wanted) ensures i in at' {
        if i < |log| {
          assert log'[i] == log[i];
        }
      }
    } else {
      at' := at;
      assert frames + [] == frames;
      forall i | 0 <= i < |log'| && Wants(log'[i], wanted) ensures i in at {
        assert log'[i] == log[i];
      }
    }
  }

  /**
   * What is returned is the first of those matches: as many as asked for, one when fewer than one is, or all there are.
   */
  lemma ReturnIsCut(log: seq<Packet>, polls: seq<nat>, wanted: Predicate, count: int)
    requires Readable(log, polls)
    ensures var r, all := Expected(log, polls, wanted, count), Matching(log[..Cursor(log, wanted, polls)], wanted);
            && r <= all && |r| <= (if count < 1 then 1 else count)
            && (|r| < (if count < 1 then 1 else count) ==> r == all)
  {
    hide Matching, Cursor;
  }

  /** A poll passes every packet it can read up to the first that raises, and that one too. */
  lemma {:induction false} AdvanceIs(log: seq<Packet>, wanted: Predicate, from: nat, p: nat)
    requires from <= |log| && p <= |log|
    ensures var to := Advance(log, wanted, from, p);
            if from >= p then to == from
            else
              && from < to <= p && (forall i :: from <= i < to - 1 ==> LookAt(log[i], wanted) != Raises)
              && (to < p ==> LookAt(log[to - 1], wanted) == Raises)
    decreases p - from
  {
    hide LookAt;
    if from < p {
      AdvanceIs(log, wanted, from + 1, p);
    }
  }

  // ----- What that means ----------------------------------------------------------------

  /** With a count of at least one, a full return is exactly the first `count` matches of the whole log. */
  lemma FullReturnIsFirstMatches(log: seq<Packet>, polls: seq<nat>, wanted: Predicate, count: nat)
    requires count >= 1 && Readable(log, polls)
    requires |Expected(log, polls, wanted, count)| == count
    ensures count <= |Matching(log, wanted)| && Expected(log, polls, wanted, count) == Matching(log, wanted)[..count]
  {
    MatchingGrows(log, wanted, Cursor(log, wanted, polls), |log|);
    assert log[..|log|] == log;
  }

  /** The furthest that any poll could read into the log. */
  function Furthest(polls: seq<nat>): (m: nat)
    ensures forall i :: 0 <= i < |polls| ==> polls[i] <= m
    ensures m == 0 || exists i :: 0 <= i < |polls| && polls[i] == m
  {
    if polls == [] then 0
    else
      var rest, last := Furthest(polls[..|polls| - 1]), polls[|polls| - 1];
      if last > rest then last else rest
  }

  // ----- When the schedule matters ------------------------------------------------------

  /** No match lies behind a packet that raises. */
  predicate NothingBehind(log: seq<Packet>, wanted: Predicate) {
    forall i, j :: 0 <= i < j < |log| && LookAt(log[i], wanted) == Raises ==> LookAt(log[j], wanted) != Match
  }

  predicate RaisesBefore(log: seq<Packet>, wanted: Predicate, n: nat)
    requires n <= |log|
  {
    exists i :: 0 <= i < n && LookAt(log[i], wanted) == Raises
  }

  lemma {:induction false} AdvanceReaches(log: seq<Packet>, wanted: Predicate, from: nat, p: nat)
    requires from <= p <= |log|
    ensures Advance(log, wanted, from, p) == p || RaisesBefore(log, wanted, Advance(log, wanted, from, p))
    decreases p - from
  {
    if from < p {
      if LookAt(log[from], wanted) != Raises {
        AdvanceReaches(log, wanted, from + 1, p);
      }
    }
  }

  /** The polls get exactly as far as the furthest of them, unless a packet that raises was passed on the way. */
  lemma {:induction false} CursorReaches(log: seq<Packet>, wanted: Predicate, polls: seq<nat>)
    requires Readable(log, polls)
    ensures Cursor(log, wanted, polls) <= Furthest(polls) <= |log|
    ensures Cursor(log, wanted, polls) == Furthest(polls) || RaisesBefore(log, wanted, Cursor(log, wanted, polls))
  {
    if polls != [] {
      var init, p := polls[..|polls| - 1], polls[|polls| - 1];
      CursorReaches(log, wanted, init);
      var c := Cursor(log, wanted, init);
      hide LookAt;
      if c < p {
        AdvanceReaches(log, wanted, c, p);
      }
      assert c <= p && RaisesBefore(log, wanted, c) ==> RaisesBefore(log, wanted, Advance(log, wanted, c, p));
    }
  }

  predicate Quiet(log: seq<Packet>, wanted: Predicate) {
    forall i :: 0 <= i < |log| ==> LookAt(log[i], wanted) != Raises
  }

  /** When nothing raises, the polls get exactly as far as the furthest of them. */
  lemma QuietCursor(log: seq<Packet>, wanted: Predicate, polls: seq<nat>)
    requires Readable(log, polls) && Quiet(log, wanted)
    ensures Cursor(log, wanted, polls) == Furthest(polls)
  {
    CursorReaches(log, wanted, polls);
  }

  lemma {:induction false} NoMatchAdded(log: seq<Packet>, wanted: Predicate, i: nat, j: nat)
    requires i <= j <= |log| && forall k :: i <= k < j ==> LookAt(log[k], wanted) != Match
    ensures Matching(log[..j], wanted) == Matching(log[..i], wanted)
    decreases j - i
  {
    if i < j {
      NoMatchAdded(log, wanted, i, j - 1);
      MatchingNext(log, wanted, j - 1);
    }
  }

  /** Then nothing that the polls could read is missed, whatever raised. */
  lemma PassedIsFurthest(log: seq<Packet>, wanted: Predicate, polls: seq<nat>)
    requires Readable(log, polls) && NothingBehind(log, wanted)
    ensures Furthest(polls) <= |log|
    ensures Matching(log[..Cursor(log, wanted, polls)], wanted) == Matching(log[..Furthest(polls)], wanted)
  {
    CursorReaches(log, wanted, polls);
    hide LookAt, Matching;
    NoMatchAdded(log, wanted, Cursor(log, wanted, polls), Furthest(polls));
  }

  /** Schedules that read equally far return the same. */
  ghost predicate ScheduleIndependent(log: seq<Packet>, wanted: Predicate) {
    forall a, b, count: int ::
      Readable(log, a) && Readable(log, b) && Furthest(a) == Furthest(b) ==>
        Expected(log, a, wanted, count) == Expected(log, b, wanted, count)
  }

  /** A wait that read everything and was not ended by its count returns every match. */
  ghost predicate MissesNothing(log: seq<Packet>, wanted: Predicate) {
    forall polls, count: int ::
      Readable(log, polls) && Furthest(polls) == |log| && |Matching(log, wanted)| < Needed(count) ==>
        Expected(log, polls, wanted, count) == Matching(log, wanted)
  }

  /**
   * The schedule does not matter beyond how far it read, and a wait that read everything misses nothing, exactly when
   * no match lies behind a packet that raises.
   */
  lemma ScheduleIndependentIff(log: seq<Packet>, wanted: Predicate)
    ensures ScheduleIndependent(log, wanted) <==> NothingBehind(log, wanted)
    ensures MissesNothing(log, wanted) <==> NothingBehind(log, wanted)
  {
    hide LookAt, Matching, Cursor, Furthest;
    if NothingBehind(log, wanted) {
      forall polls | Readable(log, polls)
        ensures Furthest(polls) <= |log|
        ensures Matching(log[..Cursor(log, wanted, polls)], wanted) == Matching(log[..Furthest(polls)], wanted)
      {
        PassedIsFurthest(log, wanted, polls);
      }
      assert log[..|log|] == log;
    } else {
      var i, j :| 0 <= i < j < |log| && LookAt(log[i], wanted) == Raises && LookAt(log[j], wanted) == Match;
      var a, b, count := OnePollMisses(log, wanted, j);
    }
  }

  /** One poll of the whole log stops short of such a match; as many polls as there are packets reach it. */
  lemma OnePollMisses(log: seq<Packet>, wanted: Predicate, j: nat) returns (a: seq<nat>, b: seq<nat>, count: nat)
    requires j < |log| && RaisesBefore(log, wanted, j) && LookAt(log[j], wanted) == Match
    ensures Readable(log, a) && Readable(log, b) && Furthest(a) == Furthest(b) == |log|
    ensures |Matching(log, wanted)| < Needed(count)
    ensures Expected(log, a, wanted, count) != Matching(log, wanted) == Expected(log, b, wanted, count)
  {
    var n := |log|;
    count := |Matching(log, wanted)| + 1;
    a, b := [n], seq(n, _ => n);
    hide LookAt, Cursor, Matching, Furthest, RaisesBefore;
    OnePoll(log, wanted, j);
    ManyPolls(log, wanted, n);
    LacksMatch(log, wanted, Cursor(log, wanted, a), j);
    assert log[..n] == log;
  }

  lemma OnePoll(log: seq<Packet>, wanted: Predicate, j: nat)
    requires j < |log| && RaisesBefore(log, wanted, j)
    ensures Cursor(log, wanted, [|log|]) <= j && Furthest([|log|]) == |log|
  {
    var polls := [|log|];
    hide LookAt;
    NothingRead(log, polls, wanted);
    CursorNext(log, wanted, polls, 0);
    assert polls[..0] == [] && polls[..1] == polls;
    StopsBefore(log, wanted, 0, j);
  }

  lemma LacksMatch(log: seq<Packet>, wanted: Predicate, c: nat, j: nat)
    requires c <= j < |log| && LookAt(log[j], wanted) == Match
    ensures |Matching(log[..c], wanted)| < |Matching(log, wanted)|
  {
    MatchIsPacket(log[j], wanted);
    hide LookAt, Matching;
    MatchingGrows(log, wanted, c, j);
    MatchingNext(log, wanted, j);
    MatchingGrows(log, wanted, j + 1, |log|);
    assert log[..|log|] == log;
  }

  lemma MatchIsPacket(p: Packet, wanted: Predicate)
    ensures LookAt(p, wanted) == Match ==> p.Packet?
  {
  }

  lemma {:induction false} StopsBefore(log: seq<Packet>, wanted: Predicate, from: nat, j: nat)
    requires from <= j <= |log| && exists i :: from <= i < j && LookAt(log[i], wanted) == Raises
    ensures Advance(log, wanted, from, |log|) <= j
    decreases j - from
  {
    if LookAt(log[from], wanted) != Raises {
      StopsBefore(log, wanted, from + 1, j);
    }
  }

  /** Every poll passes at least one packet. */
  lemma {:induction false} ManyPolls(log: seq<Packet>, wanted: Predicate, k: nat)
    requires k <= |log|
    ensures var polls := seq(k, _ => |log|);
            && Cursor(log, wanted, polls) >= k && (k > 0 ==> Furthest(polls) == |log|)
  {
    if k > 0 {
      ManyPolls(log, wanted, k - 1);
      var polls := seq(k, _ => |log|);
      assert polls[..k - 1] == seq(k - 1, _ => |log|);
    }
  }

  /** A packet that raises costs the rest of its poll: the match behind it is found only if there is another. */
  lemma RaisingCostsAPoll(f: Frame, wanted: Predicate)
    requires LookAt(Packet(f), wanted) == Match
    ensures Expected([Broken, Packet(f)], [2], wanted, 1) == []
    ensures Expected([Broken, Packet(f)], [2, 2], wanted, 1) == [f]
  {
    var log := [Broken, Packet(f)];
    assert [2][..0] == [] && [2, 2][..1] == [2];
    assert Cursor(log, wanted, [2]) == 1;
    assert Cursor(log, wanted, [2, 2]) == Advance(log, wanted, 1, 2) == Advance(log, wanted, 2, 2) == 2;
    MatchingNext(log, wanted, 0);
    MatchingNext(log, wanted, 1);
    hide Matching;
    NothingRead(log, [], wanted);
  }

  /** A log that grows between polls is seen as the final one: what was returned does not depend on what came later. */
  lemma AppendIrrelevant(log: seq<Packet>, more: seq<Packet>, polls: seq<nat>, wanted: Predicate, count: int)
    requires Readable(log, polls)
    ensures Readable(log + more, polls)
    ensures Expected(log + more, polls, wanted, count) == Expected(log, polls, wanted, count)
  {
    CursorOfPrefix(log, more, polls, wanted);
    assert (log + more)[..Cursor(log, wanted, polls)] == log[..Cursor(log, wanted, polls)];
  }

  lemma {:induction false} AdvanceOfPrefix(log: seq<Packet>, more: seq<Packet>, wanted: Predicate, from: nat, p: nat)
    requires from <= |log| && p <= |log|
    ensures Advance(log + more, wanted, from, p) == Advance(log, wanted, from, p)
    decreases p - from
  {
    if from < p {
      AdvanceOfPrefix(log, more, wanted, from + 1, p);
    }
  }

  lemma {:induction false} CursorOfPrefix(log: seq<Packet>, more: seq<Packet>, polls: seq<nat>, wanted: Predicate)
    requires Readable(log, polls)
    ensures Cursor(log + more, wanted, polls) == Cursor(log, wanted, polls)
  {
    if polls != [] {
      var init := polls[..|polls| - 1];
      CursorOfPrefix(log, more, init, wanted);
      AdvanceOfPrefix(log, more, wanted, Cursor(log, wanted, init), polls[|polls| - 1]);
    }
  }
}
