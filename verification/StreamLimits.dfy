/**
 Stream limits: the map of streams a peer may open (incoming) and the map of streams we open under the
 peer's limit (outgoing).
 */
module StreamLimits {
  import opened Basics

  const MAX_STREAM_COUNT: nat := 0x1000_0000_0000_0000

  ghost predicate Increasing(s: seq<int>) {
    forall i, j :: 0 <= i < j < |s| ==> s[i] < s[j]
  }

  // ---------- streams opened by the peer

  datatype OpenResult = Stream(num: nat) | Gone | LimitExceeded

  class IncomingMap {
    var streams: map<nat, bool>        // held streams; true: to be deleted once accepted
    var nextStreamToAccept: nat
    var nextStreamToOpen: nat
    var maxStream: nat
    const maxNumStreams: nat
    var advertised: seq<nat>           // the MAX_STREAMS frames queued so far

    /**
     Held streams and unused credit never exceed the configured number, so each advertised limit tops the
     last; streams not accepted yet are all held, and an accepted one is not marked.
     */
    ghost predicate Valid()
      reads this
    {
      Counted() && Settled(streams, nextStreamToAccept)
    }

    ghost predicate Counted()
      reads this
    {
      && Holds(streams, nextStreamToAccept, nextStreamToOpen)
      && nextStreamToOpen <= maxStream + 1
      && |streams| + (maxStream + 1 - nextStreamToOpen) <= maxNumStreams
      && Grown(advertised, maxNumStreams, maxStream)
    }

    constructor (max: nat)
      ensures Valid() && maxNumStreams == max && streams == map[] && advertised == []
      ensures nextStreamToAccept == nextStreamToOpen == 1
    {
      streams := map[];
      nextStreamToAccept, nextStreamToOpen := 1, 1;
      maxStream, maxNumStreams := max, max;
      advertised := [];
    }

    /** Drops a stream, or marks it when it has not been accepted yet; a dropped one gives credit back. */
    method Delete(num: nat) returns (ok: bool)
      requires Counted()
      modifies this`streams, this`maxStream, this`advertised
      ensures Counted()
      ensures ok <==> num in old(streams) && (num >= nextStreamToAccept ==> !old(streams)[num])
      ensures !ok ==> streams == old(streams) && maxStream == old(maxStream) && advertised == old(advertised)
      ensures ok ==> streams == if num >= nextStreamToAccept then old(streams)[num := true] else old(streams) - {num}
      ensures old(maxStream) <= maxStream && old(advertised) <= advertised
      ensures maxStream > old(maxStream) <==>
        ok && num < nextStreamToAccept && Credit(nextStreamToOpen, maxNumStreams, |streams|) <= MAX_STREAM_COUNT
      ensures maxStream > old(maxStream) ==> |streams| + (maxStream + 1 - nextStreamToOpen) == maxNumStreams
    {
      if num !in streams {
        return false;
      }
      if num >= nextStreamToAccept {
        if streams[num] {
          return false;
        }
        streams := streams[num := true];
        return true;
      }
      DropOne(streams, num, nextStreamToAccept, nextStreamToOpen);
      streams := streams - {num};
      if maxNumStreams > |streams| {
        var limit := nextStreamToOpen + (maxNumStreams - |streams|) - 1;
        if limit <= MAX_STREAM_COUNT {
          GrowOne(advertised, maxNumStreams, maxStream, limit);
          maxStream := limit;
          advertised := advertised + [limit];
        }
      }
      return true;
    }

    method DeleteStream(num: nat) returns (ok: bool)
      requires Valid()
      modifies this`streams, this`maxStream, this`advertised
      ensures Valid() && old(maxStream) <= maxStream && old(advertised) <= advertised
      ensures ok <==> num in old(streams) && !old(streams)[num]
      ensures !ok ==> streams == old(streams) && maxStream == old(maxStream) && advertised == old(advertised)
      ensures ok ==> streams == if num >= nextStreamToAccept then old(streams)[num := true] else old(streams) - {num}
    {
      ok := Delete(num);
    }

    /** Hands out the next stream in order, once; blocks (nothing) while the peer has not opened it. */
    method AcceptStream() returns (r: Option<nat>)
      requires Valid()
      modifies this`streams, this`maxStream, this`advertised, this`nextStreamToAccept
      ensures Valid() && old(maxStream) <= maxStream && old(advertised) <= advertised
      ensures r == if old(nextStreamToAccept) < nextStreamToOpen then Some(old(nextStreamToAccept)) else None
      ensures nextStreamToAccept == if r.Some? then old(nextStreamToAccept) + 1 else old(nextStreamToAccept)
      ensures r.Some? ==> streams == if old(streams)[r.value] then old(streams) - {r.value} else old(streams)
      ensures r.None? ==> streams == old(streams)
    {
      var num := nextStreamToAccept;
      if num !in streams {
        return None;
      }
      var shouldDelete := streams[num];
      nextStreamToAccept := nextStreamToAccept + 1;
      if shouldDelete {
        var ok := Delete(num);
        assert ok;
      }
      r := Some(num);
    }

    /** A stream the peer uses: known, gone, opened now with all before it, or beyond the limit. */
    method GetOrOpenStream(num: nat) returns (r: OpenResult)
      requires Valid() && num >= 1
      modifies this`streams, this`nextStreamToOpen
      ensures Valid()
      ensures r.LimitExceeded? <==> num > maxStream
      ensures r == Stream(num) <==>
        num <= maxStream && (num >= old(nextStreamToOpen) || (num in old(streams) && !old(streams)[num]))
      ensures r.Stream? ==> r.num == num
      ensures r.LimitExceeded? || num < old(nextStreamToOpen) ==>
        streams == old(streams) && nextStreamToOpen == old(nextStreamToOpen)
      ensures old(nextStreamToOpen) <= num <= maxStream ==>
        nextStreamToOpen == num + 1 && streams == Opened(old(streams), old(nextStreamToOpen), num + 1)
    {
      if num > maxStream {
        return LimitExceeded;
      }
      if num < nextStreamToOpen {
        if num in streams && !streams[num] {
          return Stream(num);
        }
        return Gone;
      }
      OpenUpTo(num);
      r := Stream(num);
    }

    method OpenUpTo(num: nat)
      requires Valid() && nextStreamToOpen <= num <= maxStream
      modifies this`streams, this`nextStreamToOpen
      ensures Valid()
      ensures nextStreamToOpen == num + 1 && streams == Opened(old(streams), old(nextStreamToOpen), num + 1)
    {
      ghost var held := streams;
      AddStreams(nextStreamToOpen, num);
      OpenedHolds(held, nextStreamToAccept, nextStreamToOpen, num + 1);
      nextStreamToOpen := num + 1;
    }

    /** The loop over the streams the peer skipped. */
    method AddStreams(first: nat, num: nat)
      requires first <= num
      modifies this`streams
      ensures streams == Opened(old(streams), first, num + 1)
    {
      ghost var held := streams;
      var newNum := first;
      while newNum <= num
        invariant first <= newNum <= num + 1
        invariant streams == Opened(held, first, newNum)
      {
        streams := streams[newNum := false];
        newNum := newNum + 1;
      }
    }
  }

  /** All streams opened and not accepted yet are held, and nothing not opened is. */
  ghost predicate Holds(m: map<nat, bool>, accept: nat, open: nat) {
    && 1 <= accept <= open
    && (forall n :: n in m ==> 1 <= n < open)
    && (forall n: nat :: accept <= n < open ==> n in m)
  }

  ghost predicate Settled(m: map<nat, bool>, accept: nat) {
    forall n :: n in m && n < accept ==> !m[n]
  }

  /** The limits advertised rise strictly from the configured number to the current limit. */
  ghost predicate Grown(advertised: seq<nat>, start: nat, limit: nat) {
    && Increasing(advertised)
    && (forall i :: 0 <= i < |advertised| ==> start < advertised[i] <= limit)
    && limit == if advertised == [] then start else advertised[|advertised| - 1]
  }

  lemma GrowOne(advertised: seq<nat>, start: nat, limit: nat, next: nat)
    requires Grown(advertised, start, limit) && limit < next
    ensures Grown(advertised + [next], start, next)
  {
  }

  lemma DropOne(m: map<nat, bool>, num: nat, accept: nat, open: nat)
    requires Holds(m, accept, open) && num in m && num < accept
    ensures Holds(m - {num}, accept, open) && |m - {num}| == |m| - 1
  {
    assert m.Keys == (m - {num}).Keys + {num};
  }

  /** The held streams once `a` up to but not including `b` are opened. */
  ghost function Opened(m: map<nat, bool>, a: nat, b: nat): map<nat, bool> {
    if b <= a then m else Opened(m, a, b - 1)[b - 1 := false]
  }

  lemma {:induction false} OpenedHolds(m: map<nat, bool>, accept: nat, a: nat, b: nat)
    requires Holds(m, accept, a) && Settled(m, accept) && a <= b
    ensures Holds(Opened(m, a, b), accept, b) && Settled(Opened(m, a, b), accept)
    ensures |Opened(m, a, b)| == |m| + (b - a)
    decreases b - a
  {
    if a == b {
    } else {
      OpenedHolds(m, accept, a, b - 1);
      var before := Opened(m, a, b - 1);
      assert b - 1 !in before;
      assert Opened(m, a, b) == before[b - 1 := false];
    }
  }

  function Credit(nextOpen: int, max: int, held: int): int {
    nextOpen + (max - held) - 1
  }

  // ---------- streams opened by us

  /** How a limit is reported: one not known yet as zero. */
  function Reported(limit: int): nat {
    if limit < 0 then 0 else limit
  }

  /** A limit is reported like an earlier one. */
  ghost predicate Repeats(limits: seq<int>, limit: int) {
    exists i :: 0 <= i < |limits| && Reported(limits[i]) == Reported(limit)
  }

  /** Rising limits, all below the next: the next one reads like an earlier one only as zero after "unknown". */
  lemma RepeatedLimit(limits: seq<int>, limit: int)
    requires Increasing(limits) && (forall i :: 0 <= i < |limits| ==> -1 <= limits[i] < limit)
    ensures Repeats(limits, limit) <==> limit == 0 && limits != []
  {
    if limit == 0 && limits != [] {
      assert Reported(limits[0]) == Reported(limit);
    }
  }

  ghost predicate Different(values: seq<nat>) {
    forall i, j :: 0 <= i < j < |values| ==> values[i] != values[j]
  }

  /** All reported values differ, unless the line was blocked both before any limit and at the limit zero. */
  lemma ReportsDiffer(limits: seq<int>, frames: seq<nat>)
    requires Increasing(limits) && |frames| == |limits|
    requires forall i :: 0 <= i < |limits| ==> -1 <= limits[i] && frames[i] == Reported(limits[i])
    ensures Different(frames) <==> !(-1 in limits && 0 in limits)
  {
    if -1 in limits && 0 in limits {
      var i :| 0 <= i < |limits| && limits[i] == -1;
      var j :| 0 <= j < |limits| && limits[j] == 0;
      assert frames[i] == frames[j];
    }
  }

  /** No waiting call stands before position `p`. */
  ghost predicate First(line: map<nat, bool>, p: nat) {
    forall q :: q in line ==> p <= q
  }

  /** Waiting calls lie between the two ends of the line, and only the first of them is ever signalled. */
  ghost predicate Line(line: map<nat, bool>, lowest: nat, highest: nat) {
    && lowest <= highest
    && (forall p :: p in line ==> lowest <= p < highest)
    && (forall p :: p in line && line[p] ==> First(line, p))
  }

  /** The first call in line is signalled. */
  ghost predicate FirstSignalled(line: map<nat, bool>) {
    forall p :: p in line && First(line, p) ==> line[p]
  }

  /** One STREAMS_BLOCKED for each limit at which opening was blocked, in the order of the limits. */
  ghost predicate Reports(blockedAt: seq<int>, limit: int, sent: bool) {
    && -1 <= limit && Increasing(blockedAt)
    && (forall i :: 0 <= i < |blockedAt| ==> -1 <= blockedAt[i] <= limit)
    && (sent <==> blockedAt != [] && blockedAt[|blockedAt| - 1] == limit)
  }

  /** Opened at once, or put in line at a position. */
  datatype SyncResult = AtOnce(num: nat) | Waiting(pos: nat)

  class OutgoingMap {
    var streams: set<nat>
    var openQueue: map<nat, bool>      // waiting calls by position; true: signalled
    var lowestInQueue: nat
    var highestInQueue: nat
    var nextStream: nat
    var maxStream: int                 // -1 until the peer's limit is known
    var blockedSent: bool
    var blockedAt: seq<int>            // the limits STREAMS_BLOCKED frames were queued for

    ghost predicate Valid()
      reads this
    {
      && Numbered()
      && Line(openQueue, lowestInQueue, highestInQueue)
      && Reports(blockedAt, maxStream, blockedSent)
    }

    /** No stream was opened beyond the limit. */
    ghost predicate Numbered()
      reads this
    {
      && -1 <= maxStream && 1 <= nextStream && (1 < nextStream ==> nextStream <= maxStream + 1)
      && (forall n :: n in streams ==> 1 <= n < nextStream)
    }

    /** While there is credit, the first call in line is signalled. */
    ghost predicate Awake()
      reads this
    {
      nextStream <= maxStream ==> FirstSignalled(openQueue)
    }

    constructor ()
      ensures Valid() && nextStream == 1 && maxStream == -1 && openQueue == map[] && highestInQueue == 0 && blockedAt == []
    {
      streams := {};
      openQueue := map[];
      lowestInQueue, highestInQueue, nextStream := 0, 0, 1;
      maxStream := -1;
      blockedSent := false;
      blockedAt := [];
    }

    /** The values on the wire. */
    function BlockedFrames(): (fs: seq<nat>)
      reads this
      ensures |fs| == |blockedAt|
    {
      seq(|blockedAt|, i requires 0 <= i < |blockedAt| reads this => Reported(blockedAt[i]))
    }

    /** The value repeats an earlier frame's exactly when the limit zero follows a block before any limit. */
    method MaybeSendBlockedFrame()
      requires Reports(blockedAt, maxStream, blockedSent)
      modifies this`blockedSent, this`blockedAt
      ensures Reports(blockedAt, maxStream, blockedSent) && blockedSent
      ensures blockedAt == if old(blockedSent) then old(blockedAt) else old(blockedAt) + [maxStream]
      ensures !old(blockedSent) ==> (Repeats(old(blockedAt), maxStream) <==> maxStream == 0 && old(blockedAt) != [])
    {
      if blockedSent {
        return;
      }
      RepeatedLimit(blockedAt, maxStream);
      blockedAt := blockedAt + [maxStream];
      blockedSent := true;
    }

    method OpenNext() returns (num: nat)
      requires Numbered() && nextStream <= maxStream
      modifies this`streams, this`nextStream
      ensures Numbered() && num == old(nextStream) <= maxStream && nextStream == num + 1
      ensures streams == old(streams) + {num}
    {
      num := nextStream;
      streams := streams + {num};
      nextStream := nextStream + 1;
    }

    /** Opens a stream unless calls are waiting or the limit is reached. */
    method OpenStream() returns (r: Option<nat>)
      requires Valid()
      modifies this`streams, this`nextStream, this`blockedSent, this`blockedAt
      ensures Valid()
      ensures r.Some? <==> openQueue == map[] && old(nextStream) <= maxStream
      ensures r.Some? ==> r.value == old(nextStream) && nextStream == r.value + 1 && streams == old(streams) + {r.value}
      ensures r.None? ==> blockedSent && nextStream == old(nextStream) && streams == old(streams)
      ensures blockedAt == if r.Some? || old(blockedSent) then old(blockedAt) else old(blockedAt) + [maxStream]
      ensures Awake() <==> old(Awake())
    {
      if |openQueue| > 0 || nextStream > maxStream {
        MaybeSendBlockedFrame();
        return None;
      }
      var num := OpenNext();
      r := Some(num);
    }

    /** The first part of a blocking open: at once only when nobody waits; otherwise the last place in line. */
    method OpenStreamSync() returns (r: SyncResult)
      requires Valid()
      modifies this
      ensures Valid() && maxStream == old(maxStream)
      ensures r.AtOnce? <==> old(openQueue) == map[] && old(nextStream) <= maxStream
      ensures r.AtOnce? ==>
        && r.num == old(nextStream) && nextStream == r.num + 1 && streams == old(streams) + {r.num}
        && openQueue == map[] && highestInQueue == old(highestInQueue)
      ensures r.Waiting? ==>
        && r.pos == old(highestInQueue) && openQueue == old(openQueue)[r.pos := false]
        && highestInQueue == r.pos + 1 && nextStream == old(nextStream) && streams == old(streams) && blockedSent
      ensures blockedAt == if r.AtOnce? || old(blockedSent) then old(blockedAt) else old(blockedAt) + [maxStream]
      ensures Awake() <==> old(Awake())
    {
      if |openQueue| == 0 && nextStream <= maxStream {
        var num := OpenNext();
        return AtOnce(num);
      }
      var pos := JoinQueue();
      r := Waiting(pos);
    }

    /** The last place in line. */
    method JoinQueue() returns (pos: nat)
      requires Valid() && (openQueue != map[] || nextStream > maxStream)
      modifies this`openQueue, this`lowestInQueue, this`highestInQueue, this`blockedSent, this`blockedAt
      ensures Valid() && pos == old(highestInQueue) && highestInQueue == pos + 1
      ensures openQueue == old(openQueue)[pos := false] && blockedSent
      ensures lowestInQueue == if old(openQueue) == map[] then pos else old(lowestInQueue)
      ensures blockedAt == if old(blockedSent) then old(blockedAt) else old(blockedAt) + [maxStream]
      ensures Awake() <==> old(Awake())
    {
      pos := highestInQueue;
      highestInQueue := highestInQueue + 1;
      if |openQueue| == 0 {
        lowestInQueue := pos;
      }
      JoinLine(openQueue, lowestInQueue, pos);
      JoinBehind(openQueue, pos);
      openQueue := openQueue[pos := false];
      MaybeSendBlockedFrame();
    }

    /** Signals the first call in line, and nobody else. */
    method UnblockOpenSync()
      requires Line(openQueue, lowestInQueue, highestInQueue)
      modifies this`openQueue
      ensures Line(openQueue, lowestInQueue, highestInQueue)
      ensures openQueue.Keys == old(openQueue).Keys
      ensures forall p :: p in openQueue ==> (openQueue[p] <==> First(openQueue, p))
    {
      if |openQueue| == 0 {
        return;
      }
      ghost var line := openQueue;
      var qp := lowestInQueue;
      while qp <= highestInQueue && qp !in openQueue
        invariant openQueue == line && forall q :: q in line ==> qp <= q
      {
        qp := qp + 1;
      }
      SomebodyWaits(line, lowestInQueue, highestInQueue);
      openQueue := openQueue[qp := true];
      SignalFirst(line, lowestInQueue, highestInQueue, qp);
    }

    /** A signalled call goes on: it opens the next stream and leaves the line, or waits again at the limit. */
    method Wake(pos: nat) returns (r: Option<nat>)
      requires Valid() && pos in openQueue && openQueue[pos]
      modifies this`openQueue, this`lowestInQueue, this`streams, this`nextStream
      ensures Valid() && Awake()
      ensures First(old(openQueue), pos)
      ensures lowestInQueue == if r.Some? then pos + 1 else old(lowestInQueue)
      ensures r.Some? <==> old(nextStream) <= maxStream
      ensures r.Some? ==>
        && r.value == old(nextStream) && nextStream == r.value + 1 && streams == old(streams) + {r.value}
        && openQueue.Keys == old(openQueue).Keys - {pos}
        && (forall p :: p in openQueue ==> (openQueue[p] <==> First(openQueue, p)))
      ensures r.None? ==>
        openQueue == old(openQueue)[pos := false] && nextStream == old(nextStream) && streams == old(streams)
    {
      if nextStream > maxStream {
        Hush(openQueue, lowestInQueue, highestInQueue, pos);
        openQueue := openQueue[pos := false];
        return None;
      }
      var num := OpenNext();
      LeaveFirst(openQueue, lowestInQueue, highestInQueue, pos);
      openQueue := openQueue - {pos};
      lowestInQueue := pos + 1;
      UnblockOpenSync();
      r := Some(num);
    }

    /** A call gives up and leaves the line. If it was the signalled one, its signal is lost to those behind it. */
    method Cancel(pos: nat)
      requires Valid()
      modifies this`openQueue
      ensures Valid() && openQueue == old(openQueue) - {pos}
      ensures !Awake() <==>
        && openQueue != map[] && nextStream <= maxStream
        && (!old(Awake()) || (pos in old(openQueue) && old(openQueue)[pos]))
    {
      Leave(openQueue, lowestInQueue, highestInQueue, pos);
      if openQueue - {pos} != map[] {
        LoseSignal(openQueue, lowestInQueue, highestInQueue, pos);
      }
      openQueue := openQueue - {pos};
    }

    method DeleteStream(num: nat) returns (ok: bool)
      requires Valid()
      modifies this`streams
      ensures Valid() && (ok <==> num in old(streams)) && streams == old(streams) - {num}
      ensures Awake() <==> old(Awake())
    {
      ok := num in streams;
      streams := streams - {num};
    }

    /** A limit from the peer, possibly late: only a higher one counts, and it wakes the first call in line. */
    method SetMaxStream(num: nat)
      requires Valid()
      modifies this`openQueue, this`maxStream, this`blockedSent, this`blockedAt
      ensures Valid()
      ensures maxStream == if num <= old(maxStream) then old(maxStream) else num
      ensures num <= old(maxStream) ==> openQueue == old(openQueue) && blockedAt == old(blockedAt)
      ensures num > old(maxStream) ==>
        && openQueue.Keys == old(openQueue).Keys
        && (forall p :: p in openQueue ==> (openQueue[p] <==> First(openQueue, p)))
        && (blockedSent <==> num < nextStream - 1 + |old(openQueue)|)
        && blockedAt == if blockedSent then old(blockedAt) + [num] else old(blockedAt)
      ensures Awake() <==> num > old(maxStream) || old(Awake())
    {
      if num <= maxStream {
        return;
      }
      maxStream := num;
      blockedSent := false;
      if maxStream < nextStream - 1 + |openQueue| {
        MaybeSendBlockedFrame();
      }
      UnblockOpenSync();
    }
  }

  lemma JoinLine(line: map<nat, bool>, lowest: nat, pos: nat)
    requires Line(line, if line == map[] then pos else lowest, pos) && (line == map[] ==> lowest <= pos)
    ensures Line(line[pos := false], lowest, pos + 1)
  {
    var now := line[pos := false];
    forall p | p in now && now[p]
      ensures First(now, p)
    {
      assert First(line, p);
    }
  }

  /** Joining behind others leaves the first call as it was. */
  lemma JoinBehind(line: map<nat, bool>, pos: nat)
    requires forall p :: p in line ==> p < pos
    ensures line != map[] ==> (FirstSignalled(line[pos := false]) <==> FirstSignalled(line))
  {
    var now := line[pos := false];
    forall p | p in line
      ensures First(line, p) <==> First(now, p)
    {
      assert pos in now && forall q :: q in line ==> q in now;
    }
    if line != map[] {
      var q :| q in line;
      assert q in now && !First(now, pos);
    }
  }

  /** A line that is not empty has a first call. */
  lemma {:induction false} HasFirst(line: map<nat, bool>, p: nat) returns (first: nat)
    requires p in line
    ensures first in line && First(line, first)
    decreases p
  {
    if First(line, p) {
      first := p;
    } else {
      var q :| q in line && q < p;
      first := HasFirst(line, q);
    }
  }

  /** Who is left is signalled first only if the call that left was not the signalled one. */
  lemma LoseSignal(line: map<nat, bool>, lowest: nat, highest: nat, pos: nat)
    requires Line(line, lowest, highest) && line - {pos} != map[]
    ensures FirstSignalled(line - {pos}) <==> FirstSignalled(line) && !(pos in line && line[pos])
  {
    var rest := line - {pos};
    var p :| p in rest;
    var first := HasFirst(rest, p);
    assert forall q :: q in rest && First(rest, q) ==> q == first;
    assert FirstSignalled(rest) <==> line[first];
    if pos in line && line[pos] {
      assert First(line, pos) && pos in line && first in line && first != pos;
      assert line[first] ==> First(line, first);
    } else if line[first] {
      assert First(line, first);
      assert forall q :: q in line && First(line, q) ==> q == first;
    } else {
      var top := HasFirst(line, first);
      assert top != pos ==> top in rest && First(rest, top);
    }
  }

  lemma SomebodyWaits(line: map<nat, bool>, lowest: nat, highest: nat)
    requires Line(line, lowest, highest) && |line| > 0
    ensures exists p :: p in line
  {
    assert |line.Keys| > 0;
    var p :| p in line.Keys;
    assert p in line;
  }

  lemma SignalFirst(line: map<nat, bool>, lowest: nat, highest: nat, pos: nat)
    requires Line(line, lowest, highest) && pos in line && First(line, pos)
    ensures Line(line[pos := true], lowest, highest)
    ensures forall p :: p in line ==> (line[pos := true][p] <==> First(line[pos := true], p))
  {
    var now := line[pos := true];
    assert First(now, pos);
    forall p | p in now
      ensures now[p] <==> First(now, p)
    {
      assert pos in now && p in line;
      assert line[p] ==> First(line, p);
    }
  }

  lemma Hush(line: map<nat, bool>, lowest: nat, highest: nat, pos: nat)
    requires Line(line, lowest, highest) && pos in line
    ensures Line(line[pos := false], lowest, highest)
  {
    forall p | p in line && p != pos && line[p]
      ensures First(line[pos := false], p)
    {
      assert First(line, p);
    }
  }

  lemma Leave(line: map<nat, bool>, lowest: nat, highest: nat, pos: nat)
    requires Line(line, lowest, highest)
    ensures Line(line - {pos}, lowest, highest)
  {
    forall p | p in line && p != pos && line[p]
      ensures First(line - {pos}, p)
    {
      assert First(line, p);
    }
  }

  lemma LeaveFirst(line: map<nat, bool>, lowest: nat, highest: nat, pos: nat)
    requires Line(line, lowest, highest) && pos in line && line[pos]
    ensures First(line, pos) && Line(line - {pos}, pos + 1, highest)
  {
    Leave(line, lowest, highest, pos);
    assert First(line, pos);
  }
}
