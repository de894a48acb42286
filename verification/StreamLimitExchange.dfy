/** Both ends of the stream limits, joined by a network that loses, delays, reorders and repeats frames. */
module StreamLimitExchange {
  import opened Basics
  import opened StreamLimits

  datatype Event =
    | PeerLimit                  // the limit in the peer's transport parameters arrives
    | LimitFrame(j: nat)         // the j-th MAX_STREAMS frame arrives
    | Open                       // a non-blocking open
    | OpenSync                   // a blocking open
    | Wake(pos: nat)             // the call at this position sees its signal
    | Cancel(pos: nat)           // the call at this position gives up
    | StreamFrame(num: nat)      // a frame for an opened stream arrives
    | Accept
    | Complete(num: nat)         // the accepting end is done with a stream

  /** The open calls: how many were made, which took each position in line, which got streams 1, 2, 3, ... */
  datatype Calls = Calls(made: nat, at: map<nat, nat>, granted: seq<nat>)

  /** Granted calls, in the order of the streams they got, came in call order; those in line came after them. */
  ghost predicate InOrder(calls: Calls, line: map<nat, bool>) {
    && Increasing(calls.granted) && Later(calls.granted, calls.made)
    && (forall p {:trigger Placed(calls, p)} :: p in line ==> Placed(calls, p))
    && (forall p, q {:trigger Ordered(calls.at, p, q)} :: p in line && q in line ==> Ordered(calls.at, p, q))
  }

  ghost predicate Placed(calls: Calls, p: nat) {
    p in calls.at && Later(calls.granted, calls.at[p]) && calls.at[p] < calls.made
  }

  ghost predicate Ordered(at: map<nat, nat>, p: nat, q: nat) {
    p in at && q in at && p < q ==> at[p] < at[q]
  }

  ghost predicate Later(granted: seq<nat>, call: nat) {
    forall i :: 0 <= i < |granted| ==> granted[i] < call
  }

  function GrantNow(calls: Calls): Calls {
    Calls(calls.made + 1, calls.at, calls.granted + [calls.made])
  }

  function Refuse(calls: Calls): Calls {
    calls.(made := calls.made + 1)
  }

  function Queue(calls: Calls, pos: nat): Calls {
    Calls(calls.made + 1, calls.at[pos := calls.made], calls.granted)
  }

  function GrantFirst(calls: Calls, pos: nat): Calls
    requires pos in calls.at
  {
    calls.(granted := calls.granted + [calls.at[pos]])
  }

  lemma GrantedNow(calls: Calls, line: map<nat, bool>)
    requires InOrder(calls, line) && line == map[]
    ensures InOrder(GrantNow(calls), line)
  {
  }

  lemma Refused(calls: Calls, line: map<nat, bool>)
    requires InOrder(calls, line)
    ensures InOrder(Refuse(calls), line)
  {
    forall p | p in line
      ensures Placed(Refuse(calls), p)
    {
      assert Placed(calls, p);
    }
  }

  lemma Queued(calls: Calls, line: map<nat, bool>, pos: nat)
    requires InOrder(calls, line) && forall p :: p in line ==> p < pos
    ensures InOrder(Queue(calls, pos), line[pos := false])
  {
    var now, after := Queue(calls, pos), line[pos := false];
    forall p | p in after
      ensures Placed(now, p)
    {
      assert p != pos ==> Placed(calls, p);
    }
    forall p, q | p in after && q in after
      ensures Ordered(now.at, p, q)
    {
      assert p != pos ==> Placed(calls, p);
      assert p != pos && q != pos ==> Ordered(calls.at, p, q);
    }
  }

  lemma GrantedFirst(calls: Calls, line: map<nat, bool>, pos: nat, after: map<nat, bool>)
    requires InOrder(calls, line) && pos in line && First(line, pos) && after.Keys == line.Keys - {pos}
    ensures pos in calls.at && InOrder(GrantFirst(calls, pos), after)
  {
    assert Placed(calls, pos);
    var now := GrantFirst(calls, pos);
    forall p | p in after
      ensures Placed(now, p)
    {
      assert p in after.Keys;
      assert Placed(calls, p) && Ordered(calls.at, pos, p);
    }
    FewerInLine(calls, line, after);
  }

  lemma FewerInLine(calls: Calls, line: map<nat, bool>, after: map<nat, bool>)
    requires InOrder(calls, line) && after.Keys <= line.Keys
    ensures InOrder(calls, after)
  {
    forall p | p in after
      ensures p in line
    {
      assert p in after.Keys;
    }
  }

  class Ends {
    const outgoing: OutgoingMap
    const incoming: IncomingMap
    var calls: Calls
    var accepted: seq<nat>
    var limitErrors: nat
    var lost: nat                // signalled calls that gave up
    var played: seq<Event>       // what has happened

    /** The opening end never knows a limit above the accepting end's, and uses no stream beyond it. */
    ghost predicate Valid()
      reads this`calls, this`lost, this`accepted, this`limitErrors, outgoing, incoming
    {
      && outgoing.Valid() && incoming.Valid() && Opening()
      && outgoing.maxStream <= incoming.maxStream && incoming.nextStreamToOpen <= outgoing.nextStream
      && accepted == Numbers(incoming.nextStreamToAccept - 1)
      && limitErrors == 0
    }

    /** Calls get streams in order, and the first in line is awake unless a signal was lost. */
    ghost predicate Opening()
      reads this`calls, this`lost, outgoing
    {
      && InOrder(calls, outgoing.openQueue) && |calls.granted| == outgoing.nextStream - 1
      && (lost == 0 ==> outgoing.Awake())
    }

    constructor (max: nat)
      ensures Valid() && fresh(outgoing) && fresh(incoming) && incoming.maxNumStreams == max && lost == 0 && played == []
      ensures calls.made == 0
    {
      outgoing := new OutgoingMap();
      incoming := new IncomingMap(max);
      calls, accepted, limitErrors, lost, played := Calls(0, map[], []), [], 0, 0, [];
    }

    // ---------- what each event does

    /** A stream can be opened at once. */
    ghost predicate Free()
      reads outgoing
    {
      outgoing.openQueue == map[] && outgoing.nextStream <= outgoing.maxStream
    }

    ghost predicate Signalled(pos: nat)
      reads outgoing
    {
      pos in outgoing.openQueue && outgoing.openQueue[pos]
    }

    twostate predicate Limited(num: nat)
      reads outgoing
    {
      && outgoing.maxStream == (if num <= old(outgoing.maxStream) then old(outgoing.maxStream) else num)
      && outgoing.openQueue.Keys == old(outgoing.openQueue).Keys
      && (num > old(outgoing.maxStream) ==>
            forall p :: p in outgoing.openQueue ==> (outgoing.openQueue[p] <==> First(outgoing.openQueue, p)))
    }

    twostate predicate OpenTried()
      reads this`calls, outgoing
    {
      && calls == (if old(Free()) then GrantNow(old(calls)) else Refuse(old(calls)))
      && outgoing.openQueue == old(outgoing.openQueue)
    }

    twostate predicate OpenQueued()
      reads this`calls, outgoing
    {
      if old(Free()) then calls == GrantNow(old(calls)) && outgoing.openQueue == map[]
      else
        && calls == Queue(old(calls), old(outgoing.highestInQueue))
        && outgoing.openQueue == old(outgoing.openQueue)[old(outgoing.highestInQueue) := false]
    }

    twostate predicate Woken(pos: nat)
      reads this`calls, outgoing
    {
      if old(Signalled(pos) && outgoing.nextStream <= outgoing.maxStream) then
        && old(pos in calls.at) && calls == GrantFirst(old(calls), pos)
        && outgoing.openQueue.Keys == old(outgoing.openQueue).Keys - {pos}
      else
        && calls == old(calls)
        && outgoing.openQueue ==
             (if old(Signalled(pos)) then old(outgoing.openQueue)[pos := false] else old(outgoing.openQueue))
    }

    twostate predicate Cancelled(pos: nat)
      reads this`lost, outgoing
    {
      lost == old(lost) + One(old(Signalled(pos))) && outgoing.openQueue == old(outgoing.openQueue) - {pos}
    }

    twostate predicate FrameArrived(num: nat)
      reads incoming
    {
      incoming.nextStreamToOpen ==
      if 1 <= num < old(outgoing.nextStream) then Max(old(incoming.nextStreamToOpen), num + 1)
      else old(incoming.nextStreamToOpen)
    }

    twostate predicate AcceptTried()
      reads this`accepted
    {
      accepted == old(accepted) +
      if old(incoming.nextStreamToAccept < incoming.nextStreamToOpen) then [old(incoming.nextStreamToAccept)] else []
    }

    twostate predicate CompletedStream(num: nat)
      reads incoming
    {
      incoming.streams ==
      if !old(num in incoming.streams && !incoming.streams[num]) then old(incoming.streams)
      else if num >= old(incoming.nextStreamToAccept) then old(incoming.streams)[num := true]
      else old(incoming.streams) - {num}
    }

    twostate predicate Does(event: Event)
      reads this`calls, this`lost, this`accepted, outgoing, incoming
    {
      match event
      case PeerLimit => Limited(incoming.maxNumStreams)
      case LimitFrame(j) => j < |old(incoming.advertised)| ==> Limited(old(incoming.advertised)[j])
      case Open => OpenTried()
      case OpenSync => OpenQueued()
      case Wake(pos) => Woken(pos)
      case Cancel(pos) => Cancelled(pos)
      case StreamFrame(num) => FrameArrived(num)
      case Accept => AcceptTried()
      case Complete(num) => CompletedStream(num)
    }

    method Limit(num: nat)
      requires Valid() && num <= incoming.maxStream
      modifies outgoing
      ensures Valid() && Limited(num)
    {
      ghost var line := outgoing.openQueue;
      outgoing.SetMaxStream(num);
      FewerInLine(calls, line, outgoing.openQueue);
    }

    method Open()
      requires Valid()
      modifies this`calls, outgoing
      ensures Valid() && OpenTried()
    {
      var r := outgoing.OpenStream();
      if r.Some? {
        GrantedNow(calls, outgoing.openQueue);
        calls := GrantNow(calls);
      } else {
        Refused(calls, outgoing.openQueue);
        calls := Refuse(calls);
      }
    }

    method OpenSync()
      requires Valid()
      modifies this`calls, outgoing
      ensures Valid() && OpenQueued()
    {
      ghost var line := outgoing.openQueue;
      var r := outgoing.OpenStreamSync();
      if r.AtOnce? {
        GrantedNow(calls, line);
        calls := GrantNow(calls);
      } else {
        Queued(calls, line, r.pos);
        calls := Queue(calls, r.pos);
      }
    }

    method Wake(pos: nat)
      requires Valid()
      modifies this`calls, outgoing
      ensures Valid() && Woken(pos)
    {
      if pos in outgoing.openQueue && outgoing.openQueue[pos] {
        WakeSignalled(pos);
      }
    }

    method WakeSignalled(pos: nat)
      requires Valid() && pos in outgoing.openQueue && outgoing.openQueue[pos]
      modifies this`calls, outgoing
      ensures Valid() && Woken(pos)
      ensures
        || outgoing.openQueue == old(outgoing.openQueue)[pos := false]
        || outgoing.openQueue.Keys == old(outgoing.openQueue).Keys - {pos}
    {
      ghost var line := outgoing.openQueue;
      var r := outgoing.Wake(pos);
      if r.Some? {
        GrantedFirst(calls, line, pos, outgoing.openQueue);
        calls := GrantFirst(calls, pos);
      } else {
        FewerInLine(calls, line, outgoing.openQueue);
      }
    }

    method Cancel(pos: nat)
      requires Valid()
      modifies this`lost, outgoing
      ensures Valid() && Cancelled(pos)
    {
      ghost var line := outgoing.openQueue;
      if pos in outgoing.openQueue && outgoing.openQueue[pos] {
        lost := lost + 1;
      }
      outgoing.Cancel(pos);
      FewerInLine(calls, line, outgoing.openQueue);
    }

    /** Signalled calls go on until nobody is signalled. */
    method WakeAll()
      requires Valid()
      modifies this`calls, outgoing
      ensures Valid() && calls.made == old(calls).made
      ensures lost == 0 && outgoing.openQueue != map[] ==> outgoing.nextStream > outgoing.maxStream
    {
      while exists p :: p in outgoing.openQueue && outgoing.openQueue[p]
        invariant Valid() && calls.made == old(calls).made
        decreases |outgoing.openQueue|, exists p :: p in outgoing.openQueue && outgoing.openQueue[p]
      {
        var pos :| pos in outgoing.openQueue && outgoing.openQueue[pos];
        ghost var line := outgoing.openQueue;
        WakeSignalled(pos);
        Shorter(line, pos, outgoing.openQueue);
      }
      if outgoing.openQueue != map[] {
        ghost var p :| p in outgoing.openQueue;
        ghost var first := HasFirst(outgoing.openQueue, p);
      }
    }

    method StreamFrame(num: nat)
      requires Valid()
      modifies this`limitErrors, incoming
      ensures Valid() && FrameArrived(num)
    {
      if 1 <= num < outgoing.nextStream {
        var r := incoming.GetOrOpenStream(num);
        limitErrors := limitErrors + (if r.LimitExceeded? then 1 else 0);
      }
    }

    method Accept()
      requires Valid()
      modifies this`accepted, incoming
      ensures Valid() && AcceptTried()
    {
      var r := incoming.AcceptStream();
      if r.Some? {
        accepted := accepted + [r.value];
      }
    }

    method Complete(num: nat)
      requires Valid()
      modifies incoming
      ensures Valid() && CompletedStream(num)
    {
      var _ := incoming.DeleteStream(num);
    }

    method Step(event: Event)
      requires Valid()
      modifies this, outgoing, incoming
      ensures Valid() && Does(event) && played == old(played) + [event]
      ensures !event.Cancel? ==> lost == old(lost)
      ensures !event.Accept? ==> accepted == old(accepted)
      ensures !event.Open? && !event.OpenSync? && !event.Wake? ==> calls == old(calls)
      ensures calls.made == old(calls).made + One(event.Open? || event.OpenSync?)
    {
      Happen(event);
      played := played + [event];
    }

    method Happen(event: Event)
      requires Valid()
      modifies this`calls, this`lost, this`accepted, this`limitErrors, outgoing, incoming
      ensures Valid() && Does(event)
      ensures !event.Cancel? ==> lost == old(lost)
      ensures !event.Accept? ==> accepted == old(accepted)
      ensures !event.Open? && !event.OpenSync? && !event.Wake? ==> calls == old(calls)
      ensures calls.made == old(calls).made + One(event.Open? || event.OpenSync?)
    {
      if event.StreamFrame? || event.Accept? || event.Complete? {
        AtAcceptor(event);
      } else {
        AtOpener(event);
      }
    }

    method AtOpener(event: Event)
      requires Valid() && !event.StreamFrame? && !event.Accept? && !event.Complete?
      modifies this`calls, this`lost, outgoing
      ensures Valid() && Does(event)
      ensures !event.Cancel? ==> lost == old(lost)
      ensures !event.Open? && !event.OpenSync? && !event.Wake? ==> calls == old(calls)
      ensures calls.made == old(calls).made + One(event.Open? || event.OpenSync?)
    {
      match event
      case PeerLimit => Limit(incoming.maxNumStreams);
      case LimitFrame(j) => if j < |incoming.advertised| { Limit(incoming.advertised[j]); }
      case Open => Open();
      case OpenSync => OpenSync();
      case Wake(pos) => Wake(pos);
      case Cancel(pos) => Cancel(pos);
    }

    method AtAcceptor(event: Event)
      requires Valid() && (event.StreamFrame? || event.Accept? || event.Complete?)
      modifies this`accepted, this`limitErrors, incoming
      ensures Valid() && Does(event) && (!event.Accept? ==> accepted == old(accepted))
    {
      match event
      case StreamFrame(num) => StreamFrame(num);
      case Accept => Accept();
      case Complete(num) => Complete(num);
    }

    /** The calls still in line. */
    method StillWaiting() returns (waiting: set<nat>)
      requires Valid()
      ensures waiting == {} <==> outgoing.openQueue == map[]
      ensures forall c :: c in waiting ==> Later(calls.granted, c)
    {
      waiting := set p | p in outgoing.openQueue && p in calls.at :: calls.at[p];
      forall p | p in outgoing.openQueue
        ensures p in calls.at && calls.at[p] in waiting && Later(calls.granted, calls.at[p])
      {
        assert Placed(calls, p);
      }
    }

    method Summary() returns (o: Outcome)
      requires Valid()
      ensures Sound(incoming.maxNumStreams, o) && o.lost == lost && o.played == played && o.calls == calls.made
      ensures o.waiting == {} <==> outgoing.openQueue == map[]
      ensures o.streams == outgoing.nextStream - 1 && o.limit == outgoing.maxStream
    {
      var waiting := StillWaiting();
      var frames := outgoing.BlockedFrames();
      o := Outcome(calls.made, outgoing.nextStream - 1, outgoing.maxStream, calls.granted, waiting, lost, accepted,
                   incoming.advertised, |incoming.streams|, limitErrors, outgoing.blockedAt, frames, played);
      ReportsDiffer(outgoing.blockedAt, frames);
      GrownFrom(incoming.advertised, incoming.maxNumStreams, incoming.maxStream);
    }
  }

  lemma GrownFrom(advertised: seq<nat>, start: nat, limit: nat)
    requires Grown(advertised, start, limit)
    ensures Increasing([start] + advertised) && ([start] + advertised)[|advertised|] == limit
  {
  }

  function Numbers(n: nat): (s: seq<nat>) {
    seq(n, i => i + 1)
  }

  lemma Shorter(line: map<nat, bool>, pos: nat, after: map<nat, bool>)
    requires pos in line && line[pos] && (forall p :: p in line && line[p] ==> First(line, p))
    requires after == line[pos := false] || after.Keys == line.Keys - {pos}
    ensures |after| < |line| || (|after| == |line| && forall p :: p in after ==> !after[p])
  {
    if after.Keys == line.Keys - {pos} {
      assert |after.Keys| == |line.Keys| - 1;
    } else {
      assert after.Keys == line.Keys;
    }
  }

  datatype Outcome = Outcome(
    calls: nat, streams: nat, limit: int, granted: seq<nat>, waiting: set<nat>, lost: nat, accepted: seq<nat>,
    advertised: seq<nat>, held: nat, limitErrors: nat, blockedAt: seq<int>, blockedFrames: seq<nat>, played: seq<Event>)

  /**
   The accepting end saw no stream beyond its limit and holds no more than its number of streams; its
   advertised limits rose; streams were accepted once each, in order, and granted in the order of the calls,
   none of them past a call still in line.
   */
  ghost predicate Sound(max: nat, o: Outcome) {
    && o.limitErrors == 0 && o.held <= max
    && Increasing([max] + o.advertised)
    && o.streams <= Reported(o.limit) <= ([max] + o.advertised)[|o.advertised|]
    && o.accepted == Numbers(|o.accepted|) && |o.accepted| <= o.streams
    && |o.granted| == o.streams && Increasing(o.granted) && Later(o.granted, o.calls)
    && (forall c :: c in o.waiting ==> Later(o.granted, c))
    && SoundReports(o.blockedAt, o.blockedFrames)
  }

  /**
   One STREAMS_BLOCKED was sent for each limit, "unknown" among them, and their values differ unless opening was
   blocked both before any limit and at the limit zero.
   */
  ghost predicate SoundReports(blockedAt: seq<int>, frames: seq<nat>) {
    && Increasing(blockedAt) && |frames| == |blockedAt|
    && (forall i :: 0 <= i < |frames| ==> -1 <= blockedAt[i] && frames[i] == Reported(blockedAt[i]))
    && (Different(frames) <==> !(-1 in blockedAt && 0 in blockedAt))
  }

  /**
   Every run, whatever the network and the two applications do. Unless a signalled call gave up, once the
   signalled calls have gone on nobody is left waiting while the limit allows another stream.
   */
  method Run(max: nat, events: seq<Event>, drain: bool) returns (o: Outcome)
    ensures Sound(max, o) && o.played == events && o.calls == OpensIn(events)
    ensures drain && o.lost == 0 && o.waiting != {} ==> o.streams == Reported(o.limit)
    ensures (forall i :: 0 <= i < |events| ==> !events[i].Cancel?) ==> o.lost == 0
  {
    var ends := new Ends(max);
    Play(ends, events);
    if drain {
      ends.WakeAll();
    }
    o := ends.Summary();
  }

  function OpensIn(events: seq<Event>): nat {
    if events == [] then 0 else One(events[0].Open? || events[0].OpenSync?) + OpensIn(events[1..])
  }

  /** Events in order. */
  method Play(ends: Ends, events: seq<Event>)
    requires ends.Valid()
    modifies ends, ends.outgoing, ends.incoming
    ensures ends.Valid() && ends.played == old(ends.played) + events
    ensures (forall i :: 0 <= i < |events| ==> !events[i].Cancel?) ==> ends.lost == old(ends.lost)
    ensures ends.calls.made == old(ends.calls).made + OpensIn(events)
  {
    if events != [] {
      ends.Step(events[0]);
      Play(ends, events[1..]);
    }
  }

  method TwoWait() returns (m: OutgoingMap)
    ensures fresh(m) && m.Valid() && m.nextStream == 1 && m.openQueue == map[0 := false, 1 := false]
    ensures m.maxStream == -1
  {
    m := new OutgoingMap();
    var first := m.OpenStreamSync();
    var second := m.OpenStreamSync();
  }

  /**
   Two calls wait; the limit one wakes the first, which gives up. The second waits on, though a stream could be
   opened, until a higher limit arrives.
   */
  method LostWakeUp() returns (line: map<nat, bool>, nextStream: nat, maxStream: int)
    ensures nextStream == maxStream == 1 && line == map[1 := false]
  {
    var m := TwoWait();
    m.SetMaxStream(1);
    assert 0 in m.openQueue.Keys && 1 in m.openQueue.Keys;
    m.Cancel(0);
    line, nextStream, maxStream := m.openQueue, m.nextStream, m.maxStream;
  }

  /** The value zero is reported twice when opening is tried before any limit and again at the limit zero. */
  method ZeroReportedTwice() returns (frames: seq<nat>)
    ensures frames == [0, 0]
  {
    var m := new OutgoingMap();
    var before := m.OpenStream();
    m.SetMaxStream(0);
    var after := m.OpenStream();
    assert m.blockedAt == [-1, 0];
    frames := m.BlockedFrames();
  }
}
