/** Both ends of a multipath session: reliable first-in first-out paths, interleaved in any way. */
module MultipathDelivery {
  import opened Basics
  import opened MultipathSession

  datatype Event =
    | Write(data: Bytes, choices: seq<nat>)   // with the paths the scheduler picks
    | Transmit(path: nat)                     // the path's transmitter takes a turn
    | Receive(path: nat)                      // a packet comes out of the path
    | Read(len: nat)

  /** All packets so far: payloads, paths, how many came out of each path, which those are, what became of them. */
  datatype Log = Log(sent: seq<Bytes>, pathOf: seq<nat>, done: seq<nat>, arrived: set<nat>, handed: Handed)

  // ---------- the packets on one path

  function On(pathOf: seq<nat>, p: nat): (r: seq<nat>)
    ensures forall t :: 0 <= t < |r| ==> r[t] < |pathOf|
  {
    if pathOf == [] then []
    else
      var n := |pathOf| - 1;
      On(pathOf[..n], p) + (if pathOf[n] == p then [n] else [])
  }

  lemma OnSnoc(pathOf: seq<nat>, q: nat, p: nat)
    ensures On(pathOf + [q], p) == On(pathOf, p) + (if q == p then [|pathOf|] else [])
  {
    assert (pathOf + [q])[..|pathOf|] == pathOf;
  }

  lemma {:induction false} OnPath(pathOf: seq<nat>, p: nat, t: nat)
    requires t < |On(pathOf, p)|
    ensures pathOf[On(pathOf, p)[t]] == p
    decreases |pathOf|
  {
    var n := |pathOf| - 1;
    if t >= |On(pathOf[..n], p)| {
    } else {
      OnPath(pathOf[..n], p, t);
    }
  }

  lemma {:induction false} OnOnce(pathOf: seq<nat>, p: nat, t: nat, u: nat)
    requires t < u < |On(pathOf, p)|
    ensures On(pathOf, p)[t] != On(pathOf, p)[u]
    decreases |pathOf|
  {
    var n := |pathOf| - 1;
    if u >= |On(pathOf[..n], p)| {
    } else {
      OnOnce(pathOf[..n], p, t, u);
    }
  }

  lemma {:induction false} OnAll(pathOf: seq<nat>, i: nat)
    requires i < |pathOf|
    ensures exists t :: 0 <= t < |On(pathOf, pathOf[i])| && On(pathOf, pathOf[i])[t] == i
    decreases |pathOf|
  {
    var n := |pathOf| - 1;
    var p := pathOf[i];
    var before := On(pathOf[..n], p);
    if i < n {
      OnAll(pathOf[..n], i);
      var t :| 0 <= t < |before| && before[t] == i;
      assert On(pathOf, p)[t] == i;
    } else {
      assert On(pathOf, p)[|before|] == i;
    }
  }

  // ---------- what is queued and on its way

  ghost function Pack(sent: seq<Bytes>, indices: seq<nat>, p: nat): (r: seq<Packet>)
    ensures |r| == |indices|
  {
    seq(|indices|, t requires 0 <= t < |indices| =>
      Packet(p, Number(indices[t]), if indices[t] < |sent| then sent[indices[t]] else []))
  }

  /** A path holds, in order, its packets that have not come out yet. */
  ghost predicate Lane(wire: seq<Packet>, queue: seq<Packet>, log: Log, p: nat)
    requires p < |log.done|
  {
    && log.done[p] <= |On(log.pathOf, p)|
    && wire + queue == Pack(log.sent, On(log.pathOf, p)[log.done[p]..], p)
  }

  ghost predicate Lanes(wires: seq<seq<Packet>>, queues: seq<seq<Packet>>, log: Log) {
    && |wires| == |queues| == |log.done| && |log.pathOf| == |log.sent|
    && (forall i :: 0 <= i < |log.pathOf| ==> log.pathOf[i] < |queues|)
    && (forall p {:trigger Lane(wires[p], queues[p], log, p)} ::
          0 <= p < |queues| ==> Lane(wires[p], queues[p], log, p))
  }

  /** The packets that arrived are the first ones of each path. */
  ghost predicate Came(log: Log, p: nat, t: nat)
    requires p < |log.done|
  {
    t < |On(log.pathOf, p)| ==> (On(log.pathOf, p)[t] in log.arrived <==> t < log.done[p])
  }

  ghost predicate Arrivals(log: Log) {
    forall p: nat, t: nat {:trigger Came(log, p, t)} :: p < |log.done| ==> Came(log, p, t)
  }

  function Sent(log: Log, part: Bytes, p: nat): Log {
    log.(sent := log.sent + [part], pathOf := log.pathOf + [p])
  }

  lemma PutLane(wires: seq<seq<Packet>>, queues: seq<seq<Packet>>, log: Log, part: Bytes, p: nat)
    requires Lanes(wires, queues, log) && p < |queues|
    ensures Lanes(wires, Put(queues, p, Packet(p, Number(|log.sent|), part)), Sent(log, part, p))
  {
    var now, queued := Sent(log, part, p), Put(queues, p, Packet(p, Number(|log.sent|), part));
    forall q | 0 <= q < |queues|
      ensures Lane(wires[q], queued[q], now, q)
    {
      assert Lane(wires[q], queues[q], log, q);
      if q == p {
        PutHere(wires[q], queues[q], log, part, q);
      } else {
        PutElsewhere(wires[q], queues[q], log, part, p, q);
      }
    }
  }

  lemma PutHere(wire: seq<Packet>, queue: seq<Packet>, log: Log, part: Bytes, p: nat)
    requires p < |log.done| && Lane(wire, queue, log, p) && |log.pathOf| == |log.sent|
    ensures Lane(wire, queue + [Packet(p, Number(|log.sent|), part)], Sent(log, part, p), p)
  {
    var packet, now := Packet(p, Number(|log.sent|), part), Sent(log, part, p);
    OnSnoc(log.pathOf, p, p);
    var rest := On(log.pathOf, p)[log.done[p]..];
    assert On(now.pathOf, p)[log.done[p]..] == rest + [|log.sent|];
    assert Pack(now.sent, rest + [|log.sent|], p) == Pack(log.sent, rest, p) + [packet];
    assert wire + (queue + [packet]) == (wire + queue) + [packet];
  }

  lemma PutElsewhere(wire: seq<Packet>, queue: seq<Packet>, log: Log, part: Bytes, p: nat, q: nat)
    requires q < |log.done| && Lane(wire, queue, log, q) && |log.pathOf| == |log.sent| && p != q
    ensures Lane(wire, queue, Sent(log, part, p), q)
  {
    var now := Sent(log, part, p);
    OnSnoc(log.pathOf, p, q);
    var rest := On(log.pathOf, q)[log.done[q]..];
    assert On(now.pathOf, q) == On(log.pathOf, q);
    assert Pack(now.sent, rest, q) == Pack(log.sent, rest, q);
  }

  lemma SentArrivals(log: Log, part: Bytes, p: nat)
    requires Arrivals(log) && |log.pathOf| == |log.sent| && forall j :: j in log.arrived ==> j < |log.sent|
    requires forall q :: 0 <= q < |log.done| ==> log.done[q] <= |On(log.pathOf, q)|
    ensures Arrivals(Sent(log, part, p))
  {
    var now := Sent(log, part, p);
    forall q: nat, t: nat | q < |now.done|
      ensures Came(now, q, t)
    {
      assert Came(log, q, t) && log.done[q] <= |On(log.pathOf, q)|;
      OnSnoc(log.pathOf, p, q);
    }
  }

  lemma LaneLengths(wires: seq<seq<Packet>>, queues: seq<seq<Packet>>, log: Log)
    requires Lanes(wires, queues, log)
    ensures forall q :: 0 <= q < |log.done| ==> log.done[q] <= |On(log.pathOf, q)|
    ensures forall q :: 0 <= q < |log.done| && wires[q] == queues[q] == [] ==> log.done[q] == |On(log.pathOf, q)|
  {
    forall q | 0 <= q < |log.done|
      ensures log.done[q] <= |On(log.pathOf, q)|
      ensures wires[q] == queues[q] == [] ==> log.done[q] == |On(log.pathOf, q)|
    {
      assert Lane(wires[q], queues[q], log, q);
      assert |wires[q] + queues[q]| == |On(log.pathOf, q)| - log.done[q];
    }
  }

  /** The log once the first `n` parts of a write are queued. */
  function Wrote(log: Log, parts: seq<Bytes>, choices: seq<nat>, n: nat): (r: Log)
    requires n <= |parts| && |log.done| > 0
    ensures r == log.(sent := r.sent, pathOf := r.pathOf) && r.sent == log.sent + parts[..n]
  {
    if n == 0 then
      assert log.sent + parts[..0] == log.sent;
      log
    else
      assert parts[..n] == parts[..n - 1] + [parts[n - 1]];
      Sent(Wrote(log, parts, choices, n - 1), parts[n - 1], Choice(choices, n - 1, |log.done|))
  }

  lemma {:induction false} WroteLanes(wires: seq<seq<Packet>>, queues: seq<seq<Packet>>, log: Log, start: nat,
                                      parts: seq<Bytes>, choices: seq<nat>, n: nat)
    requires Lanes(wires, queues, log) && |queues| > 0 && n <= |parts| && start == Number(|log.sent|)
    requires Arrivals(log) && forall j :: j in log.arrived ==> j < |log.sent|
    ensures Lanes(wires, Striped(queues, start, parts, choices, n), Wrote(log, parts, choices, n))
    ensures Arrivals(Wrote(log, parts, choices, n))
  {
    if n == 0 {
    } else {
      WroteLanes(wires, queues, log, start, parts, choices, n - 1);
      var p := Choice(choices, n - 1, |queues|);
      var before := Wrote(log, parts, choices, n - 1);
      NumberAfter(|log.sent|, n - 1);
      assert |before.sent| == |log.sent| + (n - 1);
      var queued := Striped(queues, start, parts, choices, n - 1);
      LaneLengths(wires, queued, before);
      PutLane(wires, queued, before, parts[n - 1], p);
      SentArrivals(before, parts[n - 1], p);
      assert Wrote(log, parts, choices, n) == Sent(before, parts[n - 1], p);
      assert Striped(queues, start, parts, choices, n) == Put(queued, p, Packet(p, Number(|before.sent|), parts[n - 1]));
    }
  }

  // ---------- a packet leaves a path

  function Received(log: Log, p: nat): Log
    requires p < |log.done| && log.done[p] < |On(log.pathOf, p)|
  {
    var i := On(log.pathOf, p)[log.done[p]];
    log.(done := log.done[p := log.done[p] + 1], arrived := log.arrived + {i}, handed := Arrive(log.handed, i))
  }

  lemma ReceiveArrivals(log: Log, p: nat)
    requires Arrivals(log) && p < |log.done| && log.done[p] < |On(log.pathOf, p)|
    ensures On(log.pathOf, p)[log.done[p]] !in log.arrived && Arrivals(Received(log, p))
  {
    var now, d := Received(log, p), log.done[p];
    assert Came(log, p, d);
    forall q: nat, t: nat | q < |now.done|
      ensures Came(now, q, t)
    {
      assert Came(log, q, t);
      if t < |On(log.pathOf, q)| && On(log.pathOf, q)[t] == On(log.pathOf, p)[d] {
        OnPath(log.pathOf, q, t);
        OnPath(log.pathOf, p, d);
        if d < t {
          OnOnce(log.pathOf, p, d, t);
        }
      }
    }
  }

  lemma ReceiveLanes(wires: seq<seq<Packet>>, queues: seq<seq<Packet>>, log: Log, p: nat)
    requires Lanes(wires, queues, log) && p < |wires| && wires[p] != []
    ensures log.done[p] < |On(log.pathOf, p)|
    ensures On(log.pathOf, p)[log.done[p]] < |log.sent|
    ensures var i := On(log.pathOf, p)[log.done[p]]; wires[p][0] == Packet(p, Number(i), log.sent[i])
    ensures Lanes(wires[p := wires[p][1..]], queues, Received(log, p))
  {
    assert Lane(wires[p], queues[p], log, p);
    var rest := On(log.pathOf, p)[log.done[p]..];
    assert wires[p][0] == (wires[p] + queues[p])[0] == Pack(log.sent, rest, p)[0];
    var now, left := Received(log, p), wires[p := wires[p][1..]];
    forall q | 0 <= q < |queues|
      ensures Lane(left[q], queues[q], now, q)
    {
      assert Lane(wires[q], queues[q], log, q);
      if q == p {
        assert On(now.pathOf, p)[now.done[p]..] == rest[1..];
        assert Pack(log.sent, rest[1..], p) == Pack(log.sent, rest, p)[1..];
        assert left[p] + queues[p] == (wires[p] + queues[p])[1..];
      }
    }
  }

  lemma TransmitLanes(wires: seq<seq<Packet>>, queues: seq<seq<Packet>>, log: Log, p: nat)
    requires Lanes(wires, queues, log) && p < |queues| && queues[p] != []
    ensures Lanes(wires[p := wires[p] + [queues[p][0]]], queues[p := queues[p][1..]], log)
  {
    var onWire, left := wires[p := wires[p] + [queues[p][0]]], queues[p := queues[p][1..]];
    forall q | 0 <= q < |queues|
      ensures Lane(onWire[q], left[q], log, q)
    {
      assert Lane(wires[q], queues[q], log, q);
      assert onWire[q] + left[q] == wires[q] + queues[q];
    }
  }

  /** Once every path is empty, nothing is missing. */
  lemma AllArrived(wires: seq<seq<Packet>>, queues: seq<seq<Packet>>, log: Log)
    requires Lanes(wires, queues, log) && Arrivals(log)
    requires forall p :: 0 <= p < |queues| ==> wires[p] == queues[p] == []
    ensures forall i: nat :: i < |log.sent| ==> i in log.arrived
  {
    LaneLengths(wires, queues, log);
    forall i: nat | i < |log.sent|
      ensures i in log.arrived
    {
      OnAll(log.pathOf, i);
      var t :| 0 <= t < |On(log.pathOf, log.pathOf[i])| && On(log.pathOf, log.pathOf[i])[t] == i;
      assert Came(log, log.pathOf[i], t);
    }
  }

  /** A single path delivers the packets one after the other. */
  lemma {:induction false} OnlyPath(pathOf: seq<nat>)
    requires forall i :: 0 <= i < |pathOf| ==> pathOf[i] == 0
    ensures On(pathOf, 0) == Upto(|pathOf|)
  {
    if pathOf == [] {
    } else {
      OnlyPath(pathOf[..|pathOf| - 1]);
    }
  }

  lemma OnlyPathInTime(wires: seq<seq<Packet>>, queues: seq<seq<Packet>>, log: Log)
    requires Lanes(wires, queues, log) && Arrivals(log) && |queues| == 1 && Sorting(log.arrived, log.handed)
    requires log.done[0] < |On(log.pathOf, 0)| && forall j :: j in log.arrived ==> j < |log.sent|
    ensures On(log.pathOf, 0)[log.done[0]] == |log.handed.order|
  {
    OnlyPath(log.pathOf);
    var d, next := log.done[0], |log.handed.order|;
    assert Came(log, 0, d) && Came(log, 0, next);
    assert d > 0 ==> Came(log, 0, d - 1);
    if next > 0 {
      assert next - 1 in log.arrived && Came(log, 0, next - 1);
    }
  }

  // ---------- the whole link

  /** Where all packets are. */
  ghost predicate Placed(wires: seq<seq<Packet>>, queues: seq<seq<Packet>>, seqNumber: nat, log: Log, s: Sorted) {
    && |wires| > 0 && Lanes(wires, queues, log) && Arrivals(log)
    && seqNumber == Number(|log.sent|)
    && Shows(log.sent, log.handed, s) && Settled(log.handed)
    && (forall j :: j in log.arrived ==> j < |log.sent|)
  }

  /** What was read and what is ready are together the packets handed over. */
  ghost predicate Balanced(log: Log, written: Bytes, read: Bytes, ready: Bytes) {
    read + ready == Flatten(Pick(log.sent, log.handed.order)) && written == Flatten(log.sent)
  }

  /** Until a packet arrives too early the packets are in order; from then on that packet is misplaced. */
  ghost predicate Fate(log: Log, early: Option<nat>) {
    if early.None? then Sorting(log.arrived, log.handed)
    else early.value in log.arrived && SEQ_SPACE <= early.value && Misplaced(log.handed, early.value)
  }

  lemma WriteKeeps(wires: seq<seq<Packet>>, queues: seq<seq<Packet>>, seqNumber: nat, log: Log, s: Sorted,
                   data: Bytes, choices: seq<nat>)
    requires Placed(wires, queues, seqNumber, log, s)
    ensures var n := |Chunks(data)|;
      Placed(wires, Striped(queues, seqNumber, Chunks(data), choices, n), Number(seqNumber + n),
             Wrote(log, Chunks(data), choices, n), s)
  {
    var parts := Chunks(data);
    WroteLanes(wires, queues, log, seqNumber, parts, choices, |parts|);
    assert parts[..|parts|] == parts;
    MoreShows(log.sent, parts, log.handed, s);
    NumberAfter(|log.sent|, |parts|);
    assert Wrote(log, parts, choices, |parts|).sent == log.sent + parts;
  }

  lemma WriteBalances(log: Log, s: Sorted, written: Bytes, read: Bytes, data: Bytes, choices: seq<nat>)
    requires Balanced(log, written, read, s.ready) && |log.done| > 0 && Shows(log.sent, log.handed, s)
    ensures Balanced(Wrote(log, Chunks(data), choices, |Chunks(data)|), written + data, read, s.ready)
  {
    var parts := Chunks(data);
    FlattenChunks(data);
    FlattenAppend(log.sent, parts);
    assert parts[..|parts|] == parts;
    MoreShows(log.sent, parts, log.handed, s);
  }

  lemma WriteAll(wires: seq<seq<Packet>>, queues: seq<seq<Packet>>, seqNumber: nat, log: Log, s: Sorted,
                 data: Bytes, choices: seq<nat>, early: Option<nat>, written: Bytes, read: Bytes,
                 after: Log, queued: seq<seq<Packet>>, number: nat)
    requires Placed(wires, queues, seqNumber, log, s) && Balanced(log, written, read, s.ready) && Fate(log, early)
    requires after == Wrote(log, Chunks(data), choices, |Chunks(data)|)
    requires queued == Striped(queues, seqNumber, Chunks(data), choices, |Chunks(data)|)
    requires number == Number(seqNumber + |Chunks(data)|)
    ensures Placed(wires, queued, number, after, s)
    ensures Balanced(after, written + data, read, s.ready) && Fate(after, early)
    ensures |after.sent| == |log.sent| + Parts(|data|)
  {
    WriteKeeps(wires, queues, seqNumber, log, s, data, choices);
    WriteBalances(log, s, written, read, data, choices);
    ChunkCount(data);
  }

  lemma ReceiveKeeps(wires: seq<seq<Packet>>, queues: seq<seq<Packet>>, seqNumber: nat, log: Log, s: Sorted, p: nat)
    requires Placed(wires, queues, seqNumber, log, s) && p < |wires| && wires[p] != []
    ensures log.done[p] < |On(log.pathOf, p)|
    ensures Placed(wires[p := wires[p][1..]], queues, seqNumber, Received(log, p), Pushed(s, wires[p][0]))
    ensures Readied(log.sent, log.handed, s, Received(log, p).handed, Pushed(s, wires[p][0]))
  {
    ReceiveLanes(wires, queues, log, p);
    ReceiveArrivals(log, p);
    var i := On(log.pathOf, p)[log.done[p]];
    ArriveShows(log.sent, log.handed, s, i, wires[p][0]);
    ArriveSettled(log.handed, i);
  }

  lemma ReceiveBalances(log: Log, s: Sorted, now: Log, s': Sorted, written: Bytes, read: Bytes)
    requires Balanced(log, written, read, s.ready) && now.sent == log.sent
    requires Readied(log.sent, log.handed, s, now.handed, s')
    ensures Balanced(now, written, read, s'.ready)
  {
    var order, all := log.handed.order, now.handed.order;
    Rejoin(order, all);
    PickAppend(log.sent, order, all[|order|..]);
    Regroup(read, s.ready, Flatten(Pick(log.sent, all[|order|..])));
  }

  lemma Rejoin(a: seq<nat>, all: seq<nat>)
    requires a <= all
    ensures a + all[|a|..] == all
  {
  }

  lemma Regroup(a: Bytes, b: Bytes, c: Bytes)
    ensures a + (b + c) == (a + b) + c
  {
  }

  /** Each arrival decides: less than 2^32 ahead of the first packet missing it is sorted in, otherwise misplaced. */
  lemma ReceiveFate(log: Log, p: nat, early: Option<nat>)
    requires Arrivals(log) && p < |log.done| && log.done[p] < |On(log.pathOf, p)|
    requires Fate(log, early) && Settled(log.handed)
    ensures Fate(Received(log, p), Early(log, p, early))
  {
    ReceiveArrivals(log, p);
    var i := On(log.pathOf, p)[log.done[p]];
    if early.Some? {
      StaysMisplaced(log.handed, early.value, i);
    } else if |log.handed.order| + SEQ_SPACE <= i {
      ArriveTooEarly(log.handed, i);
    } else {
      ArriveInTime(log.arrived, log.handed, i);
    }
  }

  /** The first packet to arrive 2^32 or more ahead of the first one missing, if any. */
  function Early(log: Log, p: nat, early: Option<nat>): Option<nat>
    requires p < |log.done| && log.done[p] < |On(log.pathOf, p)|
  {
    var i := On(log.pathOf, p)[log.done[p]];
    if early.None? && |log.handed.order| + SEQ_SPACE <= i then Some(i) else early
  }

  lemma ReceiveAll(wires: seq<seq<Packet>>, queues: seq<seq<Packet>>, seqNumber: nat, log: Log, s: Sorted, p: nat,
                   early: Option<nat>, written: Bytes, read: Bytes)
    requires Placed(wires, queues, seqNumber, log, s) && p < |wires| && wires[p] != []
    requires Balanced(log, written, read, s.ready) && Fate(log, early) && (|wires| == 1 ==> early.None?)
    ensures log.done[p] < |On(log.pathOf, p)|
    ensures Placed(wires[p := wires[p][1..]], queues, seqNumber, Received(log, p), Pushed(s, wires[p][0]))
    ensures Balanced(Received(log, p), written, read, Pushed(s, wires[p][0]).ready)
    ensures Fate(Received(log, p), Early(log, p, early)) && (|wires| == 1 ==> Early(log, p, early).None?)
  {
    ReceiveKeeps(wires, queues, seqNumber, log, s, p);
    ReceiveFate(log, p, early);
    ReceiveBalances(log, s, Received(log, p), Pushed(s, wires[p][0]), written, read);
    if |wires| == 1 {
      OnlyPathInTime(wires, queues, log);
    }
  }

  lemma ReadAll(wires: seq<seq<Packet>>, queues: seq<seq<Packet>>, seqNumber: nat, log: Log, s: Sorted, after: Sorted,
                written: Bytes, read: Bytes, out: Bytes)
    requires Placed(wires, queues, seqNumber, log, s) && Balanced(log, written, read, s.ready)
    requires after == s.(ready := after.ready) && s.ready == out + after.ready
    ensures Placed(wires, queues, seqNumber, log, after) && Balanced(log, written, read + out, after.ready)
  {
    assert read + (out + after.ready) == (read + out) + after.ready;
  }

  class Link {
    const session: Session
    const buffer: RecvBuffer
    var wires: seq<seq<Packet>>    // the stream under each path
    var written: Bytes
    var read: Bytes
    var log: Log
    var early: Option<nat>         // the first packet that arrived 2^32 or more ahead
    var played: seq<Event>         // what has happened

    ghost predicate Valid()
      reads this`wires, this`written, this`read, this`log, this`early, session, buffer
    {
      && Placed(wires, session.sendBuffer, session.sequenceNumber, log, buffer.Now())
      && Balanced(log, written, read, buffer.readBuffer)
      && Fate(log, early) && (|wires| == 1 ==> early.None?)
    }

    constructor (numPath: nat)
      requires numPath > 0
      ensures Valid() && fresh(session) && fresh(buffer) && written == [] && |wires| == numPath && log.sent == []
      ensures played == []
    {
      session := new Session(numPath);
      buffer := new RecvBuffer();
      wires := seq(numPath, _ => []);
      written, read := [], [];
      log := Log([], [], seq(numPath, _ => 0), {}, Handed([], map[]));
      early, played := None, [];
      new;
      forall p | 0 <= p < numPath
        ensures Lane(wires[p], session.sendBuffer[p], log, p)
      {
        assert On([], p) == [];
      }
      assert Pick([], []) == [];
    }

    // ---------- what each event does

    twostate predicate Written(data: Bytes, choices: seq<nat>)
      reads this`written, this`log
    {
      && written == old(written) + data && |old(log).done| > 0
      && log == Wrote(old(log), Chunks(data), choices, |Chunks(data)|)
    }

    twostate predicate Transmitted(p: nat)
      reads this`wires, session
    {
      if p < |old(wires)| && p < |old(session.sendBuffer)| && old(session.sendBuffer)[p] != [] then
        && session.sendBuffer == old(session.sendBuffer)[p := old(session.sendBuffer)[p][1..]]
        && wires == old(wires)[p := old(wires)[p] + [old(session.sendBuffer)[p][0]]]
      else session.sendBuffer == old(session.sendBuffer) && wires == old(wires)
    }

    twostate predicate ReceivedFrom(p: nat)
      reads this`wires, this`log
    {
      if p < |old(wires)| && old(wires)[p] != [] then
        && wires == old(wires)[p := old(wires)[p][1..]]
        && p < |old(log).done| && old(log).done[p] < |On(old(log).pathOf, p)| && log == Received(old(log), p)
      else wires == old(wires) && log == old(log)
    }

    twostate predicate HasRead(len: nat)
      reads this`read, buffer`readBuffer
    {
      var n := Min(len, |old(buffer.readBuffer)|);
      read == old(read) + old(buffer.readBuffer)[..n] && buffer.readBuffer == old(buffer.readBuffer)[n..]
    }

    twostate predicate Does(event: Event)
      reads this`wires, this`written, this`read, this`log, session, buffer
    {
      match event
      case Write(data, choices) => Written(data, choices)
      case Transmit(p) => Transmitted(p)
      case Receive(p) => ReceivedFrom(p)
      case Read(len) => HasRead(len)
    }

    method Write(data: Bytes, choices: seq<nat>)
      requires Valid()
      modifies this`written, this`log, session
      ensures Written(data, choices)
      ensures Valid() && written == old(written) + data && |wires| == old(|wires|)
      ensures |log.sent| == old(|log.sent|) + Parts(|data|)
    {
      var parts := Chunks(data);
      var after := Wrote(log, parts, choices, |parts|);
      ghost var queues, seqNumber := session.sendBuffer, session.sequenceNumber;
      var total := session.Write(data, choices);
      WriteAll(wires, queues, seqNumber, log, buffer.Now(), data, choices, early, written, read,
               after, session.sendBuffer, session.sequenceNumber);
      log, written := after, written + data;
    }

    method Transmit(p: nat)
      requires Valid()
      modifies this`wires, session
      ensures Valid() && |wires| == old(|wires|)
      ensures p < |wires| && old(session.sendBuffer)[p] != [] ==>
        session.sendBuffer == old(session.sendBuffer)[p := old(session.sendBuffer)[p][1..]]
      ensures forall q :: 0 <= q < |wires| && q != p ==> wires[q] == old(wires)[q]
      ensures Transmitted(p)
    {
      if p < |session.sendBuffer| && session.sendBuffer[p] != [] {
        TransmitLanes(wires, session.sendBuffer, log, p);
        var packet := session.Transmit(p);
        wires := wires[p := wires[p] + [packet]];
      }
    }

    method Receive(p: nat)
      requires Valid()
      modifies this`wires, this`log, this`early, buffer
      ensures Valid() && log.sent == old(log.sent) && ReceivedFrom(p)
      ensures wires == if p < |old(wires)| && old(wires)[p] != [] then old(wires)[p := old(wires)[p][1..]] else old(wires)
    {
      if p < |wires| && wires[p] != [] {
        ReceiveAll(wires, session.sendBuffer, session.sequenceNumber, log, buffer.Now(), p, early, written, read);
        buffer.PushPacket(wires[p][0]);
        early := Early(log, p, early);
        log := Received(log, p);
        wires := wires[p := wires[p][1..]];
      }
    }

    method Read(len: nat)
      requires Valid()
      modifies this`read, buffer
      ensures Valid() && HasRead(len)
      ensures len >= |old(buffer.readBuffer)| ==> buffer.readBuffer == []
    {
      ghost var before := buffer.Now();
      var out := buffer.Read(len);
      TakeRead(out, before);
    }

    /** Bytes that have left the buffer are read. */
    method TakeRead(out: Bytes, ghost before: Sorted)
      requires Placed(wires, session.sendBuffer, session.sequenceNumber, log, before)
      requires Balanced(log, written, read, before.ready) && Fate(log, early) && (|wires| == 1 ==> early.None?)
      requires buffer.Now() == before.(ready := buffer.readBuffer) && before.ready == out + buffer.readBuffer
      modifies this`read
      ensures Valid() && read == old(read) + out
    {
      ReadAll(wires, session.sendBuffer, session.sequenceNumber, log, before, buffer.Now(), written, read, out);
      read := read + out;
    }

    /** Everything still queued or on its way comes out, and all that is ready is read. */
    method Drain()
      requires Valid()
      modifies this`wires, this`log, this`early, this`read, session, buffer
      ensures Valid() && log.sent == old(log.sent) && |wires| == old(|wires|)
      ensures read == Flatten(Pick(log.sent, log.handed.order)) && buffer.readBuffer == []
      ensures early.None? <==> log.handed.order == Upto(|log.sent|)
    {
      EmptyFrom(0);
      AllArrived(wires, session.sendBuffer, log);
      AllHanded(log, early);
      Read(|buffer.readBuffer|);
    }

    /** Every path from the p-th on is emptied. */
    method EmptyFrom(p: nat)
      requires Valid() && p <= |wires| && forall q :: 0 <= q < p ==> wires[q] == session.sendBuffer[q] == []
      modifies this`wires, this`log, this`early, session, buffer
      ensures Valid() && log.sent == old(log.sent) && |wires| == old(|wires|)
      ensures forall q :: 0 <= q < |wires| ==> wires[q] == session.sendBuffer[q] == []
      decreases |wires| - p
    {
      if p < |wires| {
        Empty(p);
        EmptyFrom(p + 1);
      }
    }

    method Empty(p: nat)
      requires Valid() && p < |wires|
      modifies this`wires, this`log, this`early, session, buffer
      ensures Valid() && log.sent == old(log.sent) && |wires| == old(|wires|)
      ensures wires[p] == session.sendBuffer[p] == []
      ensures forall q :: 0 <= q < |wires| && q != p ==>
        wires[q] == old(wires)[q] && session.sendBuffer[q] == old(session.sendBuffer)[q]
    {
      EmptyQueue(p);
      EmptyWire(p);
    }

    method EmptyQueue(p: nat)
      requires Valid() && p < |wires|
      modifies this`wires, session
      ensures Valid() && |wires| == old(|wires|) && session.sendBuffer[p] == []
      ensures forall q :: 0 <= q < |wires| && q != p ==>
        wires[q] == old(wires)[q] && session.sendBuffer[q] == old(session.sendBuffer)[q]
      decreases |session.sendBuffer[p]|
    {
      if session.sendBuffer[p] != [] {
        Transmit(p);
        EmptyQueue(p);
      }
    }

    method EmptyWire(p: nat)
      requires Valid() && p < |wires|
      modifies this`wires, this`log, this`early, buffer
      ensures Valid() && log.sent == old(log.sent) && wires == old(wires)[p := []]
      decreases |wires[p]|
    {
      if wires[p] != [] {
        Receive(p);
        EmptyWire(p);
      }
    }

    method Step(event: Event)
      requires Valid()
      modifies this, session, buffer
      ensures Valid() && Does(event) && |wires| == old(|wires|) && played == old(played) + [event]
      ensures written == old(written) + DataOf(event)
      ensures |log.sent| == old(|log.sent|) + Parts(|DataOf(event)|)
    {
      Happen(event);
      played := played + [event];
    }

    method Happen(event: Event)
      requires Valid()
      modifies this`wires, this`written, this`read, this`log, this`early, session, buffer
      ensures Valid() && Does(event) && |wires| == old(|wires|)
      ensures written == old(written) + DataOf(event)
      ensures |log.sent| == old(|log.sent|) + Parts(|DataOf(event)|)
    {
      if event.Write? {
        Write(event.data, event.choices);
      } else {
        Other(event);
        assert written == old(written) + [];
      }
    }

    method Other(event: Event)
      requires Valid() && !event.Write?
      modifies this`wires, this`log, this`early, this`read, session, buffer
      ensures Valid() && Does(event) && |wires| == old(|wires|) && log.sent == old(log.sent)
    {
      match event
      case Transmit(p) => Transmit(p);
      case Receive(p) => Receive(p);
      case Read(len) => Read(len);
    }

    method Summary(drain: bool) returns (o: Outcome)
      requires Valid()
      modifies this`wires, this`log, this`early, this`read, session, buffer
      ensures o.written == written == Flatten(o.parts) && o.parts == log.sent == old(log.sent)
      ensures o.early.None? ==> o.read <= o.written
      ensures drain && o.early.None? ==> o.read == o.written
      ensures drain ==> o.read == Flatten(Pick(o.parts, o.order)) && (o.order == Upto(|o.parts|) <==> o.early.None?)
      ensures o.early.Some? ==> |old(wires)| > 1 && |o.parts| > SEQ_SPACE
      ensures o.played == played
    {
      if drain {
        Drain();
      }
      o := Outcome(written, log.sent, read, log.handed.order, early, played);
      if early.None? {
        assert |log.handed.order| > 0 ==> |log.handed.order| - 1 in log.arrived;
        ReadIsPrefix(log, written, read, buffer.readBuffer);
      } else {
        assert early.value in log.arrived;
      }
    }
  }

  /** With everything arrived, all packets have been handed over in order, unless one arrived too early. */
  lemma AllHanded(log: Log, early: Option<nat>)
    requires Fate(log, early) && (forall j :: j in log.arrived ==> j < |log.sent|)
    requires forall i: nat :: i < |log.sent| ==> i in log.arrived
    ensures early.None? <==> log.handed.order == Upto(|log.sent|)
  {
    if early.None? && log.handed.order != [] {
      assert |log.handed.order| - 1 in log.arrived;
    }
  }

  function DataOf(event: Event): Bytes {
    if event.Write? then event.data else []
  }

  function WrittenBy(events: seq<Event>): Bytes {
    if events == [] then [] else DataOf(events[0]) + WrittenBy(events[1..])
  }

  function PacketsIn(events: seq<Event>): nat {
    if events == [] then 0 else Parts(|DataOf(events[0])|) + PacketsIn(events[1..])
  }

  /** What was written and how it was cut, what was read, the packets handed over, and whether one came too early. */
  datatype Outcome = Outcome(
    written: Bytes, parts: seq<Bytes>, read: Bytes, order: seq<nat>, early: Option<nat>, played: seq<Event>)

  /**
   Every run, whatever paths are chosen and however they interleave. As long as no packet arrives 2^32 or more
   ahead of the first one missing, the bytes read are a prefix of the bytes written, and all of them once the
   paths drain. Drained, the packets have been handed over in order exactly if no packet arrived that early. None
   does when there is one path, or when there are no more than 2^32 packets.
   */
  method Run(numPath: nat, events: seq<Event>, drain: bool) returns (o: Outcome)
    requires numPath > 0
    ensures o.played == events
    ensures o.written == WrittenBy(events) == Flatten(o.parts) && |o.parts| == PacketsIn(events)
    ensures o.early.None? ==> o.read <= o.written
    ensures drain && o.early.None? ==> o.read == o.written
    ensures drain ==> o.read == Flatten(Pick(o.parts, o.order)) && (o.order == Upto(|o.parts|) <==> o.early.None?)
    ensures numPath == 1 || PacketsIn(events) <= SEQ_SPACE ==> o.early.None?
  {
    var link := new Link(numPath);
    Play(link, events);
    o := link.Summary(drain);
  }

  /** Events in order. */
  method Play(link: Link, events: seq<Event>)
    requires link.Valid()
    modifies link, link.session, link.buffer
    ensures link.Valid() && |link.wires| == old(|link.wires|) && link.played == old(link.played) + events
    ensures link.written == old(link.written) + WrittenBy(events)
    ensures |link.log.sent| == old(|link.log.sent|) + PacketsIn(events)
  {
    if events != [] {
      FirstAndRest(link.written, link.played, events);
      link.Step(events[0]);
      Play(link, events[1..]);
    }
  }

  lemma {:induction false} FirstAndRest(written: Bytes, played: seq<Event>, events: seq<Event>)
    requires events != []
    ensures (written + DataOf(events[0])) + WrittenBy(events[1..]) == written + WrittenBy(events)
    ensures (played + [events[0]]) + events[1..] == played + events
  {
    Join(written, DataOf(events[0]), WrittenBy(events[1..]));
    Join(played, [events[0]], events[1..]);
    assert events == [events[0]] + events[1..];
  }

  lemma Join<T>(a: seq<T>, b: seq<T>, c: seq<T>)
    ensures (a + b) + c == a + (b + c)
  {
  }

  lemma ReadIsPrefix(log: Log, written: Bytes, read: Bytes, ready: Bytes)
    requires Balanced(log, written, read, ready) && log.handed.order == Upto(|log.handed.order|)
    requires |log.handed.order| <= |log.sent|
    ensures read <= written
    ensures log.handed.order == Upto(|log.sent|) && ready == [] ==> read == written
  {
    var n := |log.handed.order|;
    assert Pick(log.sent, log.handed.order) == log.sent[..n];
    FlattenPrefix(log.sent, n);
    assert written == read + (ready + Flatten(log.sent[n..]));
    assert log.sent[..|log.sent|] == log.sent;
  }

  lemma OnePart(queues: seq<seq<Packet>>, start: nat, b: Byte, p: nat)
    requires |queues| == 2 && p < 2 && start < SEQ_SPACE
    ensures Chunks([b]) == [[b]]
    ensures Striped(queues, start, [[b]], [p], 1) == Put(queues, p, Packet(p, start, [b]))
  {
    var parts, choices := [[b]], [p];
    assert Striped(queues, start, parts, choices, 0) == queues;
    assert Choice(choices, 0, |queues|) == p;
    assert parts[0] == [b];
    assert Number(start + 1 - 1) == start;
  }

  /** One packet more than there are sequence numbers, and the last may be taken for the first. */
  method NumbersRunOut() returns (written: Bytes, read: Bytes)
    ensures |written| == SEQ_SPACE + 1 && !(read <= written)
  {
    var session := new Session(2);
    var buffer := new RecvBuffer();
    written := [];
    var k := 0;
    while k < SEQ_SPACE
      invariant 0 <= k <= SEQ_SPACE && |written| == k && forall j :: 0 <= j < k ==> written[j] == 0
      invariant fresh(session) && fresh(buffer) && buffer.Now() == Sorted(0, [], map[])
      invariant |session.sendBuffer| == 2 && session.sendBuffer[1] == [] && session.sequenceNumber == Number(k)
    {
      OnePart(session.sendBuffer, session.sequenceNumber, 0, 0);
      NextNumber(k);
      var total := session.Write([0], [0]);
      written := written + [0];
      k := k + 1;
    }
    OnePart(session.sendBuffer, session.sequenceNumber, 1, 1);
    var total := session.Write([1], [1]);
    written := written + [1];
    var packet := session.Transmit(1);
    buffer.PushPacket(packet);
    assert buffer.readBuffer == [1];
    read := buffer.Read(1);
    assert read[0] == (read + buffer.readBuffer)[0] == 1 && written[0] == 0;
  }
}
