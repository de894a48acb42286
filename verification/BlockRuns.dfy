/**
 Every run of a block transfer: requests, answers, packets of all peers arriving in any order and any number
 of times, and reads.
 */
module BlockRuns {
  import opened Basics
  import opened BlockSegment
  import opened BlockTransfer
  import opened BlockFetch

  datatype Event =
    | Take                  // the request loop takes a token
    | Issue                 // it requests the next segment
    | Serve(k: nat)         // the peer answers the k-th request
    | Arrive(j: nat)        // the j-th packet sent by any peer arrives, perhaps again
    | Read(len: nat)

  /** Packets are pieces of the block that were requested. */
  ghost predicate Genuine(block: Bytes, idx: nat, packets: seq<Packet>) {
    forall j {:trigger GenuineAt(block, idx, packets, j)} :: 0 <= j < |packets| ==> GenuineAt(block, idx, packets, j)
  }

  ghost predicate GenuineAt(block: Bytes, idx: nat, packets: seq<Packet>, j: int)
    requires 0 <= j < |packets|
  {
    Sent(block, packets[j]) && packets[j].dataNumber < FirstNumber(idx)
  }

  lemma GenuineLater(block: Bytes, idx: nat, packets: seq<Packet>)
    requires Genuine(block, idx, packets)
    ensures Genuine(block, idx + 1, packets)
  {
    forall j | 0 <= j < |packets|
      ensures Sent(block, packets[j]) && packets[j].dataNumber < FirstNumber(idx + 1)
    {
      assert GenuineAt(block, idx, packets, j);
    }
  }

  /** The packets from `from` on are the pieces of segment `k`, in order. */
  ghost predicate Answer(block: Bytes, packets: seq<Packet>, from: nat, k: nat) {
    && |packets| == from + (LastNumber(|block|, k) - FirstNumber(k) + 1)
    && (forall j :: from <= j < |packets| ==> packets[j].dataNumber == FirstNumber(k) + (j - from))
  }

  lemma Answered(block: Bytes, idx: nat, packets: seq<Packet>, k: nat, more: seq<Packet>)
    requires Genuine(block, idx, packets) && k < idx && Offset(|block|, k) < |block|
    requires |more| <= LastNumber(|block|, k) - FirstNumber(k) + 1
    requires forall i :: 0 <= i < |more| ==> more[i].dataNumber == FirstNumber(k) + i && Sent(block, more[i])
    ensures Genuine(block, idx, packets + more)
    ensures |more| == LastNumber(|block|, k) - FirstNumber(k) + 1 ==> Answer(block, packets + more, |packets|, k)
  {
    SegmentNumbers(|block|, k);
    Rising(k + 1, idx);
    var all := packets + more;
    forall j | 0 <= j < |all|
      ensures GenuineAt(block, idx, all, j)
    {
      if j < |packets| {
        assert GenuineAt(block, idx, packets, j);
      } else {
        assert all[j] == more[j - |packets|];
      }
    }
  }

  // ---------- tokens, step by step

  lemma AddedToken(sem: seq<nat>, peer: nat, before: seq<Snapshot>, after: seq<Snapshot>, peers: seq<nat>)
    requires Conserved(sem, Some(peer), before, peers)
    requires exists g :: after == before + [g] && g.sessionID == peer && !g.complete
    ensures Conserved(sem, None, after, peers)
  {
    var g :| after == before + [g] && g.sessionID == peer && !g.complete;
    SpendOne(sem, before, g, peers);
  }

  lemma GaveToken(sem: seq<nat>, held: Option<nat>, before: seq<Snapshot>, after: seq<Snapshot>, i: nat,
                  done: Option<nat>, peers: seq<nat>)
    requires Conserved(sem, held, before, peers) && Gave(before, after, i, done)
    ensures done.None? ==> Conserved(sem, held, after, peers)
    ensures done.Some? ==> |sem| < |peers| && Conserved(sem + [done.value], held, after, peers)
  {
    if i < |before| {
      ReturnOne(sem, held, before, i, after[i], peers);
    }
  }

  lemma MovedToken(sem: seq<nat>, held: Option<nat>, before: seq<Snapshot>, after: seq<Snapshot>, peers: seq<nat>)
    requires Conserved(sem, held, before, peers) && Moved(before, after)
    ensures Conserved(sem, held, after, peers)
  {
    if after != before {
      if exists n :: after == Used(before, n) {
        var n :| after == Used(before, n);
        ReturnOne(sem, held, before, 0, after[0], peers);
      } else {
        LeaveFirst(sem, held, before, peers);
      }
    }
  }

  class Transfer {
    const session: Requester
    const blocks: BlockBuffer
    var packets: seq<Packet>       // everything the peers have sent
    var panicked: bool             // a peer's program ended on a slice out of range
    var played: seq<Event>         // what has happened

    ghost predicate Valid()
      reads this`packets, this`panicked, session, blocks, blocks.buffer
    {
      && session.Valid() && blocks.Valid() && session.blockSize == |blocks.block| < UINT32
      && Cut(|blocks.block|, blocks.got, panicked)
      && session.idx == blocks.removed + |blocks.buffer|
      && Genuine(blocks.block, session.idx, packets)
      && Conserved(session.sem, session.held, blocks.line, session.peers) && !session.overflow
    }

    constructor (block: Bytes, peers: seq<nat>)
      requires |block| < UINT32
      ensures Valid() && fresh(session) && fresh(blocks) && blocks.buffer == [] && packets == [] && played == []
      ensures blocks.block == block && session.peers == peers
    {
      session := new Requester(|block|, peers);
      blocks := new BlockBuffer(block);
      packets, panicked, played := [], false, [];
    }

    // ---------- what each event does

    twostate predicate Took()
      reads session
    {
      && session.requests == old(session.requests)
      && if old(session.offset < session.blockSize && session.held.None? && session.sem != [])
         then session.held == Some(old(session.sem)[0]) && session.sem == old(session.sem)[1..]
         else session.held == old(session.held) && session.sem == old(session.sem)
    }

    twostate predicate Issued()
      reads session
    {
      && session.sem == old(session.sem)
      && if old(session.offset < session.blockSize && session.held.Some?)
         then
           var k := old(session.idx);
           && session.requests ==
                old(session.requests) + [Request(old(session.held).value, FirstNumber(k), LastNumber(session.blockSize, k))]
           && session.held == None
         else session.held == old(session.held) && session.requests == old(session.requests)
    }

    twostate predicate Served(k: nat)
      reads this`packets, this`panicked
    {
      && old(packets) <= packets
      && if k < |old(session.requests)| then
           var servable := Servable(|blocks.block|, old(session.requests)[k].end);
           && (servable ==> Answer(blocks.block, packets, |old(packets)|, k))
           && |packets| == |old(packets)| + (old(session.requests)[k].end - old(session.requests)[k].start) + One(servable)
           && (panicked <==> old(panicked) || !servable)
         else packets == old(packets) && panicked == old(panicked)
    }

    twostate predicate PacketArrived(j: nat)
      reads session, blocks`got
    {
      && blocks.got == old(blocks.got) + (if j < |old(packets)| then {old(packets)[j].dataNumber} else {})
      && session.requests == old(session.requests) && session.held == old(session.held)
    }

    /** What can be read of the first segment in line. */
    ghost function Available(len: nat): nat
      reads blocks, blocks.buffer
    {
      if blocks.buffer == [] then 0 else blocks.buffer[0].Readable(len)
    }

    twostate predicate HasRead(len: nat)
      reads blocks`read
    {
      |blocks.read| == |old(blocks.read)| + old(Available(len))
    }

    twostate predicate Does(event: Event)
      reads this`packets, this`panicked, session, blocks`got, blocks`read
    {
      match event
      case Take => Took()
      case Issue => Issued()
      case Serve(k) => Served(k)
      case Arrive(j) => PacketArrived(j)
      case Read(len) => HasRead(len)
    }

    method TakeToken()
      requires Valid()
      modifies session
      ensures Took()
      ensures Valid() && session.idx == old(session.idx)
      ensures session.offset < session.blockSize && (old(session.held).Some? || old(session.sem) != []) ==>
        session.held.Some?
    {
      if session.held.None? && session.sem != [] {
        TakeOne(session.sem, blocks.line, session.peers);
      }
      session.TakeToken();
    }

    method IssueRequest()
      requires Valid()
      modifies session, blocks`buffer, blocks`line
      ensures Valid() && Issued()
      ensures forall i :: 0 <= i < |blocks.buffer| ==> blocks.buffer[i] in old(blocks.buffer) || fresh(blocks.buffer[i])
      ensures if old(session.offset < session.blockSize && session.held.Some?)
              then session.idx == old(session.idx) + 1 && session.offset > old(session.offset)
              else session.idx == old(session.idx)
    {
      if session.offset < session.blockSize && session.held.Some? {
        IssueNow();
      }
    }

    method IssueNow()
      requires Valid() && session.offset < session.blockSize && session.held.Some?
      modifies session, blocks`buffer, blocks`line
      ensures Valid() && session.idx == old(session.idx) + 1 && session.offset > old(session.offset)
      ensures session.sem == old(session.sem) && session.held == None
      ensures session.requests == old(session.requests) +
        [Request(old(session.held).value, FirstNumber(old(session.idx)), LastNumber(session.blockSize, old(session.idx)))]
      ensures forall i :: 0 <= i < |blocks.buffer| ==> blocks.buffer[i] in old(blocks.buffer) || fresh(blocks.buffer[i])
    {
      ghost var peer, line := session.held.value, blocks.line;
      GenuineLater(blocks.block, session.idx, packets);
      var r, size, last := session.RequestNext();
      blocks.AddSegment(r, size, last);
      AddedToken(session.sem, peer, line, blocks.line, session.peers);
    }

    /** The peer asked has the whole block, and sends every piece of the range that it can. */
    method Serve(k: nat)
      requires Valid()
      modifies this`packets, this`panicked
      ensures Valid() && Served(k)
    {
      if k < |session.requests| {
        var r := session.requests[k];
        InRequest(|blocks.block|, session.idx, session.requests, k);
        var more, failed := SendBlockData(blocks.block, r.start, r.end);
        Answered(blocks.block, session.idx, packets, k, more);
        packets := packets + more;
        panicked := panicked || failed;
      }
    }

    method Arrive(j: nat)
      requires Valid()
      modifies session, blocks`got, blocks`line, blocks.buffer
      ensures Valid() && session.idx == old(session.idx) && session.offset == old(session.offset)
      ensures PacketArrived(j)
    {
      if j < |packets| {
        assert GenuineAt(blocks.block, session.idx, packets, j);
        ghost var line := blocks.line;
        var done, i := blocks.Push(packets[j]);
        GaveToken(session.sem, session.held, line, blocks.line, i, done, session.peers);
        if done.Some? {
          session.ReturnToken(done.value);
        }
      }
    }

    method Read(len: nat) returns (r: ReadResult)
      requires Valid()
      modifies blocks, blocks.buffer
      ensures Valid() && (forall i :: 0 <= i < |blocks.buffer| ==> blocks.buffer[i] in old(blocks.buffer))
      ensures blocks.got == old(blocks.got)
      ensures blocks.read == if r.Blocked? then old(blocks.read) else old(blocks.read) + r.bytes
      ensures r.Blocked? <==>
        if old(blocks.buffer) == [] then !old(blocks.goodbye) else !old(blocks.buffer[0].HasDataToRead())
      ensures r.Data? && len > 0 && old(blocks.buffer) != [] ==> r.bytes != []
      ensures r.Data? ==> |r.bytes| == if old(blocks.buffer) == [] then 0 else old(blocks.buffer[0].Readable(len))
      ensures HasRead(len)
    {
      ghost var line := blocks.line;
      r := blocks.Mp2ReadBlock(len);
      MovedToken(session.sem, session.held, line, blocks.line, session.peers);
    }

    /** The k-th request is answered, and every packet of the answer arrives. */
    method Fetch(k: nat)
      requires Valid() && k < session.idx && |blocks.block| <= MAX_SERVED
      modifies this`packets, this`panicked, session, blocks`got, blocks`line, blocks.buffer
      ensures Valid() && session.idx == old(session.idx) && session.offset == old(session.offset)
      ensures old(blocks.got) <= blocks.got && HasSegment(|blocks.block|, blocks.got, k)
    {
      var from := |packets|;
      InRequest(session.blockSize, session.idx, session.requests, k);
      Serve(k);
      var j := from;
      while j < |packets|
        invariant from <= j <= |packets| && Valid() && Answer(blocks.block, packets, from, k)
        invariant session.idx == old(session.idx) && session.offset == old(session.offset)
        invariant old(blocks.got) <= blocks.got
        invariant forall i :: from <= i < j ==> packets[i].dataNumber in blocks.got
      {
        Arrive(j);
        j := j + 1;
      }
      forall n | FirstNumber(k) <= n <= LastNumber(|blocks.block|, k)
        ensures n in blocks.got
      {
        assert packets[from + (n - FirstNumber(k))].dataNumber == n;
      }
    }

    /** All requests made so far are answered. */
    method FetchRequested()
      requires Valid() && |blocks.block| <= MAX_SERVED
      modifies this`packets, this`panicked, session, blocks`got, blocks`line, blocks.buffer
      ensures Valid() && Whole(|blocks.block|, blocks.got, session.idx)
    {
      var k := 0;
      while k < session.idx
        invariant 0 <= k <= session.idx && Valid() && Whole(|blocks.block|, blocks.got, k)
      {
        InRequest(session.blockSize, session.idx, session.requests, k);
        Fetch(k);
        WholeMore(|blocks.block|, blocks.got, k);
        k := k + 1;
      }
    }

    /** With nothing outstanding, there is a token to take. */
    method RequestOne()
      requires Valid() && session.peers != [] && session.offset < session.blockSize
      requires Whole(|blocks.block|, blocks.got, session.idx)
      modifies session, blocks`line, blocks`buffer
      ensures Valid() && session.idx == old(session.idx) + 1 && session.offset > old(session.offset)
      ensures forall i :: 0 <= i < |blocks.buffer| ==> blocks.buffer[i] in old(blocks.buffer) || fresh(blocks.buffer[i])
    {
      AllComplete(blocks.block, blocks.got, blocks.line, blocks.removed);
      TakeToken();
      IssueRequest();
    }

    method FetchNext()
      requires Valid() && |blocks.block| <= MAX_SERVED && session.peers != [] && session.offset < session.blockSize
      requires Whole(|blocks.block|, blocks.got, session.idx)
      modifies this`packets, this`panicked, session, blocks`got, blocks`line, blocks`buffer, blocks.buffer
      ensures Valid() && Whole(|blocks.block|, blocks.got, session.idx) && session.offset > old(session.offset)
      ensures forall i :: 0 <= i < |blocks.buffer| ==> blocks.buffer[i] in old(blocks.buffer) || fresh(blocks.buffer[i])
    {
      RequestOne();
      InRequest(session.blockSize, session.idx, session.requests, session.idx - 1);
      Fetch(session.idx - 1);
      WholeMore(|blocks.block|, blocks.got, session.idx - 1);
    }

    /** What is outstanding arrives, the rest of the block is fetched, and everything is read. */
    method Drain()
      requires Valid() && session.peers != [] && |blocks.block| <= MAX_SERVED
      modifies this`packets, this`panicked, session, blocks, blocks.buffer
      ensures Valid() && blocks.read == blocks.block && session.offset == session.blockSize
    {
      FetchRequested();
      while session.offset < session.blockSize
        invariant Valid() && Whole(|blocks.block|, blocks.got, session.idx)
        invariant forall i :: 0 <= i < |blocks.buffer| ==> blocks.buffer[i] in old(blocks.buffer) || fresh(blocks.buffer[i])
        decreases session.blockSize - session.offset
      {
        FetchNext();
      }
      ReadAll();
    }

    method ReadAll()
      requires Valid() && session.offset == session.blockSize && Whole(|blocks.block|, blocks.got, session.idx)
      modifies blocks, blocks.buffer
      ensures Valid() && blocks.read == blocks.block
    {
      while |blocks.read| < |blocks.block|
        invariant Valid() && Whole(|blocks.block|, blocks.got, session.idx)
        invariant forall i :: 0 <= i < |blocks.buffer| ==> blocks.buffer[i] in old(blocks.buffer)
        decreases |blocks.block| - |blocks.read|
      {
        HeadReady(blocks.block, blocks.got, blocks.removed, blocks.line, blocks.read);
        assert Shows(blocks.buffer, blocks.line, 0);
        var r := Read(SEGMENT_SIZE);
      }
      assert blocks.read <= blocks.block;
    }

    method Step(event: Event)
      requires Valid()
      modifies this, session, blocks, blocks.buffer
      ensures Valid() && Does(event) && played == old(played) + [event]
      ensures !event.Read? ==> blocks.read == old(blocks.read)
      ensures !event.Arrive? ==> blocks.got == old(blocks.got)
      ensures !event.Serve? ==> packets == old(packets) && panicked == old(panicked)
      ensures forall i :: 0 <= i < |blocks.buffer| ==> blocks.buffer[i] in old(blocks.buffer) || fresh(blocks.buffer[i])
    {
      Happen(event);
      played := played + [event];
    }

    method Happen(event: Event)
      requires Valid()
      modifies this`packets, this`panicked, session, blocks, blocks.buffer
      ensures Valid() && Does(event)
      ensures !event.Read? ==> blocks.read == old(blocks.read)
      ensures !event.Arrive? ==> blocks.got == old(blocks.got)
      ensures !event.Serve? ==> packets == old(packets) && panicked == old(panicked)
      ensures forall i :: 0 <= i < |blocks.buffer| ==> blocks.buffer[i] in old(blocks.buffer) || fresh(blocks.buffer[i])
    {
      match event
      case Take => TakeToken();
      case Issue => IssueRequest();
      case Serve(k) => Serve(k);
      case Arrive(j) => Arrive(j);
      case Read(len) => var _ := Read(len);
    }

    /** The peers with a segment that is not complete. */
    method Outstanding() returns (busy: seq<nat>)
      requires Valid()
      ensures Lists(busy, blocks.line)
    {
      busy := [];
      var i := 0;
      assert blocks.line[..0] == [];
      while i < |blocks.buffer|
        invariant 0 <= i <= |blocks.buffer| && Lists(busy, blocks.line[..i])
      {
        ListsMore(busy, blocks.line, i);
        assert Shows(blocks.buffer, blocks.line, i);
        if !blocks.buffer[i].complete {
          busy := busy + [blocks.buffer[i].sessionID];
        }
        i := i + 1;
      }
      assert blocks.line[..i] == blocks.line;
    }
  }

  /** Of a block that is too long, the last piece never arrives; only such a block makes a peer panic. */
  ghost predicate Cut(len: nat, got: set<nat>, panicked: bool) {
    && (len > MAX_SERVED ==> Parts(len) - 1 !in got)
    && (panicked ==> len > MAX_SERVED)
  }

  /** So such a block is never read to its end. */
  lemma NeverWhole(block: Bytes, got: set<nat>, idx: nat, removed: nat, line: seq<Snapshot>, read: Bytes)
    requires Assembled(block, got, removed, line, read) && Numbers(|block|, got, idx, removed)
    requires |block| > MAX_SERVED && Parts(|block|) - 1 !in got
    ensures |read| < |block|
  {
    if line != [] {
      assert At(block, got, line, removed, 0);
      SegmentRange(|block|, removed);
    } else if Offset(|block|, removed) == |block| {
      Closed(|block|, removed);
    }
  }

  ghost predicate HasSegment(len: nat, got: set<nat>, k: nat) {
    forall n: nat :: FirstNumber(k) <= n <= LastNumber(len, k) ==> n in got
  }

  /** Every number of the first `k` segments has arrived. */
  ghost predicate Whole(len: nat, got: set<nat>, k: nat) {
    forall n: nat :: n < FirstNumber(k) && n < Parts(len) ==> n in got
  }

  lemma WholeMore(len: nat, got: set<nat>, k: nat)
    requires Whole(len, got, k) && HasSegment(len, got, k) && Offset(len, k) < len
    ensures Whole(len, got, k + 1)
  {
    SegmentNumbers(len, k);
  }

  lemma AllComplete(block: Bytes, got: set<nat>, line: seq<Snapshot>, removed: nat)
    requires InLine(block, got, line, removed) && Whole(|block|, got, removed + |line|)
    ensures (forall i :: 0 <= i < |line| ==> line[i].complete && line[i].ready == line[i].size) && Busy(line) == 0
  {
    forall i: nat | i < |line|
      ensures line[i].complete && line[i].ready == line[i].size
    {
      assert At(block, got, line, removed, i);
      SegmentNumbers(|block|, removed + i);
      Rising(removed + i + 1, removed + |line|);
      line[i].CompleteIff(block, got);
    }
    BusyNone(line);
  }

  /** With everything requested and arrived, there is something to read until the end. */
  lemma HeadReady(block: Bytes, got: set<nat>, removed: nat, line: seq<Snapshot>, read: Bytes)
    requires Assembled(block, got, removed, line, read) && Whole(|block|, got, removed + |line|)
    requires Offset(|block|, removed + |line|) == |block| && |read| < |block|
    ensures line != [] && line[0].used < line[0].ready
  {
    AllComplete(block, got, line, removed);
  }

  lemma InRequest(len: nat, idx: nat, requests: seq<Request>, k: nat)
    requires Requested(len, idx, requests) && k < idx
    ensures requests[k].start == FirstNumber(k) && requests[k].end == LastNumber(len, k)
    ensures Offset(len, k) < len && requests[k].start <= requests[k].end < Parts(len)
  {
    assert RequestAt(len, requests, k);
    OffsetRising(len, k, idx - 1);
    SegmentNumbers(len, k);
  }

  lemma {:induction false} OffsetRising(len: nat, k: nat, j: nat)
    requires k <= j
    ensures Offset(len, k) <= Offset(len, j)
    decreases j
  {
    if k == j {
    } else {
      OffsetRising(len, k, j - 1);
    }
  }

  ghost predicate Lists(busy: seq<nat>, line: seq<Snapshot>) {
    && |busy| == Busy(line)
    && (forall p: nat {:trigger Count(busy, p)} {:trigger BusyOf(line, p)} :: Count(busy, p) == BusyOf(line, p))
  }

  lemma ListsMore(busy: seq<nat>, line: seq<Snapshot>, i: nat)
    requires i < |line| && Lists(busy, line[..i])
    ensures Lists(if line[i].complete then busy else busy + [line[i].sessionID], line[..i + 1])
  {
    var now, next := if line[i].complete then busy else busy + [line[i].sessionID], line[..i + 1];
    assert next[..i] == line[..i] && next[i] == line[i];
    forall p: nat
      ensures Count(now, p) == BusyOf(next, p)
    {
      assert Count(busy, p) == BusyOf(line[..i], p);
      CountMore(busy, line[i].sessionID, p);
    }
  }

  /** Each request begins where the one before ended. */
  ghost predicate Consecutive(len: nat, requests: seq<Request>) {
    forall k :: 0 <= k < |requests| ==>
      && requests[k].start == (if k == 0 then 0 else requests[k - 1].end + 1)
      && requests[k].start <= requests[k].end < Parts(len)
  }

  lemma RequestsConsecutive(len: nat, idx: nat, requests: seq<Request>)
    requires Requested(len, idx, requests)
    ensures Consecutive(len, requests)
  {
    forall k | 0 <= k < idx
      ensures requests[k].start == (if k == 0 then 0 else requests[k - 1].end + 1)
      ensures requests[k].start <= requests[k].end < Parts(len)
    {
      InRequest(len, idx, requests, k);
      SegmentNumbers(len, k);
      if k > 0 {
        InRequest(len, idx, requests, k - 1);
        SegmentNumbers(len, k - 1);
      }
    }
  }

  /** Once everything is requested, the ranges reach the end of the block. */
  lemma RequestsCover(len: nat, idx: nat, requests: seq<Request>)
    requires Requested(len, idx, requests) && Offset(len, idx) == len
    ensures Parts(len) == if requests == [] then 0 else requests[|requests| - 1].end + 1
  {
    if idx > 0 {
      InRequest(len, idx, requests, idx - 1);
      SegmentNumbers(len, idx - 1);
      Closed(len, idx);
    }
  }

  datatype Outcome = Outcome(
    read: Bytes, requests: seq<Request>, sem: seq<nat>, held: Option<nat>, busy: seq<nat>, overflow: bool,
    panicked: bool, played: seq<Event>)

  /**
   What was read is a prefix of the block; the requested ranges lie end to end; no token was sent to a full
   channel; and each peer's tokens are in the channel, with the request loop, or out with a segment, so that
   no peer has more segments outstanding than tokens. A block of more than 2^32 - 1024 bytes is never read to
   its end, and only while serving one does a peer panic.
   */
  ghost predicate Sound(block: Bytes, peers: seq<nat>, o: Outcome) {
    && o.read <= block && Consecutive(|block|, o.requests) && !o.overflow
    && |o.sem| + One(o.held.Some?) + |o.busy| == |peers|
    && (forall p: nat {:trigger Count(o.busy, p)} ::
          Count(o.sem, p) + One(o.held == Some(p)) + Count(o.busy, p) == Count(peers, p))
    && (|block| > MAX_SERVED ==> |o.read| < |block|) && (o.panicked ==> |block| > MAX_SERVED)
  }

  /** Every run; drained, with a peer to ask, a block that can be served has all been requested and read. */
  method Run(block: Bytes, peers: seq<nat>, events: seq<Event>, drain: bool) returns (o: Outcome)
    requires |block| < UINT32
    ensures Sound(block, peers, o) && o.played == events
    ensures drain && peers != [] ==> (o.read == block <==> |block| <= MAX_SERVED)
    ensures drain && peers != [] && |block| <= MAX_SERVED ==>
      Parts(|block|) == if o.requests == [] then 0 else o.requests[|o.requests| - 1].end + 1
  {
    var t := new Transfer(block, peers);
    Play(t, events);
    if drain && peers != [] && |block| <= MAX_SERVED {
      t.Drain();
      RequestsCover(|block|, t.session.idx, t.session.requests);
    }
    o := Summary(t);
  }

  /** Events in order. */
  method Play(t: Transfer, events: seq<Event>)
    requires t.Valid()
    modifies t, t.session, t.blocks, t.blocks.buffer
    ensures t.Valid() && t.played == old(t.played) + events
    ensures forall i :: 0 <= i < |t.blocks.buffer| ==>
      t.blocks.buffer[i] in old(t.blocks.buffer) || fresh(t.blocks.buffer[i])
  {
    if events != [] {
      t.Step(events[0]);
      Play(t, events[1..]);
    }
  }

  method Summary(t: Transfer) returns (o: Outcome)
    requires t.Valid()
    ensures Sound(t.blocks.block, t.session.peers, o) && o.read == t.blocks.read && o.requests == t.session.requests
    ensures o.played == t.played
  {
    var busy := t.Outstanding();
    RequestsConsecutive(t.session.blockSize, t.session.idx, t.session.requests);
    if |t.blocks.block| > MAX_SERVED {
      NeverWhole(t.blocks.block, t.blocks.got, t.session.idx, t.blocks.removed, t.blocks.line, t.blocks.read);
    }
    o := Outcome(t.blocks.read, t.session.requests, t.session.sem, t.session.held, busy, t.session.overflow,
                 t.panicked, t.played);
    forall p: nat
      ensures Count(o.sem, p) + One(o.held == Some(p)) + Count(busy, p) == Count(t.session.peers, p)
    {
      assert Tokens(o.sem, o.held, t.blocks.line, p) == Count(t.session.peers, p);
    }
  }
}
