/**
 A session striped over several paths: the writer cuts data into numbered packets and queues each on the
 path the scheduler picked; the receiver puts the packets of all paths back in order.
 */
module MultipathSession {
  import opened Basics

  /** Sequence numbers are 32 bits wide and wrap around. */
  const SEQ_SPACE: nat := UINT32

  datatype Packet = Packet(pathID: nat, seqNumber: nat, payload: Bytes)

  // ---------- cutting data into payloads

  ghost function Flatten(parts: seq<Bytes>): Bytes {
    if parts == [] then [] else Flatten(parts[..|parts| - 1]) + parts[|parts| - 1]
  }

  lemma {:induction false} FlattenAppend(a: seq<Bytes>, b: seq<Bytes>)
    ensures Flatten(a + b) == Flatten(a) + Flatten(b)
    decreases |b|
  {
    if b == [] {
      assert a + b == a;
    } else {
      var last := b[|b| - 1];
      FlattenAppend(a, b[..|b| - 1]);
      assert (a + b)[..|a + b| - 1] == a + b[..|b| - 1];
      assert Flatten(a + b) == Flatten(a) + Flatten(b[..|b| - 1]) + last;
    }
  }

  function Chunks(buf: Bytes): seq<Bytes>
    decreases |buf|
  {
    if buf == [] then []
    else if |buf| <= PAYLOAD_SIZE then [buf]
    else [buf[..PAYLOAD_SIZE]] + Chunks(buf[PAYLOAD_SIZE..])
  }

  /** Cutting loses nothing. */
  lemma {:induction false} FlattenChunks(buf: Bytes)
    ensures Flatten(Chunks(buf)) == buf
    decreases |buf|
  {
    if |buf| > PAYLOAD_SIZE {
      var rest := buf[PAYLOAD_SIZE..];
      FlattenChunks(rest);
      FlattenAppend([buf[..PAYLOAD_SIZE]], Chunks(rest));
      FlattenOne(buf[..PAYLOAD_SIZE]);
    } else if buf != [] {
      FlattenOne(buf);
    }
  }

  lemma FlattenOne(b: Bytes)
    ensures Flatten([b]) == b
  {
    assert [b][..0] == [];
    assert Flatten([b]) == Flatten([]) + b;
  }

  lemma FlattenPrefix(parts: seq<Bytes>, n: nat)
    requires n <= |parts|
    ensures Flatten(parts) == Flatten(parts[..n]) + Flatten(parts[n..])
  {
    assert parts == parts[..n] + parts[n..];
    FlattenAppend(parts[..n], parts[n..]);
  }

  /** No payload is empty or too long, and only the last may be short. */
  lemma {:induction false} ChunkSizes(buf: Bytes, i: nat)
    requires i < |Chunks(buf)|
    ensures 0 < |Chunks(buf)[i]| <= PAYLOAD_SIZE
    ensures i < |Chunks(buf)| - 1 ==> |Chunks(buf)[i]| == PAYLOAD_SIZE
    decreases |buf|
  {
    if |buf| <= PAYLOAD_SIZE || i == 0 {
    } else {
      ChunkSizes(buf[PAYLOAD_SIZE..], i - 1);
    }
  }

  lemma {:induction false} ChunkCount(buf: Bytes)
    ensures |Chunks(buf)| == Parts(|buf|)
    decreases |buf|
  {
    if |buf| <= PAYLOAD_SIZE {
    } else {
      ChunkCount(buf[PAYLOAD_SIZE..]);
    }
  }

  // ---------- the writer

  /** The sequence number of packet `i`. */
  function Number(i: nat): (k: nat)
    ensures k < SEQ_SPACE
  {
    if i < SEQ_SPACE then i else Number(i - SEQ_SPACE)
  }

  function Next(seqNumber: nat): nat {
    Number(seqNumber + 1)
  }

  lemma {:induction false} NumberAfter(i: nat, n: nat)
    ensures Number(Number(i) + n) == Number(i + n)
  {
    if i < SEQ_SPACE {
    } else {
      NumberAfter(i - SEQ_SPACE, n);
      assert Number(i + n) == Number(i + n - SEQ_SPACE);
    }
  }

  lemma NextNumber(i: nat)
    ensures Next(Number(i)) == Number(i + 1)
  {
    NumberAfter(i, 1);
  }

  function Put(queues: seq<seq<Packet>>, p: nat, packet: Packet): seq<seq<Packet>>
    requires p < |queues|
  {
    queues[p := queues[p] + [packet]]
  }

  /** The scheduler's answer for the j-th packet of a write; any path may come up. */
  function Choice(choices: seq<nat>, j: nat, numPath: nat): (p: nat)
    requires numPath > 0
    ensures p < numPath
  {
    if j < |choices| && choices[j] < numPath then choices[j] else 0
  }

  /** The queues after the first `n` parts went out, numbered from `start`. */
  ghost function Striped(queues: seq<seq<Packet>>, start: nat, parts: seq<Bytes>, choices: seq<nat>, n: nat)
    : (r: seq<seq<Packet>>)
    requires n <= |parts| && |queues| > 0
    ensures |r| == |queues|
  {
    if n == 0 then queues
    else
      var p := Choice(choices, n - 1, |queues|);
      Put(Striped(queues, start, parts, choices, n - 1), p, Packet(p, Number(start + n - 1), parts[n - 1]))
  }

  class Session {
    var sendBuffer: seq<seq<Packet>>
    var sequenceNumber: nat

    constructor (numPath: nat)
      ensures |sendBuffer| == numPath && (forall p :: 0 <= p < numPath ==> sendBuffer[p] == []) && sequenceNumber == 0
    {
      sendBuffer := seq(numPath, _ => []);
      sequenceNumber := 0;
    }

    method SendDataPacket(payload: Bytes, pathID: nat)
      requires pathID < |sendBuffer|
      modifies this`sendBuffer
      ensures sendBuffer == Put(old(sendBuffer), pathID, Packet(pathID, sequenceNumber, payload))
    {
      var packet := Packet(pathID, sequenceNumber, payload);
      sendBuffer := sendBuffer[pathID := sendBuffer[pathID] + [packet]];
    }

    method SendPart(payload: Bytes, choices: seq<nat>, n: nat,
                    ghost queues: seq<seq<Packet>>, ghost start: nat, ghost parts: seq<Bytes>)
      requires n < |parts| && parts[n] == payload && |queues| == |sendBuffer| > 0
      requires sendBuffer == Striped(queues, start, parts, choices, n)
      requires sequenceNumber == Number(start + n)
      modifies this
      ensures sendBuffer == Striped(queues, start, parts, choices, n + 1)
      ensures sequenceNumber == Number(start + (n + 1))
    {
      NextNumber(start + n);
      var pathID := Choice(choices, n, |sendBuffer|);
      SendDataPacket(payload, pathID);
      sequenceNumber := Next(sequenceNumber);
    }

    /** Every part of the data is queued once, in order, under consecutive numbers, on the path chosen for it. */
    method Write(buf: Bytes, choices: seq<nat>) returns (total: nat)
      requires |sendBuffer| > 0 && sequenceNumber < SEQ_SPACE
      modifies this
      ensures total == |buf|
      ensures sendBuffer == Striped(old(sendBuffer), old(sequenceNumber), Chunks(buf), choices, |Chunks(buf)|)
      ensures sequenceNumber == Number(old(sequenceNumber) + |Chunks(buf)|)
    {
      var start, n := 0, 0;
      total := 0;
      ghost var parts := Chunks(buf);
      assert buf[0..] == buf && parts[0..] == parts;
      while start < |buf|
        invariant 0 <= start <= |buf| && total == start
        invariant Cut(buf, parts, n, start)
        invariant |sendBuffer| == |old(sendBuffer)|
        invariant sendBuffer == Striped(old(sendBuffer), old(sequenceNumber), parts, choices, n)
        invariant sequenceNumber == Number(old(sequenceNumber) + n)
      {
        var end := if start + PAYLOAD_SIZE < |buf| then start + PAYLOAD_SIZE else |buf|;
        CutOne(buf, parts, n, start, end);
        var payloadSize := end - start;
        total := total + payloadSize;
        SendPart(buf[start..end], choices, n, old(sendBuffer), old(sequenceNumber), parts);
        start := end;
        n := n + 1;
      }
      CutAll(buf, parts, n);
    }

    /** One turn of a path's transmitter: the oldest queued packet leaves. */
    method Transmit(pathID: nat) returns (packet: Packet)
      requires pathID < |sendBuffer| && sendBuffer[pathID] != []
      modifies this`sendBuffer
      ensures packet == old(sendBuffer)[pathID][0]
      ensures sendBuffer == old(sendBuffer)[pathID := old(sendBuffer)[pathID][1..]]
    {
      packet := sendBuffer[pathID][0];
      sendBuffer := sendBuffer[pathID := sendBuffer[pathID][1..]];
    }
  }

  /** The parts from the n-th on are those of the data from `start` on. */
  ghost predicate Cut(buf: Bytes, parts: seq<Bytes>, n: nat, start: nat) {
    start <= |buf| && n <= |parts| && parts[n..] == Chunks(buf[start..])
  }

  lemma CutAll(buf: Bytes, parts: seq<Bytes>, n: nat)
    requires Cut(buf, parts, n, |buf|)
    ensures n == |parts|
  {
    assert buf[|buf|..] == [];
  }

  lemma CutOne(buf: Bytes, parts: seq<Bytes>, n: nat, start: nat, end: nat)
    requires start < |buf| && Cut(buf, parts, n, start)
    requires end == if start + PAYLOAD_SIZE < |buf| then start + PAYLOAD_SIZE else |buf|
    ensures n < |parts| && parts[n] == buf[start..end] && Cut(buf, parts, n + 1, end)
  {
    var rest := buf[start..];
    if |rest| > PAYLOAD_SIZE {
      assert rest[..PAYLOAD_SIZE] == buf[start..end] && rest[PAYLOAD_SIZE..] == buf[end..];
      assert parts[n + 1..] == parts[n..][1..];
    } else {
      assert rest == buf[start..end] && buf[end..] == [];
      assert parts[n] == parts[n..][0] && parts[n + 1..] == parts[n..][1..];
    }
  }

  // ---------- the receiver

  datatype Sorted = Sorted(expected: nat, ready: Bytes, waiting: map<nat, Packet>)

  /** Packets that follow on directly move over to the bytes that are ready. */
  ghost function Drained(s: Sorted): Sorted
    decreases |s.waiting|
  {
    if s.expected in s.waiting then
      assert |s.waiting - {s.expected}| < |s.waiting| by { Smaller(s.waiting, s.expected); }
      Drained(Sorted(Next(s.expected), s.ready + s.waiting[s.expected].payload, s.waiting - {s.expected}))
    else s
  }

  ghost function Pushed(s: Sorted, packet: Packet): Sorted {
    if packet.seqNumber == s.expected then Drained(Sorted(Next(s.expected), s.ready + packet.payload, s.waiting))
    else Sorted(s.expected, s.ready, s.waiting[packet.seqNumber := packet])
  }

  lemma Smaller(m: map<nat, Packet>, k: nat)
    requires k in m
    ensures |m - {k}| == |m| - 1
  {
    assert m.Keys == (m - {k}).Keys + {k};
  }

  class RecvBuffer {
    var expectedSeqNumber: nat
    var readBuffer: Bytes
    var reorderBuffer: map<nat, Packet>

    constructor ()
      ensures Now() == Sorted(0, [], map[])
    {
      expectedSeqNumber := 0;
      readBuffer := [];
      reorderBuffer := map[];
    }

    ghost function Now(): Sorted
      reads this
    {
      Sorted(expectedSeqNumber, readBuffer, reorderBuffer)
    }

    method PushPacket(packet: Packet)
      modifies this
      ensures Now() == Pushed(old(Now()), packet)
    {
      if packet.seqNumber == expectedSeqNumber {
        readBuffer := readBuffer + packet.payload;
        expectedSeqNumber := Next(expectedSeqNumber);
        while expectedSeqNumber in reorderBuffer
          invariant Drained(Now()) == Pushed(old(Now()), packet)
          decreases |reorderBuffer|
        {
          Smaller(reorderBuffer, expectedSeqNumber);
          readBuffer := readBuffer + reorderBuffer[expectedSeqNumber].payload;
          reorderBuffer := reorderBuffer - {expectedSeqNumber};
          expectedSeqNumber := Next(expectedSeqNumber);
        }
      } else {
        reorderBuffer := reorderBuffer[packet.seqNumber := packet];
      }
    }

    /** As many ready bytes as fit, from the front. */
    method Read(bufLen: nat) returns (out: Bytes)
      modifies this`readBuffer
      ensures old(readBuffer) == out + readBuffer
      ensures |out| == if |old(readBuffer)| < bufLen then |old(readBuffer)| else bufLen
    {
      var readLen := 0;
      if |readBuffer| > 0 {
        readLen := if |readBuffer| < bufLen then |readBuffer| else bufLen;
      }
      out := readBuffer[..readLen];
      readBuffer := readBuffer[readLen..];
    }
  }

  // ---------- which packets are handed over

  /** Packets by their index: those handed over, in this order, and those waiting, by sequence number. */
  datatype Handed = Handed(order: seq<nat>, waiting: map<nat, nat>)

  function Onward(h: Handed): Handed
    decreases |h.waiting|
  {
    var k := Number(|h.order|);
    if k in h.waiting then
      assert |h.waiting - {k}| < |h.waiting| by { SmallerIndex(h.waiting, k); }
      Onward(Handed(h.order + [h.waiting[k]], h.waiting - {k}))
    else h
  }

  /** Packet `i` arrives. */
  function Arrive(h: Handed, i: nat): Handed {
    if Number(i) == Number(|h.order|) then Onward(Handed(h.order + [i], h.waiting))
    else Handed(h.order, h.waiting[Number(i) := i])
  }

  lemma SmallerIndex(m: map<nat, nat>, k: nat)
    requires k in m
    ensures |m - {k}| == |m| - 1
  {
    assert m.Keys == (m - {k}).Keys + {k};
  }

  /** The payloads of the listed packets. */
  ghost function Pick(sent: seq<Bytes>, order: seq<nat>): (r: seq<Bytes>)
    ensures |r| == |order|
  {
    seq(|order|, t requires 0 <= t < |order| => if order[t] < |sent| then sent[order[t]] else [])
  }

  /** What the receiver holds are the payloads of the packets waiting. */
  ghost predicate Shows(sent: seq<Bytes>, h: Handed, s: Sorted) {
    && s.expected == Number(|h.order|) && s.waiting.Keys == h.waiting.Keys
    && (forall t {:trigger h.order[t]} :: 0 <= t < |h.order| ==> h.order[t] < |sent|)
    && (forall k {:trigger ShowsAt(sent, h.waiting, s.waiting, k)} ::
          k in h.waiting ==> ShowsAt(sent, h.waiting, s.waiting, k))
  }

  ghost predicate ShowsAt(sent: seq<Bytes>, indices: map<nat, nat>, packets: map<nat, Packet>, k: nat) {
    k in indices && k in packets && indices[k] < |sent| && packets[k].payload == sent[indices[k]]
  }

  /** The bytes made ready between two states of the receiver are those of the packets handed over between them. */
  ghost predicate Readied(sent: seq<Bytes>, h: Handed, s: Sorted, h': Handed, s': Sorted) {
    h.order <= h'.order && s'.ready == s.ready + Flatten(Pick(sent, h'.order[|h.order|..]))
  }

  /** One packet is handed over; of those waiting, all stay but perhaps the one under its number. */
  lemma HandShows(sent: seq<Bytes>, h: Handed, s: Sorted, i: nat, gone: set<nat>)
    requires Shows(sent, h, s) && i < |sent|
    ensures Shows(sent, Handed(h.order + [i], h.waiting - gone),
                  Sorted(Next(s.expected), s.ready + sent[i], s.waiting - gone))
  {
    var h', s' := Handed(h.order + [i], h.waiting - gone), Sorted(Next(s.expected), s.ready + sent[i], s.waiting - gone);
    NextNumber(|h.order|);
    forall j | j in h'.waiting
      ensures ShowsAt(sent, h'.waiting, s'.waiting, j)
    {
      assert ShowsAt(sent, h.waiting, s.waiting, j);
    }
  }

  lemma {:induction false} OnwardShows(sent: seq<Bytes>, h: Handed, s: Sorted)
    requires Shows(sent, h, s)
    ensures Shows(sent, Onward(h), Drained(s)) && Readied(sent, h, s, Onward(h), Drained(s))
    decreases |h.waiting|
  {
    var k := s.expected;
    if k in h.waiting {
      assert ShowsAt(sent, h.waiting, s.waiting, k);
      var i := h.waiting[k];
      HandShows(sent, h, s, i, {k});
      SmallerIndex(h.waiting, k);
      OnwardShows(sent, Handed(h.order + [i], h.waiting - {k}), Sorted(Next(k), s.ready + sent[i], s.waiting - {k}));
      ReadyOne(sent, h, s, i, Onward(h), Drained(s));
    } else {
      NothingReady(sent, h, s, h, s);
    }
  }

  lemma NothingReady(sent: seq<Bytes>, h: Handed, s: Sorted, h': Handed, s': Sorted)
    requires h'.order == h.order && s'.ready == s.ready
    ensures Readied(sent, h, s, h', s')
  {
    assert h.order[|h.order|..] == [] && Pick(sent, []) == [];
  }

  lemma ReadyOne(sent: seq<Bytes>, h: Handed, s: Sorted, i: nat, h': Handed, s': Sorted)
    requires i < |sent| && h.order + [i] <= h'.order
    requires s'.ready == s.ready + sent[i] + Flatten(Pick(sent, h'.order[|h.order| + 1..]))
    ensures Readied(sent, h, s, h', s')
  {
    var rest := h'.order[|h.order| + 1..];
    Tail(h.order, i, h'.order);
    PickFirst(sent, i, rest);
    assert s.ready + sent[i] + Flatten(Pick(sent, rest)) == s.ready + (sent[i] + Flatten(Pick(sent, rest)));
  }

  lemma Tail(order: seq<nat>, i: nat, all: seq<nat>)
    requires order + [i] <= all
    ensures order <= all && all[|order|..] == [i] + all[|order| + 1..]
  {
    assert all[|order|] == (order + [i])[|order|] == i;
  }

  lemma PickAppend(sent: seq<Bytes>, a: seq<nat>, b: seq<nat>)
    ensures Flatten(Pick(sent, a + b)) == Flatten(Pick(sent, a)) + Flatten(Pick(sent, b))
  {
    assert Pick(sent, a + b) == Pick(sent, a) + Pick(sent, b);
    FlattenAppend(Pick(sent, a), Pick(sent, b));
  }

  lemma PickFirst(sent: seq<Bytes>, i: nat, rest: seq<nat>)
    requires i < |sent|
    ensures Flatten(Pick(sent, [i] + rest)) == sent[i] + Flatten(Pick(sent, rest))
  {
    assert Pick(sent, [i] + rest) == [sent[i]] + Pick(sent, rest);
    FlattenAppend([sent[i]], Pick(sent, rest));
    FlattenOne(sent[i]);
  }

  /** The receiver does with numbered payloads what arrival does with packets, whatever packets are on their way. */
  lemma ArriveShows(sent: seq<Bytes>, h: Handed, s: Sorted, i: nat, packet: Packet)
    requires Shows(sent, h, s) && i < |sent| && packet.seqNumber == Number(i) && packet.payload == sent[i]
    ensures Shows(sent, Arrive(h, i), Pushed(s, packet)) && Readied(sent, h, s, Arrive(h, i), Pushed(s, packet))
  {
    if packet.seqNumber == s.expected {
      HandShows(sent, h, s, i, {});
      assert h.waiting - {} == h.waiting && s.waiting - {} == s.waiting;
      OnwardShows(sent, Handed(h.order + [i], h.waiting), Sorted(Next(s.expected), s.ready + sent[i], s.waiting));
      ReadyOne(sent, h, s, i, Arrive(h, i), Pushed(s, packet));
    } else {
      AsideShows(sent, h, s, i, packet);
      NothingReady(sent, h, s, Arrive(h, i), Pushed(s, packet));
    }
  }

  lemma AsideShows(sent: seq<Bytes>, h: Handed, s: Sorted, i: nat, packet: Packet)
    requires Shows(sent, h, s) && i < |sent| && packet.payload == sent[i]
    ensures Shows(sent, Handed(h.order, h.waiting[packet.seqNumber := i]),
                  Sorted(s.expected, s.ready, s.waiting[packet.seqNumber := packet]))
  {
    var h' := Handed(h.order, h.waiting[packet.seqNumber := i]);
    var s' := Sorted(s.expected, s.ready, s.waiting[packet.seqNumber := packet]);
    forall j | j in h'.waiting
      ensures ShowsAt(sent, h'.waiting, s'.waiting, j)
    {
      assert j != packet.seqNumber ==> ShowsAt(sent, h.waiting, s.waiting, j);
    }
  }

  lemma MoreShows(sent: seq<Bytes>, more: seq<Bytes>, h: Handed, s: Sorted)
    requires Shows(sent, h, s)
    ensures Shows(sent + more, h, s) && Pick(sent + more, h.order) == Pick(sent, h.order)
  {
    var all := sent + more;
    forall k | k in h.waiting
      ensures ShowsAt(all, h.waiting, s.waiting, k)
    {
      assert ShowsAt(sent, h.waiting, s.waiting, k);
    }
  }

  // ---------- arrivals in time

  /** The packet a sequence number is taken for, when `next` packets have been handed over. */
  ghost function Index(next: nat, k: nat): (i: nat)
    ensures next <= i < next + SEQ_SPACE
  {
    if Number(k) >= Number(next) then next + (Number(k) - Number(next))
    else next + SEQ_SPACE - (Number(next) - Number(k))
  }

  lemma IndexNumber(next: nat, k: nat)
    requires k < SEQ_SPACE
    ensures Number(Index(next, k)) == k
  {
    NumberAfter(next, Index(next, k) - next);
  }

  /** A packet is taken for itself exactly when it is less than 2^32 ahead. */
  lemma TakenFor(next: nat, i: nat)
    requires next <= i
    ensures Index(next, Number(i)) == i <==> i < next + SEQ_SPACE
    ensures Number(Index(next, Number(i))) == Number(i) && Index(next, Number(i)) <= i
  {
    NumberAfter(next, i - next);
    IndexNumber(next, Number(i));
  }

  lemma SameNumber(next: nat, i: nat, j: nat)
    requires next <= i < next + SEQ_SPACE && next <= j < next + SEQ_SPACE && Number(i) == Number(j)
    ensures i == j
  {
    TakenFor(next, i);
    TakenFor(next, j);
  }

  lemma IndexOnward(next: nat, k: nat)
    requires k < SEQ_SPACE && k != Number(next)
    ensures Index(next + 1, k) == Index(next, k) > next
  {
    NextNumber(next);
  }

  /** The first `n` numbers. */
  function Upto(n: nat): (s: seq<nat>)
    ensures |s| == n && forall t :: 0 <= t < n ==> s[t] == t
  {
    seq(n, t requires 0 <= t < n => t)
  }

  /** Handed over are the first packets, in order; the others that arrived wait under their own numbers. */
  ghost predicate Ordered(arrived: set<nat>, h: Handed) {
    && h.order == Upto(|h.order|)
    && (forall j: nat :: j < |h.order| ==> j in arrived)
    && (forall j {:trigger InTime(h, j)} :: j in arrived ==> InTime(h, j))
    && (forall k {:trigger Waits(arrived, h, k)} :: k in h.waiting ==> Waits(arrived, h, k))
  }

  ghost predicate InTime(h: Handed, j: nat) {
    j < |h.order| + SEQ_SPACE && (j < |h.order| || Number(j) in h.waiting)
  }

  ghost predicate Waits(arrived: set<nat>, h: Handed, k: nat)
    requires k in h.waiting
  {
    k < SEQ_SPACE && h.waiting[k] == Index(|h.order|, k) && h.waiting[k] in arrived
  }

  /** Moreover the next packet is the first one missing. */
  ghost predicate Sorting(arrived: set<nat>, h: Handed) {
    Ordered(arrived, h) && |h.order| !in arrived
  }

  lemma HandNext(arrived: set<nat>, h: Handed, rest: map<nat, nat>)
    requires Ordered(arrived, h) && rest == h.waiting - {Number(|h.order|)}
    ensures Ordered(arrived + {|h.order|}, Handed(h.order + [|h.order|], rest))
  {
    var next := |h.order|;
    var now, all := Handed(h.order + [next], rest), arrived + {next};
    assert now.order == Upto(next + 1);
    forall j | j in all
      ensures InTime(now, j)
    {
      assert j != next ==> InTime(h, j);
      if next < j && Number(j) == Number(next) {
        SameNumber(next, next, j);
      }
    }
    forall k | k in rest
      ensures Waits(all, now, k)
    {
      assert Waits(arrived, h, k);
      IndexOnward(next, k);
    }
  }

  lemma {:induction false} OnwardSorts(arrived: set<nat>, h: Handed)
    requires Ordered(arrived, h)
    ensures Sorting(arrived, Onward(h))
    decreases |h.waiting|
  {
    var next, k := |h.order|, Number(|h.order|);
    if k in h.waiting {
      assert Waits(arrived, h, k);
      TakenFor(next, next);
      HandNext(arrived, h, h.waiting - {k});
      assert arrived + {next} == arrived;
      SmallerIndex(h.waiting, k);
      OnwardSorts(arrived, Handed(h.order + [next], h.waiting - {k}));
    } else {
      assert next in arrived ==> InTime(h, next);
    }
  }

  /** An arrival less than 2^32 ahead of the first packet missing keeps the packets in order. */
  lemma ArriveInTime(arrived: set<nat>, h: Handed, i: nat)
    requires Sorting(arrived, h) && i !in arrived && i < |h.order| + SEQ_SPACE
    ensures Sorting(arrived + {i}, Arrive(h, i))
  {
    var next, all := |h.order|, arrived + {i};
    if i == next {
      assert Number(next) in h.waiting ==> Waits(arrived, h, Number(next));
      TakenFor(next, next);
      assert h.waiting - {Number(next)} == h.waiting;
      HandNext(arrived, h, h.waiting);
      OnwardSorts(all, Handed(h.order + [i], h.waiting));
    } else {
      if Number(i) == Number(next) {
        SameNumber(next, i, next);
      }
      TakenFor(next, i);
      var now := Arrive(h, i);
      forall j | j in all
        ensures InTime(now, j)
      {
        assert j != i ==> InTime(h, j);
      }
      forall k | k in now.waiting
        ensures Waits(all, now, k)
      {
        assert k != Number(i) ==> Waits(arrived, h, k);
      }
    }
  }

  // ---------- arrivals too early

  /** Every packet waits under its number, and none under the next one. */
  ghost predicate Settled(h: Handed) {
    Keyed(h) && Number(|h.order|) !in h.waiting
  }

  ghost predicate Keyed(h: Handed) {
    forall k :: k in h.waiting ==> Number(h.waiting[k]) == k
  }

  lemma {:induction false} OnwardSettled(h: Handed)
    requires Keyed(h)
    ensures Settled(Onward(h))
    decreases |h.waiting|
  {
    var k := Number(|h.order|);
    if k !in h.waiting {
    } else {
      SmallerIndex(h.waiting, k);
      OnwardSettled(Handed(h.order + [h.waiting[k]], h.waiting - {k}));
    }
  }

  lemma ArriveSettled(h: Handed, x: nat)
    requires Settled(h)
    ensures Settled(Arrive(h, x))
  {
    if Number(x) == Number(|h.order|) {
      OnwardSettled(Handed(h.order + [x], h.waiting));
    }
  }

  /** Packet `i` was not handed over in its place, and can no longer be. */
  ghost predicate Misplaced(h: Handed, i: nat) {
    && (i < |h.order| ==> h.order[i] != i)
    && (Number(i) in h.waiting && h.waiting[Number(i)] == i ==> Index(|h.order|, Number(i)) < i)
  }

  lemma {:induction false} OnwardMisplaced(h: Handed, i: nat)
    requires Keyed(h) && Misplaced(h, i)
    ensures Misplaced(Onward(h), i)
    decreases |h.waiting|
  {
    var next, k := |h.order|, Number(|h.order|);
    if k !in h.waiting {
    } else {
      TakenFor(next, next);
      if k != Number(i) {
        IndexOnward(next, Number(i));
      }
      SmallerIndex(h.waiting, k);
      OnwardMisplaced(Handed(h.order + [h.waiting[k]], h.waiting - {k}), i);
    }
  }

  /** Once misplaced, always misplaced. */
  lemma StaysMisplaced(h: Handed, i: nat, x: nat)
    requires Settled(h) && Misplaced(h, i) && x != i
    ensures Misplaced(Arrive(h, x), i)
  {
    var next := |h.order|;
    if Number(x) == Number(next) {
      if Number(next) != Number(i) {
        IndexOnward(next, Number(i));
      }
      OnwardMisplaced(Handed(h.order + [x], h.waiting), i);
    }
  }

  /** An arrival 2^32 or more ahead of the first packet missing is misplaced. */
  lemma ArriveTooEarly(h: Handed, i: nat)
    requires Settled(h) && |h.order| + SEQ_SPACE <= i
    ensures Misplaced(Arrive(h, i), i)
  {
    var next := |h.order|;
    TakenFor(next, i);
    if Number(i) == Number(next) {
      OnwardMisplaced(Handed(h.order + [i], h.waiting), i);
    }
  }
}
