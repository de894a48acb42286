/**
 Fetching a block from several peers: the request loop takes a peer's token, requests the next segment from
 that peer, and the token comes back when the segment is complete.
 */
module BlockTransfer {
  import opened Basics
  import opened BlockSegment

  datatype Packet = Packet(dataNumber: nat, data: Bytes)
  datatype Request = Request(peer: nat, start: nat, end: nat)

  /** A read waits for data, or hands some out. */
  datatype ReadResult = Blocked | Data(bytes: Bytes)

  /** The payloads of a full segment. */
  const PER_SEGMENT: nat := 2048

  // ---------- the peer that has the block

  /** Blocks up to this length can be served: beyond it the end of the last piece does not fit 32 bits. */
  const MAX_SERVED: nat := UINT32 - PAYLOAD_SIZE

  /** Where the piece under a number begins and ends in the send buffer, computed in 32 bits. */
  function SliceOf(len: nat, dataNumber: nat): (r: (nat, nat))
  {
    var offset := Wrap(Payloads(dataNumber));
    var size := if Wrap(offset + PAYLOAD_SIZE) <= len then PAYLOAD_SIZE else Wrap(len - offset);
    (offset, Wrap(offset + size))
  }

  predicate InRange(len: nat, slice: (nat, nat)) {
    slice.0 <= slice.1 <= len
  }

  /** Every piece can be served but the last one of a block that is too long. */
  predicate Servable(len: nat, n: nat) {
    n < Parts(len) && (len <= MAX_SERVED || n < Parts(len) - 1)
  }

  /** The slice is in range exactly when the piece can be served, and then it is the piece. */
  lemma SliceInRange(block: Bytes, n: nat)
    requires |block| < UINT32 && n < Parts(|block|)
    ensures InRange(|block|, SliceOf(|block|, n)) <==> Servable(|block|, n)
    ensures InRange(|block|, SliceOf(|block|, n)) ==>
      var (from, to) := SliceOf(|block|, n); block[from..to] == Piece(block, n)
  {
    SliceBounds(|block|, n);
  }

  lemma SliceBounds(len: nat, n: nat)
    requires len < UINT32 && n < Parts(len)
    ensures Servable(len, n) ==> SliceOf(len, n) == (Payloads(n), Min(Payloads(n + 1), len))
    ensures !Servable(len, n) ==> SliceOf(len, n).1 < SliceOf(len, n).0
  {
    var offset := Payloads(n);
    assert Wrap(offset) == offset;
    if Servable(len, n) {
      assert Wrap(offset + PAYLOAD_SIZE) == offset + PAYLOAD_SIZE;
    } else {
      assert Wrap(offset + PAYLOAD_SIZE) == 0;
    }
  }

  /** A packet the peer can send: a piece of its block. */
  ghost predicate Sent(block: Bytes, packet: Packet) {
    Servable(|block|, packet.dataNumber) && packet.data == Piece(block, packet.dataNumber)
  }

  /** A block of 2^32 - 1023 bytes cannot be served to its end. */
  lemma ServedNoFurther(block: Bytes)
    requires |block| == MAX_SERVED + 1
    ensures !InRange(|block|, SliceOf(|block|, Parts(|block|) - 1))
  {
    SliceInRange(block, Parts(|block|) - 1);
  }

  /**
   Answers a request with every piece of the range, in order. The last piece of a block that is too long makes
   the program panic instead.
   */
  method SendBlockData(sendBuffer: Bytes, start: nat, end: nat) returns (packets: seq<Packet>, panicked: bool)
    requires |sendBuffer| < UINT32 && start <= end < Parts(|sendBuffer|)
    ensures panicked <==> !Servable(|sendBuffer|, end)
    ensures |packets| == end - start + One(!panicked)
    ensures forall i :: 0 <= i < |packets| ==> packets[i].dataNumber == start + i && Sent(sendBuffer, packets[i])
  {
    packets, panicked := [], false;
    var dataNumber := start;
    while dataNumber <= end && !panicked
      invariant start <= dataNumber <= end + 1 && |packets| == dataNumber - start
      invariant forall i :: 0 <= i < |packets| ==> packets[i].dataNumber == start + i && Sent(sendBuffer, packets[i])
      invariant if panicked then dataNumber == end && !Servable(|sendBuffer|, end)
                else dataNumber > start ==> Servable(|sendBuffer|, dataNumber - 1)
      decreases end + 1 - dataNumber, One(!panicked)
    {
      SliceInRange(sendBuffer, dataNumber);
      var (from, to) := SliceOf(|sendBuffer|, dataNumber);
      if InRange(|sendBuffer|, (from, to)) {
        packets := packets + [Packet(dataNumber, sendBuffer[from..to])];
        dataNumber := dataNumber + 1;
      } else {
        panicked := true;
      }
    }
  }

  // ---------- segments of a block

  /** Where segment `k` begins. */
  function Offset(len: nat, k: nat): (r: nat)
    ensures r <= len
  {
    if k == 0 then 0 else Min(Offset(len, k - 1) + SEGMENT_SIZE, len)
  }

  function SizeOf(len: nat, k: nat): nat {
    Offset(len, k + 1) - Offset(len, k)
  }

  function FirstNumber(k: nat): nat {
    if k == 0 then 0 else FirstNumber(k - 1) + PER_SEGMENT
  }

  function LastNumber(len: nat, k: nat): int {
    FirstNumber(k) + Parts(SizeOf(len, k)) - 1
  }

  lemma {:induction false} Closed(len: nat, k: nat)
    ensures Offset(len, k) == Min(Payloads(FirstNumber(k)), len)
  {
    if k == 0 {
    } else {
      Closed(len, k - 1);
    }
  }

  lemma SegmentRange(len: nat, k: nat)
    requires Offset(len, k) < len
    ensures Range(len, FirstNumber(k), LastNumber(len, k), SizeOf(len, k))
    ensures Payloads(FirstNumber(k)) == Offset(len, k)
    ensures LastNumber(len, k) == Min(FirstNumber(k + 1), Parts(len)) - 1
  {
    Closed(len, k);
    CutSegment(len, FirstNumber(k));
  }

  /** The segment from number `first` on, cut short only by the end of the block. */
  lemma CutSegment(len: nat, first: nat)
    requires Payloads(first) < len
    ensures var size := Min(SEGMENT_SIZE, len - Payloads(first));
      && Range(len, first, first + Parts(size) - 1, size)
      && first + Parts(size) == Min(first + PER_SEGMENT, Parts(len))
  {
  }

  lemma SegmentNumbers(len: nat, k: nat)
    requires Offset(len, k) < len
    ensures FirstNumber(k) <= LastNumber(len, k) == Min(FirstNumber(k + 1), Parts(len)) - 1
  {
    SegmentRange(len, k);
  }

  ghost predicate InSegment(len: nat, k: nat, n: nat) {
    Offset(len, k) < len && FirstNumber(k) <= n <= LastNumber(len, k)
  }

  /** The segments' ranges lie end to end: every number of the block is in exactly one of them. */
  lemma Partition(len: nat, n: nat) returns (k: nat)
    requires n < Parts(len)
    ensures InSegment(len, k, n) && forall j: nat :: InSegment(len, j, n) ==> j == k
  {
    Enough(n);
    k := OwnSegment(len, n, n);
    forall j: nat | InSegment(len, j, n)
      ensures j == k
    {
      OnlySegment(len, j, k, n);
    }
  }

  lemma {:induction false} OwnSegment(len: nat, n: nat, top: nat) returns (k: nat)
    requires n < Parts(len) && n < FirstNumber(top + 1)
    ensures InSegment(len, k, n)
    decreases top
  {
    if FirstNumber(top) <= n {
      k := top;
      Closed(len, k);
      assert Payloads(FirstNumber(k)) <= Payloads(n) < len;
      SegmentRange(len, k);
    } else {
      k := OwnSegment(len, n, top - 1);
    }
  }

  lemma {:induction false} Enough(n: nat)
    ensures n < FirstNumber(n + 1)
  {
    if n == 0 {
    } else {
      Enough(n - 1);
    }
  }

  lemma {:induction false} Rising(k: nat, j: nat)
    requires k <= j
    ensures FirstNumber(k) <= FirstNumber(j)
    decreases j
  {
    if k == j {
    } else {
      Rising(k, j - 1);
    }
  }

  lemma OnlySegment(len: nat, j: nat, k: nat, n: nat)
    requires InSegment(len, j, n) && InSegment(len, k, n)
    ensures j == k
  {
    SegmentNumbers(len, j);
    SegmentNumbers(len, k);
    if j < k {
      Rising(j + 1, k);
    } else if k < j {
      Rising(k + 1, j);
    }
  }

  // ---------- the segments in line

  /** A segment is the k-th of the block, and its token went back once it was complete. */
  ghost predicate Placed(block: Bytes, got: set<nat>, g: Snapshot, k: nat) {
    && Offset(|block|, k) < |block|
    && g.start == FirstNumber(k) && g.end == LastNumber(|block|, k) && g.size == SizeOf(|block|, k)
    && (g.last <==> Offset(|block|, k + 1) == |block|)
    && g.Good(block, got) && (g.fecFinish <==> g.complete)
  }

  ghost predicate At(block: Bytes, got: set<nat>, line: seq<Snapshot>, removed: nat, i: nat)
    requires i < |line|
  {
    Placed(block, got, line[i], removed + i)
  }

  /** The segments in line follow those already read to the end. */
  ghost predicate InLine(block: Bytes, got: set<nat>, line: seq<Snapshot>, removed: nat) {
    forall i: nat {:trigger At(block, got, line, removed, i)} :: i < |line| ==> At(block, got, line, removed, i)
  }

  /** Numbers arrived are numbers requested, and all those of segments read to the end have. */
  ghost predicate Numbers(len: nat, got: set<nat>, idx: nat, removed: nat) {
    && (forall n :: n in got ==> n < FirstNumber(idx))
    && (forall n: nat :: n < FirstNumber(removed) && n < Parts(len) ==> n in got)
  }

  /** Only the first segment in line has been read from, and not to its end. */
  ghost predicate FirstRead(line: seq<Snapshot>) {
    && (forall i :: 0 < i < |line| ==> line[i].used == 0)
    && (line != [] ==> line[0].used < line[0].size)
  }

  ghost function Position(len: nat, removed: nat, line: seq<Snapshot>): nat {
    Offset(len, removed) + (if line == [] then 0 else line[0].used)
  }

  /** What was read is the block up to the read position of the first segment in line. */
  ghost predicate ReadTo(block: Bytes, read: Bytes, position: nat) {
    read <= block && |read| == position
  }

  ghost predicate Over(len: nat, removed: nat) {
    removed > 0 && Offset(len, removed) == len
  }

  ghost predicate Assembled(block: Bytes, got: set<nat>, removed: nat, line: seq<Snapshot>, read: Bytes) {
    && InLine(block, got, line, removed) && FirstRead(line)
    && ReadTo(block, read, Position(|block|, removed, line))
  }

  lemma Join(block: Bytes, got: set<nat>, removed: nat, line: seq<Snapshot>, read: Bytes, g: Snapshot)
    requires Assembled(block, got, removed, line, read)
    requires Placed(block, got, g, removed + |line|) && g.used == 0 < g.size
    ensures Assembled(block, got, removed, line + [g], read)
  {
    var all := line + [g];
    forall i: nat | i < |all|
      ensures At(block, got, all, removed, i)
    {
      assert i < |line| ==> At(block, got, line, removed, i);
    }
  }

  /** A new segment waits for numbers none of which has arrived. */
  lemma Fresh(block: Bytes, got: set<nat>, k: nat, g: Snapshot)
    requires Offset(|block|, k) < |block| && forall n :: n in got ==> n < FirstNumber(k)
    requires g.start == FirstNumber(k) && g.end == LastNumber(|block|, k) && g.size == SizeOf(|block|, k)
    requires g.last <==> Offset(|block|, k + 1) == |block|
    requires |g.buf| == g.size && g.sizes == seq(Parts(g.size), _ => 0)
    requires g.expected == g.start && g.used == g.ready == 0 && !g.complete && !g.fecFinish
    ensures Placed(block, got, g, k)
  {
    SegmentRange(|block|, k);
    forall d: nat | d < |g.sizes|
      ensures g.start + d < Parts(|block|) && Stored(block, got, g.start, g.buf, g.sizes, d)
    {
      PieceLength(block, g.start, g.end, g.size, d);
    }
  }

  /** A requested number without a segment in line belongs to one read to the end. */
  lemma Gone(block: Bytes, got: set<nat>, line: seq<Snapshot>, removed: nat, n: nat)
    requires InLine(block, got, line, removed) && Numbers(|block|, got, removed + |line|, removed)
    requires n < Parts(|block|) && n < FirstNumber(removed + |line|)
    requires forall j :: 0 <= j < |line| ==> !(line[j].start <= n <= line[j].end)
    ensures n in got
  {
    var k := Partition(|block|, n);
    if removed + |line| <= k {
      Rising(removed + |line|, k);
    } else if removed <= k {
      NotAt(block, got, line, removed, k, n);
    } else {
      Rising(k + 1, removed);
    }
  }

  lemma NotAt(block: Bytes, got: set<nat>, line: seq<Snapshot>, removed: nat, k: nat, n: nat)
    requires InLine(block, got, line, removed) && removed <= k < removed + |line|
    requires forall j :: 0 <= j < |line| ==> !(line[j].start <= n <= line[j].end)
    ensures !InSegment(|block|, k, n)
  {
    assert At(block, got, line, removed, k - removed);
  }

  /** A segment that took a piece: good for what has arrived now, its token given back if it is complete. */
  ghost predicate Took(before: Snapshot, after: Snapshot, block: Bytes, got: set<nat>) {
    && after.Good(block, got) && (after.fecFinish <==> after.complete) && (before.complete ==> after.complete)
    && after == before.(expected := after.expected, ready := after.ready, complete := after.complete,
                        fecFinish := after.fecFinish, buf := after.buf, sizes := after.sizes)
  }

  /** A piece stored in its segment: the others stay as they are. */
  lemma Stow(block: Bytes, got: set<nat>, removed: nat, line: seq<Snapshot>, read: Bytes, i: nat, g: Snapshot, n: nat)
    requires Assembled(block, got, removed, line, read) && i < |line|
    requires line[i].start <= n <= line[i].end && Took(line[i], g, block, got + {n})
    ensures Assembled(block, got + {n}, removed, line[i := g], read)
  {
    assert At(block, got, line, removed, i);
    StowLine(block, got, removed, line, i, g, n);
  }

  lemma StowLine(block: Bytes, got: set<nat>, removed: nat, line: seq<Snapshot>, i: nat, g: Snapshot, n: nat)
    requires InLine(block, got, line, removed) && i < |line|
    requires line[i].start <= n <= line[i].end && Placed(block, got + {n}, g, removed + i)
    ensures InLine(block, got + {n}, line[i := g], removed)
  {
    var now, all := line[i := g], got + {n};
    forall j: nat | j < |line|
      ensures At(block, all, now, removed, j)
    {
      if j != i {
        StowElsewhere(block, got, removed, line, i, j, n);
      }
    }
  }

  lemma StowElsewhere(block: Bytes, got: set<nat>, removed: nat, line: seq<Snapshot>, i: nat, j: nat, n: nat)
    requires InLine(block, got, line, removed) && i < |line| && j < |line| && i != j
    requires line[i].start <= n <= line[i].end
    ensures Placed(block, got + {n}, line[j], removed + j)
  {
    SegmentAt(block, got, removed, line, i, n);
    NotIn(|block|, removed + i, removed + j, n);
    SegmentAt(block, got, removed, line, j, n);
    line[j].Elsewhere(block, got, n);
  }

  lemma SegmentAt(block: Bytes, got: set<nat>, removed: nat, line: seq<Snapshot>, i: nat, n: nat)
    requires InLine(block, got, line, removed) && i < |line|
    ensures Placed(block, got, line[i], removed + i)
    ensures InSegment(|block|, removed + i, n) <==> line[i].start <= n <= line[i].end
  {
    assert At(block, got, line, removed, i);
  }

  lemma NotIn(len: nat, k: nat, j: nat, n: nat)
    requires InSegment(len, k, n) && j != k
    ensures !InSegment(len, j, n)
  {
    if InSegment(len, j, n) {
      OnlySegment(len, j, k, n);
    }
  }

  lemma MoreNumbers(len: nat, got: set<nat>, idx: nat, removed: nat)
    requires Numbers(len, got, idx, removed)
    ensures Numbers(len, got, idx + 1, removed)
  {
  }

  lemma MoreGot(block: Bytes, got: set<nat>, removed: nat, line: seq<Snapshot>, i: nat, n: nat)
    requires Numbers(|block|, got, removed + |line|, removed) && InLine(block, got, line, removed)
    requires i < |line| && line[i].start <= n <= line[i].end
    ensures Numbers(|block|, got + {n}, removed + |line|, removed)
  {
    assert At(block, got, line, removed, i);
    SegmentNumbers(|block|, removed + i);
    Rising(removed + i + 1, removed + |line|);
    assert n < FirstNumber(removed + i + 1);
  }

  /** The next bytes of the first segment are the next bytes of the block. */
  lemma ReadOn(block: Bytes, got: set<nat>, removed: nat, line: seq<Snapshot>, read: Bytes, out: Bytes)
    requires Assembled(block, got, removed, line, read) && line != [] && line[0].NextBytes(block, out)
    ensures read + out <= block
  {
    assert At(block, got, line, removed, 0);
    SegmentRange(|block|, removed);
    assert Payloads(line[0].start) + line[0].used == |read|;
  }

  lemma ReadPart(block: Bytes, got: set<nat>, removed: nat, line: seq<Snapshot>, read: Bytes, out: Bytes)
    requires Assembled(block, got, removed, line, read) && line != [] && line[0].used + |out| <= line[0].ready
    requires line[0].used + |out| < line[0].size && read + out <= block
    ensures Assembled(block, got, removed, line[0 := line[0].(used := line[0].used + |out|)], read + out)
  {
    var now := line[0 := line[0].(used := line[0].used + |out|)];
    forall j: nat | j < |line|
      ensures At(block, got, now, removed, j)
    {
      assert At(block, got, line, removed, j);
      if j == 0 {
        line[0].Popped(block, got, |out|);
      }
    }
  }

  /** The first segment is read to its end and leaves the line. */
  lemma ReadRest(block: Bytes, got: set<nat>, removed: nat, line: seq<Snapshot>, read: Bytes, out: Bytes)
    requires Assembled(block, got, removed, line, read) && line != [] && line[0].used + |out| <= line[0].ready
    requires line[0].used + |out| == line[0].size && read + out <= block
    ensures Assembled(block, got, removed + 1, line[1..], read + out)
    ensures line[0].complete && (line[0].last <==> Over(|block|, removed + 1)) && !Over(|block|, removed)
    ensures line[0].ready == line[0].size
  {
    assert At(block, got, line, removed, 0);
    SegmentRange(|block|, removed);
    NextInLine(block, got, removed, line);
    AllRead(block, got, removed, line[0]);
  }

  lemma NextInLine(block: Bytes, got: set<nat>, removed: nat, line: seq<Snapshot>)
    requires InLine(block, got, line, removed) && FirstRead(line) && line != []
    ensures InLine(block, got, line[1..], removed + 1) && FirstRead(line[1..])
    ensures line[1..] != [] ==> line[1..][0].used == 0
  {
    var rest, next := line[1..], removed + 1;
    forall j: nat | j < |rest|
      ensures At(block, got, rest, next, j)
    {
      assert At(block, got, line, removed, j + 1);
    }
    if rest != [] {
      assert At(block, got, rest, next, 0);
      assert rest[0] == line[1];
      SegmentRange(|block|, next);
    }
  }

  lemma NextNumbers(block: Bytes, got: set<nat>, removed: nat, line: seq<Snapshot>)
    requires Numbers(|block|, got, removed + |line|, removed) && InLine(block, got, line, removed)
    requires line != [] && line[0].ready == line[0].size
    ensures Numbers(|block|, got, removed + |line|, removed + 1)
  {
    assert At(block, got, line, removed, 0);
    SegmentNumbers(|block|, removed);
    AllRead(block, got, removed, line[0]);
    forall m: nat | m < FirstNumber(removed + 1) && m < Parts(|block|)
      ensures m in got
    {
      assert m >= FirstNumber(removed) ==> line[0].start <= m <= line[0].end;
    }
  }

  lemma AllRead(block: Bytes, got: set<nat>, k: nat, g: Snapshot)
    requires Placed(block, got, g, k) && g.ready == g.size
    ensures g.complete && forall n: nat :: g.start <= n <= g.end ==> n in got
  {
    g.CompleteIff(block, got);
    SegmentRange(|block|, k);
  }

  // ---------- tokens

  function Count(s: seq<nat>, p: nat): nat {
    if s == [] then 0 else Count(s[..|s| - 1], p) + One(s[|s| - 1] == p)
  }

  lemma CountMore(s: seq<nat>, x: nat, p: nat)
    ensures Count(s + [x], p) == Count(s, p) + One(x == p)
  {
    assert (s + [x])[..|s|] == s;
  }

  lemma {:induction false} CountFirst(s: seq<nat>, p: nat)
    requires s != []
    ensures Count(s, p) == One(s[0] == p) + Count(s[1..], p)
  {
    var n := |s| - 1;
    if n == 0 {
    } else {
      CountFirst(s[..n], p);
      assert s[..n][1..] == s[1..][..n - 1];
    }
  }

  /** How many segments that are not complete peer `p` has. */
  ghost function BusyOf(line: seq<Snapshot>, p: nat): nat {
    if line == [] then 0
    else
      var g := line[|line| - 1];
      BusyOf(line[..|line| - 1], p) + One(!g.complete && g.sessionID == p)
  }

  ghost function Busy(line: seq<Snapshot>): nat {
    if line == [] then 0 else Busy(line[..|line| - 1]) + One(!line[|line| - 1].complete)
  }

  lemma BusyMore(line: seq<Snapshot>, g: Snapshot, p: nat)
    ensures BusyOf(line + [g], p) == BusyOf(line, p) + One(!g.complete && g.sessionID == p)
    ensures Busy(line + [g]) == Busy(line) + One(!g.complete)
  {
    assert (line + [g])[..|line|] == line;
  }

  lemma {:induction false} BusyChange(line: seq<Snapshot>, i: nat, g: Snapshot, p: nat)
    requires i < |line| && g.sessionID == line[i].sessionID && (line[i].complete ==> g.complete)
    ensures var done := g.complete && !line[i].complete;
      && BusyOf(line, p) == BusyOf(line[i := g], p) + One(done && g.sessionID == p)
      && Busy(line) == Busy(line[i := g]) + One(done)
  {
    var n := |line| - 1;
    if i < n {
      BusyChange(line[..n], i, g, p);
      assert line[..n][i := g] == line[i := g][..n];
    } else {
      assert line[i := g][..n] == line[..n];
    }
  }

  lemma {:induction false} BusyFirst(line: seq<Snapshot>, p: nat)
    requires line != [] && line[0].complete
    ensures BusyOf(line[1..], p) == BusyOf(line, p) && Busy(line[1..]) == Busy(line)
  {
    var n := |line| - 1;
    if n == 0 {
    } else {
      BusyFirst(line[..n], p);
      assert line[..n][1..] == line[1..][..n - 1];
    }
  }

  lemma {:induction false} BusyNone(line: seq<Snapshot>)
    requires forall i :: 0 <= i < |line| ==> line[i].complete
    ensures Busy(line) == 0
  {
    if line == [] {
    } else {
      BusyNone(line[..|line| - 1]);
    }
  }

  /**
   Tokens are in the channel, with the request loop, or with a segment that is not complete: as many as there
   are peers, and each peer's own.
   */
  ghost predicate Conserved(sem: seq<nat>, held: Option<nat>, line: seq<Snapshot>, peers: seq<nat>) {
    && |sem| + One(held.Some?) + Busy(line) == |peers|
    && (forall p: nat {:trigger Tokens(sem, held, line, p)} :: Tokens(sem, held, line, p) == Count(peers, p))
  }

  ghost function Tokens(sem: seq<nat>, held: Option<nat>, line: seq<Snapshot>, p: nat): nat {
    Count(sem, p) + One(held == Some(p)) + BusyOf(line, p)
  }

  lemma TakeOne(sem: seq<nat>, line: seq<Snapshot>, peers: seq<nat>)
    requires Conserved(sem, None, line, peers) && sem != []
    ensures Conserved(sem[1..], Some(sem[0]), line, peers)
  {
    var rest, taken := sem[1..], Some(sem[0]);
    forall p: nat
      ensures Tokens(rest, taken, line, p) == Count(peers, p)
    {
      assert Tokens(sem, None, line, p) == Count(peers, p);
      CountFirst(sem, p);
    }
  }

  lemma SpendOne(sem: seq<nat>, line: seq<Snapshot>, g: Snapshot, peers: seq<nat>)
    requires Conserved(sem, Some(g.sessionID), line, peers) && !g.complete
    ensures Conserved(sem, None, line + [g], peers)
  {
    var now := line + [g];
    forall p: nat
      ensures Tokens(sem, None, now, p) == Count(peers, p)
    {
      assert Tokens(sem, Some(g.sessionID), line, p) == Count(peers, p);
      BusyMore(line, g, p);
    }
    BusyMore(line, g, 0);
  }

  /** A token that comes back finds room in the channel. */
  lemma ReturnOne(sem: seq<nat>, held: Option<nat>, line: seq<Snapshot>, i: nat, g: Snapshot, peers: seq<nat>)
    requires Conserved(sem, held, line, peers) && i < |line|
    requires g.sessionID == line[i].sessionID && (line[i].complete ==> g.complete)
    ensures if g.complete && !line[i].complete
            then |sem| < |peers| && Conserved(sem + [g.sessionID], held, line[i := g], peers)
            else Conserved(sem, held, line[i := g], peers)
  {
    var now, done := line[i := g], g.complete && !line[i].complete;
    var back := if done then sem + [g.sessionID] else sem;
    forall p: nat
      ensures Tokens(back, held, now, p) == Count(peers, p)
    {
      assert Tokens(sem, held, line, p) == Count(peers, p);
      BusyChange(line, i, g, p);
      CountMore(sem, g.sessionID, p);
    }
    BusyChange(line, i, g, 0);
  }

  lemma LeaveFirst(sem: seq<nat>, held: Option<nat>, line: seq<Snapshot>, peers: seq<nat>)
    requires Conserved(sem, held, line, peers) && line != [] && line[0].complete
    ensures Conserved(sem, held, line[1..], peers)
  {
    var rest := line[1..];
    forall p: nat
      ensures Tokens(sem, held, rest, p) == Count(peers, p)
    {
      assert Tokens(sem, held, line, p) == Count(peers, p);
      BusyFirst(line, p);
    }
    BusyFirst(line, 0);
  }
}
