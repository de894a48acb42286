/** The side that fetches a block, and every run of a whole transfer. */
module BlockFetch {
  import opened Basics
  import opened BlockSegment
  import opened BlockTransfer

  /** The line as it stands, segment by segment, each a different one. */
  ghost predicate Mirrors(segments: seq<Segment>, line: seq<Snapshot>)
    reads segments
  {
    && |line| == |segments|
    && (forall i {:trigger Shows(segments, line, i)} :: 0 <= i < |segments| ==> Shows(segments, line, i))
    && (forall i, j {:trigger Differ(segments, i, j)} ::
          0 <= i < |segments| && 0 <= j < |segments| && i != j ==> Differ(segments, i, j))
  }

  ghost predicate Shows(segments: seq<Segment>, line: seq<Snapshot>, i: int)
    requires 0 <= i < |segments| == |line|
    reads segments
  {
    segments[i].Now() == line[i]
  }

  ghost predicate Differ(segments: seq<Segment>, i: int, j: int)
    requires 0 <= i < |segments| && 0 <= j < |segments|
  {
    segments[i] != segments[j]
  }

  lemma MirrorsMore(segments: seq<Segment>, line: seq<Snapshot>, segment: Segment)
    requires Mirrors(segments, line) && segment !in segments
    ensures Mirrors(segments + [segment], line + [segment.Now()])
  {
    var all, now := segments + [segment], line + [segment.Now()];
    forall i | 0 <= i < |all|
      ensures Shows(all, now, i)
    {
      assert i < |segments| ==> Shows(segments, line, i);
    }
    forall i, j | 0 <= i < |all| && 0 <= j < |all| && i != j
      ensures Differ(all, i, j)
    {
      assert i < |segments| && j < |segments| ==> Differ(segments, i, j);
    }
  }

  /** One segment has changed since the line was taken. */
  lemma MirrorsChange(segments: seq<Segment>, line: seq<Snapshot>, i: nat)
    requires |line| == |segments| && i < |segments|
    requires forall j :: 0 <= j < |segments| && j != i ==> Shows(segments, line, j)
    requires forall j, k :: 0 <= j < |segments| && 0 <= k < |segments| && j != k ==> Differ(segments, j, k)
    ensures Mirrors(segments, line[i := segments[i].Now()])
  {
    var now := line[i := segments[i].Now()];
    forall j | 0 <= j < |segments|
      ensures Shows(segments, now, j)
    {
      assert j != i ==> Shows(segments, line, j);
    }
  }

  lemma MirrorsRest(segments: seq<Segment>, line: seq<Snapshot>)
    requires Mirrors(segments, line) && line != []
    ensures Mirrors(segments[1..], line[1..])
  {
    var rest, now := segments[1..], line[1..];
    forall i | 0 <= i < |rest|
      ensures Shows(rest, now, i)
    {
      assert Shows(segments, line, i + 1);
    }
    forall i, j | 0 <= i < |rest| && 0 <= j < |rest| && i != j
      ensures Differ(rest, i, j)
    {
      assert Differ(segments, i + 1, j + 1);
    }
  }

  /** `n` more bytes of the first segment are read. */
  ghost function Used(line: seq<Snapshot>, n: nat): seq<Snapshot>
    requires line != []
  {
    line[0 := line[0].(used := line[0].used + n)]
  }

  /** Segment `i`, if there is one, took a piece, and gave its token back if that made it complete. */
  ghost predicate Gave(before: seq<Snapshot>, after: seq<Snapshot>, i: nat, done: Option<nat>) {
    && i <= |before| && (i == |before| ==> after == before && done == None)
    && (i < |before| ==>
          && |after| == |before| && after == before[i := after[i]]
          && after[i].sessionID == before[i].sessionID && (before[i].complete ==> after[i].complete)
          && done == if after[i].complete && !before[i].complete then Some(after[i].sessionID) else None)
  }

  /** The first segment was read from, or, complete, left the line. */
  ghost predicate Moved(before: seq<Snapshot>, after: seq<Snapshot>) {
    || after == before
    || (before != [] && exists n :: after == Used(before, n))
    || (before != [] && before[0].complete && after == before[1..])
  }

  /** The requests made so far are for the first segments of the block, each from a peer. */
  ghost predicate Requested(len: nat, idx: nat, requests: seq<Request>) {
    && |requests| == idx && (idx > 0 ==> Offset(len, idx - 1) < len)
    && (forall k: nat {:trigger RequestAt(len, requests, k)} :: k < idx ==> RequestAt(len, requests, k))
  }

  ghost predicate RequestAt(len: nat, requests: seq<Request>, k: nat)
    requires k < |requests|
  {
    requests[k].start == FirstNumber(k) && requests[k].end == LastNumber(len, k)
  }

  lemma RequestMore(len: nat, idx: nat, requests: seq<Request>, r: Request)
    requires Requested(len, idx, requests) && Offset(len, idx) < len
    requires r.start == FirstNumber(idx) && r.end == LastNumber(len, idx)
    ensures Requested(len, idx + 1, requests + [r])
  {
    var all := requests + [r];
    forall k: nat | k < |all|
      ensures RequestAt(len, all, k)
    {
      assert k < idx ==> RequestAt(len, requests, k);
    }
  }

  /** The request loop's arithmetic gives the next segment of the block. */
  lemma NextSegment(len: nat, idx: nat, offset: nat)
    requires offset == Offset(len, idx) < len
    ensures var size := if len - offset >= SEGMENT_SIZE then SEGMENT_SIZE else len - offset;
      && size == SizeOf(len, idx) > 0 && offset + size == Offset(len, idx + 1)
      && offset / PAYLOAD_SIZE == FirstNumber(idx) && Parts(size) > 0
  {
    SegmentRange(len, idx);
  }

  /** The session that requests the block. */
  class Requester {
    const blockSize: nat
    const peers: seq<nat>
    var sem: seq<nat>              // tokens that can be taken
    var held: Option<nat>          // the token the request loop has taken
    var offset: nat
    var idx: nat
    var requests: seq<Request>
    var overflow: bool             // a token came back to a full channel

    ghost predicate Valid()
      reads this
    {
      offset == Offset(blockSize, idx) && Requested(blockSize, idx, requests)
    }

    constructor (blockSize: nat, peers: seq<nat>)
      ensures Valid() && this.blockSize == blockSize && this.peers == peers
      ensures sem == peers && held == None && idx == 0 && !overflow
    {
      this.blockSize, this.peers := blockSize, peers;
      sem, held := peers, None;
      offset, idx, requests, overflow := 0, 0, [], false;
    }

    /** The request loop waits for a token. */
    method TakeToken()
      requires Valid()
      modifies this`sem, this`held
      ensures Valid()
      ensures if offset < blockSize && old(held).None? && old(sem) != []
              then held == Some(old(sem)[0]) && sem == old(sem)[1..]
              else held == old(held) && sem == old(sem)
    {
      if offset < blockSize && held.None? && sem != [] {
        held := Some(sem[0]);
        sem := sem[1..];
      }
    }

    /** The rest of a turn of the request loop: the next segment is requested from the token's peer. */
    method RequestNext() returns (r: Request, size: nat, last: bool)
      requires Valid() && offset < blockSize && held.Some?
      modifies this`held, this`offset, this`idx, this`requests
      ensures Valid() && idx == old(idx) + 1 && held == None && offset > old(offset)
      ensures r == Request(old(held).value, FirstNumber(old(idx)), LastNumber(blockSize, old(idx)))
      ensures requests == old(requests) + [r]
      ensures size == SizeOf(blockSize, old(idx)) && Parts(size) > 0 && (last <==> Offset(blockSize, idx) == blockSize)
    {
      NextSegment(blockSize, idx, offset);
      size := if blockSize - offset >= SEGMENT_SIZE then SEGMENT_SIZE else blockSize - offset;
      var start := offset / PAYLOAD_SIZE;
      var end := start + Parts(size) - 1;
      last := offset + size == blockSize;
      r := Request(held.value, start, end);
      RequestMore(blockSize, idx, requests, r);
      requests := requests + [r];
      held := None;
      offset := offset + size;
      idx := idx + 1;
    }

    method ReturnToken(peer: nat)
      requires Valid()
      modifies this`sem, this`overflow
      ensures Valid() && sem == old(sem) + [peer] && (overflow <==> old(overflow) || |old(sem)| >= |peers|)
    {
      overflow := overflow || |sem| >= |peers|;
      sem := sem + [peer];
    }
  }

  /** The segments of the block that are requested and not read to the end. */
  class BlockBuffer {
    const block: Bytes             // the block as the peers have it
    var buffer: seq<Segment>
    var goodbye: bool
    var read: Bytes                // all bytes handed out
    ghost var line: seq<Snapshot>  // what the segments hold
    ghost var removed: nat         // segments read to the end
    ghost var got: set<nat>        // the numbers that have arrived

    ghost predicate Valid()
      reads this, buffer
    {
      && Mirrors(buffer, line) && Numbers(|block|, got, removed + |buffer|, removed)
      && Assembled(block, got, removed, line, read) && (goodbye <==> Over(|block|, removed))
    }

    constructor (block: Bytes)
      ensures Valid() && this.block == block && buffer == [] && read == [] && removed == 0 && got == {}
    {
      this.block := block;
      buffer, goodbye, read := [], false, [];
      line, removed, got := [], 0, {};
    }

    /** A segment just requested joins the end of the line. */
    method AddRecvBuffer(segment: Segment)
      requires Valid() && segment !in buffer && Placed(block, got, segment.Now(), removed + |buffer|)
      requires segment.readDataOffset == 0 && !segment.complete
      modifies this`buffer, this`line
      ensures Valid() && buffer == old(buffer) + [segment] && line == old(line) + [segment.Now()]
    {
      MirrorsMore(buffer, line, segment);
      MoreNumbers(|block|, got, removed + |buffer|, removed);
      Join(block, got, removed, line, read, segment.Now());
      buffer := buffer + [segment];
      line := line + [segment.Now()];
    }

    method AddSegment(r: Request, size: nat, last: bool)
      requires Valid() && Offset(|block|, removed + |buffer|) < |block|
      requires r.start == FirstNumber(removed + |buffer|) && r.end == LastNumber(|block|, removed + |buffer|)
      requires size == SizeOf(|block|, removed + |buffer|) && Parts(size) > 0
      requires last <==> Offset(|block|, removed + |buffer| + 1) == |block|
      modifies this`buffer, this`line
      ensures Valid() && |buffer| == old(|buffer|) + 1
      ensures (forall i :: 0 <= i < |buffer| ==> buffer[i] in old(buffer) || fresh(buffer[i]))
      ensures exists g :: line == old(line) + [g] && g.sessionID == r.peer && !g.complete
    {
      var segment := new Segment(r.peer, r.start, r.end, size, last);
      Fresh(block, got, removed + |buffer|, segment.Now());
      AddRecvBuffer(segment);
    }

    /** The segment a number belongs to, if it is still here. */
    method Find(dataNumber: nat) returns (i: nat)
      ensures i <= |buffer|
      ensures i < |buffer| ==> buffer[i].startDataNumber <= dataNumber <= buffer[i].endDataNumber
      ensures forall j :: 0 <= j < i ==> !(buffer[j].startDataNumber <= dataNumber <= buffer[j].endDataNumber)
    {
      i := 0;
      while i < |buffer| && !(buffer[i].startDataNumber <= dataNumber <= buffer[i].endDataNumber)
        invariant i <= |buffer|
        invariant forall j :: 0 <= j < i ==> !(buffer[j].startDataNumber <= dataNumber <= buffer[j].endDataNumber)
      {
        i := i + 1;
      }
    }

    /** A piece arrives. A segment it completes gives its peer's token back, once. */
    method Push(packet: Packet) returns (done: Option<nat>, ghost i: nat)
      requires Valid() && packet.dataNumber < Parts(|block|) && packet.data == Piece(block, packet.dataNumber)
      requires packet.dataNumber < FirstNumber(removed + |buffer|)
      modifies this`got, this`line, buffer
      ensures Valid() && got == old(got) + {packet.dataNumber} && Gave(old(line), line, i, done)
    {
      var at := Find(packet.dataNumber);
      i := at;
      if at == |buffer| {
        forall j | 0 <= j < |line|
          ensures !(line[j].start <= packet.dataNumber <= line[j].end)
        {
          assert Shows(buffer, line, j);
        }
        Gone(block, got, line, removed, packet.dataNumber);
        assert got == got + {packet.dataNumber};
        done := None;
      } else {
        done := PushTo(at, packet);
      }
    }

    method PushTo(i: nat, packet: Packet) returns (done: Option<nat>)
      requires Valid() && packet.dataNumber < Parts(|block|) && packet.data == Piece(block, packet.dataNumber)
      requires i < |buffer| && buffer[i].startDataNumber <= packet.dataNumber <= buffer[i].endDataNumber
      modifies this`got, this`line, buffer[i]
      ensures Valid() && got == old(got) + {packet.dataNumber} && Gave(old(line), line, i, done)
    {
      ghost var g;
      done, g := FillAt(i, packet);
      MoreGot(block, got, removed, line, i, packet.dataNumber);
      Stow(block, got, removed, line, read, i, g, packet.dataNumber);
      got := got + {packet.dataNumber};
      line := line[i := g];
    }

    method FillAt(i: nat, packet: Packet) returns (done: Option<nat>, ghost g: Snapshot)
      requires Mirrors(buffer, line) && InLine(block, got, line, removed) && packet.dataNumber < Parts(|block|)
      requires packet.data == Piece(block, packet.dataNumber)
      requires i < |buffer| && buffer[i].startDataNumber <= packet.dataNumber <= buffer[i].endDataNumber
      modifies buffer[i]
      ensures Mirrors(buffer, line[i := g]) && line[i].start <= packet.dataNumber <= line[i].end
      ensures Took(line[i], g, block, got + {packet.dataNumber})
      ensures done == if g.complete && !line[i].complete then Some(g.sessionID) else None
    {
      assert At(block, got, line, removed, i) && Shows(buffer, line, i);
      done := Fill(buffer[i], packet, block, got);
      forall j | 0 <= j < |buffer| && j != i
        ensures Shows(buffer, line, j)
      {
        assert old(Shows(buffer, line, j)) && Differ(buffer, i, j);
      }
      g := buffer[i].Now();
      MirrorsChange(buffer, line, i);
    }

    /** Reads on in the block: blocked while the next byte has not arrived, unless the block is over. */
    method Mp2ReadBlock(bufLen: nat) returns (r: ReadResult)
      requires Valid()
      modifies this`buffer, this`goodbye, this`read, this`removed, this`line, buffer
      ensures Valid() && removed + |buffer| == old(removed + |buffer|)
      ensures (forall i :: 0 <= i < |buffer| ==> buffer[i] in old(buffer))
      ensures Moved(old(line), line)
      ensures r.Blocked? <==> if old(buffer) == [] then !old(goodbye) else !old(buffer[0].HasDataToRead())
      ensures read == if r.Blocked? then old(read) else old(read) + r.bytes
      ensures r.Data? && bufLen > 0 && old(buffer) != [] ==> r.bytes != []
      ensures r.Data? ==> |r.bytes| == if old(buffer) == [] then 0 else old(buffer[0].Readable(bufLen))
    {
      if buffer == [] {
        return if goodbye then Data([]) else Blocked;
      }
      if !buffer[0].HasDataToRead() {
        return Blocked;
      }
      var out, complete := PopFirst(bufLen);
      if complete {
        RemoveSegment(out);
      } else {
        StayFirst(out);
      }
      r := Data(out);
    }

    method PopFirst(bufLen: nat) returns (out: Bytes, complete: bool)
      requires Valid() && buffer != [] && buffer[0].HasDataToRead()
      modifies buffer[0]
      ensures JustRead(out) && (complete <==> line[0].used + |out| == line[0].size)
      ensures line[0].used + |out| <= line[0].size && (bufLen > 0 ==> out != [])
      ensures |out| == old(buffer[0].Readable(bufLen))
    {
      out, complete := PopAt(bufLen);
      ReadOn(block, got, removed, line, read, out);
    }

    method PopAt(bufLen: nat) returns (out: Bytes, complete: bool)
      requires Mirrors(buffer, line) && InLine(block, got, line, removed) && buffer != [] && buffer[0].HasDataToRead()
      modifies buffer[0]
      ensures Mirrors(buffer, Used(line, |out|)) && line[0].NextBytes(block, out)
      ensures line[0].used + |out| <= line[0].ready <= line[0].size
      ensures (complete <==> line[0].used + |out| == line[0].size) && (bufLen > 0 ==> out != [])
      ensures |out| == old(buffer[0].Readable(bufLen))
    {
      assert At(block, got, line, removed, 0) && Shows(buffer, line, 0);
      out, complete := buffer[0].PopData(bufLen, block, got);
      assert buffer[0].Now() == line[0].(used := line[0].used + |out|);
      forall j | 0 <= j < |buffer| && j != 0
        ensures Shows(buffer, line, j)
      {
        assert old(Shows(buffer, line, j)) && Differ(buffer, 0, j);
      }
      MirrorsChange(buffer, line, 0);
      assert Used(line, |out|) == line[0 := buffer[0].Now()];
    }

    /** These bytes were just read from the first segment. */
    ghost predicate JustRead(out: Bytes)
      reads this, buffer
    {
      && line != [] && Mirrors(buffer, Used(line, |out|)) && Numbers(|block|, got, removed + |buffer|, removed)
      && Assembled(block, got, removed, line, read) && (goodbye <==> Over(|block|, removed))
      && line[0].used + |out| <= line[0].ready && read + out <= block
    }

    method StayFirst(out: Bytes)
      requires JustRead(out) && line[0].used + |out| < line[0].size
      modifies this`read, this`line
      ensures Valid() && Moved(old(line), line) && read == old(read) + out
    {
      ReadPart(block, got, removed, line, read, out);
      line := Used(line, |out|);
      read := read + out;
    }

    /** The first segment, read to its end, leaves the line; after the last one the block is over. */
    method RemoveSegment(out: Bytes)
      requires JustRead(out) && line[0].used + |out| == line[0].size
      modifies this`buffer, this`goodbye, this`read, this`removed, this`line
      ensures Valid() && Moved(old(line), line) && read == old(read) + out
      ensures buffer == old(buffer)[1..] && removed == old(removed) + 1
    {
      ReadRest(block, got, removed, line, read, out);
      NextNumbers(block, got, removed, line);
      assert Shows(buffer, Used(line, |out|), 0);
      MirrorsRest(buffer, Used(line, |out|));
      if buffer[0].last {
        goodbye := true;
      }
      buffer := buffer[1..];
      removed := removed + 1;
      read := read + out;
      assert line[1..] == Used(line, |out|)[1..];
      line := line[1..];
    }
  }

  /** One segment takes a piece, and gives its token back when that makes it complete. */
  method Fill(segment: Segment, packet: Packet, ghost block: Bytes, ghost got: set<nat>) returns (done: Option<nat>)
    requires segment.Good(block, got) && (segment.fecFinish <==> segment.complete)
    requires packet.dataNumber < Parts(|block|) && packet.data == Piece(block, packet.dataNumber)
    requires segment.startDataNumber <= packet.dataNumber <= segment.endDataNumber
    modifies segment
    ensures Took(old(segment.Now()), segment.Now(), block, got + {packet.dataNumber})
    ensures done == if segment.complete && !old(segment.complete) then Some(segment.sessionID) else None
  {
    done := None;
    var _ := segment.PushData(packet.dataNumber, packet.data, block, got);
    if segment.complete && !segment.fecFinish {
      done := Some(segment.sessionID);
      ghost var g := segment.Now();
      segment.fecFinish := true;
      assert segment.Now() == g.(fecFinish := true);
    }
  }
}
