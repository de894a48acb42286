/**
 One segment of a block on the receiving side: numbered pieces of data are stored in any order, any number
 of times, and read in order.
 */
module BlockSegment {
  import opened Basics

  const SEGMENT_SIZE: nat := 2 * 1024 * 1024

  /** The bytes under the d-th number of a segment of this size. */
  function PieceSize(size: nat, d: nat): int {
    if PAYLOAD_SIZE < size - Payloads(d) then PAYLOAD_SIZE else size - Payloads(d)
  }

  /** The data that goes under a number. */
  function Piece(block: Bytes, n: nat): Bytes
    requires n < Parts(|block|)
  {
    block[Payloads(n)..Min(Payloads(n + 1), |block|)]
  }

  /** The range `start..end` of numbers holds `size` bytes of the block, and is cut short only by the block's end. */
  ghost predicate Range(len: nat, start: nat, end: nat, size: nat) {
    && start <= end && Payloads(end) < Payloads(start) + size <= len
    && Payloads(start) + size == Min(Payloads(end + 1), len)
  }

  /** Place `d` holds its piece exactly if that has arrived. */
  ghost predicate Stored(block: Bytes, got: set<nat>, start: nat, buf: Bytes, sizes: seq<nat>, d: nat)
    requires d < |sizes| && start + d < Parts(|block|)
  {
    && sizes[d] == (if start + d in got then |Piece(block, start + d)| else 0)
    && (start + d in got ==>
          Payloads(d) + |Piece(block, start + d)| <= |buf|
          && buf[Payloads(d)..Payloads(d) + |Piece(block, start + d)|] == Piece(block, start + d))
  }

  ghost predicate AllStored(block: Bytes, got: set<nat>, start: nat, buf: Bytes, sizes: seq<nat>) {
    && start + |sizes| <= Parts(|block|)
    && (forall d: nat {:trigger Stored(block, got, start, buf, sizes, d)} ::
          d < |sizes| ==> Stored(block, got, start, buf, sizes, d))
  }

  lemma PieceLength(block: Bytes, start: nat, end: nat, size: nat, d: nat)
    requires Range(|block|, start, end, size) && start + d <= end
    ensures start + d < Parts(|block|)
    ensures |Piece(block, start + d)| == PieceSize(size, d) > 0
  {
  }

  /** Storing one piece leaves the other places alone. */
  lemma StoreOne(block: Bytes, got: set<nat>, start: nat, end: nat, buf: Bytes, sizes: seq<nat>, d: nat)
    requires Range(|block|, start, end, |buf|) && |sizes| == end - start + 1 && d < |sizes|
    requires AllStored(block, got, start, buf, sizes)
    ensures Payloads(d) + |Piece(block, start + d)| <= |buf|
    ensures var piece := Piece(block, start + d);
      AllStored(block, got + {start + d}, start, Spliced(buf, Payloads(d), piece), sizes[d := |piece|])
  {
    PieceLength(block, start, end, |buf|, d);
    var piece := Piece(block, start + d);
    var now, sizes', got' := Spliced(buf, Payloads(d), piece), sizes[d := |piece|], got + {start + d};
    forall e: nat | e < |sizes|
      ensures Stored(block, got', start, now, sizes', e)
    {
      assert Stored(block, got, start, buf, sizes, e);
      PieceLength(block, start, end, |buf|, e);
      var len := |Piece(block, start + e)|;
      if e != d {
        assert Payloads(d) + |piece| <= Payloads(e) || Payloads(e) + len <= Payloads(d);
        SplicedElsewhere(buf, Payloads(d), piece, Payloads(e), Payloads(e) + len);
      } else {
        SplicedThere(buf, Payloads(d), piece);
      }
    }
  }

  /** `data` copied over `buf` from position `at` on. */
  function Spliced(buf: Bytes, at: nat, data: Bytes): (r: Bytes)
    requires at + |data| <= |buf|
    ensures |r| == |buf|
  {
    buf[..at] + data + buf[at + |data|..]
  }

  lemma SplicedThere(buf: Bytes, at: nat, data: Bytes)
    requires at + |data| <= |buf|
    ensures Spliced(buf, at, data)[at..at + |data|] == data
  {
  }

  lemma SplicedElsewhere(buf: Bytes, at: nat, data: Bytes, a: nat, b: nat)
    requires at + |data| <= |buf| && a <= b <= |buf| && (b <= at || at + |data| <= a)
    ensures Spliced(buf, at, data)[a..b] == buf[a..b]
  {
  }

  /** The bytes of the first `k` pieces of a segment of this size. */
  function Filled(size: nat, k: nat): nat {
    Min(Payloads(k), size)
  }

  /** Once the first `k` pieces are in, the buffer begins with the block's bytes. */
  lemma {:induction false} PrefixStored(block: Bytes, got: set<nat>, start: nat, end: nat, buf: Bytes, sizes: seq<nat>, k: nat)
    requires Range(|block|, start, end, |buf|) && |sizes| == end - start + 1 && k <= |sizes|
    requires AllStored(block, got, start, buf, sizes)
    requires forall d: nat :: d < k ==> sizes[d] > 0
    ensures var off := Payloads(start);
      buf[..Filled(|buf|, k)] == block[off..off + Filled(|buf|, k)]
    decreases k
  {
    if k == 0 {
    } else {
      PrefixStored(block, got, start, end, buf, sizes, k - 1);
      assert Stored(block, got, start, buf, sizes, k - 1);
      PieceLength(block, start, end, |buf|, k - 1);
      var off, a, b := Payloads(start), Payloads(k - 1), Filled(|buf|, k);
      assert Filled(|buf|, k - 1) == a && b == a + |Piece(block, start + k - 1)|;
      LongerPrefix(buf, block, off, a, b);
    }
  }

  lemma LongerPrefix(buf: Bytes, block: Bytes, off: nat, a: nat, b: nat)
    requires a <= b <= |buf| && off + b <= |block|
    requires buf[..a] == block[off..off + a] && buf[a..b] == block[off + a..off + b]
    ensures buf[..b] == block[off..off + b]
  {
    assert buf[..b] == buf[..a] + buf[a..b];
    assert block[off..off + b] == block[off..off + a] + block[off + a..off + b];
  }

  /** A segment at one moment. */
  datatype Snapshot = Snapshot(
    sessionID: nat, start: nat, end: nat, size: nat, last: bool, expected: nat, used: nat, ready: nat,
    complete: bool, fecFinish: bool, buf: Bytes, sizes: seq<nat>)
  {
    /** The next number expected is the first one that has not arrived; before it, all bytes can be read. */
    ghost predicate Good(block: Bytes, got: set<nat>) {
      && Range(|block|, start, end, size)
      && |buf| == size && |sizes| == end - start + 1
      && AllStored(block, got, start, buf, sizes)
      && UpTo() && (expected <= end ==> sizes[expected - start] == 0)
      && used <= ready
    }

    /** All numbers before the expected one have arrived, and are accounted for. */
    ghost predicate UpTo() {
      && start <= expected <= end + 1 && |sizes| == end - start + 1
      && (forall d: nat :: d < expected - start ==> sizes[d] > 0)
      && ready == Filled(size, expected - start)
      && (complete <==> expected == end + 1)
    }

    ghost predicate SizesOk() {
      && |sizes| == end - start + 1
      && (forall d: nat :: d < |sizes| ==> sizes[d] == 0 || sizes[d] == PieceSize(size, d))
    }

    lemma SizesAreOk(block: Bytes, got: set<nat>)
      requires Range(|block|, start, end, size) && |sizes| == end - start + 1
      requires AllStored(block, got, start, buf, sizes)
      ensures SizesOk()
    {
      forall d: nat | d < |sizes|
        ensures sizes[d] == 0 || sizes[d] == PieceSize(size, d)
      {
        assert Stored(block, got, start, buf, sizes, d);
        PieceLength(block, start, end, size, d);
      }
    }

    /** One more piece stored does not disturb those before the expected one. */
    lemma UpToStored(d: nat, len: nat, stored: Bytes)
      requires UpTo() && d < |sizes| && len > 0
      ensures this.(buf := stored, sizes := sizes[d := len]).UpTo()
    {
    }

    /** The expected number moves on by one. */
    lemma UpToNext()
      requires UpTo() && SizesOk() && expected <= end && sizes[expected - start] > 0
      ensures this.(expected := expected + 1, ready := ready + sizes[expected - start],
                    complete := expected == end || complete).UpTo()
    {
    }

    /** Complete means that every number has arrived. */
    lemma CompleteIff(block: Bytes, got: set<nat>)
      requires Good(block, got)
      ensures complete <==> forall n: nat :: start <= n <= end ==> n in got
      ensures complete ==> ready == size
    {
      forall n: nat | start <= n <= end
        ensures n in got <==> sizes[n - start] > 0
      {
        assert Stored(block, got, start, buf, sizes, n - start);
        PieceLength(block, start, end, size, n - start);
      }
      assert expected <= end ==> expected !in got;
    }

    /** `out` is what the block holds from the read position on. */
    ghost predicate NextBytes(block: Bytes, out: Bytes) {
      var from := Payloads(start) + used;
      from + |out| <= |block| && out == block[from..from + |out|]
    }

    /** Bytes that can be read are the block's, and reading them keeps the segment good. */
    lemma Popped(block: Bytes, got: set<nat>, n: nat)
      requires Good(block, got) && used + n <= ready
      ensures ready <= |buf| && NextBytes(block, buf[used..used + n])
      ensures this.(used := used + n).Good(block, got)
    {
      PrefixStored(block, got, start, end, buf, sizes, expected - start);
      SameSlice(buf, block, ready, Payloads(start), used, used + n);
    }

    /** Numbers outside the range do not concern the segment. */
    lemma Elsewhere(block: Bytes, got: set<nat>, n: nat)
      requires Good(block, got) && !(start <= n <= end)
      ensures Good(block, got + {n})
    {
      var got' := got + {n};
      forall d: nat | d < |sizes|
        ensures Stored(block, got', start, buf, sizes, d)
      {
        assert Stored(block, got, start, buf, sizes, d);
      }
    }
  }

  class Segment {
    const sessionID: nat
    const startDataNumber: nat
    const endDataNumber: nat
    const size: nat
    const last: bool
    var expectedDataNumber: nat
    var readDataOffset: nat
    var lastRecvDataOffset: nat
    var complete: bool
    var fecFinish: bool
    var recvBuffer: Bytes
    var recvDataSize: seq<nat>

    ghost function Now(): Snapshot
      reads this
    {
      Snapshot(sessionID, startDataNumber, endDataNumber, size, last, expectedDataNumber, readDataOffset,
               lastRecvDataOffset, complete, fecFinish, recvBuffer, recvDataSize)
    }

    ghost predicate Good(block: Bytes, got: set<nat>)
      reads this
    {
      Now().Good(block, got)
    }

    constructor (sessionID: nat, start: nat, end: nat, size: nat, last: bool)
      requires start <= end
      ensures this.sessionID == sessionID && startDataNumber == start && endDataNumber == end
      ensures this.size == size && this.last == last
      ensures expectedDataNumber == start && readDataOffset == 0 && lastRecvDataOffset == 0
      ensures !complete && !fecFinish
      ensures |recvBuffer| == size && recvDataSize == seq(end - start + 1, _ => 0)
    {
      this.sessionID, startDataNumber, endDataNumber, this.size, this.last := sessionID, start, end, size, last;
      expectedDataNumber, readDataOffset, lastRecvDataOffset := start, 0, 0;
      complete, fecFinish := false, false;
      recvBuffer := seq(size, _ => 0);
      recvDataSize := seq(end - start + 1, _ => 0);
    }

    /** Stores a piece in range; the segment is complete once every piece has arrived. */
    method PushData(dataNumber: nat, data: Bytes, ghost block: Bytes, ghost got: set<nat>) returns (ret: bool)
      requires Good(block, got)
      requires startDataNumber <= dataNumber <= endDataNumber ==>
        dataNumber < Parts(|block|) && data == Piece(block, dataNumber)
      modifies this`recvBuffer, this`recvDataSize, this`complete, this`lastRecvDataOffset, this`expectedDataNumber
      ensures ret <==> startDataNumber <= dataNumber <= endDataNumber
      ensures Good(block, if ret then got + {dataNumber} else got)
      ensures old(complete) ==> complete
    {
      ret := false;
      if startDataNumber <= dataNumber <= endDataNumber {
        PushInRange(dataNumber, data, block, got);
        ret := true;
      }
    }

    method PushInRange(dataNumber: nat, data: Bytes, ghost block: Bytes, ghost got: set<nat>)
      requires Good(block, got) && startDataNumber <= dataNumber <= endDataNumber
      requires dataNumber < Parts(|block|) && data == Piece(block, dataNumber)
      modifies this`recvBuffer, this`recvDataSize, this`complete, this`lastRecvDataOffset, this`expectedDataNumber
      ensures Good(block, got + {dataNumber}) && (old(complete) ==> complete)
    {
      var dataIdx := dataNumber - startDataNumber;
      ghost var before := Now();
      Store(dataIdx, data, block, got);
      before.UpToStored(dataIdx, |data|, recvBuffer);
      assert Now() == before.(buf := recvBuffer, sizes := recvDataSize);
      Now().SizesAreOk(block, got + {dataNumber});
      AdvanceIf(dataNumber);
    }

    /** The expected number moves on if it is the one that has just arrived. */
    method AdvanceIf(dataNumber: nat)
      requires Now().UpTo() && Now().SizesOk() && startDataNumber <= dataNumber <= endDataNumber
      requires expectedDataNumber <= endDataNumber && dataNumber != expectedDataNumber ==>
        recvDataSize[expectedDataNumber - startDataNumber] == 0
      modifies this`complete, this`lastRecvDataOffset, this`expectedDataNumber
      ensures Now().UpTo()
      ensures expectedDataNumber <= endDataNumber ==> recvDataSize[expectedDataNumber - startDataNumber] == 0
      ensures old(expectedDataNumber) <= expectedDataNumber && old(lastRecvDataOffset) <= lastRecvDataOffset
    {
      if dataNumber == expectedDataNumber {
        Advance(dataNumber - startDataNumber);
      }
    }

    method Store(dataIdx: nat, data: Bytes, ghost block: Bytes, ghost got: set<nat>)
      requires Good(block, got) && dataIdx < |recvDataSize|
      requires startDataNumber + dataIdx < Parts(|block|) && data == Piece(block, startDataNumber + dataIdx)
      modifies this`recvBuffer, this`recvDataSize
      ensures |recvBuffer| == size && recvDataSize == old(recvDataSize)[dataIdx := |data|] && |data| > 0
      ensures AllStored(block, got + {startDataNumber + dataIdx}, startDataNumber, recvBuffer, recvDataSize)
    {
      StoreOne(block, got, startDataNumber, endDataNumber, recvBuffer, recvDataSize, dataIdx);
      PieceLength(block, startDataNumber, endDataNumber, size, dataIdx);
      recvBuffer := Spliced(recvBuffer, Payloads(dataIdx), data);
      recvDataSize := recvDataSize[dataIdx := |data|];
    }

    /** Moves the expected number past all pieces that follow on. */
    method Advance(first: nat)
      requires Now().UpTo() && Now().SizesOk() && first == expectedDataNumber - startDataNumber < |recvDataSize|
      modifies this`complete, this`lastRecvDataOffset, this`expectedDataNumber
      ensures Now().UpTo()
      ensures expectedDataNumber <= endDataNumber ==> recvDataSize[expectedDataNumber - startDataNumber] == 0
      ensures old(expectedDataNumber) <= expectedDataNumber && old(lastRecvDataOffset) <= lastRecvDataOffset
    {
      var dataIdx := first;
      while dataIdx < |recvDataSize| && recvDataSize[dataIdx] > 0
        invariant Now().UpTo() && Now().SizesOk() && dataIdx == expectedDataNumber - startDataNumber <= |recvDataSize|
        invariant old(expectedDataNumber) <= expectedDataNumber && old(lastRecvDataOffset) <= lastRecvDataOffset
      {
        ghost var before := Now();
        before.UpToNext();
        if expectedDataNumber == endDataNumber {
          complete := true;
        }
        lastRecvDataOffset := lastRecvDataOffset + recvDataSize[dataIdx];
        expectedDataNumber := expectedDataNumber + 1;
        dataIdx := expectedDataNumber - startDataNumber;
        assert Now() == before.(expected := expectedDataNumber, ready := lastRecvDataOffset, complete := complete);
      }
    }

    /** Reads on in order; the segment is used up once all its bytes are read. */
    method PopData(bufLen: nat, ghost block: Bytes, ghost got: set<nat>) returns (out: Bytes, done: bool)
      requires Good(block, got)
      modifies this`readDataOffset
      ensures Good(block, got) && Now() == old(Now()).(used := old(readDataOffset) + |out|)
      ensures |out| == Min(bufLen, lastRecvDataOffset - old(readDataOffset)) == old(Readable(bufLen))
      ensures old(Now()).NextBytes(block, out)
      ensures done <==> readDataOffset == size
    {
      var readLen := Readable(bufLen);
      Now().Popped(block, got, readLen);
      out := Take(readLen);
      done := readDataOffset == size;
    }

    /** How much a read can get now. */
    function Readable(bufLen: nat): nat
      reads this
    {
      if readDataOffset < lastRecvDataOffset then Min(bufLen, lastRecvDataOffset - readDataOffset) else 0
    }

    /** Copies bytes out from the read position on. */
    method Take(readLen: nat) returns (out: Bytes)
      requires readDataOffset + readLen <= |recvBuffer|
      modifies this`readDataOffset
      ensures var g := old(Now()); Now() == g.(used := g.used + readLen) && out == g.buf[g.used..g.used + readLen]
      ensures |out| == readLen
    {
      out := recvBuffer[readDataOffset..readDataOffset + readLen];
      readDataOffset := readDataOffset + readLen;
    }

    predicate HasDataToRead()
      reads this
    {
      readDataOffset < lastRecvDataOffset
    }
  }

  lemma SameSlice(buf: Bytes, block: Bytes, n: nat, off: nat, a: nat, b: nat)
    requires a <= b <= n <= |buf| && off + n <= |block| && buf[..n] == block[off..off + n]
    ensures buf[a..b] == block[off + a..off + b]
  {
    assert buf[..n][a..b] == buf[a..b];
    var part := block[off..off + n];
    assert forall i :: a <= i < b ==> part[i] == block[off + i];
    assert part[a..b] == block[off + a..off + b];
  }
}
