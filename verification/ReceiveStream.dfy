/**
 The receiving side of a stream: final-size bookkeeping, reassembly and reading.
 */
module ReceiveStreams {
  import opened Basics
  import opened Gaps
  import opened StreamFrames
  import opened FrameSorting

  /** Every queued frame holds the bytes of `content` at its own offset. */
  ghost predicate Agrees(q: Queue, content: Bytes) {
    forall k {:trigger FrameAgrees(q, content, k)} :: FrameAgrees(q, content, k)
  }

  ghost predicate FrameAgrees(q: Queue, content: Bytes, k: nat) {
    k in q ==> k + |q[k]| <= |content| && q[k] == content[k..k + |q[k]|]
  }

  /** `f` is part of `content`; if it carries the FIN, its end is the end of the content. */
  ghost predicate PartOf(f: Frame, content: Bytes, final: bool) {
    f.End() <= |content| && f.data == content[f.offset..f.End()] && (f.fin ==> final && f.End() == |content|)
  }

  lemma AgreesGrows(q: Queue, content: Bytes, content': Bytes)
    requires Agrees(q, content) && content <= content'
    ensures Agrees(q, content')
  {
    forall k ensures FrameAgrees(q, content', k) {
      assert FrameAgrees(q, content, k);
    }
  }

  /** Pushing a part of the content keeps the queue in agreement with it. */
  lemma AgreesPush(q: Queue, q': Queue, f: Frame, content: Bytes, final: bool)
    requires Agrees(q, content) && PartOf(f, content, final) && FromOldOrNew(q, q', f.data, f.offset)
    ensures Agrees(q', content)
  {
    forall k: nat ensures FrameAgrees(q', content, k) {
      assert FrameAgrees(q, content, k) && FrameFrom(q, q', f.data, f.offset, k);
      if k in q' && !(k in q && q'[k] == q[k]) {
        SubSlice(content, f.data, f.offset, k - f.offset, |q'[k]|);
      }
    }
  }

  /** No queued frame reaches beyond `limit`. */
  ghost predicate Within(q: Queue, limit: nat) {
    forall k {:trigger FrameWithin(q, limit, k)} :: FrameWithin(q, limit, k)
  }

  ghost predicate FrameWithin(q: Queue, limit: nat, k: nat) {
    k in q ==> k + |q[k]| <= limit
  }

  lemma WithinPush(q: Queue, q': Queue, f: Frame, limit: nat)
    requires Within(q, limit) && FromOldOrNew(q, q', f.data, f.offset)
    ensures Within(q', Max(limit, f.End()))
  {
    forall k ensures FrameWithin(q', Max(limit, f.End()), k) {
      assert FrameWithin(q, limit, k) && FrameFrom(q, q', f.data, f.offset, k);
    }
  }

  lemma ReadOn(content: Bytes, from: nat, mid: nat, to: nat)
    requires from <= mid <= to <= |content|
    ensures content[from..mid] + content[mid..to] == content[from..to]
  {
  }

  lemma NothingQueued(q: Queue)
    requires q == map[]
    ensures Agrees(q, []) && Within(q, 0)
  {
  }

  lemma SubSlice(content: Bytes, frame: Bytes, base: nat, i: nat, m: nat)
    requires base + |frame| <= |content| && frame == content[base..base + |frame|] && i + m <= |frame|
    ensures frame[i..i + m] == content[base + i..base + i + m]
  {
    var a, b := frame[i..i + m], content[base + i..base + i + m];
    forall j | 0 <= j < m ensures a[j] == b[j] {
      assert frame[i + j] == content[base + (i + j)];
    }
  }

  datatype ReadResult = Data | EOF | Blocked

  class ReceiveStream {
    const frameQueue: FrameSorter
    var finalOffset: nat
    var receivedFinalOffset: bool
    var highestReceived: nat
    var currentFrame: Bytes
    var currentFrameIsLast: bool
    var readPosInFrame: nat
    var finRead: bool

    /** The offset up to which bytes were handed to the application. */
    ghost function Position(): int
      reads this, frameQueue
    {
      frameQueue.readPos - |currentFrame| + readPosInFrame
    }

    /** The end is told only when the last frame is used up, and with its last byte if it has any. */
    ghost predicate Valid(content: Bytes)
      reads this, frameQueue
    {
      && Holds(content)
      && (finRead ==> currentFrameIsLast && readPosInFrame == |currentFrame|)
      && (currentFrameIsLast && readPosInFrame == |currentFrame| > 0 ==> finRead)
    }

    /** Everything held so far is part of `content`. */
    ghost predicate Holds(content: Bytes)
      reads this, frameQueue
    {
      && frameQueue.Valid()
      && Agrees(frameQueue.queue, content)
      && Sizes(|content|)
      && readPosInFrame <= |currentFrame| <= frameQueue.readPos <= |content|
      && currentFrame == content[frameQueue.readPos - |currentFrame|..frameQueue.readPos]
      && (currentFrameIsLast ==> receivedFinalOffset && frameQueue.readPos == finalOffset)
    }

    ghost predicate Sizes(total: nat)
      reads this, frameQueue
    {
      && highestReceived <= total < MAX_BYTE_COUNT
      && frameQueue.readPos <= highestReceived && Within(frameQueue.queue, highestReceived)
      && (if receivedFinalOffset then finalOffset == highestReceived == total else finalOffset == MAX_BYTE_COUNT)
    }

    constructor ()
      ensures Valid([]) && fresh(frameQueue) && Position() == 0 && !finRead && !receivedFinalOffset
      ensures frameQueue.gaps == [Gap(0, MAX_BYTE_COUNT)]
    {
      frameQueue := new FrameSorter();
      finalOffset := MAX_BYTE_COUNT;
      receivedFinalOffset, highestReceived := false, 0;
      currentFrame, currentFrameIsLast, readPosInFrame, finRead := [], false, 0, false;
      new;
      NothingQueued(frameQueue.queue);
    }

    /** What is part of the content stays part of it while the content grows, up to the final size. */
    lemma Grow(content: Bytes, content': Bytes)
      requires Valid(content) && content <= content' && |content'| < MAX_BYTE_COUNT
      requires receivedFinalOffset ==> content == content'
      ensures Valid(content')
    {
      AgreesGrows(frameQueue.queue, content, content');
    }

    /** The flow controller's check that the final size is known once and never exceeded. */
    method UpdateHighestReceived(offset: nat, final: bool) returns (ok: bool)
      modifies this`receivedFinalOffset, this`highestReceived
      ensures ok <==> if old(receivedFinalOffset)
                      then offset <= old(highestReceived) && (final ==> offset == old(highestReceived))
                      else !(final && offset < old(highestReceived))
      ensures ok ==> receivedFinalOffset == (old(receivedFinalOffset) || final)
      ensures ok ==> highestReceived == Max(old(highestReceived), offset)
    {
      if receivedFinalOffset {
        if final && offset != highestReceived {
          return false;
        }
        if offset > highestReceived {
          return false;
        }
      }
      if final {
        receivedFinalOffset := true;
      }
      if offset == highestReceived {
        return true;
      }
      if offset <= highestReceived {
        return !final;
      }
      highestReceived := offset;
      ok := true;
    }

    /** A frame that contradicts the known final size. */
    ghost predicate SizeConflict(f: Frame)
      reads this
    {
      if receivedFinalOffset then f.End() > highestReceived || (f.fin && f.End() != highestReceived)
      else f.fin && f.End() < highestReceived
    }

    /** The part of a frame's handling that concerns sizes. */
    method NoteSize(f: Frame) returns (sizeError: bool)
      modifies this`finalOffset, this`receivedFinalOffset, this`highestReceived
      ensures sizeError <==> old(SizeConflict(f))
      ensures !sizeError ==> receivedFinalOffset == (old(receivedFinalOffset) || f.fin)
      ensures !sizeError ==> highestReceived == Max(old(highestReceived), f.End())
      ensures !sizeError ==> finalOffset == if f.fin then f.End() else old(finalOffset)
    {
      var maxOffset := f.offset + |f.data|;
      var accepted := UpdateHighestReceived(maxOffset, f.fin);
      if accepted && f.fin {
        finalOffset := maxOffset;
      }
      sizeError := !accepted;
    }

    /** Takes in any frame: one with a conflicting size is refused, otherwise exactly its bytes stop being missing. */
    method HandleStreamFrame(f: Frame) returns (ok: bool, sizeError: bool)
      requires frameQueue.Valid() && f.End() < MAX_BYTE_COUNT
      modifies this`finalOffset, this`receivedFinalOffset, this`highestReceived, frameQueue`queue, frameQueue`gaps
      ensures sizeError <==> old(SizeConflict(f))
      ensures sizeError ==> !ok && frameQueue.gaps == old(frameQueue.gaps) && frameQueue.queue == old(frameQueue.queue)
      ensures !sizeError ==> receivedFinalOffset == (old(receivedFinalOffset) || f.fin)
      ensures !sizeError ==> highestReceived == Max(old(highestReceived), f.End())
      ensures !sizeError ==> finalOffset == if f.fin then f.End() else old(finalOffset)
      ensures ok ==> frameQueue.Valid() && FromOldOrNew(old(frameQueue.queue), frameQueue.queue, f.data, f.offset)
      ensures !ok ==> sizeError || |frameQueue.gaps| > MAX_GAPS
      ensures !sizeError ==>
        frameQueue.gaps == if f.data == [] then old(frameQueue.gaps) else Carve(old(frameQueue.gaps), f.offset, f.End())
    {
      sizeError := NoteSize(f);
      if sizeError {
        return false, true;
      }
      ok := frameQueue.Push(f.data, f.offset);
    }

    /** A genuine frame never conflicts with the final size, and keeps what is held part of the content. */
    method HandleGenuineFrame(f: Frame, ghost content: Bytes, ghost final: bool) returns (ok: bool, sizeError: bool)
      requires Valid(content) && PartOf(f, content, final)
      modifies this`finalOffset, this`receivedFinalOffset, this`highestReceived, frameQueue`queue, frameQueue`gaps
      ensures !sizeError && (ok ==> Valid(content)) && (!ok ==> |frameQueue.gaps| > MAX_GAPS)
      ensures ok ==> receivedFinalOffset == (old(receivedFinalOffset) || f.fin)
      ensures frameQueue.gaps == if f.data == [] then old(frameQueue.gaps) else Carve(old(frameQueue.gaps), f.offset, f.End())
    {
      ghost var q, h := frameQueue.queue, highestReceived;
      ok, sizeError := HandleStreamFrame(f);
      if ok {
        AgreesPush(q, frameQueue.queue, f, content, final);
        WithinPush(q, frameQueue.queue, f, h);
      }
    }

    /** Fetches the next frame; the last one is recognised by the final offset. */
    method DequeueNextFrame(ghost content: Bytes)
      requires Holds(content) && readPosInFrame == |currentFrame|
      modifies this`currentFrame, this`currentFrameIsLast, this`readPosInFrame, frameQueue`queue, frameQueue`readPos
      ensures Holds(content) && readPosInFrame == 0 && Position() == old(Position())
      ensures currentFrame == [] <==> Missing(frameQueue.gaps, old(frameQueue.readPos))
      ensures currentFrameIsLast <==> receivedFinalOffset && frameQueue.readPos == finalOffset
    {
      ghost var q := frameQueue.queue;
      assert FrameAgrees(q, content, frameQueue.readPos) && FrameWithin(q, highestReceived, frameQueue.readPos);
      var offset, data := frameQueue.Pop();
      currentFrame := data;
      currentFrameIsLast := offset + |currentFrame| >= finalOffset;
      readPosInFrame := 0;
      forall k ensures FrameAgrees(frameQueue.queue, content, k) {
        assert FrameAgrees(q, content, k);
      }
      forall k ensures FrameWithin(frameQueue.queue, highestReceived, k) {
        assert FrameWithin(q, highestReceived, k);
      }
    }

    /** Copies as much as fits out of the current frame. */
    method CopyFromFrame(limit: nat, ghost content: Bytes) returns (chunk: Bytes)
      requires Holds(content)
      modifies this`readPosInFrame
      ensures Holds(content) && Position() == old(Position()) + |chunk| && chunk == content[old(Position())..Position()]
      ensures |chunk| == Min(limit, |currentFrame| - old(readPosInFrame))
    {
      var m := Min(limit, |currentFrame| - readPosInFrame);
      chunk := currentFrame[readPosInFrame..readPosInFrame + m];
      SubSlice(content, currentFrame, frameQueue.readPos - |currentFrame|, readPosInFrame, m);
      readPosInFrame := readPosInFrame + m;
    }

    /** Fetches a frame if the current one is used up; there is none only where the next byte has not arrived. */
    method Fetch(ghost content: Bytes)
      requires Holds(content)
      modifies this`currentFrame, this`currentFrameIsLast, this`readPosInFrame, frameQueue`queue, frameQueue`readPos
      ensures Holds(content) && Position() == old(Position())
      ensures old(readPosInFrame == |currentFrame|) ==>
        (currentFrameIsLast <==> receivedFinalOffset && frameQueue.readPos == finalOffset)
      ensures currentFrame != [] ==> readPosInFrame < |currentFrame|
      ensures currentFrame == [] ==> Missing(frameQueue.gaps, Position())
      ensures currentFrame == [] ==> (currentFrameIsLast <==> receivedFinalOffset && Position() == finalOffset)
    {
      if currentFrame == [] || readPosInFrame >= |currentFrame| {
        DequeueNextFrame(content);
      }
    }

    /**
     One round of reading: fetch a frame if needed, then copy from it.  Stops where the next byte has
     not arrived (with what was read so far, or else blocking), or at the end of the stream.
     */
    method ReadTurn(limit: nat, some: bool, ghost content: Bytes) returns (stop: Option<ReadResult>, chunk: Bytes)
      requires Valid(content) && !finRead && limit > 0
      modifies this`currentFrame, this`currentFrameIsLast, this`readPosInFrame, this`finRead, frameQueue`queue, frameQueue`readPos
      ensures Valid(content) && Position() == old(Position()) + |chunk| && chunk == content[old(Position())..Position()]
      ensures |chunk| <= limit
      ensures finRead <==> stop == Some(EOF)
      ensures stop == Some(Data) ==> some && chunk == [] && Missing(frameQueue.gaps, Position())
      ensures stop == Some(Blocked) ==>
        !some && chunk == [] && Missing(frameQueue.gaps, Position()) && !(receivedFinalOffset && Position() == finalOffset)
      ensures stop.None? ==> chunk != []
      ensures old(readPosInFrame == |currentFrame|) ==>
        (currentFrameIsLast <==> receivedFinalOffset && frameQueue.readPos == finalOffset)
    {
      chunk := [];
      Fetch(content);
      if currentFrame == [] && some {
        return Some(Data), chunk;
      }
      if !(currentFrame != [] || currentFrameIsLast) {
        return Some(Blocked), chunk;
      }
      chunk := CopyFromFrame(limit, content);
      stop := None;
      if readPosInFrame >= |currentFrame| && currentFrameIsLast {
        finRead := true;
        stop := Some(EOF);
      }
    }

    /**
     Reads up to `n` bytes: the next bytes of the content, then the end of the stream once exactly
     all of it has been read.  Blocks, or gives less than asked for, only where the next byte has not arrived.
     */
    method Read(n: nat, ghost content: Bytes) returns (r: ReadResult, bytes: Bytes)
      requires Valid(content)
      modifies this`currentFrame, this`currentFrameIsLast, this`readPosInFrame, this`finRead, frameQueue`queue, frameQueue`readPos
      ensures Valid(content) && |bytes| <= n && Position() == old(Position()) + |bytes| <= |content|
      ensures bytes == content[old(Position())..Position()]
      ensures r.EOF? <==> finRead
      ensures r.EOF? ==> receivedFinalOffset && Position() == |content|
      ensures old(finRead) ==> r.EOF? && bytes == []
      ensures r.Blocked? ==>
        bytes == [] && Missing(frameQueue.gaps, Position()) && !(receivedFinalOffset && Position() == finalOffset)
      ensures r.Data? && n > 0 ==> bytes != []
      ensures r.Data? && |bytes| < n ==> Missing(frameQueue.gaps, Position())
    {
      bytes := [];
      if finRead {
        return EOF, bytes;
      }
      ghost var from := Position();
      var stop := None;
      while |bytes| < n && stop.None?
        invariant Valid(content) && |bytes| <= n
        invariant Position() == from + |bytes| && bytes == content[from..Position()]
        invariant finRead <==> stop == Some(EOF)
        invariant stop == Some(Data) ==> bytes != [] && Missing(frameQueue.gaps, Position())
        invariant stop == Some(Blocked) ==>
          bytes == [] && Missing(frameQueue.gaps, Position()) && !(receivedFinalOffset && Position() == finalOffset)
        decreases if stop.None? then 1 else 0, n - |bytes|
      {
        ghost var mid := Position();
        var chunk;
        stop, chunk := ReadTurn(n - |bytes|, |bytes| > 0, content);
        ReadOn(content, from, mid, Position());
        bytes := bytes + chunk;
      }
      r := if stop.None? then Data else stop.value;
    }
  }
}
