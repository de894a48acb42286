/**
 The sending side of a stream: buffering, framing, retransmission and completion.
 */
module SendStreams {
  import opened Basics
  import opened Gaps
  import opened StreamFrames

  // ---------- what happens to frames after they are sent

  /** Frames the peer acknowledged, frames in flight, and frames queued for retransmission. */
  datatype Ledger = Ledger(acked: set<Frame>, outstanding: seq<Frame>, queue: seq<Frame>)

  ghost predicate Held(l: Ledger, f: Frame) {
    f in l.acked || f in l.outstanding || f in l.queue
  }

  ghost predicate ByteHeld(l: Ledger, p: nat) {
    exists f :: Held(l, f) && f.Contains(p)
  }

  ghost predicate FinHeld(l: Ledger) {
    exists f :: Held(l, f) && f.fin
  }

  /** `f` carries the bytes of the stream at its own offset, and FIN only at the final one. */
  ghost predicate Genuine(f: Frame, written: Bytes, sent: nat, finSent: bool) {
    && f.End() <= sent <= |written|
    && |f.data| <= MAX_PACKET_BUFFER_SIZE
    && f.data == written[f.offset..f.End()]
    && (f.fin ==> finSent && f.End() == sent)
  }

  /** Every frame is genuine, and every byte sent, and the FIN, is in some frame. */
  ghost predicate LedgerOk(l: Ledger, written: Bytes, sent: nat, finSent: bool) {
    && sent <= |written|
    && (forall f {:trigger Genuine(f, written, sent, finSent)} :: Held(l, f) ==> Genuine(f, written, sent, finSent))
    && (forall p: nat {:trigger ByteHeld(l, p)} :: p < sent ==> ByteHeld(l, p))
    && (finSent ==> FinHeld(l))
  }

  /** Frames stay genuine while the stream grows, up to the FIN. */
  lemma GenuineGrows(f: Frame, written: Bytes, sent: nat, finSent: bool, written': Bytes, sent': nat, finSent': bool)
    requires Genuine(f, written, sent, finSent)
    requires written <= written' && sent <= sent' <= |written'| && (finSent ==> finSent' && sent == sent')
    ensures Genuine(f, written', sent', finSent')
  {
    assert written'[f.offset..f.End()] == written[f.offset..f.End()];
  }

  lemma LedgerWrite(l: Ledger, written: Bytes, sent: nat, finSent: bool, p: Bytes)
    requires LedgerOk(l, written, sent, finSent)
    ensures LedgerOk(l, written + p, sent, finSent)
  {
    forall f | Held(l, f) ensures Genuine(f, written + p, sent, finSent) {
      GenuineGrows(f, written, sent, finSent, written + p, sent, finSent);
    }
  }

  /** A new frame goes out. */
  lemma LedgerSend(l: Ledger, written: Bytes, sent: nat, f: Frame, finSent: bool)
    requires LedgerOk(l, written, sent, false)
    requires f.offset == sent && f.End() <= |written| && f.data == written[sent..f.End()]
    requires |f.data| <= MAX_PACKET_BUFFER_SIZE && f.fin == finSent
    ensures LedgerOk(l.(outstanding := l.outstanding + [f]), written, f.End(), finSent)
  {
    var l' := l.(outstanding := l.outstanding + [f]);
    forall g | Held(l', g) ensures Genuine(g, written, f.End(), finSent) {
      if g != f {
        assert Genuine(g, written, sent, false);
        GenuineGrows(g, written, sent, false, written, f.End(), finSent);
      }
    }
    forall p: nat | p < f.End() ensures ByteHeld(l', p) {
      if p < sent {
        assert ByteHeld(l, p);
        var g :| Held(l, g) && g.Contains(p);
        assert Held(l', g);
      } else {
        assert Held(l', f) && f.Contains(p);
      }
    }
    assert Held(l', f);
  }

  /** If everything held before is held afterwards, and what is new is genuine, the ledger stays in order. */
  lemma LedgerMove(l: Ledger, l': Ledger, written: Bytes, sent: nat, finSent: bool)
    requires LedgerOk(l, written, sent, finSent)
    requires forall f :: Held(l, f) <==> Held(l', f)
    ensures LedgerOk(l', written, sent, finSent)
  {
    forall p: nat | p < sent ensures ByteHeld(l', p) {
      assert ByteHeld(l, p);
      var g :| Held(l, g) && g.Contains(p);
      assert Held(l', g);
    }
  }

  function Except(frames: seq<Frame>, i: nat): seq<Frame>
    requires i < |frames|
  {
    frames[..i] + frames[i + 1..]
  }

  lemma ExceptHas(frames: seq<Frame>, i: nat, f: Frame)
    requires i < |frames|
    ensures f in frames <==> f == frames[i] || f in Except(frames, i)
  {
    assert frames == frames[..i] + [frames[i]] + frames[i + 1..];
  }

  function Lost(l: Ledger, i: nat): Ledger
    requires i < |l.outstanding|
  {
    l.(outstanding := Except(l.outstanding, i), queue := l.queue + [l.outstanding[i]])
  }

  function Acked(l: Ledger, i: nat): Ledger
    requires i < |l.outstanding|
  {
    l.(outstanding := Except(l.outstanding, i), acked := l.acked + {l.outstanding[i]})
  }

  function Resent(l: Ledger): Ledger
    requires l.queue != []
  {
    l.(outstanding := l.outstanding + [l.queue[0]], queue := l.queue[1..])
  }

  function PartResent(l: Ledger, first: Frame, rest: Frame): Ledger
    requires l.queue != []
  {
    l.(outstanding := l.outstanding + [first], queue := l.queue[0 := rest])
  }

  lemma LedgerLost(l: Ledger, written: Bytes, sent: nat, finSent: bool, i: nat)
    requires LedgerOk(l, written, sent, finSent) && i < |l.outstanding|
    ensures LedgerOk(Lost(l, i), written, sent, finSent)
  {
    forall f
      ensures Held(l, f) <==> Held(Lost(l, i), f)
    {
      ExceptHas(l.outstanding, i, f);
    }
    LedgerMove(l, Lost(l, i), written, sent, finSent);
  }

  lemma LedgerAcked(l: Ledger, written: Bytes, sent: nat, finSent: bool, i: nat)
    requires LedgerOk(l, written, sent, finSent) && i < |l.outstanding|
    ensures LedgerOk(Acked(l, i), written, sent, finSent)
  {
    forall f
      ensures Held(l, f) <==> Held(Acked(l, i), f)
    {
      ExceptHas(l.outstanding, i, f);
    }
    LedgerMove(l, Acked(l, i), written, sent, finSent);
  }

  lemma LedgerResent(l: Ledger, written: Bytes, sent: nat, finSent: bool)
    requires LedgerOk(l, written, sent, finSent) && l.queue != []
    ensures LedgerOk(Resent(l), written, sent, finSent)
  {
    assert l.queue == [l.queue[0]] + l.queue[1..];
    LedgerMove(l, Resent(l), written, sent, finSent);
  }

  /** Retransmitting the first part of a queued frame and keeping the rest loses nothing. */
  lemma LedgerSplit(l: Ledger, written: Bytes, sent: nat, finSent: bool, first: Frame, rest: Frame)
    requires LedgerOk(l, written, sent, finSent) && l.queue != []
    requires first.offset == l.queue[0].offset && rest.offset == first.End() && !first.fin && rest.fin == l.queue[0].fin
    requires first.data + rest.data == l.queue[0].data
    ensures LedgerOk(PartResent(l, first, rest), written, sent, finSent)
  {
    var h, l' := l.queue[0], PartResent(l, first, rest);
    assert l'.queue[0] == rest && Held(l, h) && Held(l', first) && Held(l', rest);
    forall f | Held(l', f) ensures Genuine(f, written, sent, finSent) {
      if f != first && f != rest {
        assert Held(l, f);
      }
      assert Genuine(h, written, sent, finSent);
      assert first.data == h.data[..|first.data|] && rest.data == h.data[|first.data|..];
      assert first.data == written[first.offset..first.End()];
      assert rest.data == written[rest.offset..rest.End()];
      assert Held(l, f) ==> Genuine(f, written, sent, finSent);
    }
    forall f | Held(l, f) && f != h ensures Held(l', f) {
      QueueUpdate(l.queue, rest, f);
    }
    forall p: nat | p < sent ensures ByteHeld(l', p) {
      assert ByteHeld(l, p);
      var g :| Held(l, g) && g.Contains(p);
      if g == h {
        assert first.Contains(p) || rest.Contains(p);
      } else {
        assert Held(l', g);
      }
    }
    if finSent {
      var g :| Held(l, g) && g.fin;
      assert Held(l', if g == h then rest else g);
    }
  }

  lemma QueueUpdate(q: seq<Frame>, r: Frame, f: Frame)
    requires q != [] && f != q[0]
    ensures f in q ==> f in q[0 := r]
  {
    if f in q {
      var i :| 0 <= i < |q| && q[i] == f;
      assert q[0 := r][i] == f;
    }
  }

  /** Everything sent and the FIN are acknowledged. */
  ghost predicate AllAcked(acked: set<Frame>, sent: nat) {
    && (forall p: nat {:trigger ByteAcked(acked, p)} :: p < sent ==> ByteAcked(acked, p))
    && exists f :: f in acked && f.fin
  }

  ghost predicate ByteAcked(acked: set<Frame>, p: nat) {
    exists f :: f in acked && f.Contains(p)
  }

  /** With nothing in flight and nothing queued, all there is has been acknowledged. */
  lemma LedgerDone(l: Ledger, written: Bytes, sent: nat)
    requires LedgerOk(l, written, sent, true) && l.outstanding == [] && l.queue == []
    ensures AllAcked(l.acked, sent)
  {
    forall p: nat | p < sent ensures ByteAcked(l.acked, p) {
      assert ByteHeld(l, p);
      var g :| Held(l, g) && g.Contains(p);
      assert g in l.acked;
    }
    var g :| Held(l, g) && g.fin;
    assert g in l.acked;
  }

  /** How much is queued for retransmission: the bytes, and one for each frame. */
  ghost function Weight(queue: seq<Frame>): nat {
    if queue == [] then 0 else |queue[0].data| + 1 + Weight(queue[1..])
  }

  /** Sending the first part of the first frame leaves less. */
  lemma WeightSplit(queue: seq<Frame>, rest: Frame)
    requires queue != [] && |rest.data| < |queue[0].data|
    ensures Weight(queue[0 := rest]) < Weight(queue)
  {
    assert queue[0 := rest][1..] == queue[1..];
  }

  // ---------- the stream

  /** What has been written but not sent sits in the next frame and in the pending write. */
  ghost predicate Buffered(written: Bytes, sent: nat, next: Option<Frame>, pending: Bytes) {
    var n := if next.Some? then |next.value.data| else 0;
    && sent + n + |pending| == |written|
    && (next.Some? ==> next.value.offset == sent && 0 < n <= MAX_PACKET_BUFFER_SIZE && !next.value.fin)
    && (next.Some? ==> next.value.data == written[sent..sent + n])
    && pending == written[sent + n..]
  }

  lemma CutSlice(content: Bytes, from: nat, to: nat, n: nat)
    requires from + n <= to <= |content|
    ensures content[from..to][..n] == content[from..from + n] && content[from..to][n..] == content[from + n..to]
  {
  }

  /** Taking the first `n` bytes out of the next frame leaves the rest of it next. */
  lemma CutBuffered(written: Bytes, sent: nat, next: Frame, pending: Bytes, n: nat)
    requires Buffered(written, sent, Some(next), pending) && n < |next.data|
    ensures Buffered(written, sent + n, Some(Frame(sent + n, next.data[n..], false)), pending)
    ensures next.data[..n] == written[sent..sent + n]
  {
    CutSlice(written, sent, next.End(), n);
  }

  lemma WholeBuffered(written: Bytes, sent: nat, next: Frame, pending: Bytes)
    requires Buffered(written, sent, Some(next), pending)
    ensures Buffered(written, next.End(), None, pending) && next.End() <= |written| && next.offset == sent
    ensures next.data == written[sent..next.End()]
  {
  }

  class SendStream {
    const streamID: nat
    var numOutstandingFrames: int
    var retransmissionQueue: seq<Frame>
    var writeOffset: nat
    var finishedWriting: bool
    var finSent: bool
    var completed: bool
    var dataForWriting: Bytes
    var nextFrame: Option<Frame>

    ghost var written: Bytes
    ghost var books: Ledger

    ghost predicate Valid()
      reads this
    {
      && Buffered(written, writeOffset, nextFrame, dataForWriting)
      && books.queue == retransmissionQueue && numOutstandingFrames == |books.outstanding|
      && LedgerOk(books, written, writeOffset, finSent)
      && Flags()
    }

    ghost predicate Flags()
      reads this
    {
      && (finSent ==> finishedWriting && nextFrame.None? && dataForWriting == [])
      && (completed <==> finSent && books.outstanding == [] && books.queue == [])
    }

    /** What is still to be sent: retransmissions, new bytes, and the FIN. */
    ghost function Left(): nat
      requires writeOffset <= |written|
      reads this`retransmissionQueue, this`written, this`writeOffset, this`finSent
    {
      Weight(retransmissionQueue) + (|written| - writeOffset) + One(!finSent)
    }

    constructor (id: nat)
      ensures Valid() && written == [] && books == Ledger({}, [], [])
      ensures !finishedWriting && !finSent && !completed && writeOffset == 0 && dataForWriting == []
    {
      streamID := id;
      numOutstandingFrames := 0;
      retransmissionQueue := [];
      writeOffset := 0;
      finishedWriting, finSent, completed := false, false, false;
      dataForWriting := [];
      nextFrame := None;
      written := [];
      books := Ledger({}, [], []);
    }

    predicate CanBufferStreamFrame()
      reads this
    {
      (if nextFrame.Some? then |nextFrame.value.data| else 0) + |dataForWriting| <= MAX_PACKET_BUFFER_SIZE
    }

    /** A write call takes over the caller's bytes; it is refused once the stream is closed. */
    method Write(p: Bytes) returns (accepted: bool)
      requires Valid() && dataForWriting == []
      modifies this`written, this`nextFrame, this`dataForWriting
      ensures Valid() && accepted == !finishedWriting
      ensures written == if accepted then old(written) + p else old(written)
      ensures accepted && p != [] && |written| - writeOffset <= MAX_PACKET_BUFFER_SIZE ==>
        nextFrame == Some(Frame(writeOffset, written[writeOffset..], false)) && dataForWriting == []
      ensures accepted && p != [] && |written| - writeOffset > MAX_PACKET_BUFFER_SIZE ==>
        nextFrame == old(nextFrame) && dataForWriting == p
    {
      if finishedWriting {
        return false;
      }
      accepted := true;
      if |p| == 0 {
        assert old(written) + p == old(written);
        return;
      }
      LedgerWrite(books, written, writeOffset, finSent, p);
      dataForWriting := p;
      written := written + p;
      WriteTurn();
    }

    /** One round of the write loop: if it is small enough, all that is not sent moves into the next frame. */
    method WriteTurn()
      requires Valid()
      modifies this`nextFrame, this`dataForWriting
      ensures Valid()
      ensures if old(dataForWriting) != [] && |written| - writeOffset <= MAX_PACKET_BUFFER_SIZE
              then nextFrame == Some(Frame(writeOffset, written[writeOffset..], false)) && dataForWriting == []
              else nextFrame == old(nextFrame) && dataForWriting == old(dataForWriting)
    {
      if CanBufferStreamFrame() && |dataForWriting| > 0 {
        if nextFrame.None? {
          nextFrame := Some(Frame(writeOffset, dataForWriting, false));
        } else {
          var f := nextFrame.value;
          nextFrame := Some(f.(data := f.data + dataForWriting));
        }
        dataForWriting := [];
        assert nextFrame.value.data == written[writeOffset..];
      }
    }

    method Close()
      requires Valid()
      modifies this`finishedWriting
      ensures Valid() && finishedWriting
    {
      finishedWriting := true;
    }

    /** The first queued frame goes out again. */
    method ResendFirst()
      requires Valid() && retransmissionQueue != []
      modifies this`retransmissionQueue, this`books, this`numOutstandingFrames
      ensures Valid() && books == Resent(old(books)) && Genuine(old(retransmissionQueue)[0], written, writeOffset, finSent)
      ensures Weight(retransmissionQueue) < Weight(old(retransmissionQueue))
    {
      assert Held(books, retransmissionQueue[0]);
      LedgerResent(books, written, writeOffset, finSent);
      books := Resent(books);
      retransmissionQueue := retransmissionQueue[1..];
      numOutstandingFrames := numOutstandingFrames + 1;
    }

    /** The first part of the first queued frame goes out again, and the rest stays. */
    method ResendPart(first: Frame, rest: Frame)
      requires Valid() && retransmissionQueue != []
      requires first.offset == retransmissionQueue[0].offset && rest.offset == first.End()
      requires first.data != [] && first.data + rest.data == retransmissionQueue[0].data
      requires !first.fin && rest.fin == retransmissionQueue[0].fin
      modifies this`retransmissionQueue, this`books, this`numOutstandingFrames
      ensures Valid() && books == PartResent(old(books), first, rest) && Genuine(first, written, writeOffset, finSent)
      ensures Weight(retransmissionQueue) < Weight(old(retransmissionQueue))
    {
      LedgerSplit(books, written, writeOffset, finSent, first, rest);
      WeightSplit(retransmissionQueue, rest);
      books := PartResent(books, first, rest);
      retransmissionQueue := retransmissionQueue[0 := rest];
      numOutstandingFrames := numOutstandingFrames + 1;
      assert Held(books, first);
    }

    /** The first queued retransmission, or as much of it as fits. */
    method MaybeGetRetransmission(maxBytes: nat) returns (f: Option<Frame>, more: bool)
      requires Valid() && retransmissionQueue != []
      modifies this`retransmissionQueue, this`books, this`numOutstandingFrames
      ensures Valid() && books.acked == old(books).acked
      ensures f.Some? ==> books.outstanding == old(books).outstanding + [f.value]
      ensures f.Some? ==> Genuine(f.value, written, writeOffset, finSent)
      ensures (f.None? ==> books == old(books)) && (more <==> retransmissionQueue != [])
      ensures MIN_STREAM_FRAME_SIZE <= maxBytes <= MAX_PACKET_BUFFER_SIZE ==>
        f.Some? && Length(streamID, f.value) <= maxBytes
      ensures f.Some? ==>
        f.value.offset == old(retransmissionQueue)[0].offset && f.value.data <= old(retransmissionQueue)[0].data
      ensures f.Some? && maxBytes <= MAX_PACKET_BUFFER_SIZE && f.value != old(retransmissionQueue)[0] ==>
        !Fits(streamID, f.value.offset, |f.value.data| + 1, maxBytes)
      ensures f.Some? ==> Weight(retransmissionQueue) < Weight(old(retransmissionQueue))
    {
      var h := retransmissionQueue[0];
      assert Held(books, h) && Genuine(h, written, writeOffset, finSent);
      if maxBytes <= MAX_PACKET_BUFFER_SIZE {
        MaxDataLenFits(streamID, h.offset, 1, maxBytes);
      }
      match MaybeSplitOffFrame(streamID, h, maxBytes) {
        case TooSmall =>
          f, more := None, true;
        case Parts(first, rest) =>
          ResendPart(first, rest);
          f, more := Some(first), true;
        case Whole =>
          ResendFirst();
          f, more := Some(h), retransmissionQueue != [];
      }
    }

    /** The frame holds the next bytes of the stream, and what is not sent stays buffered. */
    ghost predicate Popped(f: Frame)
      reads this
    {
      && f.offset == writeOffset && 0 < |f.data| <= MAX_PACKET_BUFFER_SIZE && !f.fin
      && f.End() <= |written| && f.data == written[writeOffset..f.End()]
      && Buffered(written, f.End(), nextFrame, dataForWriting)
    }

    /** Takes the next frame, or data straight from the pending write. */
    method PopNewStreamFrame(maxBytes: nat, sendWindow: nat) returns (f: Frame, more: bool)
      requires Buffered(written, writeOffset, nextFrame, dataForWriting)
      requires MIN_STREAM_FRAME_SIZE <= maxBytes <= MAX_PACKET_BUFFER_SIZE && sendWindow > 0
      requires nextFrame.Some? || dataForWriting != []
      modifies this`nextFrame, this`dataForWriting
      ensures Popped(f) && |f.data| <= sendWindow && Length(streamID, f) <= maxBytes
      ensures nextFrame.Some? || (old(nextFrame).None? && dataForWriting != []) ==>
        Tight(streamID, f, maxBytes, sendWindow)
      ensures old(nextFrame).Some? ==> f.data <= old(nextFrame).value.data && dataForWriting == old(dataForWriting)
      ensures more <==> nextFrame.Some? || dataForWriting != [] || (old(nextFrame).None? && finishedWriting)
    {
      if nextFrame.Some? {
        f := PopNextFrame(maxBytes, sendWindow);
        more := nextFrame.Some? || dataForWriting != [];
      } else {
        f := PopWithoutBuffer(maxBytes, sendWindow);
        more := dataForWriting != [] || nextFrame.Some? || finishedWriting;
      }
    }

    /** As much of the next frame as fits; the rest becomes the next frame. */
    method PopNextFrame(maxBytes: nat, sendWindow: nat) returns (f: Frame)
      requires Buffered(written, writeOffset, nextFrame, dataForWriting)
      requires MIN_STREAM_FRAME_SIZE <= maxBytes <= MAX_PACKET_BUFFER_SIZE && sendWindow > 0
      requires nextFrame.Some?
      modifies this`nextFrame
      ensures Popped(f) && |f.data| <= sendWindow && Length(streamID, f) <= maxBytes
      ensures nextFrame.Some? ==> Tight(streamID, f, maxBytes, sendWindow)
      ensures f.data <= old(nextFrame).value.data
    {
      var next := nextFrame.value;
      var maxDataLen := Min(sendWindow, MaxDataLen(streamID, next.offset, maxBytes));
      CutFits(streamID, next.offset, |next.data|, maxBytes, sendWindow, maxDataLen);
      if |next.data| > maxDataLen {
        CutBuffered(written, writeOffset, next, dataForWriting, maxDataLen);
        nextFrame := Some(Frame(writeOffset + maxDataLen, next.data[maxDataLen..], false));
        f := Frame(next.offset, next.data[..maxDataLen], false);
      } else {
        WholeBuffered(written, writeOffset, next, dataForWriting);
        nextFrame := None;
        f := Frame(next.offset, next.data, false);
      }
    }

    /** As much of the pending write as fits. */
    method PopWithoutBuffer(maxBytes: nat, sendWindow: nat) returns (f: Frame)
      requires Buffered(written, writeOffset, nextFrame, dataForWriting)
      requires MIN_STREAM_FRAME_SIZE <= maxBytes <= MAX_PACKET_BUFFER_SIZE && sendWindow > 0
      requires nextFrame.None? && dataForWriting != []
      modifies this`dataForWriting
      ensures Popped(f) && |f.data| <= sendWindow && Length(streamID, f) <= maxBytes
      ensures dataForWriting != [] ==> Tight(streamID, f, maxBytes, sendWindow)
    {
      var n := Min(MaxDataLen(streamID, writeOffset, maxBytes), sendWindow);
      CutFits(streamID, writeOffset, |dataForWriting|, maxBytes, sendWindow, n);
      if |dataForWriting| <= n {
        f := Frame(writeOffset, dataForWriting, false);
        dataForWriting := [];
      } else {
        CutSlice(written, writeOffset, |written|, n);
        f := Frame(writeOffset, dataForWriting[..n], false);
        dataForWriting := dataForWriting[n..];
      }
    }

    /** A frame with the next bytes goes out. */
    method SendNew(g: Frame)
      requires Buffered(written, g.End(), nextFrame, dataForWriting) && !finSent && !completed
      requires books.queue == retransmissionQueue && numOutstandingFrames == |books.outstanding|
      requires LedgerOk(books, written, writeOffset, false)
      requires g.offset == writeOffset && g.data == written[writeOffset..g.End()] && |g.data| <= MAX_PACKET_BUFFER_SIZE
      requires g.fin ==> finishedWriting && nextFrame.None? && dataForWriting == []
      modifies this`writeOffset, this`finSent, this`books, this`numOutstandingFrames
      ensures Valid() && writeOffset == g.End() && finSent == g.fin && Genuine(g, written, writeOffset, finSent)
      ensures books == old(books).(outstanding := old(books).outstanding + [g])
    {
      LedgerSend(books, written, writeOffset, g, g.fin);
      writeOffset := writeOffset + |g.data|;
      if g.fin {
        finSent := true;
      }
      books := books.(outstanding := books.outstanding + [g]);
      numOutstandingFrames := numOutstandingFrames + 1;
    }

    /** Nothing is left to send until something is lost or the application goes on. */
    ghost predicate Idle()
      reads this
    {
      retransmissionQueue == [] && nextFrame.None? && dataForWriting == [] && (finishedWriting ==> finSent)
    }

    /** New data, with the FIN on it when it is the last; or a bare FIN. */
    method PopNew(maxBytes: nat, sendWindow: nat, newlyBlocked: bool) returns (f: Option<Frame>, more: bool)
      requires Valid() && MIN_STREAM_FRAME_SIZE <= maxBytes <= MAX_PACKET_BUFFER_SIZE
      modifies this`nextFrame, this`dataForWriting, this`writeOffset, this`finSent, this`books, this`numOutstandingFrames
      ensures Valid()
      ensures books == if f.Some? then old(books).(outstanding := old(books).outstanding + [f.value]) else old(books)
      ensures f.Some? ==> !old(finSent) && f.value.offset == old(writeOffset) && f.value.End() == writeOffset
      ensures f.Some? ==> f.value.fin == finSent && Genuine(f.value, written, writeOffset, finSent)
      ensures f.None? ==> finSent == old(finSent) && writeOffset == old(writeOffset)
      ensures f.None? <==>
        if old(dataForWriting == [] && nextFrame.None?) then !finishedWriting || old(finSent) else sendWindow == 0
      ensures f.Some? ==> (finSent <==> finishedWriting && writeOffset == |written|)
      ensures f.Some? ==> old(writeOffset) < writeOffset || finSent
      ensures f.Some? ==> |f.value.data| <= sendWindow && Length(streamID, f.value) <= maxBytes
      ensures f.Some? && (nextFrame.Some? || (old(nextFrame).None? && dataForWriting != [])) ==>
        Tight(streamID, f.value, maxBytes, sendWindow)
      ensures more <==>
        if old(dataForWriting == [] && nextFrame.None?) then false
        else if sendWindow == 0 then !newlyBlocked
        else nextFrame.Some? || dataForWriting != [] || (old(nextFrame).None? && finishedWriting)
    {
      var g;
      if dataForWriting == [] && nextFrame.None? {
        if !finishedWriting || finSent {
          return None, false;
        }
        g, more := Frame(writeOffset, [], true), false;
      } else {
        if sendWindow == 0 {
          return None, !newlyBlocked;
        }
        g, more := PopNewStreamFrame(maxBytes, sendWindow);
        g := g.(fin := finishedWriting && dataForWriting == [] && nextFrame.None? && !finSent);
      }
      SendNew(g);
      f := Some(g);
    }

    /**
     The next frame to send: a retransmission first, then new data, then a bare FIN. That there is no more is said
     only when nothing is left, or when the peer is told that its limit blocks the rest.
     */
    method PopStreamFrame(maxBytes: nat, sendWindow: nat, newlyBlocked: bool) returns (f: Option<Frame>, more: bool)
      requires Valid() && MIN_STREAM_FRAME_SIZE <= maxBytes <= MAX_PACKET_BUFFER_SIZE
      modifies this`nextFrame, this`dataForWriting, this`writeOffset, this`finSent,
               this`books, this`numOutstandingFrames, this`retransmissionQueue
      ensures Valid() && books.acked == old(books).acked
      ensures f.Some? ==> Genuine(f.value, written, writeOffset, finSent)
      ensures books.outstanding == old(books).outstanding + if f.Some? then [f.value] else []
      ensures old(writeOffset) <= writeOffset && (old(finSent) ==> finSent && writeOffset == old(writeOffset))
      ensures finSent && !old(finSent) ==> f.Some? && f.value.fin && writeOffset == |written|
      ensures f.None? && sendWindow > 0 && finishedWriting ==> finSent && retransmissionQueue == []
      ensures f.Some? ==> Left() < old(Left())
      ensures writeOffset <= old(writeOffset) + sendWindow && (f.Some? ==> Length(streamID, f.value) <= maxBytes)
      ensures old(retransmissionQueue) != [] ==> f.Some? && writeOffset == old(writeOffset) && finSent == old(finSent)
      ensures old(retransmissionQueue) == [] ==>
        (f.None? <==> if old(dataForWriting == [] && nextFrame.None?) then !finishedWriting || old(finSent) else sendWindow == 0)
      ensures old(retransmissionQueue) == [] && f.Some? && (nextFrame.Some? || (old(nextFrame).None? && dataForWriting != [])) ==>
        Tight(streamID, f.value, maxBytes, sendWindow)
      ensures old(retransmissionQueue) != [] ==> more
      ensures !more ==> Idle() || (f.None? && sendWindow == 0 && newlyBlocked)
      ensures f.None? && more ==> sendWindow == 0 && !newlyBlocked
    {
      if retransmissionQueue != [] {
        f, more := MaybeGetRetransmission(maxBytes);
        if f.Some? || more {
          more := true;
          return;
        }
      }
      f, more := PopNew(maxBytes, sendWindow, newlyBlocked);
    }

    /** Reports completion at most once, and only when every byte and the FIN are acknowledged. */
    method FrameAcked(ghost i: nat) returns (newlyCompleted: bool)
      requires Valid() && i < |books.outstanding|
      modifies this`numOutstandingFrames, this`books, this`completed
      ensures Valid() && books == Acked(old(books), i)
      ensures newlyCompleted <==> !old(completed) && completed
      ensures completed <==> finSent && books.outstanding == [] && books.queue == []
      ensures completed ==> finishedWriting && writeOffset == |written| && AllAcked(books.acked, |written|)
    {
      LedgerAcked(books, written, writeOffset, finSent, i);
      books := Acked(books, i);
      numOutstandingFrames := numOutstandingFrames - 1;
      newlyCompleted := false;
      if finSent && numOutstandingFrames == 0 && |retransmissionQueue| == 0 {
        LedgerDone(books, written, writeOffset);
        if !completed {
          completed := true;
          newlyCompleted := true;
        }
      }
    }

    /** A lost frame is queued to be sent again. */
    method QueueRetransmission(f: Frame, ghost i: nat)
      requires Valid() && i < |books.outstanding| && f == books.outstanding[i]
      modifies this`numOutstandingFrames, this`books, this`retransmissionQueue
      ensures Valid() && books == Lost(old(books), i)
    {
      LedgerLost(books, written, writeOffset, finSent, i);
      books := Lost(books, i);
      retransmissionQueue := retransmissionQueue + [f];
      numOutstandingFrames := numOutstandingFrames - 1;
    }
  }
}
