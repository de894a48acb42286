/**
 A sending and a receiving stream joined by a network that loses, duplicates and reorders frames.
 `Run` executes an arbitrary schedule of events, so its contract speaks about every run.
 */
module StreamDelivery {
  import opened Basics
  import opened Gaps
  import opened StreamFrames
  import opened SendStreams
  import opened FrameSorting
  import opened ReceiveStreams

  /** What can happen next; an event that is not possible in the current state does nothing. */
  datatype Event =
    | Write(p: Bytes)                          // the application writes
    | Wake                                     // a pending write gets another turn
    | Close                                    // the application closes the stream
    | Send(maxBytes: nat, limit: nat, newlyBlocked: bool)   // the packer asks; the peer accepts bytes below the limit
    | Lose(i: nat)                             // frame i in flight is declared lost
    | Acknowledge(i: nat)                      // frame i in flight is acknowledged
    | Deliver(j: nat)                          // the j-th frame ever sent arrives (again)
    | Read(n: nat)                             // the application reads

  ghost predicate AllGenuine(fs: seq<Frame>, written: Bytes, sent: nat, finSent: bool) {
    forall f {:trigger Genuine(f, written, sent, finSent)} :: f in fs ==> Genuine(f, written, sent, finSent)
  }

  lemma AllGenuineGrows(fs: seq<Frame>, written: Bytes, sent: nat, finSent: bool,
                        written': Bytes, sent': nat, finSent': bool)
    requires AllGenuine(fs, written, sent, finSent)
    requires written <= written' && sent <= sent' <= |written'| && (finSent ==> finSent' && sent == sent')
    ensures AllGenuine(fs, written', sent', finSent')
  {
    forall f | f in fs ensures Genuine(f, written', sent', finSent') {
      assert Genuine(f, written, sent, finSent);
      GenuineGrows(f, written, sent, finSent, written', sent', finSent');
    }
  }

  /** Every byte of every delivered frame has arrived. */
  ghost predicate Arrived(delivered: set<Frame>, gaps: seq<Gap>) {
    forall f, p: nat {:trigger ByteArrived(f, gaps, p)} :: f in delivered ==> ByteArrived(f, gaps, p)
  }

  ghost predicate NoFin(delivered: set<Frame>) {
    forall f :: f in delivered ==> !f.fin
  }

  ghost predicate ByteArrived(f: Frame, gaps: seq<Gap>, p: nat) {
    f.Contains(p) ==> !Missing(gaps, p)
  }

  lemma ArrivedMore(delivered: set<Frame>, gaps: seq<Gap>, f: Frame, gaps': seq<Gap>)
    requires Arrived(delivered, gaps)
    requires gaps' == if f.data == [] then gaps else Carve(gaps, f.offset, f.End())
    ensures Arrived(delivered + {f}, gaps')
  {
    forall g, p: nat | g in delivered + {f} ensures ByteArrived(g, gaps', p) {
      if f.data != [] {
        CarveMissing(gaps, f.offset, f.End(), p);
      }
      assert g in delivered ==> ByteArrived(g, gaps, p);
    }
  }

  /** Acknowledged bytes have arrived. */
  lemma AckedArrived(acked: set<Frame>, delivered: set<Frame>, gaps: seq<Gap>, total: nat, p: nat)
    requires acked <= delivered && Arrived(delivered, gaps) && AllAcked(acked, total) && p < total
    ensures !Missing(gaps, p)
  {
    assert ByteAcked(acked, p);
    var f :| f in acked && f.Contains(p);
    assert ByteArrived(f, gaps, p);
  }

  lemma MoreGaps(gaps: seq<Gap>, f: Frame, gaps': seq<Gap>)
    requires Sorted(gaps) && gaps' == if f.data == [] then gaps else Carve(gaps, f.offset, f.End())
    ensures |gaps'| <= |gaps| + 1
  {
    if f.data != [] {
      CarveCount(gaps, f.offset, f.End());
    }
  }

  lemma ReadMore(written: Bytes, read: Bytes, from: nat, to: nat, bytes: Bytes)
    requires read <= written && |read| == from <= to <= |written| && bytes == written[from..to]
    ensures read <= read + bytes <= written && |read + bytes| == to
  {
  }

  /** The sizes for which the packer asks for a frame. */
  predicate Packable(maxBytes: nat) {
    MIN_STREAM_FRAME_SIZE <= maxBytes <= MAX_PACKET_BUFFER_SIZE
  }

  class Channel {
    const sender: SendStream
    const receiver: ReceiveStream
    var inflight: seq<Frame>       // frames the sender awaits a verdict on
    var wire: seq<Frame>           // every frame ever sent
    var delivered: set<Frame>      // every frame that reached the receiver
    var written: Bytes             // what the sending application has written
    var read: Bytes                // what the receiving application has read
    var eof: bool                  // whether it was told the stream ended
    var arrivals: nat              // how often a frame reached the receiver
    var completions: nat           // how often the sender reported completion
    var played: seq<Event>         // what has happened

    ghost predicate Valid()
      reads this, sender, receiver, receiver.frameQueue
    {
      SenderSide() && ReceiverSide() && (receiver.receivedFinalOffset ==> sender.finSent)
    }

    /** What the sender holds is what was written, and what is acknowledged was delivered. */
    ghost predicate SenderSide()
      reads this`inflight, this`wire, this`written, this`delivered, this`completions, sender
    {
      && sender.Valid() && sender.written == written
      && inflight == sender.books.outstanding
      && AllGenuine(wire, written, sender.writeOffset, sender.finSent)
      && sender.books.acked <= delivered
      && completions == (if sender.completed then 1 else 0)
    }

    /** What the receiver holds is part of what was written, and what was read is its beginning. */
    ghost predicate ReceiverSide()
      reads this`written, this`delivered, this`arrivals, this`read, this`eof, receiver, receiver.frameQueue
    {
      && receiver.Valid(written)
      && Arrived(delivered, receiver.frameQueue.gaps) && |receiver.frameQueue.gaps| <= arrivals + 1
      && (!receiver.receivedFinalOffset ==> NoFin(delivered))
      && read <= written && |read| == receiver.Position()
      && eof == receiver.finRead
    }

    constructor (s: SendStream, r: ReceiveStream)
      requires s.Valid() && s.written == [] && s.books == Ledger({}, [], []) && !s.finSent && !s.completed
      requires r.Valid([]) && r.Position() == 0 && !r.finRead && !r.receivedFinalOffset && |r.frameQueue.gaps| == 1
      ensures Valid() && sender == s && receiver == r && arrivals == 0 && played == []
    {
      sender, receiver := s, r;
      inflight, wire, delivered, written := [], [], {}, [];
      read, eof, arrivals, completions, played := [], false, 0, 0, [];
      new;
      Start();
    }

    lemma Start()
      requires sender.Valid() && sender.written == [] && sender.books == Ledger({}, [], []) && !sender.completed
      requires receiver.Valid([]) && receiver.Position() == 0 && !receiver.finRead && !receiver.receivedFinalOffset
      requires |receiver.frameQueue.gaps| == 1
      requires inflight == [] && wire == [] && delivered == {} && written == read == [] && !eof
      requires arrivals == completions == 0
      ensures Valid()
    {
    }

    // ---------- what each event does

    twostate predicate Wrote(p: Bytes)
      reads this`written
    {
      written == old(written) +
      if old(sender.dataForWriting == [] && |written| + |p| < MAX_BYTE_COUNT && !sender.finishedWriting) then p else []
    }

    twostate predicate Woke()
      reads sender`nextFrame, sender`dataForWriting
    {
      if old(sender.dataForWriting != [] &&
             sender.writeOffset <= |sender.written| <= sender.writeOffset + MAX_PACKET_BUFFER_SIZE)
      then
        && sender.nextFrame == Some(Frame(old(sender.writeOffset), old(sender.written[sender.writeOffset..]), false))
        && sender.dataForWriting == []
      else sender.nextFrame == old(sender.nextFrame) && sender.dataForWriting == old(sender.dataForWriting)
    }

    /** There is a frame to send below the limit. */
    ghost predicate Sendable(limit: nat)
      reads sender
    {
      || sender.retransmissionQueue != []
      || (if sender.dataForWriting == [] && sender.nextFrame.None? then sender.finishedWriting && !sender.finSent
          else sender.writeOffset < limit)
    }

    twostate predicate SentFrame(maxBytes: nat, limit: nat)
      reads this`wire, this`inflight
    {
      && old(wire) <= wire && inflight == old(inflight) + wire[|old(wire)|..]
      && |wire| == |old(wire)| + One(Packable(maxBytes) && old(Sendable(limit)))
      && (|old(wire)| < |wire| ==> Length(sender.streamID, wire[|old(wire)|]) <= maxBytes)
    }

    twostate predicate LostFrame(i: nat)
      reads this`inflight, sender`retransmissionQueue
    {
      if i < |old(inflight)| then
        && inflight == Except(old(inflight), i)
        && sender.retransmissionQueue == old(sender.retransmissionQueue) + [old(inflight)[i]]
      else inflight == old(inflight) && sender.retransmissionQueue == old(sender.retransmissionQueue)
    }

    twostate predicate AcknowledgedFrame(i: nat)
      reads this`inflight, sender
    {
      if i < |old(inflight)| && old(inflight)[i] in old(delivered) then
        && inflight == Except(old(inflight), i) && sender.books.acked == old(sender.books).acked + {old(inflight)[i]}
        && (sender.completed <==> sender.finSent && inflight == [] && sender.retransmissionQueue == [])
      else inflight == old(inflight) && sender.books == old(sender.books) && sender.completed == old(sender.completed)
    }

    twostate predicate DeliveredFrame(j: nat)
      reads this`arrivals, this`delivered
    {
      && arrivals == old(arrivals) + One(j < |old(wire)|)
      && delivered == old(delivered) + if j < |old(wire)| then {old(wire)[j]} else {}
    }

    twostate predicate HasRead(n: nat)
      reads this`read, this`eof, receiver, receiver.frameQueue
    {
      && old(read) <= read && |read| <= |old(read)| + n
      && (|read| < |old(read)| + n ==> eof || Missing(receiver.frameQueue.gaps, |read|))
      && (read == old(read) && n > 0 && receiver.receivedFinalOffset && |read| == receiver.finalOffset ==> eof)
    }

    twostate predicate Does(e: Event)
      reads this`written, this`wire, this`inflight, this`arrivals, this`delivered, this`read, this`eof
      reads sender, receiver, receiver.frameQueue
    {
      match e
      case Write(p) => Wrote(p)
      case Wake => Woke()
      case Close => sender.finishedWriting
      case Send(maxBytes, limit, _) => SentFrame(maxBytes, limit)
      case Lose(i) => LostFrame(i)
      case Acknowledge(i) => AcknowledgedFrame(i)
      case Deliver(j) => DeliveredFrame(j)
      case Read(n) => HasRead(n)
    }

    method DoWrite(p: Bytes)
      requires Valid()
      modifies this`written, sender`written, sender`nextFrame, sender`dataForWriting
      ensures Valid() && Wrote(p)
    {
      if sender.dataForWriting != [] || |written| + |p| >= MAX_BYTE_COUNT {
        return;
      }
      var accepted := sender.Write(p);
      if accepted {
        ghost var w := written;
        written := written + p;
        receiver.Grow(w, written);
        AllGenuineGrows(wire, w, sender.writeOffset, sender.finSent, written, sender.writeOffset, sender.finSent);
      }
    }

    method DoWake()
      requires SenderSide()
      modifies sender`nextFrame, sender`dataForWriting
      ensures SenderSide() && Woke()
    {
      sender.WriteTurn();
    }

    method DoClose()
      requires SenderSide()
      modifies sender`finishedWriting
      ensures SenderSide() && sender.finishedWriting
    {
      sender.Close();
    }

    method DoSend(maxBytes: nat, limit: nat, newlyBlocked: bool)
      requires SenderSide()
      modifies this`wire, this`inflight, sender`nextFrame, sender`dataForWriting, sender`writeOffset, sender`finSent,
               sender`books, sender`numOutstandingFrames, sender`retransmissionQueue
      ensures SenderSide() && (old(sender.finSent) ==> sender.finSent)
      ensures sender.writeOffset <= Max(old(sender.writeOffset), limit)
      ensures SentFrame(maxBytes, limit)
      ensures Packable(maxBytes) && old(sender.writeOffset) < limit && old(inflight) == [] &&
              sender.finishedWriting && !sender.completed
        ==> sender.Left() < old(sender.Left())
    {
      if !Packable(maxBytes) {
        return;
      }
      ghost var sent, finSent := sender.writeOffset, sender.finSent;
      var window := if sender.writeOffset < limit then limit - sender.writeOffset else 0;
      var f, more := sender.PopStreamFrame(maxBytes, window, newlyBlocked);
      AllGenuineGrows(wire, written, sent, finSent, written, sender.writeOffset, sender.finSent);
      if f.Some? {
        wire := wire + [f.value];
        inflight := inflight + [f.value];
      }
    }

    method DoLose(i: nat)
      requires SenderSide()
      modifies this`inflight, sender`numOutstandingFrames, sender`books, sender`retransmissionQueue
      ensures SenderSide() && LostFrame(i)
    {
      if i >= |inflight| {
        return;
      }
      sender.QueueRetransmission(inflight[i], i);
      inflight := Except(inflight, i);
    }

    method DoAcknowledge(i: nat)
      requires SenderSide()
      modifies this`inflight, this`completions, sender`numOutstandingFrames, sender`books, sender`completed
      ensures SenderSide() && AcknowledgedFrame(i)
      ensures i < |old(inflight)| && old(inflight)[i] in delivered ==> |inflight| < |old(inflight)|
    {
      if i >= |inflight| || inflight[i] !in delivered {
        return;
      }
      var newlyCompleted := sender.FrameAcked(i);
      inflight := Except(inflight, i);
      if newlyCompleted {
        completions := completions + 1;
      }
    }

    /** Whatever else happens at the sender. */
    method SenderEvent(e: Event)
      requires Valid() && (e.Wake? || e.Close? || e.Send?)
      modifies this`inflight, this`wire, sender
      ensures Valid() && sender.finishedWriting == (old(sender.finishedWriting) || e.Close?)
      ensures sender.writeOffset <= if e.Send? then Max(old(sender.writeOffset), e.limit) else old(sender.writeOffset)
      ensures Does(e) && (!e.Send? ==> wire == old(wire))
    {
      match e {
        case Wake => DoWake();
        case Close => DoClose();
        case Send(maxBytes, limit, newlyBlocked) => DoSend(maxBytes, limit, newlyBlocked);
      }
    }

    /** The sender learns what became of a frame. */
    method Verdict(e: Event)
      requires Valid() && (e.Lose? || e.Acknowledge?)
      modifies this`inflight, this`completions, sender`numOutstandingFrames, sender`books, sender`retransmissionQueue,
               sender`completed
      ensures Valid() && Does(e)
    {
      match e {
        case Lose(i) => DoLose(i);
        case Acknowledge(i) => DoAcknowledge(i);
      }
    }

    method AtSender(e: Event)
      requires Valid() && !e.Write? && !e.Deliver? && !e.Read?
      modifies this`inflight, this`wire, this`completions, sender
      ensures Valid() && sender.finishedWriting == (old(sender.finishedWriting) || e.Close?)
      ensures sender.writeOffset <= if e.Send? then Max(old(sender.writeOffset), e.limit) else old(sender.writeOffset)
      ensures Does(e) && (!e.Send? ==> wire == old(wire))
    {
      if e.Lose? || e.Acknowledge? {
        Verdict(e);
      } else {
        SenderEvent(e);
      }
    }

    method DoDeliver(j: nat) returns (ok: bool)
      requires Valid()
      modifies this`delivered, this`arrivals, receiver`finalOffset, receiver`receivedFinalOffset, receiver`highestReceived,
               receiver.frameQueue`queue, receiver.frameQueue`gaps
      ensures arrivals <= old(arrivals) + 1 && if ok then Valid() && DeliveredFrame(j) else arrivals >= MAX_GAPS
    {
      if j >= |wire| {
        return true;
      }
      assert Genuine(wire[j], written, sender.writeOffset, sender.finSent);
      ok := Arrive(wire[j]);
    }

    /** A frame arrives.  The only possible failure is a receiver with too many gaps, never a size error. */
    method Arrive(f: Frame) returns (ok: bool)
      requires Valid() && Genuine(f, written, sender.writeOffset, sender.finSent)
      modifies this`delivered, this`arrivals, receiver`finalOffset, receiver`receivedFinalOffset, receiver`highestReceived,
               receiver.frameQueue`queue, receiver.frameQueue`gaps
      ensures arrivals == old(arrivals) + 1
      ensures if ok then Valid() && delivered == old(delivered) + {f} else arrivals >= MAX_GAPS
    {
      ok := TakeIn(f, sender.finSent);
    }

    method TakeIn(f: Frame, ghost final: bool) returns (ok: bool)
      requires ReceiverSide() && PartOf(f, written, final)
      modifies this`delivered, this`arrivals, receiver`finalOffset, receiver`receivedFinalOffset, receiver`highestReceived,
               receiver.frameQueue`queue, receiver.frameQueue`gaps
      ensures arrivals == old(arrivals) + 1
      ensures ok ==> receiver.receivedFinalOffset == (old(receiver.receivedFinalOffset) || f.fin)
      ensures if ok then ReceiverSide() && delivered == old(delivered) + {f} else arrivals >= MAX_GAPS
    {
      ghost var gaps := receiver.frameQueue.gaps;
      var sizeError;
      ok, sizeError := receiver.HandleGenuineFrame(f, written, final);
      assert !sizeError;
      arrivals := arrivals + 1;
      MoreGaps(gaps, f, receiver.frameQueue.gaps);
      if ok {
        ArrivedMore(delivered, gaps, f, receiver.frameQueue.gaps);
        delivered := delivered + {f};
      }
    }

    method DoRead(n: nat) returns (r: ReadResult)
      requires Valid()
      modifies this`read, this`eof, receiver`currentFrame, receiver`currentFrameIsLast, receiver`readPosInFrame,
               receiver`finRead, receiver.frameQueue`queue, receiver.frameQueue`readPos
      ensures Valid() && HasRead(n)
      ensures r.EOF? <==> eof
      ensures r.Data? && n > 0 ==> |old(read)| < |read|
      ensures r.Blocked? ==> Missing(receiver.frameQueue.gaps, receiver.Position())
      ensures r.Blocked? ==> !(receiver.receivedFinalOffset && receiver.Position() == receiver.finalOffset)
    {
      var bytes;
      ghost var from := receiver.Position();
      r, bytes := receiver.Read(n, written);
      ReadMore(written, read, from, receiver.Position(), bytes);
      read := read + bytes;
      eof := r.EOF?;
    }

    /** The first frame in flight arrives and is acknowledged. */
    method ArriveFirst() returns (ok: bool)
      requires Valid() && inflight != []
      modifies this`delivered, this`arrivals, receiver`finalOffset, receiver`receivedFinalOffset, receiver`highestReceived,
               receiver.frameQueue`queue, receiver.frameQueue`gaps,
               this`inflight, this`completions, sender`numOutstandingFrames, sender`books, sender`completed
      ensures if ok then Valid() && |inflight| < |old(inflight)| else arrivals >= MAX_GAPS
      ensures completions <= 1
    {
      assert Held(sender.books, inflight[0]);
      assert Genuine(inflight[0], written, sender.writeOffset, sender.finSent);
      ok := Arrive(inflight[0]);
      if ok {
        DoAcknowledge(0);
      }
    }

    /** Everything in flight arrives and is acknowledged. */
    method Settle() returns (ok: bool)
      requires Valid()
      modifies this`delivered, this`arrivals, receiver`finalOffset, receiver`receivedFinalOffset, receiver`highestReceived,
               receiver.frameQueue`queue, receiver.frameQueue`gaps,
               this`inflight, this`completions, sender`numOutstandingFrames, sender`books, sender`completed
      ensures if ok then Valid() && inflight == [] else arrivals >= MAX_GAPS
      ensures completions <= 1
      decreases |inflight|
    {
      ok := true;
      if inflight != [] {
        ok := ArriveFirst();
        if ok {
          ok := Settle();
        }
      }
    }

    /** With nothing in flight and something left to send, a frame is sent, arrives and is acknowledged. */
    method SendOne() returns (ok: bool)
      requires Valid() && sender.finishedWriting && inflight == [] && !sender.completed
      modifies this`delivered, this`arrivals, receiver`finalOffset, receiver`receivedFinalOffset, receiver`highestReceived,
               receiver.frameQueue`queue, receiver.frameQueue`gaps,
               this`inflight, this`completions, this`wire, sender`numOutstandingFrames, sender`books, sender`completed,
               sender`nextFrame, sender`dataForWriting, sender`writeOffset, sender`finSent, sender`retransmissionQueue
      ensures if ok then Valid() && inflight == [] && sender.Left() < old(sender.Left()) else arrivals >= MAX_GAPS
      ensures completions <= 1
    {
      DoSend(MAX_PACKET_BUFFER_SIZE, sender.writeOffset + MAX_PACKET_BUFFER_SIZE, false);
      ok := Settle();
    }

    /** On a closed stream with nothing in flight, sending what is left, losing nothing, leads to completion. */
    method SendRest() returns (ok: bool)
      requires Valid() && sender.finishedWriting && inflight == []
      modifies this`delivered, this`arrivals, receiver`finalOffset, receiver`receivedFinalOffset, receiver`highestReceived,
               receiver.frameQueue`queue, receiver.frameQueue`gaps,
               this`inflight, this`completions, this`wire, sender`numOutstandingFrames, sender`books, sender`completed,
               sender`nextFrame, sender`dataForWriting, sender`writeOffset, sender`finSent, sender`retransmissionQueue
      ensures if ok then Valid() && completions == 1 else arrivals >= MAX_GAPS
      ensures completions <= 1
      decreases sender.Left()
    {
      ok := true;
      if !sender.completed {
        ok := SendOne();
        if ok {
          ok := SendRest();
        }
      }
    }

    /** So any closed stream can be completed, whatever has happened to it, unless the receiver gives up. */
    method Finish() returns (ok: bool)
      requires Valid() && sender.finishedWriting
      modifies this`delivered, this`arrivals, receiver`finalOffset, receiver`receivedFinalOffset, receiver`highestReceived,
               receiver.frameQueue`queue, receiver.frameQueue`gaps,
               this`inflight, this`completions, this`wire, sender`numOutstandingFrames, sender`books, sender`completed,
               sender`nextFrame, sender`dataForWriting, sender`writeOffset, sender`finSent, sender`retransmissionQueue
      ensures if ok then Valid() && completions == 1 else arrivals >= MAX_GAPS
      ensures completions <= 1
    {
      ok := Settle();
      if ok {
        ok := SendRest();
      }
    }

    /** Once the sender has reported completion, nothing is missing and the final size is known. */
    lemma CompletedArrived()
      requires Valid() && completions > 0
      ensures receiver.receivedFinalOffset && sender.finishedWriting
      ensures forall p: nat :: p < |written| ==> !Missing(receiver.frameQueue.gaps, p)
    {
      LedgerDone(sender.books, written, sender.writeOffset);
      forall p: nat | p < |written| ensures !Missing(receiver.frameQueue.gaps, p) {
        AckedArrived(sender.books.acked, delivered, receiver.frameQueue.gaps, |written|, p);
      }
      var f :| f in sender.books.acked && f.fin;
      assert f in delivered;
    }

    /** After completion there is something to read, until the end is told. */
    method ReadNext()
      requires Valid() && completions > 0 && !eof
      modifies this`read, this`eof, receiver`currentFrame, receiver`currentFrameIsLast, receiver`readPosInFrame,
               receiver`finRead, receiver.frameQueue`queue, receiver.frameQueue`readPos
      ensures Valid() && |read| <= |written| && (eof || |old(read)| < |read|)
    {
      CompletedArrived();
      var r := DoRead(1);
    }

    /** So the receiver can read on to the end without ever blocking. */
    method Drain()
      requires Valid() && completions > 0
      modifies this`read, this`eof, receiver`currentFrame, receiver`currentFrameIsLast, receiver`readPosInFrame,
               receiver`finRead, receiver.frameQueue`queue, receiver.frameQueue`readPos
      ensures Valid() && eof
      decreases |written| - |read|, !eof
    {
      if !eof {
        ReadNext();
        if !eof {
          Drain();
        }
      }
    }

    /** One event; false means that the receiver gave up on too many gaps. */
    method Step(e: Event) returns (ok: bool)
      requires Valid()
      modifies this, sender, receiver, receiver.frameQueue
      ensures ok ==> Valid()
      ensures !ok ==> e.Deliver? && completions == old(completions) && arrivals >= MAX_GAPS
      ensures arrivals <= old(arrivals) + One(e.Deliver?)
      ensures sender.finishedWriting == (old(sender.finishedWriting) || e.Close?)
      ensures sender.writeOffset <= if e.Send? then Max(old(sender.writeOffset), e.limit) else old(sender.writeOffset)
      ensures ok ==> Does(e)
      ensures (!e.Write? ==> written == old(written)) && (!e.Send? ==> wire == old(wire))
      ensures !e.Read? ==> read == old(read) && eof == old(eof)
      ensures played == old(played) + [e]
    {
      ok := Happen(e);
      played := played + [e];
    }

    method Happen(e: Event) returns (ok: bool)
      requires Valid()
      modifies this`written, this`wire, this`inflight, this`arrivals, this`delivered, this`read, this`eof
      modifies this`completions, sender, receiver, receiver.frameQueue
      ensures ok ==> Valid()
      ensures !ok ==> e.Deliver? && completions == old(completions) && arrivals >= MAX_GAPS
      ensures arrivals <= old(arrivals) + One(e.Deliver?)
      ensures sender.finishedWriting == (old(sender.finishedWriting) || e.Close?)
      ensures sender.writeOffset <= if e.Send? then Max(old(sender.writeOffset), e.limit) else old(sender.writeOffset)
      ensures ok ==> Does(e)
      ensures (!e.Write? ==> written == old(written)) && (!e.Send? ==> wire == old(wire))
      ensures !e.Read? ==> read == old(read) && eof == old(eof)
    {
      ok := true;
      match e {
        case Write(p) => DoWrite(p);
        case Deliver(j) => ok := DoDeliver(j);
        case Read(n) => var r := DoRead(n);
        case _ => AtSender(e);
      }
    }

    /** What a valid channel promises the applications. */
    lemma Promise()
      requires Valid()
      ensures read <= written && completions <= 1
      ensures eof ==> read == written && sender.finishedWriting
    {
    }
  }

  /** What happened in a run: what was written and read, and what either side was told. */
  datatype Outcome = Outcome(
    written: Bytes, sent: nat, read: Bytes, eof: bool, closed: bool, completions: nat, arrivals: nat, gaveUp: bool,
    played: seq<Event>)

  /** One event, and what is promised even if the receiver gives up. */
  method PlayOne(c: Channel, e: Event) returns (ok: bool)
    requires c.Valid()
    modifies c, c.sender, c.receiver, c.receiver.frameQueue
    ensures c.sender.finishedWriting == (old(c.sender.finishedWriting) || e.Close?)
    ensures c.arrivals <= old(c.arrivals) + One(e.Deliver?)
    ensures c.sender.writeOffset <= Max(old(c.sender.writeOffset), if e.Send? then e.limit else 0)
    ensures if ok then c.Valid() else c.arrivals >= MAX_GAPS
    ensures c.played == old(c.played) + [e]
    ensures !ok ==>
      c.read <= c.written && c.completions <= 1 && (c.eof ==> c.sender.finishedWriting && c.read == c.written)
  {
    c.Promise();
    ok := c.Step(e);
  }

  ghost predicate Closes(events: seq<Event>) {
    exists i :: 0 <= i < |events| && events[i].Close?
  }

  function Deliveries(events: seq<Event>): nat {
    if events == [] then 0 else One(events[0].Deliver?) + Deliveries(events[1..])
  }

  /** The largest limit the peer has granted. */
  function MaxLimit(events: seq<Event>): nat {
    if events == [] then 0 else Max(if events[0].Send? then events[0].limit else 0, MaxLimit(events[1..]))
  }

  lemma ClosesFirst(events: seq<Event>)
    requires events != []
    ensures Closes(events) <==> events[0].Close? || Closes(events[1..])
  {
    var rest := events[1..];
    if Closes(rest) {
      var i :| 0 <= i < |rest| && rest[i].Close?;
      assert events[i + 1].Close?;
    }
    if Closes(events) && !events[0].Close? {
      var i :| 0 <= i < |events| && events[i].Close?;
      assert rest[i - 1].Close?;
    }
  }

  /** Events in order, until the receiver gives up. */
  method Play(c: Channel, events: seq<Event>) returns (ok: bool)
    requires c.Valid()
    modifies c, c.sender, c.receiver, c.receiver.frameQueue
    ensures ok ==> c.Valid() && c.sender.finishedWriting == (old(c.sender.finishedWriting) || Closes(events))
    ensures c.arrivals <= old(c.arrivals) + Deliveries(events) && (!ok ==> c.arrivals >= MAX_GAPS)
    ensures c.sender.writeOffset <= Max(old(c.sender.writeOffset), MaxLimit(events))
    ensures !ok ==>
      c.read <= c.written && c.completions <= 1 && (c.eof ==> c.sender.finishedWriting && c.read == c.written)
    ensures c.played <= old(c.played) + events && (ok ==> c.played == old(c.played) + events)
  {
    ok := true;
    if events != [] {
      ClosesFirst(events);
      ok := PlayOne(c, events[0]);
      if ok {
        ok := Play(c, events[1..]);
      }
    }
  }

  /** The stream is sent and read to its end. */
  method Conclude(c: Channel) returns (o: Outcome)
    requires c.Valid() && c.sender.finishedWriting
    modifies c, c.sender, c.receiver, c.receiver.frameQueue
    ensures o.closed && o.read <= o.written && o.completions <= 1 && (o.gaveUp ==> o.arrivals >= MAX_GAPS)
    ensures o.eof ==> o.read == o.written
    ensures !o.gaveUp ==> o.eof && o.completions == 1
    ensures o.played == old(c.played)
  {
    c.Promise();
    var ok := c.Finish();
    if !ok {
      return Outcome(c.written, c.sender.writeOffset, c.read, c.eof, true, c.completions, c.arrivals, true, c.played);
    }
    c.Drain();
    c.Promise();
    o := Outcome(c.written, c.sender.writeOffset, c.read, c.eof, true, c.completions, c.arrivals, false, c.played);
  }

  method NewChannel() returns (c: Channel)
    ensures fresh(c) && fresh(c.sender) && fresh(c.receiver) && fresh(c.receiver.frameQueue)
    ensures c.Valid() && c.arrivals == 0 && c.sender.writeOffset == 0 && !c.sender.finishedWriting && c.played == []
  {
    var sender := new SendStream(1);
    var receiver := new ReceiveStream();
    c := new Channel(sender, receiver);
  }

  /**
   Every run of a stream.  Under any schedule of writes, sends, losses, acknowledgements, repeated and
   reordered deliveries and reads, what is read is a prefix of what was written; the end of the stream is
   told only after all of it has been read; no byte is sent beyond the limits the peer has granted; completion
   is reported at most once.  From wherever the run has led a closed stream, sending, delivering, acknowledging
   and reading on ends with all of it read and completion reported, unless the receiver
   gives up on too many gaps, which takes at least 1000 arrivals.
   */
  method Run(events: seq<Event>, drain: bool) returns (o: Outcome)
    ensures o.played <= events && (!o.gaveUp ==> o.played == events)
    ensures o.read <= o.written && o.completions <= 1
    ensures o.eof ==> o.closed && o.read == o.written
    ensures !o.gaveUp ==> (o.closed <==> Closes(events))
    ensures (o.gaveUp ==> o.arrivals >= MAX_GAPS) && (!drain ==> o.arrivals <= Deliveries(events))
    ensures !drain ==> o.sent <= MaxLimit(events)
    ensures drain && o.closed && !o.gaveUp ==> o.eof && o.completions == 1
  {
    var c := NewChannel();
    var ok := Play(c, events);
    var closed := c.sender.finishedWriting;
    if !ok {
      o := Outcome(c.written, c.sender.writeOffset, c.read, c.eof, closed, c.completions, c.arrivals, true, c.played);
    } else if drain && closed {
      o := Conclude(c);
    } else {
      c.Promise();
      o := Outcome(c.written, c.sender.writeOffset, c.read, c.eof, closed, c.completions, c.arrivals, false, c.played);
    }
  }
}
