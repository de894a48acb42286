/**
 STREAM frames: their encoded size, and splitting one that does not fit.
 */
module StreamFrames {
  import opened Basics

  const MAX_PACKET_BUFFER_SIZE: nat := 1452
  const MIN_STREAM_FRAME_SIZE: nat := 128

  datatype Frame = Frame(offset: nat, data: Bytes, fin: bool) {
    function End(): nat { offset + |data| }

    ghost predicate Contains(p: nat) { offset <= p < End() }
  }

  function VarintLen(i: nat): nat {
    if i < 64 then 1 else if i < 16384 then 2 else if i < 0x4000_0000 then 4 else 8
  }

  function HeaderLen(streamID: nat, offset: nat): nat {
    1 + VarintLen(streamID) + if offset != 0 then VarintLen(offset) else 0
  }

  /** The encoded size of a frame. */
  function Length(streamID: nat, f: Frame): nat {
    HeaderLen(streamID, f.offset) + VarintLen(|f.data|) + |f.data|
  }

  /** A frame at this offset with `n` bytes of data takes at most `maxSize` bytes. */
  ghost predicate Fits(streamID: nat, offset: nat, n: nat, maxSize: nat) {
    HeaderLen(streamID, offset) + VarintLen(n) + n <= maxSize
  }

  /** One more byte of data would exceed the window or the size. */
  ghost predicate Tight(streamID: nat, f: Frame, maxSize: nat, window: nat) {
    |f.data| == window || !Fits(streamID, f.offset, |f.data| + 1, maxSize)
  }

  /** How much data a frame at this offset can carry in `maxSize` bytes. */
  function MaxDataLen(streamID: nat, offset: nat, maxSize: nat): nat {
    var h := HeaderLen(streamID, offset) + 1;
    if h > maxSize then 0
    else
      var n: nat := maxSize - h;
      if VarintLen(n) != 1 then n - 1 else n
  }

  /** The bound is the largest amount of data that fits, and it leaves room in a minimal frame. */
  lemma MaxDataLenFits(streamID: nat, offset: nat, n: nat, maxSize: nat)
    requires maxSize <= MAX_PACKET_BUFFER_SIZE
    ensures n > 0 ==> (Fits(streamID, offset, n, maxSize) <==> n <= MaxDataLen(streamID, offset, maxSize))
    ensures maxSize >= MIN_STREAM_FRAME_SIZE ==> 0 < MaxDataLen(streamID, offset, maxSize) < maxSize
  {
  }

  /** Of `len` bytes to send, as many go into a frame as the window and the size allow. */
  lemma CutFits(streamID: nat, offset: nat, len: nat, maxSize: nat, window: nat, n: nat)
    requires MIN_STREAM_FRAME_SIZE <= maxSize <= MAX_PACKET_BUFFER_SIZE && 0 < len && 0 < window
    requires n == Min(window, MaxDataLen(streamID, offset, maxSize))
    ensures 0 < n <= window && n < maxSize && Fits(streamID, offset, Min(len, n), maxSize)
    ensures n == window || !Fits(streamID, offset, n + 1, maxSize)
  {
    MaxDataLenFits(streamID, offset, n + 1, maxSize);
    MaxDataLenFits(streamID, offset, Min(len, n), maxSize);
  }

  datatype Split = Whole | TooSmall | Parts(first: Frame, rest: Frame)

  /** Splits a frame such that the first part is not bigger than `maxSize`, if it must be split. */
  function MaybeSplitOffFrame(streamID: nat, f: Frame, maxSize: nat): (s: Split)
    requires |f.data| <= MAX_PACKET_BUFFER_SIZE
    ensures s.Whole? <==> Length(streamID, f) <= maxSize
    ensures s.Parts? ==>
      && s.first.offset == f.offset && s.first.data + s.rest.data == f.data && s.rest.offset == s.first.End()
      && !s.first.fin && s.rest.fin == f.fin && s.first.data != [] && s.rest.data != []
    ensures s.Parts? && maxSize <= MAX_PACKET_BUFFER_SIZE ==>
      Length(streamID, s.first) <= maxSize && !Fits(streamID, f.offset, |s.first.data| + 1, maxSize)
    ensures s.TooSmall? && maxSize <= MAX_PACKET_BUFFER_SIZE && f.data != [] ==> !Fits(streamID, f.offset, 1, maxSize)
  {
    if maxSize >= Length(streamID, f) then Whole
    else
      var n := MaxDataLen(streamID, f.offset, maxSize);
      if n == 0 then TooSmall
      else
        Parts(Frame(f.offset, f.data[..n], false), Frame(f.offset + n, f.data[n..], f.fin))
  }
}
