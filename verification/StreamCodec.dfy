/** How STREAM frames are written into packets and parsed again (section 19.8 of RFC 9000). */
module StreamCodec {
  import opened Basics
  import opened StreamFrames

  // ---------- numbers of variable length (section 16 of RFC 9000)

  /** Numbers below 2^62 can be written. */
  const VARINT_END: nat := 0x4000_0000_0000_0000

  function Pow256(k: nat): (p: nat)
    ensures p > 0
  {
    if k == 0 then 1 else 256 * Pow256(k - 1)
  }

  function BigEndian(n: nat, k: nat): (b: Bytes)
    ensures |b| == k
  {
    if k == 0 then [] else BigEndian(n / 256, k - 1) + [(n % 256) as Byte]
  }

  function Value(b: Bytes): nat {
    if b == [] then 0 else 256 * Value(b[..|b| - 1]) + b[|b| - 1] as nat
  }

  /** The top two bits of the first byte tell how many bytes there are. */
  function WriteVarint(i: nat): (b: Bytes)
    requires i < VARINT_END
    ensures |b| == VarintLen(i)
  {
    var b := BigEndian(i, VarintLen(i));
    FirstByte(i);
    b[0 := Marked(b[0], Mark(i))]
  }

  function Mark(i: nat): nat {
    if i < 64 then 0 else if i < 16384 then 1 else if i < 0x4000_0000 then 2 else 3
  }

  function Marked(first: Byte, mark: nat): Byte
    requires first < 64 && mark < 4
  {
    ((first as nat) + 64 * mark) as Byte
  }

  function ReadVarint(b: Bytes): (r: Option<(nat, Bytes)>)
  {
    if b == [] then None
    else
      var n := Announced(b[0]);
      if |b| < n then None else Some((Value([b[0] % 64] + b[1..n]), b[n..]))
  }

  function Announced(first: Byte): (n: nat)
    ensures n >= 1
  {
    if first < 64 then 1 else if first < 128 then 2 else if first < 192 then 4 else 8
  }

  lemma {:induction false} ValueOf(n: nat, k: nat)
    requires n < Pow256(k)
    ensures Value(BigEndian(n, k)) == n
  {
    if k == 0 {
    } else {
      ValueOf(n / 256, k - 1);
    }
  }

  lemma {:induction false} ValueBelow(b: Bytes)
    ensures Value(b) < Pow256(|b|)
  {
    if b == [] {
    } else {
      ValueBelow(b[..|b| - 1]);
    }
  }

  /** A small number has a small first byte. */
  lemma {:induction false} TopByte(n: nat, k: nat)
    requires k > 0 && n < 64 * Pow256(k - 1)
    ensures BigEndian(n, k)[0] < 64
  {
    if k == 1 {
      assert Pow256(0) == 1;
    } else {
      TopByte(n / 256, k - 1);
    }
  }

  lemma {:induction false} TopValue(b: Bytes)
    requires b != [] && b[0] < 64
    ensures Value(b) < 64 * Pow256(|b| - 1)
  {
    if |b| == 1 {
      assert b[..0] == [];
    } else {
      TopValue(b[..|b| - 1]);
    }
  }

  lemma Powers()
    ensures Pow256(0) == 1 && Pow256(1) == 0x100 && Pow256(3) == 0x100_0000 && Pow256(7) == 0x100_0000_0000_0000
  {
    assert Pow256(2) == 0x1_0000;
    assert Pow256(4) == 0x1_0000_0000;
    assert Pow256(5) == 0x100_0000_0000;
    assert Pow256(6) == 0x1_0000_0000_0000;
  }

  lemma FirstByte(i: nat)
    requires i < VARINT_END
    ensures i < 64 * Pow256(VarintLen(i) - 1) && BigEndian(i, VarintLen(i))[0] < 64
  {
    Powers();
    TopByte(i, VarintLen(i));
  }

  /** What is written is read again, whatever follows. */
  lemma VarintRoundTrip(i: nat, rest: Bytes)
    requires i < VARINT_END
    ensures ReadVarint(WriteVarint(i) + rest) == Some((i, rest))
  {
    var k := VarintLen(i);
    var b, w := BigEndian(i, k), WriteVarint(i);
    FirstByte(i);
    ValueOf(i, k);
    Unmark(b[0], Mark(i));
    assert Announced(w[0]) == k;
    assert [(w + rest)[0] % 64] + (w + rest)[1..k] == b;
    assert (w + rest)[k..] == rest;
  }

  lemma Unmark(first: Byte, mark: nat)
    requires first < 64 && mark < 4
    ensures Marked(first, mark) % 64 == first
    ensures Announced(Marked(first, mark)) == if mark == 0 then 1 else if mark == 1 then 2 else if mark == 2 then 4 else 8
  {
  }

  ghost predicate Ends(rest: Bytes, b: Bytes) {
    |rest| <= |b| && rest == b[|b| - |rest|..]
  }

  lemma EndOfEnd(b: Bytes, b1: Bytes, b2: Bytes)
    requires Ends(b1, b) && Ends(b2, b1)
    ensures Ends(b2, b)
  {
  }

  /** Whatever is read could have been written, in no more bytes. */
  lemma ReadShrinks(b: Bytes)
    requires ReadVarint(b).Some?
    ensures var (i, rest) := ReadVarint(b).value;
      i < VARINT_END && Ends(rest, b) && VarintLen(i) <= |b| - |rest|
  {
    var n := Announced(b[0]);
    Powers();
    TopValue([b[0] % 64] + b[1..n]);
  }

  // ---------- frames

  /** A frame as it stands in a packet; the last one of a packet may leave its length out. */
  datatype Wire = Wire(streamID: nat, frame: Frame, dataLenPresent: bool) {
    predicate Encodable() {
      streamID < VARINT_END && frame.offset < VARINT_END && |frame.data| < VARINT_END
    }

    /** What the parser has room for. */
    predicate Acceptable() {
      |frame.data| <= MAX_PACKET_BUFFER_SIZE && frame.End() < VARINT_END
    }
  }

  function TypeByte(f: Frame, dataLenPresent: bool): Byte {
    (8 + One(f.fin) + 2 * One(dataLenPresent) + 4 * One(f.offset != 0)) as Byte
  }

  function Header(w: Wire): (b: Bytes)
    requires w.Encodable()
  {
    [TypeByte(w.frame, w.dataLenPresent)] + WriteVarint(w.streamID) +
    (if w.frame.offset != 0 then WriteVarint(w.frame.offset) else []) +
    (if w.dataLenPresent then WriteVarint(|w.frame.data|) else [])
  }

  /** Refuses exactly an empty frame without a FIN. */
  function Write(w: Wire): (r: Option<Bytes>)
    requires w.Encodable()
  {
    if w.frame.data == [] && !w.frame.fin then None else Some(Header(w) + w.frame.data)
  }

  function ParseOffset(present: bool, b: Bytes): Option<(nat, Bytes)> {
    if present then ReadVarint(b) else Some((0, b))
  }

  function ParseLen(present: bool, b: Bytes): Option<(nat, Bytes)> {
    if present then ReadVarint(b) else Some((|b|, b))
  }

  predicate HasBit(t: Byte, bit: Byte)
    requires bit > 0
  {
    (t / bit) % 2 == 1
  }

  function Parse(b: Bytes): (r: Option<(Wire, Bytes)>)
  {
    if b == [] then None
    else
      var fin, hasLen, hasOffset := HasBit(b[0], 1), HasBit(b[0], 2), HasBit(b[0], 4);
      match ReadVarint(b[1..])
      case None => None
      case Some((streamID, b1)) =>
        match ParseOffset(hasOffset, b1)
        case None => None
        case Some((offset, b2)) =>
          match ParseLen(hasLen, b2)
          case None => None
          case Some((n, b3)) => ParseData(streamID, offset, n, fin, hasLen, b3)
  }

  function ParseData(streamID: nat, offset: nat, n: nat, fin: bool, hasLen: bool, b: Bytes): Option<(Wire, Bytes)> {
    if n > MAX_PACKET_BUFFER_SIZE || |b| < n || offset + n >= VARINT_END then None
    else Some((Wire(streamID, Frame(offset, b[..n], fin), hasLen), b[n..]))
  }

  /** The length that packets are filled by is the length of what is written. */
  lemma WriteLength(w: Wire)
    requires w.Encodable() && Write(w).Some?
    ensures w.dataLenPresent ==> |Write(w).value| == Length(w.streamID, w.frame)
    ensures !w.dataLenPresent ==> |Write(w).value| == HeaderLen(w.streamID, w.frame.offset) + |w.frame.data|
    ensures 8 <= Write(w).value[0] < 16
  {
  }

  lemma TypeBits(f: Frame, dataLenPresent: bool)
    ensures var t := TypeByte(f, dataLenPresent);
      (HasBit(t, 1) <==> f.fin) && (HasBit(t, 2) <==> dataLenPresent) && (HasBit(t, 4) <==> f.offset != 0)
  {
  }

  /**
   A frame that is written and followed by anything is parsed as itself if and only if the parser has room for
   it; one without its length must be the last of the packet.
   */
  lemma RoundTrip(w: Wire, rest: Bytes)
    requires w.Encodable() && Write(w).Some? && (w.dataLenPresent || rest == [])
    ensures Parse(Write(w).value + rest) == if w.Acceptable() then Some((w, rest)) else None
  {
    var f := w.frame;
    var t, id, body := TypeByte(f, w.dataLenPresent), WriteVarint(w.streamID), f.data + rest;
    var off := if f.offset != 0 then WriteVarint(f.offset) else [];
    var len := if w.dataLenPresent then WriteVarint(|f.data|) else [];
    Layout(t, id, off, len, f.data, rest);
    TypeBits(f, w.dataLenPresent);
    VarintRoundTrip(w.streamID, off + (len + body));
    OffsetBack(f.offset, off, len + body);
    LenBack(f.data, w.dataLenPresent, len, rest);
    Stages(t, id + (off + (len + body)), w.streamID, off + (len + body), f.offset, len + body, |f.data|, body);
    assert body[..|f.data|] == f.data && body[|f.data|..] == rest;
  }

  lemma Layout(t: Byte, id: Bytes, off: Bytes, len: Bytes, data: Bytes, rest: Bytes)
    ensures [t] + id + off + len + data + rest == [t] + (id + (off + (len + (data + rest))))
  {
  }

  lemma Stages(t: Byte, b: Bytes, streamID: nat, b1: Bytes, offset: nat, b2: Bytes, n: nat, b3: Bytes)
    requires ReadVarint(b) == Some((streamID, b1))
    requires ParseOffset(HasBit(t, 4), b1) == Some((offset, b2)) && ParseLen(HasBit(t, 2), b2) == Some((n, b3))
    ensures Parse([t] + b) == ParseData(streamID, offset, n, HasBit(t, 1), HasBit(t, 2), b3)
  {
    assert ([t] + b)[1..] == b;
  }

  lemma OffsetBack(offset: nat, off: Bytes, rest: Bytes)
    requires offset < VARINT_END && off == if offset != 0 then WriteVarint(offset) else []
    ensures ParseOffset(offset != 0, off + rest) == Some((offset, rest))
  {
    if offset != 0 {
      VarintRoundTrip(offset, rest);
    } else {
      assert off + rest == rest;
    }
  }

  lemma LenBack(data: Bytes, present: bool, len: Bytes, rest: Bytes)
    requires |data| < VARINT_END && len == (if present then WriteVarint(|data|) else []) && (present || rest == [])
    ensures ParseLen(present, len + (data + rest)) == Some((|data|, data + rest))
  {
    if present {
      VarintRoundTrip(|data|, data + rest);
    } else {
      assert len + (data + rest) == data + rest;
    }
  }

  /** What a parser accepts can be written again, in no more bytes, unless it is empty without a FIN. */
  lemma ParseShrinks(b: Bytes)
    requires Parse(b).Some?
    ensures var (w, rest) := Parse(b).value;
      && w.Encodable() && w.Acceptable() && Ends(rest, b)
      && (Write(w).Some? ==> |Write(w).value| <= |b| - |rest|)
  {
    var t := b[0];
    var (streamID, b1) := ReadVarint(b[1..]).value;
    var (offset, b2) := ParseOffset(HasBit(t, 4), b1).value;
    var (n, b3) := ParseLen(HasBit(t, 2), b2).value;
    ReadShrinks(b[1..]);
    OffsetShrinks(HasBit(t, 4), b1);
    LenShrinks(HasBit(t, 2), b2);
    AllEnds(b, b[1..], b1, b2, b3, b3[n..]);
    DataShrinks(streamID, offset, n, HasBit(t, 1), HasBit(t, 2), b3,
                |b| - 1 - |b1|, |b1| - |b2|, |b2| - |b3|);
  }

  lemma AllEnds(b: Bytes, b0: Bytes, b1: Bytes, b2: Bytes, b3: Bytes, b4: Bytes)
    requires Ends(b0, b) && Ends(b1, b0) && Ends(b2, b1) && Ends(b3, b2) && Ends(b4, b3)
    ensures Ends(b4, b)
  {
    EndOfEnd(b, b0, b1);
    EndOfEnd(b, b1, b2);
    EndOfEnd(b, b2, b3);
    EndOfEnd(b, b3, b4);
  }

  lemma DataShrinks(streamID: nat, offset: nat, n: nat, fin: bool, hasLen: bool, b: Bytes,
                    forID: int, forOffset: int, forLen: int)
    requires ParseData(streamID, offset, n, fin, hasLen, b).Some?
    requires streamID < VARINT_END && offset < VARINT_END && VarintLen(streamID) <= forID && 0 <= forOffset && 0 <= forLen
    requires (offset != 0 ==> VarintLen(offset) <= forOffset) && (hasLen ==> VarintLen(n) <= forLen)
    ensures var (w, rest) := ParseData(streamID, offset, n, fin, hasLen, b).value;
      && w.Encodable() && w.Acceptable()
      && (Write(w).Some? ==> |Write(w).value| <= 1 + forID + forOffset + forLen + |b| - |rest|)
  {
    var w := ParseData(streamID, offset, n, fin, hasLen, b).value.0;
    if w.frame.data != [] || w.frame.fin {
      WriteLength(w);
    }
  }

  lemma OffsetShrinks(present: bool, b: Bytes)
    requires ParseOffset(present, b).Some?
    ensures var (offset, rest) := ParseOffset(present, b).value;
      offset < VARINT_END && Ends(rest, b) && (offset != 0 ==> present && VarintLen(offset) <= |b| - |rest|)
  {
    if present {
      ReadShrinks(b);
    }
  }

  lemma LenShrinks(present: bool, b: Bytes)
    requires ParseLen(present, b).Some?
    ensures var (n, rest) := ParseLen(present, b).value;
      Ends(rest, b) && (present ==> n < VARINT_END && VarintLen(n) <= |b| - |rest|)
  {
    if present {
      ReadShrinks(b);
    }
  }

  /** So parsing, writing and parsing again changes nothing. */
  lemma ParseStable(b: Bytes)
    requires Parse(b).Some? && (Parse(b).value.0.frame.data != [] || Parse(b).value.0.frame.fin)
    ensures var w := Parse(b).value.0; w.Encodable() && Write(w).Some? && Parse(Write(w).value) == Some((w, []))
  {
    var w := Parse(b).value.0;
    ParseShrinks(b);
    RoundTrip(w, []);
    assert Write(w).value + [] == Write(w).value;
  }

  /** A frame made to fit the room in a packet is written into that room, and the peer parses that frame. */
  lemma SentIsParsed(streamID: nat, f: Frame, maxBytes: nat, rest: Bytes)
    requires streamID < VARINT_END && f.End() < VARINT_END && (f.data != [] || f.fin)
    requires Length(streamID, f) <= maxBytes <= MAX_PACKET_BUFFER_SIZE
    ensures var w := Wire(streamID, f, true);
      Write(w).Some? && |Write(w).value| <= maxBytes && Parse(Write(w).value + rest) == Some((w, rest))
  {
    WriteLength(Wire(streamID, f, true));
    RoundTrip(Wire(streamID, f, true), rest);
  }
}
