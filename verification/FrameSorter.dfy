/**
 The stream frame sorter: a map of queued frames and a list of gaps, edited in place.
 Every operation is proved to keep the tiling of module Gaps and to carve exactly the bytes
 that arrived out of the missing ones.
 */
module FrameSorting {
  import opened Basics
  import opened Gaps

  const MAX_GAPS: nat := 1000

  datatype PushResult = Stored | Duplicate | TooManyGaps

  // ---------- facts about one insertion, on values

  lemma WithoutStep(q: Queue, readPos: nat, s: nat, pos: nat)
    requires FramesDisjoint(q, readPos) && s <= pos && pos in q
    ensures Without(q, s, pos) - {pos} == Without(q, s, pos + |q[pos]|)
  {
    assert FrameOk(q, readPos, pos);
    forall k | k in q && pos < k ensures pos + |q[pos]| <= k {
      assert Apart(q, pos, k);
    }
  }

  lemma WithoutNone(q: Queue, s: nat, e: nat, e': nat)
    requires s <= e <= e' && forall k :: k in q ==> !(e <= k < e')
    ensures Without(q, s, e) == Without(q, s, e')
  {
  }

  /** No frame starts inside a gap. */
  lemma NoKeyInGap(q: Queue, gs: seq<Gap>, readPos: nat, i: nat)
    requires FramesOffGaps(q, gs) && FramesDisjoint(q, readPos) && i < |gs|
    ensures forall k :: k in q ==> !(gs[i].start <= k < gs[i].end)
  {
    forall k | k in q ensures !(gs[i].start <= k < gs[i].end) {
      assert OffGap(q, k, gs[i]) && FrameOk(q, readPos, k);
    }
  }

  /** What replacing queued frames from `start` on may find and leave. */
  ghost predicate Replacing(q: Queue, gs: seq<Gap>, start: nat, end: nat, pos: nat, cut: bool) {
    && start <= pos <= end
    && (start in q ==> start < pos)
    && (start < pos ==> start in q && Boundary(q, gs, pos) && NoneMissing(gs, start, pos))
    && (cut ==> start < pos && pos in q && end < pos + |q[pos]|)
    && (!cut ==> pos !in q)
  }

  /** Where nothing is missing up to the start of a gap, that gap is the next one. */
  lemma NextGap(gs: seq<Gap>, i: nat, from: nat, x: nat)
    requires Sorted(gs) && i < |gs| && (i > 0 ==> gs[i - 1].end <= from) && from < gs[i].start && from < x
    requires StartsGap(gs, x) && NoneMissing(gs, from, x)
    ensures x == gs[i].start
  {
    var g :| g in gs && g.start == x;
    var j :| 0 <= j < |gs| && gs[j] == g;
    assert gs[i] in gs && Outside(gs[i], from, x);
    assert NonEmpty(gs, j) && NonEmpty(gs, i - 1) && NonEmpty(gs, i);
    assert Before(gs, j, i - 1) && Before(gs, i, j);
  }

  /** The frames from `s` up to `pos` are gone, and they left no gap on the way from `from`. */
  ghost predicate Swept(q: Queue, gs: seq<Gap>, r: Queue, s: nat, from: nat, pos: nat) {
    && s <= from <= pos
    && r == Without(q, s, pos)
    && (from < pos ==> Boundary(q, gs, pos) && NoneMissing(gs, from, pos))
  }

  /** One more frame removed. */
  lemma SweepFrame(q: Queue, gs: seq<Gap>, readPos: nat, r: Queue, s: nat, from: nat, pos: nat)
    requires Tiled(q, gs, readPos) && Swept(q, gs, r, s, from, pos) && pos in r
    ensures pos in q && r[pos] == q[pos] && |q[pos]| > 0
    ensures Swept(q, gs, r - {pos}, s, from, pos + |q[pos]|)
  {
    WithoutStep(q, readPos, s, pos);
    assert Chained(q, gs, pos) && FrameOk(q, readPos, pos);
    SortedNonEmpty(gs);
    forall g | g in gs ensures Outside(g, from, pos + |q[pos]|) {
      assert OffGap(q, pos, g) && Outside(g, from, pos);
    }
  }

  lemma Replaced<T>(a: seq<T>, x: T, b: seq<T>, y: T)
    ensures (a + [x] + b)[..|a|] + [y] + (a + [x] + b)[|a| + 1..] == a + [y] + b
  {
  }

  lemma RemoveHead<T>(a: seq<T>, b: seq<T>)
    requires b != []
    ensures (a + b)[..|a|] == a && (a + b)[|a| + 1..] == b[1..]
  {
  }

  lemma Assembled<T>(a: seq<T>, p: seq<T>, r: seq<T>, b: seq<T>)
    ensures (a + p) + r + b == a + (p + r) + b
  {
  }

  lemma Removed<T>(a: seq<T>, x: T, b: seq<T>)
    ensures (a + [x] + b)[..|a|] + (a + [x] + b)[|a| + 1..] == a + [] + b
  {
  }

  lemma Inserted<T>(a: seq<T>, x: T, b: seq<T>, y: T)
    ensures (a + [x] + b)[..|a| + 1] + [y] + (a + [x] + b)[|a| + 1..] == a + [x, y] + b
  {
  }

  /** The part of a frame that an insertion settles on, relative to the gaps it starts and ends in. */
  ghost predicate Placed(q: Queue, gs: seq<Gap>, sg: nat, eg: nat, s: nat, e: nat, endsInGap: bool) {
    && sg <= eg < |gs| && s < e < MAX_BYTE_COUNT
    && (sg > 0 ==> gs[sg - 1].end <= s)
    && s <= gs[sg].end
    && (if endsInGap then gs[eg].start <= e < gs[eg].end
        else gs[eg].end <= e && eg + 1 < |gs| && e < gs[eg + 1].start)
    && (s == gs[sg].end || s < gs[sg].start ==> s in q)
    && (s == gs[sg].end && sg == eg ==> e in q)
  }

  /** How far replacing frames has cleared the way. */
  ghost function Cleared(gs: seq<Gap>, sg: nat, eg: nat, s: nat, e: nat): nat
    requires sg <= eg < |gs|
  {
    if s < gs[sg].start then gs[sg].start
    else if s < gs[sg].end then s
    else if sg == eg then e
    else gs[sg + 1].start
  }

  /** Where the end of the frame is cut to the end of its last gap. */
  function Trimmed(gs: seq<Gap>, eg: nat, s: nat, e: nat): nat
    requires eg < |gs|
  {
    if s < gs[eg].end < e then gs[eg].end else e
  }

  /** A gap cut back from its start, or to it unless that was done already. */
  ghost function CutTo(gap: Gap, start: nat, end: nat, replaced: bool): seq<Gap> {
    if start <= gap.start then if end >= gap.end then [] else [Gap(end, gap.end)]
    else if replaced then [gap] else [Gap(gap.start, start)]
  }

  lemma PlacedAligned(q: Queue, gs: seq<Gap>, readPos: nat, sg: nat, eg: nat, s: nat, e: nat, endsInGap: bool)
    requires Tiled(q, gs, readPos) && Placed(q, gs, sg, eg, s, e, endsInGap)
    ensures Aligned(q, gs, s) && Aligned(q, gs, Trimmed(gs, eg, s, e))
    ensures s < Trimmed(gs, eg, s, e) <= e
    ensures Trimmed(gs, eg, s, e) < e ==> NoneMissing(gs, Trimmed(gs, eg, s, e), e)
  {
    var t := Trimmed(gs, eg, s, e);
    if gs[sg].start <= s < gs[sg].end {
      assert gs[sg] in gs;
    }
    if endsInGap {
      assert gs[eg] in gs;
    } else {
      AfterGap(q, gs, readPos, eg);
      assert Before(gs, sg, eg) && NonEmpty(gs, eg);
      forall g | g in gs ensures t < e ==> Outside(g, t, e) {
        var j :| 0 <= j < |gs| && gs[j] == g;
        assert Before(gs, j, eg) && Before(gs, eg + 1, j) && NonEmpty(gs, eg) && NonEmpty(gs, eg + 1);
      }
    }
  }

  /** Clearing up to a gap clears through it, and the next frame starts behind it. */
  lemma ThroughGap(q: Queue, gs: seq<Gap>, readPos: nat, i: nat, s: nat)
    requires Tiled(q, gs, readPos) && i + 1 < |gs|
    ensures gs[i].end in q
    ensures forall f: nat :: s <= f && gs[i].start <= f <= gs[i].end ==> Without(q, s, f) == Without(q, s, gs[i].end)
  {
    AfterGap(q, gs, readPos, i);
    NoKeyInGap(q, gs, readPos, i);
    assert NonEmpty(gs, i);
    forall f: nat | s <= f && gs[i].start <= f <= gs[i].end
      ensures Without(q, s, f) == Without(q, s, gs[i].end)
    {
      WithoutNone(q, s, f, gs[i].end);
    }
  }

  /** The order of the offsets when several gaps are touched; no frame starts inside the last. */
  lemma LastGap(q: Queue, gs: seq<Gap>, readPos: nat, sg: nat, eg: nat, s: nat, e: nat, endsInGap: bool)
    requires Tiled(q, gs, readPos) && Placed(q, gs, sg, eg, s, e, endsInGap) && sg < eg
    ensures
      var t := Trimmed(gs, eg, s, e);
      && gs[sg].start < gs[sg].end < gs[sg + 1].start <= gs[eg].start <= t <= gs[eg].end
      && Without(q, s, gs[eg].start) == Without(q, s, t)
  {
    var t := Trimmed(gs, eg, s, e);
    assert Before(gs, sg, eg) && Before(gs, sg, sg + 1) && Before(gs, sg + 1, eg);
    assert NonEmpty(gs, sg) && NonEmpty(gs, sg + 1) && NonEmpty(gs, eg);
    NoKeyInGap(q, gs, readPos, eg);
    WithoutNone(q, s, gs[eg].start, t);
  }

  /** The parts left of several gaps are what carving leaves. */
  lemma CarveParts(gs: seq<Gap>, sg: nat, eg: nat, s: nat, e: nat, t: nat, left: seq<Gap>, right: seq<Gap>)
    requires Sorted(gs) && sg < eg < |gs| && (sg > 0 ==> gs[sg - 1].end <= s) && s <= gs[sg].end < t <= e
    requires gs[eg].start <= t <= gs[eg].end && gs[sg].end < gs[eg].start
    requires left == gs[..sg] + Pieces(gs[sg], s, e)
    requires right == if t == gs[eg].end then [] else [Gap(t, gs[eg].end)]
    ensures Carve(gs, s, t) == left + right + gs[eg + 1..]
  {
    assert Before(gs, eg, eg + 1);
    assert Pieces(gs[sg], s, t) == Pieces(gs[sg], s, e);
    assert Pieces(gs[eg], s, t) == right;
    CarveSplice(gs, sg, eg, s, t);
    Assembled(gs[..sg], Pieces(gs[sg], s, t), right, gs[eg + 1..]);
  }

  // ---------- where a frame is placed

  /** What the two searches found, when the frame is not a duplicate. */
  ghost predicate Found(gs: seq<Gap>, sg: nat, eg: int, start: nat, end: nat, startsInGap: bool, endsInGap: bool) {
    && start < end < MAX_BYTE_COUNT
    && sg < |gs| && (sg > 0 ==> gs[sg - 1].end < start)
    && (if startsInGap then gs[sg].start <= start <= gs[sg].end else start < gs[sg].start)
    && sg - 1 <= eg < |gs|
    && (endsInGap ==> sg <= eg && gs[eg].start <= end < gs[eg].end)
    && (!endsInGap ==> eg + 1 < |gs| && end < gs[eg + 1].start && (eg >= sg ==> gs[eg].end <= end))
    && gs[sg].start < end
  }

  lemma NotDuplicate(gs: seq<Gap>, sg: nat, eg: int, start: nat, end: nat)
    requires GapsOk(gs) && sg < |gs| && sg - 1 <= eg < |gs| && gs[0].start < end
    requires eg < sg ==> end < gs[sg].start
    requires eg > sg ==> gs[eg].start <= end || gs[eg].end <= end
    requires !(sg == eg && end <= gs[sg].start)
    requires !(sg != eg && eg >= 0 && gs[sg].end >= gs[eg].start && end <= gs[sg].start)
    ensures gs[sg].start < end
  {
    assert Before(gs, eg, sg) && Before(gs, sg, eg) && NonEmpty(gs, sg) && NonEmpty(gs, eg);
  }

  function PlacedStart(gs: seq<Gap>, sg: nat, start: nat, startsInGap: bool, pos: nat): nat
    requires sg < |gs|
  {
    if !startsInGap && start == pos then gs[sg].start else start
  }

  /** The outcome of placing a frame: where it starts and ends, and what has been removed so far. */
  ghost predicate Settled(q: Queue, gs: seq<Gap>, sg: nat, eg: int, start: nat, end: nat,
                          startsInGap: bool, endsInGap: bool, pos: nat, cut: bool)
    requires sg < |gs|
  {
    var s := PlacedStart(gs, sg, start, startsInGap, pos);
    var e := if cut then pos else end;
    && sg <= eg < |gs| && start <= s
    && Placed(q, gs, sg, eg, s, e, endsInGap)
    && Without(q, start, pos) == Without(q, s, Cleared(gs, sg, eg, s, e))
    && (gs[sg].start < s ==> (start < pos <==> s == gs[sg].end))
    && (start < s ==> NoneMissing(gs, start, s))
    && (e < end ==> NoneMissing(gs, e, end))
  }

  lemma EndGapNotBefore(gs: seq<Gap>, sg: nat, eg: int, start: nat, end: nat, startsInGap: bool, endsInGap: bool)
    requires GapsOk(gs) && Found(gs, sg, eg, start, end, startsInGap, endsInGap)
    ensures sg <= eg && (sg < eg ==> gs[sg].end < gs[sg + 1].start <= gs[eg].start <= end)
    ensures gs[sg].start < gs[sg].end
  {
    assert NonEmpty(gs, sg) && NonEmpty(gs, eg) && NonEmpty(gs, sg + 1);
    assert Before(gs, sg, sg + 1) && Before(gs, sg + 1, eg);
  }

  /** A replaced run of frames that stops inside a frame has no gap on its way. */
  lemma CutHasNoGap(q: Queue, gs: seq<Gap>, readPos: nat, start: nat, end: nat, pos: nat, i: nat)
    requires Tiled(q, gs, readPos) && Replacing(q, gs, start, end, pos, true) && i < |gs|
    ensures gs[i].end <= start || end < gs[i].start
  {
    assert OffGap(q, pos, gs[i]) && NonEmpty(gs, i) && Outside(gs[i], start, pos);
  }

  /** The frame starts inside a gap. */
  lemma SettleInside(q: Queue, gs: seq<Gap>, readPos: nat, sg: nat, eg: int,
                     start: nat, end: nat, endsInGap: bool, pos: nat, cut: bool)
    requires Tiled(q, gs, readPos) && Found(gs, sg, eg, start, end, true, endsInGap) && start < gs[sg].end
    requires Replacing(q, gs, start, end, pos, cut)
    ensures Settled(q, gs, sg, eg, start, end, true, endsInGap, pos, cut)
  {
    EndGapNotBefore(gs, sg, eg, start, end, true, endsInGap);
    NoKeyInGap(q, gs, readPos, sg);
  }

  /** The frame starts right behind a gap, on a queued frame. */
  lemma SettleBehind(q: Queue, gs: seq<Gap>, readPos: nat, sg: nat, eg: int,
                     start: nat, end: nat, endsInGap: bool, pos: nat, cut: bool)
    requires Tiled(q, gs, readPos) && Found(gs, sg, eg, start, end, true, endsInGap) && start == gs[sg].end
    requires Replacing(q, gs, start, end, pos, cut)
    ensures Settled(q, gs, sg, eg, start, end, true, endsInGap, pos, cut)
  {
    EndGapNotBefore(gs, sg, eg, start, end, true, endsInGap);
    assert Before(gs, sg, sg + 1) && NonEmpty(gs, sg + 1);
    assert sg + 1 < |gs|;
    AfterGap(q, gs, readPos, sg);
    if !cut {
      NextGap(gs, sg + 1, start, pos);
    } else {
      CutHasNoGap(q, gs, readPos, start, end, pos, sg + 1);
      forall g | g in gs ensures Outside(g, pos, end) {
        var i :| 0 <= i < |gs| && gs[i] == g;
        CutHasNoGap(q, gs, readPos, start, end, pos, i);
      }
    }
  }

  /** The frame starts before a gap. */
  lemma SettleBefore(q: Queue, gs: seq<Gap>, readPos: nat, sg: nat, eg: int,
                     start: nat, end: nat, endsInGap: bool, pos: nat, cut: bool)
    requires Tiled(q, gs, readPos) && Found(gs, sg, eg, start, end, false, endsInGap)
    requires Replacing(q, gs, start, end, pos, cut)
    ensures Settled(q, gs, sg, eg, start, end, false, endsInGap, pos, cut)
  {
    EndGapNotBefore(gs, sg, eg, start, end, false, endsInGap);
    if cut {
      CutHasNoGap(q, gs, readPos, start, end, pos, sg);
    }
    if start < pos {
      NextGap(gs, sg, start, pos);
    } else {
      forall g | g in gs ensures Outside(g, start, gs[sg].start) {
        var i :| 0 <= i < |gs| && gs[i] == g;
        assert Before(gs, i, sg - 1) && Before(gs, sg, i) && NonEmpty(gs, sg - 1) && NonEmpty(gs, sg);
      }
    }
  }

  lemma Settle(q: Queue, gs: seq<Gap>, readPos: nat, sg: nat, eg: int, start: nat, end: nat,
               startsInGap: bool, endsInGap: bool, pos: nat, cut: bool)
    requires Tiled(q, gs, readPos) && Found(gs, sg, eg, start, end, startsInGap, endsInGap)
    requires Replacing(q, gs, start, end, pos, cut)
    ensures Settled(q, gs, sg, eg, start, end, startsInGap, endsInGap, pos, cut)
  {
    if !startsInGap {
      SettleBefore(q, gs, readPos, sg, eg, start, end, endsInGap, pos, cut);
    } else if start < gs[sg].end {
      SettleInside(q, gs, readPos, sg, eg, start, end, endsInGap, pos, cut);
    } else {
      SettleBehind(q, gs, readPos, sg, eg, start, end, endsInGap, pos, cut);
    }
  }

  /** In the one-gap case nothing is queued between what was cleared and the new end. */
  lemma OneGapCleared(q: Queue, gs: seq<Gap>, readPos: nat, sg: nat, s: nat, e: nat, endsInGap: bool)
    requires Tiled(q, gs, readPos) && Placed(q, gs, sg, sg, s, e, endsInGap)
    ensures Without(q, s, Cleared(gs, sg, sg, s, e)) == Without(q, s, Trimmed(gs, sg, s, e))
    ensures Carve(gs, s, Trimmed(gs, sg, s, e))
         == gs[..sg] + Pieces(gs[sg], s, Trimmed(gs, sg, s, e)) + gs[sg + 1..]
  {
    var t := Trimmed(gs, sg, s, e);
    assert NonEmpty(gs, sg) && Before(gs, sg, sg + 1);
    NoKeyInGap(q, gs, readPos, sg);
    if s < gs[sg].start {
      WithoutNone(q, s, gs[sg].start, t);
    } else if s < gs[sg].end {
      WithoutNone(q, s, s, t);
    }
    CarveSplit(gs, sg, s, t);
  }

  /** Carving the placed part is carving the whole frame. */
  lemma CarvePlaced(gs: seq<Gap>, start: nat, end: nat, s: nat, e: nat, t: nat)
    requires Sorted(gs) && start <= s < t <= e <= end
    requires start < s ==> NoneMissing(gs, start, s)
    requires t < e ==> NoneMissing(gs, t, e)
    requires e < end ==> NoneMissing(gs, e, end)
    ensures Carve(gs, start, end) == Carve(gs, s, t)
  {
    SortedNonEmpty(gs);
    CarveTrim(gs, s, e, s, t);
    CarveTrim(gs, start, end, s, e);
  }

  // ---------- duplicates

  /** The frame queued at this offset is at least as long. */
  ghost predicate Inside(q: Queue, offset: nat, len: nat) {
    offset in q && len <= |q[offset]|
  }

  /** A frame that ends at or before the gap its start leads to brings nothing new. */
  lemma NothingNew(gs: seq<Gap>, sg: nat, start: nat, end: nat)
    requires Sorted(gs) && sg < |gs| && (sg > 0 ==> gs[sg - 1].end < start) && start < end <= gs[sg].start
    ensures Carve(gs, start, end) == gs
    ensures NoneMissing(gs, start, end) && !EndsGap(gs, start)
  {
    forall g | g in gs ensures Outside(g, start, end) && g.end != start {
      var i :| 0 <= i < |gs| && gs[i] == g;
      assert Before(gs, i, sg - 1) && Before(gs, sg, i) && NonEmpty(gs, sg - 1) && NonEmpty(gs, sg) && NonEmpty(gs, i);
    }
    SortedNonEmpty(gs);
    CarveSame(gs, start, end);
  }

  /** A frame that ends later brings something new, or starts where a gap ends. */
  lemma SomethingNew(gs: seq<Gap>, sg: nat, eg: int, start: nat, end: nat, startsInGap: bool, endsInGap: bool)
    requires Sorted(gs) && Found(gs, sg, eg, start, end, startsInGap, endsInGap)
    ensures NoneMissing(gs, start, end) ==> EndsGap(gs, start)
  {
    assert NonEmpty(gs, sg) && gs[sg] in gs;
    if startsInGap && start == gs[sg].end {
      assert EndsGap(gs, start);
    } else {
      assert !Outside(gs[sg], start, end);
    }
  }

  lemma InsideFrame(q: Queue, gs: seq<Gap>, readPos: nat, start: nat, end: nat)
    requires Tiled(q, gs, readPos) && start in q && start < end <= start + |q[start]|
    ensures Carve(gs, start, end) == gs
  {
    forall g | g in gs ensures Outside(g, start, end) {
      assert OffGap(q, start, g);
    }
    SortedNonEmpty(gs);
    CarveSame(gs, start, end);
  }

  /** At the read position there is a frame or a missing byte. */
  lemma ReadPosition(q: Queue, gs: seq<Gap>, readPos: nat)
    requires Tiled(q, gs, readPos)
    ensures readPos in q <==> !Missing(gs, readPos)
  {
    SortedNonEmpty(gs);
    assert FrameOk(q, readPos, readPos);
    forall g | g in gs ensures readPos in q ==> !(g.start <= readPos < g.end) {
      assert OffGap(q, readPos, g);
    }
  }

  /** Every queued frame is an old one or a slice of the new data at its own offset. */
  ghost predicate FromOldOrNew(q: Queue, q': Queue, data: Bytes, offset: nat) {
    forall k {:trigger FrameFrom(q, q', data, offset, k)} :: FrameFrom(q, q', data, offset, k)
  }

  ghost predicate FrameFrom(q: Queue, q': Queue, data: Bytes, offset: nat, k: nat) {
    k in q' ==>
      || (k in q && q'[k] == q[k])
      || (offset <= k && k + |q'[k]| <= offset + |data| && q'[k] == Slice(data, offset, k, k + |q'[k]|))
  }

  /** What is settled, for the placed part itself: storing it is storing the whole frame. */
  lemma SettledPlaced(q: Queue, gs: seq<Gap>, readPos: nat, sg: nat, eg: nat, start: nat, end: nat,
                      startsInGap: bool, endsInGap: bool, pos: nat, cut: bool, s: nat, e: nat)
    requires Tiled(q, gs, readPos) && sg < |gs| && pos <= end
    requires Settled(q, gs, sg, eg, start, end, startsInGap, endsInGap, pos, cut)
    requires s == PlacedStart(gs, sg, start, startsInGap, pos) && e == if cut then pos else end
    ensures start <= s && Placed(q, gs, sg, eg, s, e, endsInGap)
    ensures gs[sg].start < s ==> (start < pos <==> s == gs[sg].end)
    ensures Without(q, start, pos) == Without(q, s, Cleared(gs, sg, eg, s, e))
    ensures Carve(gs, start, end) == Carve(gs, s, Trimmed(gs, eg, s, e))
  {
    PlacedAligned(q, gs, readPos, sg, eg, s, e, endsInGap);
    CarvePlaced(gs, start, end, s, e, Trimmed(gs, eg, s, e));
  }

  /** The bytes from `s` to `e` of data that starts at `offset`. */
  function Slice(data: Bytes, offset: nat, s: nat, e: nat): (d: Bytes)
    requires offset <= s <= e <= offset + |data|
    ensures |d| == e - s
  {
    data[s - offset..e - offset]
  }

  lemma SliceTrim(data: Bytes, offset: nat, s: nat, e: nat, t: nat)
    requires offset <= s <= t <= e <= offset + |data|
    ensures Slice(data, offset, s, e)[..t - s] == Slice(data, offset, s, t)
  {
  }

  lemma StoredFrom(q: Queue, data: Bytes, offset: nat, s: nat, t: nat)
    requires offset <= s < t <= offset + |data|
    ensures FromOldOrNew(q, Without(q, s, t)[s := Slice(data, offset, s, t)], data, offset)
  {
  }

  class FrameSorter {
    var queue: Queue
    var readPos: nat
    var gaps: seq<Gap>

    ghost predicate Valid()
      reads this
    {
      Tiled(queue, gaps, readPos)
    }

    constructor ()
      ensures Valid() && readPos == 0 && queue == map[] && gaps == [Gap(0, MAX_BYTE_COUNT)]
    {
      gaps := [Gap(0, MAX_BYTE_COUNT)];
      queue := map[];
      readPos := 0;
      assert Gap(0, MAX_BYTE_COUNT) in [Gap(0, MAX_BYTE_COUNT)];
    }

    /** The first gap that does not end before `offset`; there is one below the maximal offset. */
    method FindStartGap(offset: nat) returns (i: nat, inGap: bool)
      requires Valid() && offset < MAX_BYTE_COUNT
      ensures i < |gaps| && (i > 0 ==> gaps[i - 1].end < offset)
      ensures inGap ==> gaps[i].start <= offset <= gaps[i].end
      ensures !inGap ==> offset < gaps[i].start
    {
      i := 0;
      while true
        invariant i < |gaps| && (i > 0 ==> gaps[i - 1].end < offset)
        decreases |gaps| - i
      {
        if gaps[i].start <= offset <= gaps[i].end {
          return i, true;
        }
        if offset < gaps[i].start {
          return i, false;
        }
        i := i + 1;
      }
    }

    /** The gap `end` lies in, or else the last gap before it. */
    method FindEndGap(startGap: nat, end: nat) returns (i: int, inGap: bool)
      requires Valid() && startGap < |gaps| && end < MAX_BYTE_COUNT
      ensures startGap - 1 <= i < |gaps|
      ensures inGap ==> startGap <= i && gaps[i].start <= end < gaps[i].end
      ensures !inGap ==> i + 1 < |gaps| && end < gaps[i + 1].start && (i >= startGap ==> gaps[i].end <= end)
    {
      i := startGap;
      while true
        invariant startGap <= i < |gaps| && (i > startGap ==> gaps[i - 1].end <= end)
        decreases |gaps| - i
      {
        if gaps[i].start <= end < gaps[i].end {
          return i, true;
        }
        if end < gaps[i].start {
          return i - 1, false;
        }
        i := i + 1;
      }
    }

    /** Removes consecutive frames from `start` on that the new frame outreaches. */
    method ReplaceFrames(start: nat, end: nat) returns (duplicate: bool, pos: nat, cut: bool)
      requires Valid() && start < end
      modifies this`queue
      ensures duplicate ==> queue == old(queue)
      ensures duplicate <==> Inside(old(queue), start, end - start)
      ensures !duplicate ==> Replacing(old(queue), gaps, start, end, pos, cut)
      ensures !duplicate ==> queue == Without(old(queue), start, pos)
    {
      ghost var q := queue;
      pos := start;
      cut := false;
      duplicate := false;
      var replaced := false;
      while pos in queue
        invariant pos <= end && (replaced <==> start < pos)
        invariant replaced ==> start in q && start + |q[start]| < end
        invariant Swept(q, gaps, queue, start, start, pos)
        decreases end - pos
      {
        SweepFrame(q, gaps, readPos, queue, start, start, pos);
        var len := |queue[pos]|;
        if end - pos > len || (replaced && end - pos == len) {
          queue := queue - {pos};
          pos := pos + len;
          replaced := true;
        } else {
          if !replaced {
            duplicate := true;
            return;
          }
          cut := true;
          return;
        }
      }
    }

    /** Removes the consecutive frames from `from` on. */
    method DeleteConsecutive(from: nat, ghost q: Queue, ghost gs: seq<Gap>, ghost s: nat) returns (ghost x: nat)
      requires Tiled(q, gs, readPos) && s <= from
      requires from in queue ==> from in q && queue == Without(q, s, from)
      modifies this`queue
      ensures from !in old(queue) ==> queue == old(queue)
      ensures from in old(queue) ==>
        from < x && queue == Without(q, s, x) && StartsGap(gs, x) && NoneMissing(gs, from, x)
    {
      var pos := from;
      while pos in queue
        invariant from <= pos && (from < pos ==> from in old(queue))
        invariant pos == from ==> queue == old(queue)
        invariant from in old(queue) ==> Swept(q, gs, queue, s, from, pos)
        decreases queue.Keys
      {
        SweepFrame(q, gs, readPos, queue, s, from, pos);
        var len := |queue[pos]|;
        queue := queue - {pos};
        pos := pos + len;
      }
      x := pos;
    }

    /** Takes the bytes from `start` on out of the one gap the frame touches. */
    method AdjustOneGap(sg: nat, start: nat, end: nat, endsInGap: bool, replaced: bool) returns (newEnd: nat)
      requires sg < |gaps| && start < end && start <= gaps[sg].end && gaps[sg].start < gaps[sg].end
      requires if endsInGap then gaps[sg].start <= end < gaps[sg].end else gaps[sg].end <= end
      requires gaps[sg].start < start ==> (replaced <==> start == gaps[sg].end)
      modifies this`gaps
      ensures newEnd == Trimmed(old(gaps), sg, start, end)
      ensures gaps == old(gaps)[..sg] + Pieces(old(gaps)[sg], start, newEnd) + old(gaps)[sg + 1..]
    {
      var gap := gaps[sg];
      ghost var a, b := gaps[..sg], gaps[sg + 1..];
      var adjustedStartGapEnd := CutGap(sg, start, end, replaced);
      newEnd := end;
      if !endsInGap && start != gap.end && end > gap.end {
        newEnd := gap.end;
      }
      if newEnd != gap.end && adjustedStartGapEnd {
        Inserted(a, Gap(gap.start, start), b, Gap(newEnd, gap.end));
        gaps := gaps[..sg + 1] + [Gap(newEnd, gap.end)] + gaps[sg + 1..];
      }
    }

    /** Cuts a gap back from its start, or to it. */
    method CutGap(sg: nat, start: nat, end: nat, replaced: bool) returns (adjustedStartGapEnd: bool)
      requires sg < |gaps|
      modifies this`gaps
      ensures adjustedStartGapEnd <==> old(gaps)[sg].start < start && !replaced
      ensures gaps == old(gaps)[..sg] + CutTo(old(gaps)[sg], start, end, replaced) + old(gaps)[sg + 1..]
    {
      ghost var a, b := gaps[..sg], gaps[sg + 1..];
      assert gaps == a + [gaps[sg]] + b;
      var gap := gaps[sg];
      adjustedStartGapEnd := false;
      if start <= gap.start {
        if end >= gap.end {
          Removed(a, gap, b);
          gaps := gaps[..sg] + gaps[sg + 1..];
        } else {
          Replaced(a, gap, b, Gap(end, gap.end));
          gaps := gaps[..sg] + [Gap(end, gap.end)] + gaps[sg + 1..];
        }
      } else if !replaced {
        Replaced(a, gap, b, Gap(gap.start, start));
        gaps := gaps[..sg] + [Gap(gap.start, start)] + gaps[sg + 1..];
        adjustedStartGapEnd := true;
      }
    }

    /** Cuts the first of several gaps back to `start`; returns where its successor now is. */
    method AdjustStartGap(sg: nat, start: nat, end: nat, replaced: bool) returns (next: nat)
      requires sg + 1 < |gaps| && gaps[sg].start < gaps[sg].end < end && start <= gaps[sg].end
      requires gaps[sg].start < start ==> (replaced <==> start == gaps[sg].end)
      modifies this`gaps
      ensures next <= |gaps| && gaps[next..] == old(gaps)[sg + 1..]
      ensures gaps[..next] == old(gaps)[..sg] + Pieces(old(gaps)[sg], start, end)
    {
      ghost var gs := gaps;
      var gap := gaps[sg];
      next := sg + 1;
      if start <= gap.start {
        if end >= gap.end {
          gaps := gaps[..sg] + gaps[sg + 1..];
          next := sg;
        } else {
          assert false;
        }
      } else if !replaced {
        gaps := gaps[..sg] + [Gap(gap.start, start)] + gaps[sg + 1..];
      }
    }

    /** Removes the gaps from `next` on that end before `endGapStart`, each with the frames behind it. */
    method RemoveInnerGaps(next: nat, endGapStart: nat, s: nat,
                           ghost q: Queue, ghost gs: seq<Gap>, ghost first: nat, ghost eg: nat)
      requires Tiled(q, gs, readPos) && first <= eg < |gs| && endGapStart == gs[eg].start && s <= gs[first].start
      requires next <= |gaps| && gaps[next..] == gs[first..]
      requires queue == Without(q, s, gs[first].start)
      modifies this`gaps, this`queue
      ensures gaps == old(gaps)[..next] + gs[eg..]
      ensures queue == Without(q, s, gs[eg].start)
    {
      ghost var left, c := gaps[..next], first;
      while gaps[next].end < endGapStart
        invariant first <= c <= eg && gaps == left + gs[c..] && s <= gs[c].start
        invariant queue == Without(q, s, gs[c].start)
        decreases eg - c
      {
        assert gaps[next] == gs[c] && Before(gs, c, c + 1) && Before(gs, eg, c) && NonEmpty(gs, c) && NonEmpty(gs, eg);
        ThroughGap(q, gs, readPos, c, s);
        ghost var x := DeleteConsecutive(gaps[next].end, q, gs, s);
        NextGap(gs, c + 1, gs[c].end, x);
        RemoveHead(left, gs[c..]);
        gaps := gaps[..next] + gaps[next + 1..];
        c := c + 1;
      }
      assert gaps[next] == gs[c] && Before(gs, c, eg);
    }

    /** Cuts the gap at `i` to what lies behind `end`. */
    method AdjustEndGap(i: nat, end: nat)
      requires i < |gaps| && end <= gaps[i].end
      modifies this`gaps
      ensures gaps == old(gaps)[..i] +
        (if end == old(gaps)[i].end then [] else [Gap(end, old(gaps)[i].end)]) + old(gaps)[i + 1..]
    {
      if end == gaps[i].end {
        gaps := gaps[..i] + gaps[i + 1..];
      } else {
        gaps := gaps[..i] + [Gap(end, gaps[i].end)] + gaps[i + 1..];
      }
    }

    /** Cuts the end gap once the gaps before it are gone. */
    method CutLast(i: nat, end: nat, ghost left: seq<Gap>, ghost gs: seq<Gap>, ghost eg: nat)
      requires eg < |gs| && gaps == left + gs[eg..] && |left| == i && end <= gs[eg].end
      modifies this`gaps
      ensures gaps == left + (if end == gs[eg].end then [] else [Gap(end, gs[eg].end)]) + gs[eg + 1..]
    {
      RemoveHead(left, gs[eg..]);
      assert gaps[i] == gs[eg] && gs[eg..][1..] == gs[eg + 1..];
      AdjustEndGap(i, end);
    }

    /** Takes the frame's bytes out of several gaps, with the frames between them. */
    method AdjustGaps(sg: nat, eg: nat, start: nat, end: nat, endsInGap: bool, replaced: bool, ghost q: Queue)
      returns (newEnd: nat)
      requires Tiled(q, gaps, readPos) && Placed(q, gaps, sg, eg, start, end, endsInGap) && sg < eg
      requires gaps[sg].start < start ==> (replaced <==> start == gaps[sg].end)
      requires queue == Without(q, start, Cleared(gaps, sg, eg, start, end))
      modifies this`gaps, this`queue
      ensures newEnd == Trimmed(old(gaps), eg, start, end)
      ensures gaps == Carve(old(gaps), start, newEnd)
      ensures queue == Without(q, start, newEnd)
    {
      ghost var gs := gaps;
      var startGapEnd, endGapStart, endGapEnd := gaps[sg].end, gaps[eg].start, gaps[eg].end;
      LastGap(q, gs, readPos, sg, eg, start, end, endsInGap);
      DeleteBehindStart(startGapEnd, q, sg, eg, start, end);
      var next := AdjustStartGap(sg, start, end, replaced);
      ghost var left := gaps[..next];
      RemoveInnerGaps(next, endGapStart, start, q, gs, sg + 1, eg);
      newEnd := end;
      if !endsInGap && start != endGapEnd && end > endGapEnd {
        newEnd := endGapEnd;
      }
      ghost var right := if newEnd == endGapEnd then [] else [Gap(newEnd, endGapEnd)];
      CutLast(next, newEnd, left, gs, eg);
      CarveParts(gs, sg, eg, start, end, newEnd, left, right);
    }

    /** Removes the frames between the start gap and the next one, unless they were replaced already. */
    method DeleteBehindStart(startGapEnd: nat, ghost q: Queue, ghost sg: nat, ghost eg: nat, ghost s: nat, ghost e: nat)
      requires Tiled(q, gaps, readPos) && sg < eg < |gaps| && s <= gaps[sg].end == startGapEnd
      requires queue == Without(q, s, Cleared(gaps, sg, eg, s, e))
      modifies this`queue
      ensures queue == Without(q, s, gaps[sg + 1].start)
    {
      ThroughGap(q, gaps, readPos, sg, s);
      assert Before(gaps, sg, sg + 1) && NonEmpty(gaps, sg);
      ghost var x := DeleteConsecutive(startGapEnd, q, gaps, s);
      if s < startGapEnd {
        NextGap(gaps, sg + 1, startGapEnd, x);
      }
    }

    method AdjustAll(sg: nat, eg: nat, start: nat, end: nat, endsInGap: bool, replaced: bool, ghost q: Queue)
      returns (newEnd: nat)
      requires Tiled(q, gaps, readPos) && Placed(q, gaps, sg, eg, start, end, endsInGap)
      requires gaps[sg].start < start ==> (replaced <==> start == gaps[sg].end)
      requires queue == Without(q, start, Cleared(gaps, sg, eg, start, end))
      modifies this`gaps, this`queue
      ensures newEnd == Trimmed(old(gaps), eg, start, end)
      ensures gaps == Carve(old(gaps), start, newEnd)
      ensures queue == Without(q, start, newEnd)
    {
      if sg == eg {
        OneGapCleared(q, gaps, readPos, sg, start, end, endsInGap);
        assert NonEmpty(gaps, sg);
        newEnd := AdjustOneGap(sg, start, end, endsInGap, replaced);
      } else {
        newEnd := AdjustGaps(sg, eg, start, end, endsInGap, replaced, q);
      }
    }

    /**
     Inserts a frame.  Unless it reports too many gaps, exactly its bytes are carved out of the
     gaps, the tiling is kept, and queued bytes come from the old frames or from this one.  It is a duplicate if and
     only if it is empty, or lies inside the frame at its offset, or brings nothing new and starts behind no gap.
     */
    method Insert(payload: Bytes, offset: nat) returns (r: PushResult)
      requires Valid() && offset + |payload| < MAX_BYTE_COUNT
      modifies this`queue, this`gaps
      ensures r.Duplicate? ==> queue == old(queue) && gaps == old(gaps)
      ensures r.Duplicate? <==>
        || payload == [] || Inside(old(queue), offset, |payload|)
        || (NoneMissing(old(gaps), offset, offset + |payload|) && !EndsGap(old(gaps), offset))
      ensures gaps == if payload == [] then old(gaps) else Carve(old(gaps), offset, offset + |payload|)
      ensures !r.Duplicate? ==> (r.TooManyGaps? <==> |gaps| > MAX_GAPS)
      ensures r.Stored? ==> Valid() && payload != [] && FromOldOrNew(old(queue), queue, payload, offset)
    {
      if |payload| == 0 {
        return Duplicate;
      }
      var start, end := offset, offset + |payload|;
      var duplicate, sg, eg, startsInGap, endsInGap := Locate(start, end);
      if duplicate {
        return Duplicate;
      }
      r := Fit(payload, offset, sg, eg, startsInGap, endsInGap);
    }

    /** Takes in a frame whose place among the gaps is known; it may still lie inside a queued one. */
    method Fit(payload: Bytes, offset: nat, sg: nat, eg: nat, startsInGap: bool, endsInGap: bool) returns (r: PushResult)
      requires Valid() && 0 < |payload| && offset + |payload| < MAX_BYTE_COUNT
      requires Found(gaps, sg, eg, offset, offset + |payload|, startsInGap, endsInGap)
      modifies this`queue, this`gaps
      ensures r.Duplicate? ==> queue == old(queue) && gaps == old(gaps)
      ensures r.Duplicate? <==> Inside(old(queue), offset, |payload|)
      ensures gaps == Carve(old(gaps), offset, offset + |payload|)
      ensures !r.Duplicate? ==> (r.TooManyGaps? <==> |gaps| > MAX_GAPS)
      ensures r.Stored? ==> Valid() && FromOldOrNew(old(queue), queue, payload, offset)
    {
      ghost var q := queue;
      var start, end := offset, offset + |payload|;
      var duplicate, pos, cut;
      duplicate, pos, cut := ReplaceFrames(start, end);
      if duplicate {
        InsideFrame(q, gaps, readPos, start, end);
        return Duplicate;
      }
      r := FitRest(payload, offset, sg, eg, startsInGap, endsInGap, pos, cut, q);
    }

    /** Takes in a frame once the smaller frames it replaces are removed. */
    method FitRest(payload: Bytes, offset: nat, sg: nat, eg: nat, startsInGap: bool, endsInGap: bool,
                   pos: nat, cut: bool, ghost q: Queue)
      returns (r: PushResult)
      requires Tiled(q, gaps, readPos) && 0 < |payload|
      requires Found(gaps, sg, eg, offset, offset + |payload|, startsInGap, endsInGap)
      requires Replacing(q, gaps, offset, offset + |payload|, pos, cut) && queue == Without(q, offset, pos)
      modifies this`gaps, this`queue
      ensures !r.Duplicate?
      ensures gaps == Carve(old(gaps), offset, offset + |payload|)
      ensures r.TooManyGaps? <==> |gaps| > MAX_GAPS
      ensures r.Stored? ==> Valid() && FromOldOrNew(q, queue, payload, offset)
    {
      Settle(q, gaps, readPos, sg, eg, offset, offset + |payload|, startsInGap, endsInGap, pos, cut);
      r := Place(payload, offset, sg, eg, startsInGap, endsInGap, pos, cut, q);
    }

    /** Finds the gaps the frame starts and ends in, unless it brings nothing new. */
    method Locate(start: nat, end: nat) returns (duplicate: bool, sg: nat, eg: int, startsInGap: bool, endsInGap: bool)
      requires Valid() && start < end < MAX_BYTE_COUNT
      ensures duplicate ==> Carve(gaps, start, end) == gaps
      ensures duplicate <==> NoneMissing(gaps, start, end) && !EndsGap(gaps, start)
      ensures !duplicate ==> Found(gaps, sg, eg, start, end, startsInGap, endsInGap)
    {
      sg, eg, startsInGap, endsInGap := 0, 0, false, false;
      if end <= gaps[0].start {
        NothingNew(gaps, 0, start, end);
        return true, sg, eg, startsInGap, endsInGap;
      }
      sg, startsInGap := FindStartGap(start);
      eg, endsInGap := FindEndGap(sg, end);
      if (sg == eg && end <= gaps[sg].start) ||
         (sg != eg && gaps[sg].end >= gaps[eg].start && end <= gaps[sg].start) {
        NothingNew(gaps, sg, start, end);
        return true, sg, eg, startsInGap, endsInGap;
      }
      NotDuplicate(gaps, sg, eg, start, end);
      SomethingNew(gaps, sg, eg, start, end, startsInGap, endsInGap);
      duplicate := false;
    }

    /** Cuts the frame to what it is placed at, and stores that. */
    method Place(payload: Bytes, offset: nat, sg: nat, eg: nat, startsInGap: bool, endsInGap: bool,
                 pos: nat, cut: bool, ghost q: Queue)
      returns (r: PushResult)
      requires Tiled(q, gaps, readPos) && sg < |gaps| && offset <= pos <= offset + |payload|
      requires Settled(q, gaps, sg, eg, offset, offset + |payload|, startsInGap, endsInGap, pos, cut)
      requires queue == Without(q, offset, pos)
      modifies this`gaps, this`queue
      ensures !r.Duplicate?
      ensures gaps == Carve(old(gaps), offset, offset + |payload|)
      ensures r.TooManyGaps? <==> |gaps| > MAX_GAPS
      ensures r.Stored? ==> Valid() && FromOldOrNew(q, queue, payload, offset)
    {
      var data, start, end := CutPayload(payload, offset, sg, startsInGap, pos, cut);
      SettledPlaced(q, gaps, readPos, sg, eg, offset, offset + |payload|, startsInGap, endsInGap, pos, cut, start, end);
      r := Store(data, start, end, sg, eg, endsInGap, offset < pos, q, payload, offset);
    }

    /** The part of the payload that is placed, and where. */
    method CutPayload(payload: Bytes, offset: nat, sg: nat, startsInGap: bool, pos: nat, cut: bool)
      returns (data: Bytes, start: nat, end: nat)
      requires sg < |gaps| && offset <= pos <= offset + |payload|
      requires offset <= PlacedStart(gaps, sg, offset, startsInGap, pos) <= if cut then pos else offset + |payload|
      ensures start == PlacedStart(gaps, sg, offset, startsInGap, pos) && end == if cut then pos else offset + |payload|
      ensures data == Slice(payload, offset, start, end)
    {
      data, start, end := payload, offset, offset + |payload|;
      var replaced := start < pos;
      if cut {
        data := data[..pos - start];
        end := pos;
      }
      if !startsInGap && !replaced {
        data := data[gaps[sg].start - start..];
        start := gaps[sg].start;
      }
    }

    /** Takes the placed frame out of the gaps and queues what is left of it. */
    method Store(placed: Bytes, start: nat, end: nat, sg: nat, eg: nat, endsInGap: bool, replaced: bool,
                 ghost q: Queue, ghost payload: Bytes, ghost offset: nat)
      returns (r: PushResult)
      requires Tiled(q, gaps, readPos) && Placed(q, gaps, sg, eg, start, end, endsInGap)
      requires gaps[sg].start < start ==> (replaced <==> start == gaps[sg].end)
      requires queue == Without(q, start, Cleared(gaps, sg, eg, start, end))
      requires offset <= start < end <= offset + |payload| && placed == Slice(payload, offset, start, end)
      modifies this`gaps, this`queue
      ensures !r.Duplicate?
      ensures gaps == Carve(old(gaps), start, Trimmed(old(gaps), eg, start, end))
      ensures r.TooManyGaps? <==> |gaps| > MAX_GAPS
      ensures r.Stored? ==> Valid() && FromOldOrNew(q, queue, payload, offset)
    {
      PlacedAligned(q, gaps, readPos, sg, eg, start, end, endsInGap);
      ghost var t := Trimmed(gaps, eg, start, end);
      StoreKeepsTiled(q, gaps, readPos, start, t, Slice(payload, offset, start, t));
      StoredFrom(q, payload, offset, start, t);
      SliceTrim(payload, offset, start, end, t);
      var newEnd := AdjustAll(sg, eg, start, end, endsInGap, replaced, q);
      var data := placed;
      if newEnd < end {
        data := data[..newEnd - start];
      }
      assert data == Slice(payload, offset, start, t);
      if |gaps| > MAX_GAPS {
        return TooManyGaps;
      }
      queue := queue[start := data];
      r := Stored;
    }

    /** Queues a frame; a duplicate is accepted silently. */
    method Push(data: Bytes, offset: nat) returns (ok: bool)
      requires Valid() && offset + |data| < MAX_BYTE_COUNT
      modifies this`queue, this`gaps
      ensures ok ==> Valid() && FromOldOrNew(old(queue), queue, data, offset)
      ensures gaps == if data == [] then old(gaps) else Carve(old(gaps), offset, offset + |data|)
      ensures !ok ==> |gaps| > MAX_GAPS
      ensures ok ==> |gaps| <= MAX_GAPS || (gaps == old(gaps) && queue == old(queue))
    {
      var r := Insert(data, offset);
      forall k ensures FrameFrom(old(queue), old(queue), data, offset, k) {
      }
      ok := !r.TooManyGaps?;
    }

    /** Hands out the frame at the read position, if it has arrived. */
    method Pop() returns (offset: nat, data: Bytes)
      requires Valid()
      modifies this`queue, this`readPos
      ensures Valid() && offset == old(readPos) && readPos == offset + |data|
      ensures data == [] <==> offset !in old(queue)
      ensures data != [] ==> data == old(queue)[offset] && queue == old(queue) - {offset}
      ensures data == [] ==> queue == old(queue)
      ensures data == [] <==> Missing(gaps, offset)
    {
      offset := readPos;
      assert FrameOk(queue, readPos, readPos);
      ReadPosition(queue, gaps, readPos);
      if readPos !in queue {
        return offset, [];
      }
      PopKeepsTiled(queue, gaps, readPos);
      data := queue[readPos];
      queue := queue - {readPos};
      readPos := readPos + |data|;
      if gaps[0].end <= readPos {
        assert false;
      }
    }

    method HasMoreData() returns (more: bool)
      requires Valid()
      ensures more <==> exists k :: k in queue
    {
      more := |queue| > 0;
    }
  }
}
