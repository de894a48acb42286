/**
 The simple view of a reassembly buffer: which bytes are still missing (a sorted list of gaps)
 and a tiling of everything else by queued frames.
 */
module Gaps {
  import opened Basics

  const MAX_BYTE_COUNT: nat := 0x3fff_ffff_ffff_ffff

  /** The half-open interval of missing bytes from `start` to `end`. */
  datatype Gap = Gap(start: nat, end: nat)

  type Queue = map<nat, Bytes>

  // ---------- gap lists

  /** Sorted, non-empty, non-adjacent, and reaching to the end of the offset space. */
  ghost predicate GapsOk(gs: seq<Gap>) {
    && |gs| > 0 && gs[|gs| - 1].end == MAX_BYTE_COUNT
    && Sorted(gs)
  }

  ghost predicate Sorted(gs: seq<Gap>) {
    && (forall i {:trigger NonEmpty(gs, i)} :: NonEmpty(gs, i))
    && (forall i, j {:trigger Before(gs, i, j)} :: Before(gs, i, j))
  }

  ghost predicate NonEmpty(gs: seq<Gap>, i: int) {
    0 <= i < |gs| ==> gs[i].start < gs[i].end
  }

  ghost predicate Before(gs: seq<Gap>, i: int, j: int) {
    0 <= i < j < |gs| ==> gs[i].end < gs[j].start
  }

  lemma SortedNonEmpty(gs: seq<Gap>)
    requires Sorted(gs)
    ensures forall g :: g in gs ==> g.start < g.end
  {
    forall g | g in gs ensures g.start < g.end {
      var i :| 0 <= i < |gs| && gs[i] == g;
      assert NonEmpty(gs, i);
    }
  }

  ghost predicate Missing(gs: seq<Gap>, p: nat) {
    exists g :: g in gs && g.start <= p < g.end
  }

  ghost predicate StartsGap(gs: seq<Gap>, p: nat) {
    exists g :: g in gs && g.start == p
  }

  ghost predicate EndsGap(gs: seq<Gap>, p: nat) {
    exists g :: g in gs && g.end == p
  }

  /** No byte of the range is missing. */
  ghost predicate NoneMissing(gs: seq<Gap>, s: nat, e: nat) {
    forall g {:trigger Outside(g, s, e)} :: g in gs ==> Outside(g, s, e)
  }

  ghost predicate Outside(g: Gap, s: nat, e: nat) {
    g.end <= s || e <= g.start
  }

  /** What is left of a gap after the bytes `s` to `e` arrived. */
  function Pieces(g: Gap, s: nat, e: nat): (ps: seq<Gap>) {
    (if g.start < s then [Gap(g.start, Min(g.end, s))] else []) +
    (if e < g.end then [Gap(Max(g.start, e), g.end)] else [])
  }

  /** What is left of a gap list after the bytes `s` to `e` arrived. */
  function Carve(gs: seq<Gap>, s: nat, e: nat): (cs: seq<Gap>) {
    if gs == [] then []
    else Carve(gs[..|gs| - 1], s, e) + Pieces(gs[|gs| - 1], s, e)
  }

  lemma ConcatAssoc<T>(a: seq<T>, b: seq<T>, c: seq<T>)
    ensures (a + b) + c == a + (b + c)
  {
  }

  lemma {:induction false} CarveConcat(a: seq<Gap>, b: seq<Gap>, s: nat, e: nat)
    ensures Carve(a + b, s, e) == Carve(a, s, e) + Carve(b, s, e)
  {
    if b == [] {
      assert a + b == a;
    } else {
      var n := |b| - 1;
      CarveConcat(a, b[..n], s, e);
      assert (a + b)[..|a + b| - 1] == a + b[..n];
      ConcatAssoc(Carve(a, s, e), Carve(b[..n], s, e), Pieces(b[n], s, e));
    }
  }

  lemma PiecesSame(g: Gap, s: nat, e: nat)
    requires s < e && g.start < g.end && (g.end <= s || e <= g.start)
    ensures Pieces(g, s, e) == [g]
  {
  }

  lemma Snoc<T>(s: seq<T>)
    requires s != []
    ensures s == s[..|s| - 1] + [s[|s| - 1]]
  {
  }

  lemma InitOutside(gs: seq<Gap>, s: nat, e: nat)
    requires gs != [] && NoneMissing(gs, s, e) && (forall g :: g in gs ==> g.start < g.end)
    ensures var (init, last) := (gs[..|gs| - 1], gs[|gs| - 1]);
      && NoneMissing(init, s, e) && (forall g :: g in init ==> g.start < g.end)
      && Outside(last, s, e) && last.start < last.end
  {
    assert gs[|gs| - 1] in gs;
  }

  lemma {:induction false} CarveSame(gs: seq<Gap>, s: nat, e: nat)
    requires s < e && NoneMissing(gs, s, e) && (forall g :: g in gs ==> g.start < g.end)
    ensures Carve(gs, s, e) == gs
  {
    if gs == [] {
    } else {
      var init, last := gs[..|gs| - 1], gs[|gs| - 1];
      InitOutside(gs, s, e);
      CarveSame(init, s, e);
      PiecesSame(last, s, e);
      Snoc(gs);
    }
  }

  lemma {:induction false} CarveInside(gs: seq<Gap>, s: nat, e: nat)
    requires forall g :: g in gs ==> s <= g.start && g.end <= e
    ensures Carve(gs, s, e) == []
  {
    if gs == [] {
    } else {
      var n := |gs| - 1;
      assert gs[n] in gs;
      CarveInside(gs[..n], s, e);
    }
  }

  /** Trimming bytes that were not missing changes nothing. */
  lemma {:induction false} CarveTrim(gs: seq<Gap>, s: nat, e: nat, s': nat, e': nat)
    requires s <= s' < e' <= e && (forall g :: g in gs ==> g.start < g.end)
    requires s < s' ==> NoneMissing(gs, s, s')
    requires e' < e ==> NoneMissing(gs, e', e)
    ensures Carve(gs, s, e) == Carve(gs, s', e')
  {
    if gs == [] {
    } else {
      var n := |gs| - 1;
      assert gs[n] in gs;
      assert s < s' ==> Outside(gs[n], s, s');
      assert e' < e ==> Outside(gs[n], e', e);
      CarveTrim(gs[..n], s, e, s', e');
      assert Pieces(gs[n], s, e) == Pieces(gs[n], s', e');
    }
  }

  lemma CarveOne(g: Gap, s: nat, e: nat)
    ensures Carve([g], s, e) == Pieces(g, s, e)
  {
    assert [g][..0] == [];
  }

  /** Gaps wholly outside the range stay as they are. */
  lemma CarveOutside(gs: seq<Gap>, s: nat, e: nat)
    requires s < e && forall t :: 0 <= t < |gs| ==> gs[t].start < gs[t].end && (gs[t].end <= s || e <= gs[t].start)
    ensures Carve(gs, s, e) == gs
  {
    CarveSame(gs, s, e);
  }

  lemma CarveCovered(gs: seq<Gap>, s: nat, e: nat)
    requires forall t :: 0 <= t < |gs| ==> s <= gs[t].start && gs[t].end <= e
    ensures Carve(gs, s, e) == []
  {
    CarveInside(gs, s, e);
  }

  lemma CarveAround(a: seq<Gap>, m: seq<Gap>, b: seq<Gap>, s: nat, e: nat)
    requires Carve(a, s, e) == a && Carve(b, s, e) == b
    ensures Carve(a + m + b, s, e) == a + Carve(m, s, e) + b
  {
    CarveConcat(a, m, s, e);
    CarveConcat(a + m, b, s, e);
  }

  lemma CarveThree(gs: seq<Gap>, a: seq<Gap>, m: seq<Gap>, b: seq<Gap>, ps: seq<Gap>, s: nat, e: nat)
    requires gs == a + m + b && Carve(a, s, e) == a && Carve(m, s, e) == ps && Carve(b, s, e) == b
    ensures Carve(gs, s, e) == a + ps + b
  {
    CarveAround(a, m, b, s, e);
  }

  lemma CarvePrefix(gs: seq<Gap>, i: nat, s: nat, e: nat)
    requires Sorted(gs) && i <= |gs| && s < e && (i > 0 ==> gs[i - 1].end <= s)
    ensures Carve(gs[..i], s, e) == gs[..i]
  {
    forall t | 0 <= t < i ensures gs[t].start < gs[t].end && gs[t].end <= s {
      assert NonEmpty(gs, t) && Before(gs, t, i - 1) && NonEmpty(gs, i - 1);
    }
    CarveOutside(gs[..i], s, e);
  }

  lemma CarveSuffix(gs: seq<Gap>, i: nat, s: nat, e: nat)
    requires Sorted(gs) && i <= |gs| && s < e && (i < |gs| ==> e <= gs[i].start)
    ensures Carve(gs[i..], s, e) == gs[i..]
  {
    forall t | i <= t < |gs| ensures gs[t].start < gs[t].end && e <= gs[t].start {
      assert NonEmpty(gs, t) && Before(gs, i, t) && NonEmpty(gs, i);
    }
    CarveOutside(gs[i..], s, e);
  }

  lemma CarveAroundOne(a: seq<Gap>, g: Gap, b: seq<Gap>, s: nat, e: nat)
    requires Carve(a, s, e) == a && Carve(b, s, e) == b
    ensures Carve(a + [g] + b, s, e) == a + Pieces(g, s, e) + b
  {
    CarveOne(g, s, e);
    CarveAround(a, [g], b, s, e);
  }

  lemma SplitAround<T>(gs: seq<T>, i: nat, j: nat)
    requires i <= j < |gs|
    ensures gs == gs[..i] + gs[i..j + 1] + gs[j + 1..]
    ensures gs[i..j + 1] == if i < j then [gs[i]] + gs[i + 1..j] + [gs[j]] else [gs[i]]
  {
  }

  lemma InThree<T>(gs: seq<T>, i: nat, j: nat)
    requires i <= j <= |gs|
    ensures gs == gs[..i] + gs[i..j] + gs[j..]
  {
  }

  /** Carving a range that lies around one gap only touches that gap ... */
  lemma CarveSplit(gs: seq<Gap>, i: nat, s: nat, e: nat)
    requires Sorted(gs) && i < |gs| && s < e
    requires i > 0 ==> gs[i - 1].end <= s
    requires i + 1 < |gs| ==> e <= gs[i + 1].start
    ensures Carve(gs, s, e) == gs[..i] + Pieces(gs[i], s, e) + gs[i + 1..]
  {
    CarvePrefix(gs, i, s, e);
    CarveSuffix(gs, i + 1, s, e);
    CarveAroundOne(gs[..i], gs[i], gs[i + 1..], s, e);
    SplitAround(gs, i, i);
  }

  /** ... and one that starts at gap `i` and ends at gap `j` only touches the gaps between. */
  lemma CarveSplice(gs: seq<Gap>, i: nat, j: nat, s: nat, e: nat)
    requires Sorted(gs) && i < j < |gs| && s < e
    requires i > 0 ==> gs[i - 1].end <= s
    requires j + 1 < |gs| ==> e <= gs[j + 1].start
    requires s <= gs[i].end && gs[j].start <= e
    ensures Carve(gs, s, e) == gs[..i] + (Pieces(gs[i], s, e) + Pieces(gs[j], s, e)) + gs[j + 1..]
  {
    CarvePrefix(gs, i, s, e);
    CarveSuffix(gs, j + 1, s, e);
    CarveBetween(gs, i, j, s, e);
    InThree(gs, i, j + 1);
    CarveThree(gs, gs[..i], gs[i..j + 1], gs[j + 1..], Pieces(gs[i], s, e) + Pieces(gs[j], s, e), s, e);
  }

  lemma CarveBetween(gs: seq<Gap>, i: nat, j: nat, s: nat, e: nat)
    requires Sorted(gs) && i < j < |gs| && s <= gs[i].end && gs[j].start <= e
    ensures Carve(gs[i..j + 1], s, e) == Pieces(gs[i], s, e) + Pieces(gs[j], s, e)
  {
    var m := gs[i + 1..j];
    forall t | 0 <= t < |m| ensures s <= m[t].start && m[t].end <= e {
      assert m[t] == gs[i + 1 + t];
      assert Before(gs, i, i + 1 + t) && Before(gs, i + 1 + t, j) && NonEmpty(gs, i);
    }
    SplitAround(gs, i, j);
    CarveRun(gs[i], m, gs[j], s, e);
  }

  lemma CarveRun(g: Gap, m: seq<Gap>, h: Gap, s: nat, e: nat)
    requires forall t :: 0 <= t < |m| ==> s <= m[t].start && m[t].end <= e
    ensures Carve([g] + m + [h], s, e) == Pieces(g, s, e) + Pieces(h, s, e)
  {
    CarveCovered(m, s, e);
    CarvePair([g], m, [h], s, e);
    CarveOne(g, s, e);
    CarveOne(h, s, e);
  }

  lemma CarvePair(a: seq<Gap>, m: seq<Gap>, b: seq<Gap>, s: nat, e: nat)
    requires Carve(m, s, e) == []
    ensures Carve(a + m + b, s, e) == Carve(a, s, e) + Carve(b, s, e)
  {
    CarveConcat(a, m, s, e);
    CarveConcat(a + m, b, s, e);
    assert Carve(a, s, e) + [] == Carve(a, s, e);
  }

  lemma {:induction false} CarveMember(gs: seq<Gap>, s: nat, e: nat, p: Gap)
    ensures p in Carve(gs, s, e) <==> exists g :: g in gs && p in Pieces(g, s, e)
  {
    if gs == [] {
    } else {
      var n := |gs| - 1;
      CarveMember(gs[..n], s, e, p);
      assert gs == gs[..n] + [gs[n]];
    }
  }

  /** A byte is missing afterwards exactly when it was missing and did not arrive. */
  lemma CarveMissing(gs: seq<Gap>, s: nat, e: nat, p: nat)
    requires s < e
    ensures Missing(Carve(gs, s, e), p) <==> Missing(gs, p) && !(s <= p < e)
  {
    if Missing(Carve(gs, s, e), p) {
      var c :| c in Carve(gs, s, e) && c.start <= p < c.end;
      CarveMember(gs, s, e, c);
    }
    if Missing(gs, p) && !(s <= p < e) {
      var g :| g in gs && g.start <= p < g.end;
      var c := if p < s then Gap(g.start, Min(g.end, s)) else Gap(Max(g.start, e), g.end);
      assert c in Pieces(g, s, e);
      CarveMember(gs, s, e, c);
    }
  }

  lemma SortedConcat(a: seq<Gap>, b: seq<Gap>, bound: nat)
    requires Sorted(a) && Sorted(b)
    requires forall i :: 0 <= i < |a| ==> a[i].end < bound
    requires forall i :: 0 <= i < |b| ==> bound <= b[i].start
    ensures Sorted(a + b)
  {
    var c := a + b;
    forall i ensures NonEmpty(c, i) {
      assert NonEmpty(a, i) && NonEmpty(b, i - |a|);
    }
    forall i, j ensures Before(c, i, j) {
      assert Before(a, i, j) && Before(b, i - |a|, j - |a|);
    }
  }

  lemma PiecesSorted(g: Gap, s: nat, e: nat)
    requires g.start < g.end && s < e
    ensures Sorted(Pieces(g, s, e))
    ensures forall i :: 0 <= i < |Pieces(g, s, e)| ==> g.start <= Pieces(g, s, e)[i].start && Pieces(g, s, e)[i].end <= g.end
    ensures e < g.end ==> Pieces(g, s, e) != [] && Pieces(g, s, e)[|Pieces(g, s, e)| - 1].end == g.end
  {
  }

  lemma {:induction false} CarveSorted(gs: seq<Gap>, s: nat, e: nat)
    requires Sorted(gs) && s < e
    ensures Sorted(Carve(gs, s, e))
    ensures gs != [] ==> forall i :: 0 <= i < |Carve(gs, s, e)| ==> Carve(gs, s, e)[i].end <= gs[|gs| - 1].end
    ensures gs != [] && e < gs[|gs| - 1].end ==>
      Carve(gs, s, e) != [] && Carve(gs, s, e)[|Carve(gs, s, e)| - 1].end == gs[|gs| - 1].end
  {
    if gs == [] {
    } else {
      var n := |gs| - 1;
      SortedInit(gs);
      assert NonEmpty(gs, n) && Before(gs, n - 1, n);
      CarveSorted(gs[..n], s, e);
      PiecesSorted(gs[n], s, e);
      SortedConcat(Carve(gs[..n], s, e), Pieces(gs[n], s, e), gs[n].start);
    }
  }

  /** Arriving bytes split at most one gap in two. */
  lemma {:induction false} CarveCount(gs: seq<Gap>, s: nat, e: nat)
    requires Sorted(gs) && s < e
    ensures |Carve(gs, s, e)| <= |gs| + 1
    ensures gs == [] || gs[|gs| - 1].end <= s ==> |Carve(gs, s, e)| <= |gs|
  {
    if gs == [] {
    } else {
      var n := |gs| - 1;
      SortedInit(gs);
      assert NonEmpty(gs, n) && Before(gs, n - 1, n) && NonEmpty(gs, n - 1);
      CarveCount(gs[..n], s, e);
    }
  }

  lemma SortedInit(gs: seq<Gap>)
    requires Sorted(gs) && gs != []
    ensures Sorted(gs[..|gs| - 1])
  {
    var init := gs[..|gs| - 1];
    forall i
      ensures NonEmpty(init, i)
    {
      assert NonEmpty(gs, i);
    }
    forall i, j
      ensures Before(init, i, j)
    {
      assert Before(gs, i, j);
    }
  }

  // ---------- queued frames

  /** The frames tile, without overlap, everything from `readPos` on that is not missing. */
  ghost predicate Tiled(q: Queue, gs: seq<Gap>, readPos: nat) {
    && GapsOk(gs)
    && (forall g {:trigger Unread(g, readPos)} :: g in gs ==> Unread(g, readPos))
    && FramesDisjoint(q, readPos)
    && FramesOffGaps(q, gs)
    && (forall k {:trigger Chained(q, gs, k)} :: Chained(q, gs, k))
    && (forall g {:trigger Followed(q, g)} :: g in gs ==> Followed(q, g))
    && Boundary(q, gs, readPos)
  }

  ghost predicate Unread(g: Gap, readPos: nat) {
    readPos <= g.start
  }

  ghost predicate FramesDisjoint(q: Queue, readPos: nat) {
    && (forall k {:trigger FrameOk(q, readPos, k)} :: FrameOk(q, readPos, k))
    && (forall j, k {:trigger Apart(q, j, k)} :: Apart(q, j, k))
  }

  ghost predicate FrameOk(q: Queue, readPos: nat, k: nat) {
    k in q ==> |q[k]| > 0 && readPos <= k
  }

  ghost predicate Apart(q: Queue, j: nat, k: nat) {
    j in q && k in q && j < k ==> j + |q[j]| <= k
  }

  ghost predicate FramesOffGaps(q: Queue, gs: seq<Gap>) {
    forall k, g {:trigger OffGap(q, k, g)} :: g in gs ==> OffGap(q, k, g)
  }

  ghost predicate OffGap(q: Queue, k: nat, g: Gap) {
    k in q ==> k + |q[k]| <= g.start || g.end <= k
  }

  /** Behind a frame comes another one, or a gap ... */
  ghost predicate Chained(q: Queue, gs: seq<Gap>, k: nat) {
    k in q ==> Boundary(q, gs, k + |q[k]|)
  }

  /** ... and behind every gap but the last comes a frame. */
  ghost predicate Followed(q: Queue, g: Gap) {
    g.end == MAX_BYTE_COUNT || g.end in q
  }

  /** A frame or a gap starts here. */
  ghost predicate Boundary(q: Queue, gs: seq<Gap>, p: nat) {
    p in q || StartsGap(gs, p)
  }

  ghost predicate InFrame(q: Queue, k: nat, p: nat) {
    k in q && k <= p < k + |q[k]|
  }

  /** Every byte from the read position on is either missing or in a frame ... */
  lemma {:induction false} TiledCovers(q: Queue, gs: seq<Gap>, readPos: nat, from: nat, p: nat)
    requires Tiled(q, gs, readPos) && Boundary(q, gs, from) && from <= p < MAX_BYTE_COUNT
    ensures Missing(gs, p) || exists k :: InFrame(q, k, p)
    decreases p - from
  {
    if from in q {
      assert FrameOk(q, readPos, from);
      if p < from + |q[from]| {
        assert InFrame(q, from, p);
      } else {
        assert Chained(q, gs, from);
        TiledCovers(q, gs, readPos, from + |q[from]|, p);
      }
    } else {
      var g :| g in gs && g.start == from;
      SortedNonEmpty(gs);
      if p >= g.end {
        assert Followed(q, g);
        TiledCovers(q, gs, readPos, g.end, p);
      }
    }
  }

  /** ... and in exactly one of them. */
  lemma EachByteOnce(q: Queue, gs: seq<Gap>, readPos: nat, p: nat)
    requires Tiled(q, gs, readPos) && readPos <= p < MAX_BYTE_COUNT
    ensures Missing(gs, p) <==> !exists k :: InFrame(q, k, p)
    ensures forall j, k :: InFrame(q, j, p) && InFrame(q, k, p) ==> j == k
    ensures forall g, h :: g in gs && h in gs && g.start <= p < g.end && h.start <= p < h.end ==> g == h
  {
    TiledCovers(q, gs, readPos, readPos, p);
    forall k, g | InFrame(q, k, p) && g in gs ensures !(g.start <= p < g.end) {
      assert OffGap(q, k, g);
    }
    forall j, k | InFrame(q, j, p) && InFrame(q, k, p) ensures j == k {
      assert Apart(q, j, k) && Apart(q, k, j);
    }
    OneGap(gs, p);
  }

  lemma OneGap(gs: seq<Gap>, p: nat)
    requires Sorted(gs)
    ensures forall g, h :: g in gs && h in gs && g.start <= p < g.end && h.start <= p < h.end ==> g == h
  {
    forall g, h | g in gs && h in gs && g.start <= p < g.end && h.start <= p < h.end ensures g == h {
      var i :| 0 <= i < |gs| && gs[i] == g;
      var j :| 0 <= j < |gs| && gs[j] == h;
      assert Before(gs, i, j) && Before(gs, j, i);
    }
  }

  function Without(q: Queue, s: nat, e: nat): (r: Queue) {
    map k | k in q && !(s <= k < e) :: q[k]
  }

  /** No frame straddles `p`. */
  ghost predicate Aligned(q: Queue, gs: seq<Gap>, p: nat) {
    p in q || Missing(gs, p)
  }

  lemma AlignedSplits(q: Queue, gs: seq<Gap>, readPos: nat, p: nat, k: nat)
    requires Tiled(q, gs, readPos) && Aligned(q, gs, p)
    ensures k in q && k < p ==> k + |q[k]| <= p
    ensures readPos <= p
  {
    assert Apart(q, k, p) && FrameOk(q, readPos, p);
    if p !in q {
      var g :| g in gs && g.start <= p < g.end;
      assert OffGap(q, k, g) && Unread(g, readPos);
    }
  }

  /** Replacing what lies between two aligned offsets by one frame keeps the tiling. */
  lemma StoreKeepsTiled(q: Queue, gs: seq<Gap>, readPos: nat, s: nat, e: nat, data: Bytes)
    requires Tiled(q, gs, readPos) && s < e < MAX_BYTE_COUNT && |data| == e - s
    requires Aligned(q, gs, s) && Aligned(q, gs, e)
    ensures Tiled(Without(q, s, e)[s := data], Carve(gs, s, e), readPos)
  {
    var q', cs := Without(q, s, e)[s := data], Carve(gs, s, e);
    CarveSorted(gs, s, e);
    forall c | c in cs ensures Unread(c, readPos) && Followed(q', c) {
      CarvedGap(q, gs, readPos, s, e, data, c);
    }
    StoredDisjoint(q, gs, readPos, s, e, data);
    StoredOffGaps(q, gs, readPos, s, e, data);
    StoredChained(q, gs, readPos, s, e, data);
    AlignedSplits(q, gs, readPos, s, s);
    SortedNonEmpty(gs);
    BoundaryStays(q, gs, s, e, data, readPos);
  }

  lemma StoredDisjoint(q: Queue, gs: seq<Gap>, readPos: nat, s: nat, e: nat, data: Bytes)
    requires Tiled(q, gs, readPos) && s < e && |data| == e - s
    requires Aligned(q, gs, s) && Aligned(q, gs, e)
    ensures FramesDisjoint(Without(q, s, e)[s := data], readPos)
  {
    var q' := Without(q, s, e)[s := data];
    forall k ensures FrameOk(q', readPos, k) {
      assert FrameOk(q, readPos, k);
      AlignedSplits(q, gs, readPos, s, k);
    }
    forall j, k ensures Apart(q', j, k) {
      assert Apart(q, j, k);
      AlignedSplits(q, gs, readPos, s, j);
    }
  }

  lemma StoredOffGaps(q: Queue, gs: seq<Gap>, readPos: nat, s: nat, e: nat, data: Bytes)
    requires Tiled(q, gs, readPos) && s < e < MAX_BYTE_COUNT && |data| == e - s
    ensures FramesOffGaps(Without(q, s, e)[s := data], Carve(gs, s, e))
  {
    var q', cs := Without(q, s, e)[s := data], Carve(gs, s, e);
    forall k, c | c in cs ensures OffGap(q', k, c) {
      CarvedGap(q, gs, readPos, s, e, data, c);
      CarvedOffGap(q, gs, s, e, k, c);
    }
  }

  /** A gap that is left is part of an old one. */
  lemma CarvedGap(q: Queue, gs: seq<Gap>, readPos: nat, s: nat, e: nat, data: Bytes, c: Gap)
    requires Tiled(q, gs, readPos) && s < e && c in Carve(gs, s, e)
    ensures readPos <= c.start && (c.end <= s || e <= c.start)
    ensures Followed(Without(q, s, e)[s := data], c)
  {
    CarveMember(gs, s, e, c);
    var g :| g in gs && c in Pieces(g, s, e);
    assert Followed(q, g) && Unread(g, readPos);
    PieceOfGap(g, s, e, c);
    PieceFollowed(q, g, s, e, data, c);
  }

  lemma CarvedOffGap(q: Queue, gs: seq<Gap>, s: nat, e: nat, k: nat, c: Gap)
    requires FramesOffGaps(q, gs) && s < e && c in Carve(gs, s, e)
    ensures OffGap(q, k, c)
  {
    CarveMember(gs, s, e, c);
    var g :| g in gs && c in Pieces(g, s, e);
    assert OffGap(q, k, g);
    PieceOfGap(g, s, e, c);
  }

  lemma PieceOfGap(g: Gap, s: nat, e: nat, c: Gap)
    requires s < e && c in Pieces(g, s, e)
    ensures g.start <= c.start && c.end <= g.end && (c.end <= s || e <= c.start)
    ensures c.end == g.end || c.end == s
  {
  }

  lemma PieceFollowed(q: Queue, g: Gap, s: nat, e: nat, data: Bytes, c: Gap)
    requires s < e && c in Pieces(g, s, e) && Followed(q, g)
    ensures Followed(Without(q, s, e)[s := data], c)
  {
  }

  lemma StoredChained(q: Queue, gs: seq<Gap>, readPos: nat, s: nat, e: nat, data: Bytes)
    requires Tiled(q, gs, readPos) && s < e < MAX_BYTE_COUNT && |data| == e - s
    requires Aligned(q, gs, s) && Aligned(q, gs, e)
    ensures forall k {:trigger Chained(Without(q, s, e)[s := data], Carve(gs, s, e), k)} ::
      Chained(Without(q, s, e)[s := data], Carve(gs, s, e), k)
  {
    var q', cs := Without(q, s, e)[s := data], Carve(gs, s, e);
    forall k ensures Chained(q', cs, k) {
      assert Chained(q, gs, k);
      FrameStaysOut(q, gs, readPos, s, e, k);
      StoredChainedAt(q, gs, s, e, data, k);
    }
  }

  lemma StoredChainedAt(q: Queue, gs: seq<Gap>, s: nat, e: nat, data: Bytes, k: nat)
    requires Chained(q, gs, k) && s < e && |data| == e - s && Aligned(q, gs, e)
    requires forall g :: g in gs ==> g.start < g.end
    requires k in q && !(s <= k < e) ==> !(s < k + |q[k]| < e)
    ensures Chained(Without(q, s, e)[s := data], Carve(gs, s, e), k)
  {
    if k == s {
      StoredEnd(q, gs, s, e, data);
    } else if k in q && !(s <= k < e) {
      BoundaryStays(q, gs, s, e, data, k + |q[k]|);
    }
  }

  lemma StoredEnd(q: Queue, gs: seq<Gap>, s: nat, e: nat, data: Bytes)
    requires s < e && Aligned(q, gs, e)
    ensures Boundary(Without(q, s, e)[s := data], Carve(gs, s, e), e)
  {
    if e !in q {
      var g :| g in gs && g.start <= e < g.end;
      assert Gap(e, g.end) in Pieces(g, s, e);
      CarveMember(gs, s, e, Gap(e, g.end));
    }
  }

  lemma FrameStaysOut(q: Queue, gs: seq<Gap>, readPos: nat, s: nat, e: nat, k: nat)
    requires Tiled(q, gs, readPos) && Aligned(q, gs, s) && s < e
    ensures k in q && !(s <= k < e) ==> !(s < k + |q[k]| < e)
    ensures forall g :: g in gs ==> g.start < g.end
  {
    AlignedSplits(q, gs, readPos, s, k);
    SortedNonEmpty(gs);
  }

  lemma BoundaryStays(q: Queue, gs: seq<Gap>, s: nat, e: nat, data: Bytes, p: nat)
    requires Boundary(q, gs, p) && s < e && !(s < p < e)
    requires forall g :: g in gs ==> g.start < g.end
    ensures Boundary(Without(q, s, e)[s := data], Carve(gs, s, e), p)
  {
    if p !in q && p != s {
      var g :| g in gs && g.start == p;
      var c := if p < s then Gap(p, Min(g.end, s)) else Gap(p, g.end);
      assert c in Pieces(g, s, e);
      CarveMember(gs, s, e, c);
    }
  }

  /** A frame follows every gap but the last. */
  lemma AfterGap(q: Queue, gs: seq<Gap>, readPos: nat, i: nat)
    requires Tiled(q, gs, readPos) && i + 1 < |gs|
    ensures gs[i].end in q
  {
    assert Followed(q, gs[i]);
    assert Before(gs, i, |gs| - 1) && NonEmpty(gs, |gs| - 1);
  }

  /** Without the read position's frame the tiling starts behind it. */
  lemma PopKeepsTiled(q: Queue, gs: seq<Gap>, readPos: nat)
    requires Tiled(q, gs, readPos) && readPos in q
    ensures Tiled(q - {readPos}, gs, readPos + |q[readPos]|)
    ensures readPos + |q[readPos]| < gs[0].end
  {
    var q', r := q - {readPos}, readPos + |q[readPos]|;
    assert gs[0] in gs;
    SortedNonEmpty(gs);
    assert Chained(q, gs, readPos) && FrameOk(q, readPos, readPos) && NonEmpty(gs, 0);
    forall k ensures Chained(q', gs, k) {
      assert Chained(q, gs, k);
      ChainedWithoutFirst(q, gs, readPos, k);
    }
    forall g | g in gs ensures Followed(q', g) {
      assert Followed(q, g) && Unread(g, readPos);
    }
    forall k, g | g in gs ensures OffGap(q', k, g) {
      assert OffGap(q, k, g);
    }
    forall k ensures FrameOk(q', r, k) {
      assert FrameOk(q, readPos, k) && Apart(q, readPos, k);
    }
    forall j, k ensures Apart(q', j, k) {
      assert Apart(q, j, k);
    }
    forall g | g in gs ensures Unread(g, r) {
      assert OffGap(q, readPos, g) && Unread(g, readPos);
    }
  }

  lemma ChainedWithoutFirst(q: Queue, gs: seq<Gap>, first: nat, k: nat)
    requires Chained(q, gs, k) && FramesDisjoint(q, first)
    ensures Chained(q - {first}, gs, k)
  {
    assert FrameOk(q, first, k);
  }
}
