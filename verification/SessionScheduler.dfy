/** The weighted round robin over the paths of a session, and how many bytes a path's turn carries. */
module SessionScheduler {
  import opened Basics

  const RESET_THRESHOLD: nat := PAYLOAD_SIZE / 8

  /** The bytes a path may carry in a turn, in 32 bits. */
  function Quota(weight: nat): nat {
    Wrap(Payloads(weight))
  }

  class Scheduler {
    const weight: seq<nat>
    var numPath: nat
    var usePath: nat
    var remainingBytes: seq<nat>
    var currentPath: nat

    /** All paths but the current one have their whole quota. */
    ghost predicate Valid()
      reads this
    {
      && usePath == numPath == |remainingBytes| <= |weight|
      && (numPath > 0 ==> currentPath < numPath)
      && (forall p :: 0 <= p < numPath && p != currentPath ==> remainingBytes[p] == Quota(weight[p]))
    }

    constructor (weight: seq<nat>)
      ensures Valid() && this.weight == weight && numPath == 0
    {
      this.weight := weight;
      numPath, usePath, remainingBytes, currentPath := 0, 0, [], 0;
    }

    /**
     The number of paths changes: the current path gets its whole quota back, the last path is next, and a quota
     for it is appended. The books stay in order exactly when one path is added, and then all quotas are whole.
     Indices out of range, which the program would panic on, are excluded.
     */
    method SetNumPath(numPath: nat)
      requires 1 <= numPath <= |weight| && (numPath > 1 ==> currentPath < |remainingBytes| && currentPath < |weight|)
      modifies this
      ensures this.numPath == usePath == numPath && currentPath == numPath - 1
      ensures |remainingBytes| == |old(remainingBytes)| + 1
      ensures remainingBytes[|old(remainingBytes)|] == Quota(weight[numPath - 1])
      ensures forall p :: 0 <= p < |old(remainingBytes)| ==>
        remainingBytes[p] == if numPath > 1 && p == old(currentPath) then Quota(weight[p]) else old(remainingBytes)[p]
      ensures old(Valid()) ==> (Valid() <==> numPath == old(this.numPath) + 1)
      ensures Valid() && old(Valid()) ==> forall p :: 0 <= p < numPath ==> remainingBytes[p] == Quota(weight[p])
    {
      this.numPath := numPath;
      usePath := numPath;
      if usePath > 1 {
        remainingBytes := remainingBytes[currentPath := Quota(weight[currentPath])];
      }
      currentPath := usePath - 1;
      remainingBytes := remainingBytes + [Quota(weight[currentPath])];
    }

    /** The current path carries the payload; a turn ends when its quota is all but used up. */
    method SchedulingUserWrr(payloadSize: nat) returns (selectedPath: nat)
      requires Valid() && numPath > 0
      modifies this`remainingBytes, this`currentPath
      ensures Valid() && selectedPath == old(currentPath)
      ensures var left := Left(old(remainingBytes)[selectedPath], payloadSize);
        if left <= RESET_THRESHOLD then
          && currentPath == (selectedPath + 1) % numPath
          && remainingBytes == old(remainingBytes)[selectedPath := Quota(weight[selectedPath])]
        else
          currentPath == selectedPath && remainingBytes == old(remainingBytes)[selectedPath := left]
    {
      selectedPath := currentPath;
      if remainingBytes[selectedPath] >= payloadSize {
        remainingBytes := remainingBytes[selectedPath := remainingBytes[selectedPath] - payloadSize];
      } else {
        remainingBytes := remainingBytes[selectedPath := 0];
      }
      if remainingBytes[selectedPath] <= RESET_THRESHOLD {
        remainingBytes := remainingBytes[selectedPath := Quota(weight[selectedPath])];
        currentPath := (currentPath + 1) % usePath;
      }
    }
  }

  function Left(remaining: nat, payloadSize: nat): nat {
    if remaining >= payloadSize then remaining - payloadSize else 0
  }

  // ---------- the bytes of a turn

  /** What path `p` carried when packet i went to paths[i]. */
  function BytesOn(paths: seq<nat>, sizes: seq<nat>, p: nat): nat
    requires |paths| == |sizes|
  {
    if paths == [] then 0
    else
      var n := |paths| - 1;
      BytesOn(paths[..n], sizes[..n], p) + (if paths[n] == p then sizes[n] else 0)
  }

  function PacketsOn(paths: seq<nat>, p: nat): nat {
    if paths == [] then 0
    else PacketsOn(paths[..|paths| - 1], p) + (if paths[|paths| - 1] == p then 1 else 0)
  }

  ghost predicate Full(sizes: seq<nat>) {
    forall i :: 0 <= i < |sizes| ==> sizes[i] == PAYLOAD_SIZE
  }

  lemma {:induction false} FullPackets(paths: seq<nat>, sizes: seq<nat>, p: nat)
    requires |paths| == |sizes| && Full(sizes)
    ensures BytesOn(paths, sizes, p) == Payloads(PacketsOn(paths, p))
  {
    if paths == [] {
    } else {
      FullPackets(paths[..|paths| - 1], sizes[..|paths| - 1], p);
    }
  }

  /** The least and the most bytes of a turn: with full payloads exactly the weight in packets. */
  function Least(weight: nat, full: bool): int {
    Payloads(weight) - (if full then 0 else RESET_THRESHOLD)
  }

  function Most(weight: nat, full: bool): int {
    Payloads(weight) + (if full then 0 else PAYLOAD_SIZE - RESET_THRESHOLD - 1)
  }

  ghost predicate Carried(weight: nat, full: bool, turns: nat, bytes: int) {
    turns * Least(weight, full) <= bytes <= turns * Most(weight, full)
  }

  lemma OneMoreTurn(weight: nat, full: bool, turns: nat, bytes: int, turn: int)
    requires Carried(weight, full, turns, bytes) && Least(weight, full) <= turn <= Most(weight, full)
    ensures Carried(weight, full, turns + 1, bytes + turn)
  {
    assert (turns + 1) * Least(weight, full) == turns * Least(weight, full) + Least(weight, full);
    assert (turns + 1) * Most(weight, full) == turns * Most(weight, full) + Most(weight, full);
  }

  /** Place in the round, which starts at the path added last. */
  function Place(p: nat, numPath: nat): nat {
    if p + 1 == numPath then 0 else p + 1
  }

  datatype Outcome = Outcome(paths: seq<nat>, turns: seq<nat>, current: nat, pending: nat)

  ghost predicate Sane(weight: seq<nat>) {
    forall p :: 0 <= p < |weight| ==> 1 <= weight[p] && Payloads(weight[p]) < UINT32
  }

  /** The tally after some packets: bounds for the finished turns, the unfinished one apart. */
  ghost predicate Tally(weight: seq<nat>, sizes: seq<nat>, full: bool, rounds: nat, o: Outcome) {
    && |o.paths| == |sizes| && |o.turns| == |weight| && o.current < |weight|
    && (forall p: nat {:trigger Path(weight, sizes, full, rounds, o, p)} ::
          p < |weight| ==> Path(weight, sizes, full, rounds, o, p))
  }

  ghost predicate Path(weight: seq<nat>, sizes: seq<nat>, full: bool, rounds: nat, o: Outcome, p: nat)
    requires |o.paths| == |sizes| && |o.turns| == |weight| && p < |weight|
  {
    && Carried(weight[p], full, o.turns[p], BytesOn(o.paths, sizes, p) - (if p == o.current then o.pending else 0))
    && o.turns[p] == rounds + (if Place(p, |weight|) < Place(o.current, |weight|) then 1 else 0)
  }

  /** One packet within a turn. */
  lemma Within(weight: seq<nat>, sizes: seq<nat>, full: bool, rounds: nat, o: Outcome, size: nat)
    requires Tally(weight, sizes, full, rounds, o)
    ensures Tally(weight, sizes + [size], full, rounds,
                  o.(paths := o.paths + [o.current], pending := o.pending + size))
  {
    var now := o.(paths := o.paths + [o.current], pending := o.pending + size);
    forall p: nat | p < |weight|
      ensures Path(weight, sizes + [size], full, rounds, now, p)
    {
      assert Path(weight, sizes, full, rounds, o, p);
      BytesSnoc(o.paths, sizes, o.current, size, p);
    }
  }

  lemma BytesSnoc(paths: seq<nat>, sizes: seq<nat>, q: nat, size: nat, p: nat)
    requires |paths| == |sizes|
    ensures BytesOn(paths + [q], sizes + [size], p) == BytesOn(paths, sizes, p) + (if p == q then size else 0)
  {
    assert (paths + [q])[..|paths|] == paths && (sizes + [size])[..|sizes|] == sizes;
  }

  /** The current turn ends within its bounds, and the next path takes over. */
  lemma Over(weight: seq<nat>, sizes: seq<nat>, full: bool, rounds: nat, o: Outcome)
    requires Tally(weight, sizes, full, rounds, o)
    requires Least(weight[o.current], full) <= o.pending <= Most(weight[o.current], full)
    ensures Tally(weight, sizes, full, if Place(o.current, |weight|) == |weight| - 1 then rounds + 1 else rounds,
                  Outcome(o.paths, o.turns[o.current := o.turns[o.current] + 1], (o.current + 1) % |weight|, 0))
  {
    var now := Outcome(o.paths, o.turns[o.current := o.turns[o.current] + 1], (o.current + 1) % |weight|, 0);
    var after := if Place(o.current, |weight|) == |weight| - 1 then rounds + 1 else rounds;
    NextPath(o.current, |weight|);
    forall p: nat | p < |weight|
      ensures Path(weight, sizes, full, after, now, p)
    {
      assert Path(weight, sizes, full, rounds, o, p);
      NextPlace(o.current, now.current, p, |weight|);
      if p == o.current {
        OneMoreTurn(weight[p], full, o.turns[p], BytesOn(o.paths, sizes, p) - o.pending, o.pending);
      }
    }
  }

  lemma NextPath(current: nat, numPath: nat)
    requires current < numPath
    ensures (current + 1) % numPath == if current + 1 == numPath then 0 else current + 1
  {
    if current + 1 < numPath {
      assert (current + 1) % numPath == current + 1;
    } else {
      assert numPath % numPath == 0;
    }
  }

  lemma NextPlace(current: nat, next: nat, p: nat, numPath: nat)
    requires current < numPath && p < numPath && next == if current + 1 == numPath then 0 else current + 1
    ensures Place(next, numPath) == (if Place(current, numPath) == numPath - 1 then 0 else Place(current, numPath) + 1)
    ensures Place(p, numPath) <= numPath - 1
    ensures Place(p, numPath) == Place(current, numPath) ==> p == current
  {
  }

  /** A packet in a turn of which `pending` bytes are carried: the turn goes on, or ends within its bounds. */
  lemma TurnBytes(weight: nat, pending: nat, remaining: nat, size: nat, full: bool)
    requires pending + remaining == Payloads(weight) && RESET_THRESHOLD < remaining
    requires 1 <= size <= PAYLOAD_SIZE && (full ==> size == PAYLOAD_SIZE && remaining % PAYLOAD_SIZE == 0)
    ensures Left(remaining, size) <= RESET_THRESHOLD ==> Least(weight, full) <= pending + size <= Most(weight, full)
    ensures Left(remaining, size) > RESET_THRESHOLD ==>
      && pending + size + Left(remaining, size) == Payloads(weight)
      && (full ==> Left(remaining, size) % PAYLOAD_SIZE == 0)
  {
  }

  /**
   Any run of the scheduler over all paths: the finished turns of a path carried between 1024w - 128 and
   1024w + 895 bytes each, exactly w packets each when all payloads are full; the unfinished turn has carried
   less; and no path is more than one turn ahead of another.
   */
  method Run(weight: seq<nat>, sizes: seq<nat>) returns (o: Outcome)
    requires |weight| > 0 && Sane(weight)
    requires forall i :: 0 <= i < |sizes| ==> 1 <= sizes[i] <= PAYLOAD_SIZE
    ensures |o.paths| == |sizes| && |o.turns| == |weight| && o.current < |weight|
    ensures forall p :: 0 <= p < |weight| ==>
      Carried(weight[p], Full(sizes), o.turns[p], BytesOn(o.paths, sizes, p) - (if p == o.current then o.pending else 0))
    ensures o.pending < Least(weight[o.current], false)
    ensures forall p, q :: 0 <= p < |weight| && 0 <= q < |weight| ==> o.turns[p] <= o.turns[q] + 1
    ensures Full(sizes) ==> forall p :: 0 <= p < |weight| && p != o.current ==>
      PacketsOn(o.paths, p) == o.turns[p] * weight[p]
  {
    var c := AllPaths(weight);
    o := Outcome([], seq(|weight|, _ => 0), |weight| - 1, 0);
    ghost var full, rounds := Full(sizes), 0;
    FreshTurn(weight, |weight| - 1, full);
    StartTally(weight, full, o);
    assert sizes[..0] == [];
    var i := 0;
    while i < |sizes|
      invariant 0 <= i <= |sizes| && fresh(c) && c.weight == weight
      invariant Metered(c, sizes[..i], full, rounds, o)
    {
      assert sizes[..i + 1] == sizes[..i] + [sizes[i]];
      o, rounds := Packet(c, sizes[..i], sizes[i], full, rounds, o);
      i := i + 1;
    }
    assert sizes[..|sizes|] == sizes;
    Summary(weight, sizes, rounds, o);
  }

  method AllPaths(weight: seq<nat>) returns (c: Scheduler)
    requires |weight| > 0
    ensures c.Valid() && fresh(c) && c.weight == weight && c.numPath == |weight| && c.currentPath == |weight| - 1
    ensures c.remainingBytes[c.currentPath] == Quota(weight[c.currentPath])
  {
    c := new Scheduler(weight);
    while c.numPath < |weight|
      invariant c.Valid() && fresh(c) && c.numPath <= |weight| && c.weight == weight
      invariant c.numPath > 0 ==> c.currentPath == c.numPath - 1
      invariant forall p :: 0 <= p < c.numPath ==> c.remainingBytes[p] == Quota(weight[p])
    {
      c.SetNumPath(c.numPath + 1);
    }
  }

  lemma StartTally(weight: seq<nat>, full: bool, o: Outcome)
    requires |weight| > 0 && o == Outcome([], seq(|weight|, _ => 0), |weight| - 1, 0)
    ensures Tally(weight, [], full, 0, o)
  {
    forall p: nat | p < |weight|
      ensures Path(weight, [], full, 0, o, p)
    {
    }
  }

  ghost predicate Metered(c: Scheduler, sizes: seq<nat>, full: bool, rounds: nat, o: Outcome)
    reads c
  {
    && c.Valid() && c.numPath == |c.weight| && Sane(c.weight)
    && Tally(c.weight, sizes, full, rounds, o) && o.current == c.currentPath
    && Open(c.weight[o.current], full, o.pending, c.remainingBytes[o.current])
  }

  method Packet(c: Scheduler, ghost sizes: seq<nat>, size: nat, ghost full: bool, ghost rounds: nat, o: Outcome)
    returns (now: Outcome, ghost after: nat)
    requires Metered(c, sizes, full, rounds, o) && 1 <= size <= PAYLOAD_SIZE && (full ==> size == PAYLOAD_SIZE)
    modifies c
    ensures Metered(c, sizes + [size], full, after, now)
  {
    var remaining := c.remainingBytes[o.current];
    TurnBytes(c.weight[o.current], o.pending, remaining, size, full);
    Within(c.weight, sizes, full, rounds, o, size);
    var path := c.SchedulingUserWrr(size);
    now, after := o.(paths := o.paths + [path], pending := o.pending + size), rounds;
    if Left(remaining, size) <= RESET_THRESHOLD {
      Over(c.weight, sizes + [size], full, rounds, now);
      after := if Place(o.current, |c.weight|) == |c.weight| - 1 then rounds + 1 else rounds;
      now := Outcome(now.paths, o.turns[o.current := o.turns[o.current] + 1], (o.current + 1) % |c.weight|, 0);
      FreshTurn(c.weight, now.current, full);
      assert c.remainingBytes[now.current] == Quota(c.weight[now.current]);
    }
  }

  /** An unfinished turn: its bytes and what is left make up the quota. */
  ghost predicate Open(weight: nat, full: bool, pending: nat, remaining: nat) {
    && pending + remaining == Payloads(weight) && RESET_THRESHOLD < remaining
    && (full ==> remaining % PAYLOAD_SIZE == 0)
  }

  lemma FreshTurn(weight: seq<nat>, p: nat, full: bool)
    requires Sane(weight) && p < |weight|
    ensures Open(weight[p], full, 0, Quota(weight[p]))
  {
  }

  lemma Summary(weight: seq<nat>, sizes: seq<nat>, rounds: nat, o: Outcome)
    requires Tally(weight, sizes, Full(sizes), rounds, o)
    ensures forall p :: 0 <= p < |weight| ==>
      Carried(weight[p], Full(sizes), o.turns[p], BytesOn(o.paths, sizes, p) - (if p == o.current then o.pending else 0))
    ensures forall p, q :: 0 <= p < |weight| && 0 <= q < |weight| ==> o.turns[p] <= o.turns[q] + 1
    ensures Full(sizes) ==> forall p :: 0 <= p < |weight| && p != o.current ==>
      PacketsOn(o.paths, p) == o.turns[p] * weight[p]
  {
    forall p: nat | p < |weight|
      ensures rounds <= o.turns[p] <= rounds + 1
      ensures Carried(weight[p], Full(sizes), o.turns[p],
                      BytesOn(o.paths, sizes, p) - (if p == o.current then o.pending else 0))
      ensures Full(sizes) && p != o.current ==> PacketsOn(o.paths, p) == o.turns[p] * weight[p]
    {
      assert Path(weight, sizes, Full(sizes), rounds, o, p);
      if Full(sizes) && p != o.current {
        FullPackets(o.paths, sizes, p);
        WholePackets(weight[p], o.turns[p], BytesOn(o.paths, sizes, p), PacketsOn(o.paths, p));
      }
    }
  }

  lemma WholePackets(weight: nat, turns: nat, bytes: int, packets: nat)
    requires Carried(weight, true, turns, bytes) && bytes == Payloads(packets)
    ensures packets == turns * weight
  {
    assert turns * Payloads(weight) == Payloads(turns * weight);
  }
}
