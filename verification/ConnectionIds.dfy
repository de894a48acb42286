/**
 Connection IDs: the endpoint that issues them (generator) and the endpoint that uses and retires
 them (manager), and what the two promise each other over a network that duplicates and reorders.
 */
module ConnectionIds {
  import opened Basics

  const MAX_ACTIVE: nat := 4            // connection IDs a peer is told we store
  const MAX_ISSUED: nat := 6            // connection IDs issued at the same time
  const PACKETS_PER_ID: nat := 10000

  /** A NEW_CONNECTION_ID frame. */
  datatype NewFrame = NewFrame(seqNo: nat, retirePriorTo: nat, connID: nat, token: nat)

  datatype Entry = Entry(seqNo: nat, connID: nat, token: nat)

  /** The active ID's token, the packets sent since it became active, and how many it is meant for. */
  datatype Usage = Usage(token: Option<nat>, sent: nat, planned: nat)

  datatype AddResult = Added | Conflict | LimitError

  ghost predicate Ascending(q: seq<Entry>, above: nat) {
    && (forall i :: 0 <= i < |q| ==> above < q[i].seqNo)
    && (forall i, j :: 0 <= i < j < |q| ==> q[i].seqNo < q[j].seqNo)
  }

  function Numbers(q: seq<Entry>): (ns: seq<nat>)
    ensures |ns| == |q|
  {
    seq(|q|, i requires 0 <= i < |q| => q[i].seqNo)
  }

  // ---------- the manager

  class ConnIDManager {
    var queue: seq<Entry>
    var handshakeComplete: bool
    var activeSequenceNumber: nat
    var highestRetired: nat
    var activeConnectionID: nat
    var activeToken: Option<nat>
    var packetsSinceLastChange: nat
    var packetsPerConnectionID: nat
    var retirements: seq<nat>         // the RETIRE_CONNECTION_ID frames queued so far

    /** Queued IDs are newer than the active one, and whatever was retired is older. */
    ghost predicate Valid()
      reads this
    {
      && Ascending(queue, activeSequenceNumber)
      && highestRetired <= activeSequenceNumber
      && forall r :: r in retirements ==> r < activeSequenceNumber
    }

    /** How much the active ID has been used, and how much it may be. */
    function Use(): Usage
      reads this
    {
      Usage(activeToken, packetsSinceLastChange, packetsPerConnectionID)
    }

    constructor (initial: nat)
      ensures Valid() && queue == [] && activeSequenceNumber == 0 && activeConnectionID == initial && retirements == []
      ensures !handshakeComplete && Use() == Usage(None, 0, 0)
    {
      queue := [];
      handshakeComplete := false;
      activeSequenceNumber, highestRetired := 0, 0;
      activeConnectionID, activeToken := initial, None;
      packetsSinceLastChange, packetsPerConnectionID := 0, 0;
      retirements := [];
    }

    /** Inserts in order; a repeated sequence number must repeat its connection ID and token. */
    method AddConnectionID(e: Entry) returns (ok: bool)
      requires Ascending(queue, activeSequenceNumber) && activeSequenceNumber < e.seqNo
      modifies this`queue
      ensures ok <==> forall x :: x in old(queue) && x.seqNo == e.seqNo ==> x == e
      ensures !ok ==> queue == old(queue)
      ensures ok ==> Ascending(queue, activeSequenceNumber)
      ensures ok ==> forall x :: x in queue <==> x in old(queue) || x == e
    {
      if |queue| == 0 || queue[|queue| - 1].seqNo < e.seqNo {
        queue := queue + [e];
        return true;
      }
      var i := 0;
      while i < |queue|
        invariant 0 <= i <= |queue| && queue == old(queue)
        invariant forall k :: 0 <= k < i ==> queue[k].seqNo < e.seqNo
      {
        if queue[i].seqNo == e.seqNo {
          if queue[i].connID != e.connID || queue[i].token != e.token {
            assert queue[i] in queue;
            return false;
          }
          return true;
        }
        if queue[i].seqNo > e.seqNo {
          queue := queue[..i] + [e] + queue[i..];
          return true;
        }
        i := i + 1;
      }
      return true;
    }

    /** Retires the active connection ID and activates the oldest queued one. */
    method UpdateConnectionID(rand: nat)
      requires Ascending(queue, activeSequenceNumber) && queue != [] && highestRetired <= queue[0].seqNo
      requires forall r :: r in retirements ==> r < queue[0].seqNo
      modifies this
      ensures Valid() && handshakeComplete == old(handshakeComplete)
      ensures activeSequenceNumber == old(queue)[0].seqNo && activeConnectionID == old(queue)[0].connID
      ensures queue == old(queue)[1..] && retirements == old(retirements) + [old(activeSequenceNumber)]
      ensures Use() == Usage(Some(old(queue)[0].token), 0, 5000 + rand % 10000)
      ensures highestRetired == Max(old(highestRetired), old(activeSequenceNumber))
    {
      retirements := retirements + [activeSequenceNumber];
      highestRetired := if highestRetired < activeSequenceNumber then activeSequenceNumber else highestRetired;
      var front := queue[0];
      queue := queue[1..];
      activeSequenceNumber := front.seqNo;
      activeConnectionID := front.connID;
      activeToken := Some(front.token);
      packetsSinceLastChange := 0;
      packetsPerConnectionID := PACKETS_PER_ID / 2 + rand % 10000;
    }

    /** Retires the queued IDs older than `prior`: the first `n`, for some `n`. */
    method RetireQueued(prior: nat) returns (ghost n: nat)
      requires Ascending(queue, activeSequenceNumber)
      modifies this`queue, this`retirements
      ensures n <= |old(queue)| && queue == old(queue)[n..]
      ensures retirements == old(retirements) + Numbers(old(queue)[..n])
      ensures forall i :: 0 <= i < |old(queue)| ==> (old(queue)[i].seqNo < prior <==> i < n)
    {
      ghost var q := queue;
      n := 0;
      while queue != [] && queue[0].seqNo < prior
        invariant n <= |q| && queue == q[n..]
        invariant retirements == old(retirements) + Numbers(q[..n])
        invariant forall i :: 0 <= i < n ==> q[i].seqNo < prior
        decreases |queue|
      {
        retirements := retirements + [queue[0].seqNo];
        queue := queue[1..];
        n := n + 1;
      }
    }

    /** Queues an ID newer than the active one, and moves on to it or to an older queued one if asked to. */
    method QueueNewer(f: NewFrame, rand: nat) returns (ok: bool)
      requires Ascending(queue, activeSequenceNumber) && activeSequenceNumber < f.seqNo && f.retirePriorTo <= f.seqNo
      requires highestRetired <= activeSequenceNumber || highestRetired <= f.retirePriorTo
      requires forall r :: r in retirements ==> r < activeSequenceNumber || r < f.retirePriorTo
      requires activeSequenceNumber < f.retirePriorTo ==> forall x :: x in queue ==> f.retirePriorTo <= x.seqNo
      modifies this
      ensures ok <==> !ConflictsWith(old(queue), f)
      ensures ok ==> Valid() && handshakeComplete == old(handshakeComplete)
      ensures ok ==> old(activeSequenceNumber) <= activeSequenceNumber && f.retirePriorTo <= activeSequenceNumber
      ensures ok ==> AfterAdd(old(queue), old(activeSequenceNumber), old(activeConnectionID), f,
                              queue, activeSequenceNumber, activeConnectionID)
      ensures ok && old(activeSequenceNumber) < activeSequenceNumber ==>
        retirements == old(retirements) + [old(activeSequenceNumber)]
      ensures ok && old(activeSequenceNumber) == activeSequenceNumber ==>
        retirements == old(retirements) && Use() == old(Use())
      ensures ok && old(activeSequenceNumber) < activeSequenceNumber ==>
        highestRetired == Max(old(highestRetired), old(activeSequenceNumber))
      ensures ok && old(activeSequenceNumber) == activeSequenceNumber ==> highestRetired == old(highestRetired)
    {
      ok := AddConnectionID(EntryOf(f));
      if !ok {
        return;
      }
      if activeSequenceNumber < f.retirePriorTo {
        ghost var e := queue[0];
        assert e in queue;
        UpdateConnectionID(rand);
      }
    }

    /**
     Takes in a NEW_CONNECTION_ID frame.  Whatever was retired stays retired: an ID older than the
     active one is retired again at once, and anything older than `retirePriorTo` is replaced.
     */
    method AddFrame(f: NewFrame, rand: nat) returns (ok: bool)
      requires Valid() && f.retirePriorTo <= f.seqNo
      modifies this
      ensures ok <==> !(f.seqNo > old(activeSequenceNumber) && ConflictsWith(old(queue), f))
      ensures ok ==> Valid() && handshakeComplete == old(handshakeComplete)
      ensures ok ==> old(activeSequenceNumber) <= activeSequenceNumber && f.retirePriorTo <= activeSequenceNumber
      ensures ok ==> AfterAdd(old(queue), old(activeSequenceNumber), old(activeConnectionID), f,
                              queue, activeSequenceNumber, activeConnectionID)
      ensures ok ==>
        RetiredNow(old(retirements), old(queue), old(activeSequenceNumber), f, activeSequenceNumber, retirements)
      ensures ok ==>
        retirements == old(retirements) + NowRetired(old(queue), old(activeSequenceNumber), f, activeSequenceNumber)
      ensures ok && activeSequenceNumber == old(activeSequenceNumber) ==> Use() == old(Use())
      ensures ok ==> highestRetired == NowHighest(old(highestRetired), old(activeSequenceNumber), f, activeSequenceNumber)
    {
      if f.seqNo < activeSequenceNumber || f.seqNo < highestRetired {
        retirements := retirements + [f.seqNo];
        DropNothing(queue, activeSequenceNumber, 0);
        return true;
      }
      ok := AddCurrent(f, rand);
    }

    method AddCurrent(f: NewFrame, rand: nat) returns (ok: bool)
      requires Valid() && f.retirePriorTo <= f.seqNo && activeSequenceNumber <= f.seqNo
      modifies this
      ensures ok <==> !(f.seqNo > old(activeSequenceNumber) && ConflictsWith(old(queue), f))
      ensures ok ==> Valid() && handshakeComplete == old(handshakeComplete)
      ensures ok ==> old(activeSequenceNumber) <= activeSequenceNumber && f.retirePriorTo <= activeSequenceNumber
      ensures ok ==> AfterAdd(old(queue), old(activeSequenceNumber), old(activeConnectionID), f,
                              queue, activeSequenceNumber, activeConnectionID)
      ensures ok ==>
        RetiredNow(old(retirements), old(queue), old(activeSequenceNumber), f, activeSequenceNumber, retirements)
      ensures ok ==>
        retirements == old(retirements) + NowRetired(old(queue), old(activeSequenceNumber), f, activeSequenceNumber)
      ensures ok && activeSequenceNumber == old(activeSequenceNumber) ==> Use() == old(Use())
      ensures ok ==> highestRetired == NowHighest(old(highestRetired), old(activeSequenceNumber), f, activeSequenceNumber)
    {
      ghost var q, a, id, rs := queue, activeSequenceNumber, activeConnectionID, retirements;
      DropOld(f.retirePriorTo);
      ghost var d, rs1 := queue, retirements;
      if f.seqNo == activeSequenceNumber {
        NothingDropped(q, d, a, id, f, rs, rs1);
        RetiredInOrder(q, a, f, a, rs, rs1, rs1);
        return true;
      }
      ok := QueueNewer(f, rand);
      ConflictAfterDrop(q, d, f);
      if ok {
        AddAfterDrop(q, d, a, id, f, queue, activeSequenceNumber, activeConnectionID);
        RetiredAfterDrop(q, a, id, f, queue, activeSequenceNumber, activeConnectionID, rs, rs1, retirements);
        RetiredInOrder(q, a, f, activeSequenceNumber, rs, rs1, retirements);
      }
    }

    /** Takes in a frame, and complains if more IDs are stored than the peer was told we store. */
    method Add(f: NewFrame, rand: nat) returns (r: AddResult)
      requires Valid() && f.retirePriorTo <= f.seqNo
      modifies this
      ensures r.Conflict? <==> f.seqNo > old(activeSequenceNumber) && ConflictsWith(old(queue), f)
      ensures !r.Conflict? ==>
        Valid() && handshakeComplete == old(handshakeComplete) && (r.LimitError? <==> |queue| >= MAX_ACTIVE)
      ensures !r.Conflict? ==> old(activeSequenceNumber) <= activeSequenceNumber
      ensures !r.Conflict? ==> AfterAdd(old(queue), old(activeSequenceNumber), old(activeConnectionID), f,
                                        queue, activeSequenceNumber, activeConnectionID)
      ensures !r.Conflict? ==>
        RetiredNow(old(retirements), old(queue), old(activeSequenceNumber), f, activeSequenceNumber, retirements)
      ensures !r.Conflict? ==>
        retirements == old(retirements) + NowRetired(old(queue), old(activeSequenceNumber), f, activeSequenceNumber)
      ensures !r.Conflict? && activeSequenceNumber == old(activeSequenceNumber) ==> Use() == old(Use())
      ensures !r.Conflict? ==>
        highestRetired == NowHighest(old(highestRetired), old(activeSequenceNumber), f, activeSequenceNumber)
    {
      var ok := AddFrame(f, rand);
      if !ok {
        return Conflict;
      }
      if |queue| >= MAX_ACTIVE {
        return LimitError;
      }
      return Added;
    }

    predicate ShouldUpdateConnID()
      reads this
    {
      && handshakeComplete
      && ((|queue| > 0 && activeSequenceNumber == 0) ||
          (2 * |queue| >= MAX_ACTIVE && packetsSinceLastChange >= packetsPerConnectionID))
    }

    /**
     The connection ID to send with. During the handshake it stays; after that the first ID is left as soon as
     there is another, and a later one once two are queued and it has been used as much as it is meant to be.
     */
    method Get(rand: nat) returns (id: nat)
      requires Valid()
      modifies this
      ensures Valid() && id == activeConnectionID && handshakeComplete == old(handshakeComplete)
      ensures if old(handshakeComplete) &&
                 (if old(activeSequenceNumber) == 0 then 1 <= |old(queue)|
                  else 2 <= |old(queue)| && old(Use()).planned <= old(Use()).sent)
              then && queue == old(queue)[1..]
                   && activeSequenceNumber == old(queue)[0].seqNo && activeConnectionID == old(queue)[0].connID
                   && retirements == old(retirements) + [old(activeSequenceNumber)]
                   && Use().token == Some(old(queue)[0].token) && Use().sent == 0 && 5000 <= Use().planned < 15000
              else && queue == old(queue) && retirements == old(retirements) && Use() == old(Use())
                   && activeSequenceNumber == old(activeSequenceNumber) && activeConnectionID == old(activeConnectionID)
    {
      if ShouldUpdateConnID() {
        UpdateConnectionID(rand);
      }
      id := activeConnectionID;
    }

    /** The count is 32 bits wide. */
    method SentPacket()
      requires Valid()
      modifies this`packetsSinceLastChange
      ensures Valid() && packetsSinceLastChange == Wrap(old(packetsSinceLastChange) + 1)
    {
      packetsSinceLastChange := Wrap(packetsSinceLastChange + 1);
    }

    method SetHandshakeComplete()
      requires Valid()
      modifies this`handshakeComplete
      ensures Valid() && handshakeComplete
    {
      handshakeComplete := true;
    }

    /** Retires what is queued and older than `prior`, if that is news. */
    method DropOld(prior: nat)
      requires Valid()
      modifies this`queue, this`retirements, this`highestRetired
      ensures Ascending(queue, activeSequenceNumber) && Dropped(old(queue), queue, prior)
      ensures RetiredBelow(old(retirements), old(queue), prior, retirements)
      ensures retirements == old(retirements) + Numbers(old(queue)[..CountBelow(old(queue), prior)])
      ensures highestRetired == Max(old(highestRetired), prior)
    {
      ghost var q, n := queue, 0;
      if prior > highestRetired {
        n := RetireQueued(prior);
        highestRetired := prior;
      }
      DropFacts(q, activeSequenceNumber, n, prior);
      CountIs(q, prior, n);
    }
  }

  /** How many leading entries are older than `prior`. */
  ghost function CountBelow(q: seq<Entry>, prior: nat): (n: nat)
    ensures n <= |q|
  {
    if q == [] || prior <= q[0].seqNo then 0 else 1 + CountBelow(q[1..], prior)
  }

  lemma {:induction false} CountIs(q: seq<Entry>, prior: nat, n: nat)
    requires n <= |q| && forall i :: 0 <= i < |q| ==> (q[i].seqNo < prior <==> i < n)
    ensures CountBelow(q, prior) == n
    decreases |q|
  {
    if n == 0 {
    } else {
      CountIs(q[1..], prior, n - 1);
    }
  }

  /** The retirements a frame causes: of an ID that comes late, or of the older ones and then the active one. */
  ghost function NowRetired(q: seq<Entry>, a: nat, f: NewFrame, a': nat): seq<nat> {
    if f.seqNo < a then [f.seqNo]
    else Numbers(q[..CountBelow(q, f.retirePriorTo)]) + (if a < a' then [a] else [])
  }

  /** Up to where everything is retired. */
  ghost function NowHighest(h: nat, a: nat, f: NewFrame, a': nat): nat {
    if f.seqNo < a then h else Max(Max(h, f.retirePriorTo), if a < a' then a else 0)
  }

  ghost predicate RetiredBelow(rs: seq<nat>, q: seq<Entry>, prior: nat, rs': seq<nat>) {
    forall r :: r in rs' <==> r in rs || (r < prior && r in Numbers(q))
  }

  /** The queue without what is older than `prior`. */
  ghost predicate Dropped(q: seq<Entry>, d: seq<Entry>, prior: nat) {
    forall x :: x in d <==> x in q && prior <= x.seqNo
  }

  lemma DropNothing(q: seq<Entry>, a: nat, prior: nat)
    requires Ascending(q, a) && prior <= a
    ensures forall r :: r in Numbers(q) ==> !(r < prior) && !(r < a)
  {
  }

  lemma NothingDropped(q: seq<Entry>, d: seq<Entry>, a: nat, id: nat, f: NewFrame, rs: seq<nat>, rs1: seq<nat>)
    requires Ascending(q, a) && Dropped(q, d, f.retirePriorTo) && RetiredBelow(rs, q, f.retirePriorTo, rs1)
    requires f.seqNo == a && f.retirePriorTo <= a
    ensures AfterAdd(q, a, id, f, d, a, id) && RetiredNow(rs, q, a, f, a, rs1)
    ensures forall r :: r in rs1 ==> r in rs
  {
    DropNothing(q, a, f.retirePriorTo);
  }

  lemma ConflictAfterDrop(q: seq<Entry>, d: seq<Entry>, f: NewFrame)
    requires Dropped(q, d, f.retirePriorTo) && f.retirePriorTo <= f.seqNo
    ensures ConflictsWith(q, f) <==> ConflictsWith(d, f)
  {
  }

  lemma AddAfterDrop(q: seq<Entry>, d: seq<Entry>, a: nat, id: nat, f: NewFrame, q': seq<Entry>, a': nat, id': nat)
    requires Ascending(q, a) && Dropped(q, d, f.retirePriorTo) && AfterAdd(d, a, id, f, q', a', id')
    requires a < f.seqNo && f.retirePriorTo <= f.seqNo && f.retirePriorTo <= a'
    ensures AfterAdd(q, a, id, f, q', a', id')
  {
    forall x ensures Candidate(d, a, f, x) <==> Candidate(q, a, f, x) && f.retirePriorTo <= x.seqNo {
    }
  }

  lemma RetiredAfterDrop(q: seq<Entry>, a: nat, id: nat, f: NewFrame, q': seq<Entry>, a': nat, id': nat,
                         rs: seq<nat>, rs1: seq<nat>, rs2: seq<nat>)
    requires Ascending(q, a) && AfterAdd(q, a, id, f, q', a', id') && a < f.seqNo && a <= a' && f.retirePriorTo <= a'
    requires RetiredBelow(rs, q, f.retirePriorTo, rs1)
    requires rs2 == if a < a' then rs1 + [a] else rs1
    ensures RetiredNow(rs, q, a, f, a', rs2)
  {
    forall r | r in Numbers(q) ensures r < f.retirePriorTo <==> r < a' {
      var i :| 0 <= i < |q| && Numbers(q)[i] == r;
      assert Candidate(q, a, f, q[i]);
    }
  }

  lemma RetiredInOrder(q: seq<Entry>, a: nat, f: NewFrame, a': nat, rs: seq<nat>, rs1: seq<nat>, rs2: seq<nat>)
    requires a <= f.seqNo && rs1 == rs + Numbers(q[..CountBelow(q, f.retirePriorTo)])
    requires rs2 == if a < a' then rs1 + [a] else rs1
    ensures rs2 == rs + NowRetired(q, a, f, a')
  {
  }

  function EntryOf(f: NewFrame): Entry {
    Entry(f.seqNo, f.connID, f.token)
  }

  lemma DropFacts(q: seq<Entry>, a: nat, n: nat, prior: nat)
    requires Ascending(q, a) && n <= |q| && forall i :: 0 <= i < |q| ==> (q[i].seqNo < prior <==> i < n)
    ensures Ascending(q[n..], a)
    ensures forall x :: x in q[n..] <==> x in q && x.seqNo >= prior
    ensures forall r :: r in Numbers(q[..n]) <==> r in Numbers(q) && r < prior
  {
    forall r | r in Numbers(q[..n]) ensures r in Numbers(q) && r < prior {
      var i :| 0 <= i < n && Numbers(q[..n])[i] == r;
      assert Numbers(q)[i] == r;
    }
    forall r | r in Numbers(q) && r < prior ensures r in Numbers(q[..n]) {
      var i :| 0 <= i < |q| && Numbers(q)[i] == r;
      assert Numbers(q[..n])[i] == r;
    }
  }

  lemma NumbersMember(q: seq<Entry>, r: nat)
    ensures r in Numbers(q) <==> exists x :: x in q && x.seqNo == r
  {
    if r in Numbers(q) {
      var i :| 0 <= i < |q| && Numbers(q)[i] == r;
      assert q[i] in q;
    }
    forall x | x in q && x.seqNo == r ensures r in Numbers(q) {
      var i :| 0 <= i < |q| && q[i] == x;
      assert Numbers(q)[i] == r;
    }
  }

  ghost predicate ConflictsWith(q: seq<Entry>, f: NewFrame) {
    exists x :: x in q && x.seqNo == f.seqNo && x != EntryOf(f)
  }

  /** What can be active or queued after a frame: what was queued, and the new ID unless it is an old one. */
  ghost predicate Candidate(q: seq<Entry>, a: nat, f: NewFrame, x: Entry) {
    x in q || (a < f.seqNo && x == EntryOf(f))
  }

  /**
   The new active ID is the old one, or the oldest candidate allowed by `retirePriorTo`; the candidates
   newer than it are queued.
   */
  ghost predicate AfterAdd(q: seq<Entry>, a: nat, id: nat, f: NewFrame, q': seq<Entry>, a': nat, id': nat) {
    && (forall x :: x in q' <==> Candidate(q, a, f, x) && a' < x.seqNo)
    && (if f.retirePriorTo <= a then a' == a && id' == id
        else
          && f.retirePriorTo <= a' && (exists x :: Candidate(q, a, f, x) && x.seqNo == a' && x.connID == id')
          && forall x :: Candidate(q, a, f, x) && f.retirePriorTo <= x.seqNo ==> a' <= x.seqNo)
  }

  /** Newly retired: the frame's ID if it came late, and whatever was live and is older than the new active ID. */
  ghost predicate NewlyRetired(q: seq<Entry>, a: nat, f: NewFrame, a': nat, r: nat) {
    (f.seqNo < a && r == f.seqNo) || (r < a' && (r == a || r in Numbers(q)))
  }

  ghost predicate RetiredNow(rs: seq<nat>, q: seq<Entry>, a: nat, f: NewFrame, a': nat, rs': seq<nat>) {
    forall r :: r in rs' <==> r in rs || NewlyRetired(q, a, f, a', r)
  }

  // ---------- the generator

  /** The identifiers drawn for successive sequence numbers, and the reset token of each. */
  datatype Source = Source(draw: nat -> nat, tokenOf: nat -> nat) {
    ghost predicate Unique() {
      forall i, j :: draw(i) == draw(j) ==> i == j
    }

    function Issue(seqNo: nat): NewFrame {
      NewFrame(seqNo, 0, draw(seqNo), tokenOf(draw(seqNo)))
    }
  }

  class ConnIDGenerator {
    const source: Source
    const connIDLen: nat
    var highestSeq: nat
    var active: map<nat, nat>
    var issued: seq<NewFrame>          // the NEW_CONNECTION_ID frames queued so far

    ghost predicate Valid()
      reads this
    {
      && (forall s :: s in active ==> s <= highestSeq && active[s] == source.draw(s))
      && |issued| == highestSeq
      && forall i :: 0 <= i < |issued| ==> issued[i] == source.Issue(i + 1)
    }

    constructor (src: Source, idLen: nat)
      ensures Valid() && source == src && connIDLen == idLen && highestSeq == 0 && active == map[0 := src.draw(0)]
    {
      source, connIDLen := src, idLen;
      highestSeq := 0;
      active := map[0 := src.draw(0)];
      issued := [];
    }

    method IssueNewConnID()
      requires Valid()
      modifies this
      ensures Valid() && highestSeq == old(highestSeq) + 1
      ensures active == old(active)[highestSeq := source.draw(highestSeq)] && |active| == |old(active)| + 1
      ensures issued == old(issued) + [source.Issue(highestSeq)]
    {
      assert highestSeq + 1 !in active;
      active := active[highestSeq + 1 := source.draw(highestSeq + 1)];
      issued := issued + [source.Issue(highestSeq + 1)];
      highestSeq := highestSeq + 1;
    }

    /** Fills up to what the peer stores, or to the most we issue. */
    method SetMaxActiveConnIDs(limit: nat)
      requires Valid()
      modifies this
      ensures Valid() && old(highestSeq) <= highestSeq && old(issued) <= issued
      ensures connIDLen != 0 ==> |active| == Max(|old(active)|, Min(limit, MAX_ISSUED))
      ensures connIDLen == 0 ==> active == old(active) && highestSeq == old(highestSeq)
      ensures forall s: nat :: s in active <==> s in old(active) || old(highestSeq) < s <= highestSeq
    {
      if connIDLen == 0 {
        return;
      }
      ghost var n := |active|;
      var i := |active|;
      while i < Min(limit, MAX_ISSUED)
        invariant Valid() && old(highestSeq) <= highestSeq && old(issued) <= issued
        invariant i == |active| && n <= i && (i <= n || i <= Min(limit, MAX_ISSUED))
        invariant forall s: nat :: s in active <==> s in old(active) || old(highestSeq) < s <= highestSeq
      {
        IssueNewConnID();
        i := i + 1;
      }
    }

    /** Retires an ID and replaces it, unless it is the initial one or was retired before. */
    method Retire(seqNo: nat, sentWith: nat) returns (ok: bool)
      requires Valid()
      modifies this
      ensures ok <==> seqNo <= old(highestSeq) && !(seqNo in old(active) && old(active)[seqNo] == sentWith)
      ensures !ok ==> unchanged(this)
      ensures ok ==> Valid() && old(issued) <= issued
      ensures ok ==> highestSeq == if seqNo in old(active) && seqNo != 0 then old(highestSeq) + 1 else old(highestSeq)
      ensures ok ==> forall s :: s in active <==> (s in old(active) && s != seqNo) || old(highestSeq) < s <= highestSeq
      ensures ok ==> |active| <= |old(active)|
    {
      if seqNo > highestSeq {
        return false;
      }
      if seqNo !in active {
        return true;
      }
      if active[seqNo] == sentWith {
        return false;
      }
      assert active.Keys == (active - {seqNo}).Keys + {seqNo};
      active := active - {seqNo};
      if seqNo != 0 {
        IssueNewConnID();
      }
      return true;
    }
  }
}
