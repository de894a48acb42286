/**
 Both ends of a connection exchanging connection IDs over a network that delays, reorders and
 repeats frames.  `Run` executes an arbitrary schedule, so its contract speaks about every run.
 */
module ConnectionIdExchange {
  import opened Basics
  import opened ConnectionIds

  datatype Event =
    | PeerParameters                      // the issuing end learns how many IDs the other stores
    | HandshakeDone                       // the using end completes the handshake
    | Ask(rand: nat)                      // it looks up the ID to send with
    | SendPacket(rand: nat)               // it sends a packet
    | SendRetire(k: nat, rand: nat)       // ... one that carries its k-th queued retirement (again)
    | DeliverNew(j: nat, rand: nat)       // the j-th issued ID arrives (again)
    | DeliverRetire(j: nat)               // the j-th retirement sent arrives (again)

  /** A RETIRE_CONNECTION_ID frame in a packet sent with `dest` as its destination connection ID. */
  datatype RetirePacket = RetirePacket(seqNo: nat, dest: nat)

  /** Which sequence numbers an end knows, and that it knows them as they were issued. */
  ghost predicate Genuine(src: Source, e: Entry, highest: nat) {
    e.seqNo <= highest && e.connID == src.draw(e.seqNo) && e.token == src.tokenOf(e.connID)
  }

  ghost predicate AllGenuine(src: Source, q: seq<Entry>, highest: nat) {
    forall e {:trigger Genuine(src, e, highest)} :: e in q ==> Genuine(src, e, highest)
  }

  /** Whatever the issuing end no longer accepts, the using end has retired. */
  ghost predicate Accounted(active: map<nat, nat>, highest: nat, retirements: seq<nat>) {
    && (forall s: nat {:trigger Account(active, retirements, s)} :: s <= highest ==> Account(active, retirements, s))
    && forall r :: r in retirements ==> r <= highest
  }

  ghost predicate Account(active: map<nat, nat>, retirements: seq<nat>, s: nat) {
    s in active || s in retirements
  }

  /** No retirement travels in a packet sent to the ID it retires. */
  ghost predicate SafePackets(src: Source, packets: seq<RetirePacket>, retirements: seq<nat>) {
    forall p :: p in packets ==> p.seqNo in retirements && p.dest != src.draw(p.seqNo)
  }

  lemma {:induction false} NumbersDistinct(q: seq<Entry>, above: nat)
    requires Ascending(q, above)
    ensures |set e | e in q :: e.seqNo| == |q|
  {
    if q == [] {
    } else {
      var n := |q| - 1;
      NumbersDistinct(q[..n], above);
      assert q == q[..n] + [q[n]];
      assert (set e | e in q :: e.seqNo) == (set e | e in q[..n] :: e.seqNo) + {q[n].seqNo};
      assert q[n].seqNo !in (set e | e in q[..n] :: e.seqNo);
    }
  }

  /** The active and the queued IDs are all still accepted, so there are no more of them than accepted ones. */
  lemma StoredAreAccepted(src: Source, q: seq<Entry>, a: nat, active: map<nat, nat>, highest: nat, retirements: seq<nat>)
    requires Ascending(q, a) && a <= highest && AllGenuine(src, q, highest) && Accounted(active, highest, retirements)
    requires forall r :: r in retirements ==> r < a
    ensures a in active && (forall e :: e in q ==> e.seqNo in active)
    ensures |q| + 1 <= |active|
  {
    assert Account(active, retirements, a);
    var stored := set e | e in q :: e.seqNo;
    forall e | e in q ensures e.seqNo in active && e.seqNo != a {
      assert Genuine(src, e, highest) && Account(active, retirements, e.seqNo);
      var i :| 0 <= i < |q| && q[i] == e;
    }
    NumbersDistinct(q, a);
    Subset(stored + {a}, active.Keys);
  }

  lemma Subset(a: set<nat>, b: set<nat>)
    requires a <= b
    ensures |a| <= |b|
  {
    assert b == a + (b - a);
  }

  /** At least 5000 packets lie between one change of the ID and the next. */
  ghost predicate Spaced(changes: seq<nat>) {
    forall i :: 0 < i < |changes| ==> changes[i - 1] + 5000 <= changes[i]
  }

  /** ... and each but the first ID is used as much as it is meant to be. */
  ghost predicate OnPace(changes: seq<nat>, sent: nat, used: nat, planned: nat) {
    Spaced(changes) && (changes != [] ==> changes[|changes| - 1] + used <= sent && 5000 <= planned)
  }

  lemma PaceCounted(changes: seq<nat>, sent: nat, used: nat, planned: nat)
    requires OnPace(changes, sent, used, planned)
    ensures OnPace(changes, sent + 1, Wrap(used + 1), planned)
  {
  }

  lemma PaceChanged(changes: seq<nat>, sent: nat, used: nat, planned: nat, next: nat)
    requires OnPace(changes, sent, used, planned) && (changes == [] || planned <= used) && 5000 <= next
    ensures OnPace(changes + [sent], sent, 0, next)
  {
  }

  class Exchange {
    const manager: ConnIDManager
    const generator: ConnIDGenerator
    var packets: seq<RetirePacket>       // every retirement ever sent
    var sent: nat                        // the packets sent so far
    var changes: seq<nat>                // how many had been sent at each change of the ID
    var played: seq<Event>               // what has happened

    ghost predicate Valid()
      reads this`packets, this`sent, this`changes, manager, generator
    {
      && manager.Valid() && generator.Valid() && generator.source.Unique()
      && Linked() && Paced()
      && |generator.active| <= MAX_ACTIVE
    }

    ghost predicate Linked()
      reads manager`queue, manager`activeSequenceNumber, manager`activeConnectionID, manager`retirements
      reads this`packets, generator
    {
      && manager.activeSequenceNumber <= generator.highestSeq
      && manager.activeConnectionID == generator.source.draw(manager.activeSequenceNumber)
      && AllGenuine(generator.source, manager.queue, generator.highestSeq)
      && Accounted(generator.active, generator.highestSeq, manager.retirements)
      && SafePackets(generator.source, packets, manager.retirements)
    }

    /** During the handshake nothing is retired; after that the ID changes no faster than it is meant to. */
    ghost predicate Paced()
      reads this`sent, this`changes, manager
    {
      && (manager.activeSequenceNumber == 0 <==> changes == [])
      && (!manager.handshakeComplete ==> changes == [] && forall r :: r !in manager.retirements)
      && OnPace(changes, sent, manager.Use().sent, manager.Use().planned)
    }

    constructor (src: Source, idLen: nat)
      requires src.Unique()
      ensures Valid() && fresh(manager) && fresh(generator) && !manager.handshakeComplete && sent == 0 && played == []
    {
      manager := new ConnIDManager(src.draw(0));
      generator := new ConnIDGenerator(src, idLen);
      packets, sent, changes, played := [], 0, [], [];
    }

    // ---------- what each event does

    twostate predicate Filled()
      reads generator
    {
      && |generator.active| == (if generator.connIDLen == 0 then |old(generator.active)|
                                else Max(|old(generator.active)|, Min(MAX_ACTIVE, MAX_ISSUED)))
      && old(generator.issued) <= generator.issued
    }

    ghost predicate Due()
      reads manager
    {
      && manager.handshakeComplete
      && if manager.activeSequenceNumber == 0 then 1 <= |manager.queue|
         else 2 <= |manager.queue| && manager.Use().planned <= manager.Use().sent
    }

    /** The ID is looked up, and changed if that is due. */
    twostate predicate Asked()
      reads manager`queue, manager`activeSequenceNumber, manager`retirements, this`changes
    {
      && changes == old(changes) +
           (if manager.activeSequenceNumber != old(manager.activeSequenceNumber) then [old(sent)] else [])
      && if old(Due()) then
        && manager.queue == old(manager.queue[1..]) && manager.activeSequenceNumber == old(manager.queue[0]).seqNo
        && manager.retirements == old(manager.retirements) + [old(manager.activeSequenceNumber)]
      else
        && manager.queue == old(manager.queue) && manager.activeSequenceNumber == old(manager.activeSequenceNumber)
        && manager.retirements == old(manager.retirements)
    }

    twostate predicate SentRetire(k: nat)
      reads manager`queue, manager`activeSequenceNumber, manager`activeConnectionID, manager`retirements
      reads this`packets, this`changes
    {
      if k < |old(manager.retirements)| then
        Asked() && packets == old(packets) + [RetirePacket(old(manager.retirements)[k], manager.activeConnectionID)]
      else
        packets == old(packets) && manager.queue == old(manager.queue) && manager.retirements == old(manager.retirements)
    }

    twostate predicate NewArrived(j: nat)
      reads manager`queue, manager`activeSequenceNumber, manager`activeConnectionID, manager`retirements
    {
      if j < |old(generator.issued)| then
        && AfterAdd(old(manager.queue), old(manager.activeSequenceNumber), old(manager.activeConnectionID),
                    old(generator.issued)[j],
                    manager.queue, manager.activeSequenceNumber, manager.activeConnectionID)
        && manager.retirements == old(manager.retirements) +
             NowRetired(old(manager.queue), old(manager.activeSequenceNumber), old(generator.issued)[j],
                        manager.activeSequenceNumber)
      else manager.queue == old(manager.queue) && manager.retirements == old(manager.retirements)
    }

    twostate predicate RetireArrived(j: nat)
      reads generator
    {
      if j < |old(packets)| then
        var seqNo := old(packets)[j].seqNo;
        && generator.highestSeq == old(generator.highestSeq) + One(old(seqNo in generator.active) && seqNo != 0)
        && (forall s :: s in generator.active <==>
              (s in old(generator.active) && s != seqNo) || old(generator.highestSeq) < s <= generator.highestSeq)
      else generator.highestSeq == old(generator.highestSeq) && generator.active == old(generator.active)
    }

    twostate predicate Does(event: Event)
      reads this`packets, this`changes, manager, generator
    {
      match event
      case PeerParameters => Filled()
      case HandshakeDone => manager.handshakeComplete
      case Ask(_) => Asked()
      case SendPacket(_) => Asked()
      case SendRetire(k, _) => SentRetire(k)
      case DeliverNew(j, _) => NewArrived(j)
      case DeliverRetire(j) => RetireArrived(j)
    }

    /** The peer runs the same code, so it stores MAX_ACTIVE connection IDs. */
    method DoPeerParameters()
      requires Valid()
      modifies generator
      ensures Valid() && Filled()
    {
      ghost var h, active := generator.highestSeq, generator.active;
      generator.SetMaxActiveConnIDs(MAX_ACTIVE);
      GrowGenuine(generator.source, manager.queue, h, generator.highestSeq);
      GrowAccounted(active, h, manager.retirements, generator.active, generator.highestSeq);
    }

    /** Looks up the ID, and notes a change. */
    method GetCounted(rand: nat)
      requires manager.Valid() && Paced()
      modifies manager, this`changes
      ensures manager.Valid() && Paced() && Asked()
      ensures manager.handshakeComplete == old(manager.handshakeComplete)
      ensures manager.activeConnectionID == if manager.activeSequenceNumber == old(manager.activeSequenceNumber)
                                            then old(manager.activeConnectionID) else old(manager.queue)[0].connID
    {
      var before := manager.activeSequenceNumber;
      ghost var u := manager.Use();
      var id := manager.Get(rand);
      if manager.activeSequenceNumber != before {
        PaceChanged(changes, sent, u.sent, u.planned, manager.Use().planned);
        changes := changes + [sent];
      }
    }

    method CountPacket()
      requires manager.Valid() && Paced()
      modifies manager`packetsSinceLastChange, this`sent
      ensures manager.Valid() && Paced() && sent == old(sent) + 1
      ensures manager.packetsSinceLastChange == Wrap(old(manager.packetsSinceLastChange) + 1)
    {
      PaceCounted(changes, sent, manager.Use().sent, manager.Use().planned);
      manager.SentPacket();
      sent := sent + 1;
    }

    /** Looks up the ID, for a packet to send or not. */
    method Use(rand: nat, send: bool)
      requires manager.Valid() && Paced()
      modifies manager, this`changes, this`sent
      ensures manager.Valid() && Paced() && Asked() && sent == old(sent) + One(send)
      ensures manager.handshakeComplete == old(manager.handshakeComplete)
      ensures manager.activeConnectionID == if manager.activeSequenceNumber == old(manager.activeSequenceNumber)
                                            then old(manager.activeConnectionID) else old(manager.queue)[0].connID
    {
      GetCounted(rand);
      if send {
        CountPacket();
      }
    }

    /** The ID looked up is one the issuer accepts. */
    method DoGet(rand: nat, send: bool) returns (stale: bool)
      requires Valid()
      modifies manager, this`changes, this`sent
      ensures Valid() && manager.handshakeComplete == old(manager.handshakeComplete)
      ensures manager.activeSequenceNumber in generator.active && !stale && sent == old(sent) + One(send)
      ensures old(manager.retirements) <= manager.retirements && Asked()
    {
      ghost var q, rs := manager.queue, manager.retirements;
      assert q != [] ==> Genuine(generator.source, q[0], generator.highestSeq);
      Use(rand, send);
      SubGenuine(generator.source, q, manager.queue, generator.highestSeq);
      MoreAccounted(generator.active, generator.highestSeq, rs, manager.retirements);
      StoredAreAccepted(generator.source, manager.queue, manager.activeSequenceNumber,
                        generator.active, generator.highestSeq, manager.retirements);
      stale := manager.activeSequenceNumber !in generator.active;
    }

    /** A queued retirement goes out in a packet sent to the active ID. */
    method AddPacket(k: nat, dest: nat)
      requires Valid() && k < |manager.retirements|
      requires dest == generator.source.draw(manager.activeSequenceNumber)
      modifies this`packets
      ensures Valid() && packets == old(packets) + [RetirePacket(manager.retirements[k], dest)]
    {
      var r := manager.retirements[k];
      assert r in manager.retirements;
      packets := packets + [RetirePacket(r, dest)];
    }

    /** Some ID arrives at the end that uses it: never a conflict, never too many. */
    method DoDeliverNew(j: nat, rand: nat) returns (r: AddResult)
      requires Valid()
      modifies manager
      ensures Valid() && r.Added? && manager.handshakeComplete == old(manager.handshakeComplete) && NewArrived(j)
    {
      if j >= |generator.issued| {
        return Added;
      }
      var f := generator.issued[j];
      ghost var q, a, id, rs := manager.queue, manager.activeSequenceNumber, manager.activeConnectionID, manager.retirements;
      NoConflict(generator.source, q, f, generator.highestSeq);
      r := manager.Add(f, rand);
      AddedGenuine(generator.source, q, a, id, f,
                   manager.queue, manager.activeSequenceNumber, manager.activeConnectionID, generator.highestSeq);
      AddedAccounted(generator.source, q, a, f, manager.activeSequenceNumber,
                     generator.active, generator.highestSeq, rs, manager.retirements);
      StoredAreAccepted(generator.source, manager.queue, manager.activeSequenceNumber,
                        generator.active, generator.highestSeq, manager.retirements);
    }

    method DoSendRetire(k: nat, rand: nat)
      requires Valid()
      modifies manager, this`changes, this`packets, this`sent
      ensures Valid() && SentRetire(k) && sent == old(sent) + One(k < |old(manager.retirements)|)
      ensures manager.handshakeComplete == old(manager.handshakeComplete)
    {
      if k < |manager.retirements| {
        var _ := DoGet(rand, true);
        AddPacket(k, manager.activeConnectionID);
      }
    }

    /** A retirement arrives at the end that issued the ID: never a protocol violation. */
    method DoDeliverRetire(j: nat) returns (ok: bool)
      requires Valid()
      modifies generator
      ensures Valid() && ok && RetireArrived(j)
    {
      if j >= |packets| {
        return true;
      }
      var p := packets[j];
      assert p in packets;
      ghost var h, active := generator.highestSeq, generator.active;
      ok := generator.Retire(p.seqNo, p.dest);
      GrowGenuine(generator.source, manager.queue, h, generator.highestSeq);
      GrowAccounted(active, h, manager.retirements, generator.active, generator.highestSeq);
    }
  }

  /** What went wrong in a run, if anything. */
  datatype Faults = Faults(tooManyIDs: bool, conflict: bool, violation: bool, staleID: bool)

  /** One event, and what went wrong with it. */
  method Step(x: Exchange, event: Event, before: Faults) returns (faults: Faults)
    requires x.Valid() && before == Faults(false, false, false, false)
    modifies x, x.manager, x.generator
    ensures x.Valid() && faults == Faults(false, false, false, false)
    ensures x.Does(event) && x.played == old(x.played) + [event]
    ensures x.manager.handshakeComplete == (old(x.manager.handshakeComplete) || event.HandshakeDone?)
    ensures x.sent == old(x.sent) +
      One(event.SendPacket? || (event.SendRetire? && event.k < |old(x.manager.retirements)|))
  {
    if event.PeerParameters? || event.DeliverRetire? {
      faults := AtIssuer(x, event, before);
    } else {
      faults := AtUser(x, event, before);
    }
    x.played := x.played + [event];
  }

  /** What happens at the end that issues IDs. */
  method AtIssuer(x: Exchange, event: Event, before: Faults) returns (faults: Faults)
    requires x.Valid() && before == Faults(false, false, false, false) && (event.PeerParameters? || event.DeliverRetire?)
    modifies x.generator
    ensures x.Valid() && faults == Faults(false, false, false, false) && x.Does(event)
  {
    faults := before;
    match event {
      case PeerParameters =>
        x.DoPeerParameters();
      case DeliverRetire(j) =>
        var ok := x.DoDeliverRetire(j);
        faults := faults.(violation := faults.violation || !ok);
    }
  }

  /** What happens at the end that uses them. */
  method AtUser(x: Exchange, event: Event, before: Faults) returns (faults: Faults)
    requires x.Valid() && before == Faults(false, false, false, false) && !event.PeerParameters? && !event.DeliverRetire?
    modifies x.manager, x`changes, x`sent, x`packets
    ensures x.Valid() && faults == Faults(false, false, false, false) && x.Does(event)
    ensures x.manager.handshakeComplete == (old(x.manager.handshakeComplete) || event.HandshakeDone?)
    ensures x.sent == old(x.sent) +
      One(event.SendPacket? || (event.SendRetire? && event.k < |old(x.manager.retirements)|))
  {
    faults := before;
    match event {
      case HandshakeDone =>
        x.manager.SetHandshakeComplete();
      case Ask(rand) =>
        var _ := x.DoGet(rand, false);
      case SendPacket(rand) =>
        var stale := x.DoGet(rand, true);
        faults := faults.(staleID := faults.staleID || stale);
      case SendRetire(k, rand) =>
        x.DoSendRetire(k, rand);
      case DeliverNew(j, rand) =>
        var r := x.DoDeliverNew(j, rand);
        faults := faults.(tooManyIDs := faults.tooManyIDs || r.LimitError?, conflict := faults.conflict || r.Conflict?);
    }
  }

  function PacketsIn(events: seq<Event>): nat {
    if events == [] then 0 else One(events[0].SendPacket? || events[0].SendRetire?) + PacketsIn(events[1..])
  }

  ghost predicate Handshakes(events: seq<Event>) {
    events != [] && (events[0].HandshakeDone? || Handshakes(events[1..]))
  }

  /** Events in order. */
  method Play(x: Exchange, events: seq<Event>, before: Faults) returns (faults: Faults)
    requires x.Valid() && before == Faults(false, false, false, false)
    modifies x, x.manager, x.generator
    ensures x.Valid() && faults == Faults(false, false, false, false)
    ensures x.played == old(x.played) + events
    ensures x.manager.handshakeComplete == (old(x.manager.handshakeComplete) || Handshakes(events))
    ensures x.sent <= old(x.sent) + PacketsIn(events)
  {
    faults := before;
    if events != [] {
      faults := Step(x, events[0], faults);
      faults := Play(x, events[1..], faults);
    }
  }

  /**
   Every run of an exchange between an issuing and a using end that both run this code, with distinct
   connection IDs: the using end never finds more IDs than it announced, nor two for one sequence
   number; the issuing end never sees a retirement it must reject; and no packet is sent to an ID that
   the issuing end has stopped accepting.  Before the handshake is done nothing is retired, and at least
   5000 packets are sent between one change of the ID and the next.
   */
  method Run(src: Source, idLen: nat, events: seq<Event>)
    returns (faults: Faults, retirements: seq<nat>, changes: seq<nat>, played: seq<Event>)
    requires src.Unique()
    ensures played == events
    ensures faults == Faults(false, false, false, false)
    ensures !Handshakes(events) ==> changes == [] && forall r :: r !in retirements
    ensures Spaced(changes) && (changes != [] ==> changes[|changes| - 1] <= PacketsIn(events))
  {
    var x := new Exchange(src, idLen);
    faults := Play(x, events, Faults(false, false, false, false));
    retirements, changes, played := x.manager.retirements, x.changes, x.played;
  }

  lemma GrowGenuine(src: Source, q: seq<Entry>, h: nat, h': nat)
    requires AllGenuine(src, q, h) && h <= h'
    ensures AllGenuine(src, q, h')
  {
    forall e | e in q ensures Genuine(src, e, h') {
      assert Genuine(src, e, h);
    }
  }

  lemma SubGenuine(src: Source, q: seq<Entry>, q': seq<Entry>, h: nat)
    requires AllGenuine(src, q, h) && forall e :: e in q' ==> e in q
    ensures AllGenuine(src, q', h)
  {
  }

  lemma GrowAccounted(active: map<nat, nat>, h: nat, rs: seq<nat>, active': map<nat, nat>, h': nat)
    requires Accounted(active, h, rs) && h <= h'
    requires forall s: nat :: (s in active || h < s <= h') && s !in rs ==> s in active'
    ensures Accounted(active', h', rs)
  {
    forall s: nat | s <= h' ensures Account(active', rs, s) {
      assert s <= h ==> Account(active, rs, s);
    }
  }

  lemma MoreAccounted(active: map<nat, nat>, h: nat, rs: seq<nat>, rs': seq<nat>)
    requires Accounted(active, h, rs)
    requires forall r :: r in rs ==> r in rs'
    requires forall r :: r in rs' ==> r <= h
    ensures Accounted(active, h, rs')
  {
    forall s: nat | s <= h ensures Account(active, rs', s) {
      assert Account(active, rs, s);
    }
  }

  lemma NoConflict(src: Source, q: seq<Entry>, f: NewFrame, h: nat)
    requires AllGenuine(src, q, h) && f == src.Issue(f.seqNo)
    ensures !ConflictsWith(q, f)
  {
    forall x | x in q && x.seqNo == f.seqNo ensures x == EntryOf(f) {
      assert Genuine(src, x, h);
    }
  }

  lemma AddedGenuine(src: Source, q: seq<Entry>, a: nat, id: nat, f: NewFrame, q': seq<Entry>, a': nat, id': nat, h: nat)
    requires AllGenuine(src, q, h) && f == src.Issue(f.seqNo) && f.seqNo <= h && a <= h && id == src.draw(a)
    requires AfterAdd(q, a, id, f, q', a', id')
    ensures AllGenuine(src, q', h) && a' <= h && id' == src.draw(a')
  {
    forall e | Candidate(q, a, f, e) ensures Genuine(src, e, h) {
    }
    forall e | e in q' ensures Genuine(src, e, h) {
      assert Candidate(q, a, f, e);
    }
  }

  lemma AddedAccounted(src: Source, q: seq<Entry>, a: nat, f: NewFrame, a': nat,
                       active: map<nat, nat>, h: nat, rs: seq<nat>, rs': seq<nat>)
    requires AllGenuine(src, q, h) && f.seqNo <= h && a <= h
    requires Accounted(active, h, rs) && RetiredNow(rs, q, a, f, a', rs')
    ensures Accounted(active, h, rs')
  {
    forall r | r in rs' ensures r <= h {
      if r in Numbers(q) {
        NumbersMember(q, r);
        var x :| x in q && x.seqNo == r;
        assert Genuine(src, x, h);
      }
    }
    MoreAccounted(active, h, rs, rs');
  }
}
