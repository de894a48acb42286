/**
 The tree of shortest delays inside a cluster: Dijkstra's algorithm in which a node may hand out only so many
 child slots, and a slot once spent is never given back.
 */
module DelayTree {
  import opened Basics

  datatype Distance = Infinite | Finite(d: real)

  /** What is recorded about a node: its distance and the node before it. */
  datatype Label = Label(dist: Distance, pred: nat)

  datatype Arc = Arc(to: nat, weight: real)

  datatype Entry = Entry(dist: real, node: nat)

  type Graph = seq<seq<Arc>>

  /** Arcs lead to nodes of the graph, and no delay is negative. */
  ghost predicate IsGraph(g: Graph) {
    forall u, k {:trigger g[u][k]} :: 0 <= u < |g| && 0 <= k < |g[u]| ==> g[u][k].to < |g| && g[u][k].weight >= 0.0
  }

  ghost predicate HasArc(g: Graph, u: nat, v: nat, w: real) {
    u < |g| && Arc(v, w) in g[u]
  }

  // ---------- the queue

  function Less(a: Entry, b: Entry): bool {
    a.dist < b.dist || (a.dist == b.dist && a.node < b.node)
  }

  ghost predicate NoRepeat<T>(s: seq<T>) {
    forall i, j :: 0 <= i < j < |s| ==> s[i] != s[j]
  }

  function Without<T>(s: seq<T>, i: nat): (r: seq<T>)
    requires i < |s|
  {
    s[..i] + s[i + 1..]
  }

  /** The smallest entry leaves the queue. */
  method Pop(queue: seq<Entry>) returns (e: Entry, rest: seq<Entry>)
    requires queue != []
    ensures e in queue && forall x :: x in queue ==> !Less(x, e)
    ensures exists i :: 0 <= i < |queue| && queue[i] == e && rest == Without(queue, i)
  {
    var m, i := 0, 1;
    while i < |queue|
      invariant 0 <= m < i <= |queue|
      invariant forall j :: 0 <= j < i ==> !Less(queue[j], queue[m])
    {
      if Less(queue[i], queue[m]) {
        m := i;
      }
      i := i + 1;
    }
    e, rest := queue[m], Without(queue, m);
  }

  lemma PopRest(queue: seq<Entry>, e: Entry, rest: seq<Entry>)
    requires exists i :: 0 <= i < |queue| && queue[i] == e && rest == Without(queue, i)
    ensures |rest| == |queue| - 1 && (forall x :: x in rest ==> x in queue)
    ensures forall x :: x in queue && x != e ==> x in rest
    ensures NoRepeat(queue) ==> NoRepeat(rest) && e !in rest
  {
    var i :| 0 <= i < |queue| && queue[i] == e && rest == Without(queue, i);
    forall x | x in queue && x != e
      ensures x in rest
    {
      var j :| 0 <= j < |queue| && queue[j] == x;
      assert x == if j < i then rest[j] else rest[j - 1];
    }
    forall k | 0 <= k < |rest|
      ensures rest[k] == queue[if k < i then k else k + 1]
    {
    }
  }

  // ---------- what the search keeps

  ghost predicate Reached(labels: seq<Label>, v: nat) {
    v < |labels| && labels[v].dist.Finite?
  }

  /** A node reached hangs on an expanded node by an arc that makes up the difference in distance. */
  ghost predicate TreeAt(g: Graph, first: nat, labels: seq<Label>, expanded: seq<nat>, v: nat)
    requires v < |labels|
  {
    if v == first then labels[v] == Label(Finite(0.0), first)
    else if labels[v].dist.Infinite? then labels[v].pred == first
    else
      var p := labels[v].pred;
      && labels[v].dist.d >= 0.0 && p in expanded && Reached(labels, p)
      && HasArc(g, p, v, labels[v].dist.d - labels[p].dist.d)
  }

  /** A node is expanded after the node before it. */
  ghost predicate OrderAt(first: nat, labels: seq<Label>, expanded: seq<nat>, i: nat)
    requires i < |expanded|
  {
    Reached(labels, expanded[i]) && (expanded[i] == first || labels[expanded[i]].pred in expanded[..i])
  }

  /** An entry is no smaller than its node's distance, and smaller or up to date ones wait for expansion. */
  ghost predicate EntryOk(labels: seq<Label>, expanded: seq<nat>, e: Entry) {
    && Reached(labels, e.node) && labels[e.node].dist.d <= e.dist
    && (e.dist == labels[e.node].dist.d ==> e.node !in expanded)
  }

  /** A node reached but not expanded has an up to date entry. */
  ghost predicate Waits(labels: seq<Label>, queue: seq<Entry>, expanded: seq<nat>, v: nat) {
    Reached(labels, v) && v !in expanded ==> Entry(labels[v].dist.d, v) in queue
  }

  /** What is expanded is no farther than what waits. */
  ghost predicate Behind(labels: seq<Label>, u: nat, d: real) {
    Reached(labels, u) ==> labels[u].dist.d <= d
  }

  ghost predicate Shape(g: Graph, first: nat, labels: seq<Label>, expanded: seq<nat>) {
    && first < |g| == |labels| && labels[first] == Label(Finite(0.0), first)
    && (forall v: nat {:trigger TreeAt(g, first, labels, expanded, v)} ::
          v < |labels| ==> TreeAt(g, first, labels, expanded, v))
    && (forall i: nat {:trigger OrderAt(first, labels, expanded, i)} ::
          i < |expanded| ==> OrderAt(first, labels, expanded, i))
    && NoRepeat(expanded)
  }

  ghost predicate Queued(labels: seq<Label>, queue: seq<Entry>, expanded: seq<nat>) {
    && NoRepeat(queue)
    && (forall e {:trigger EntryOk(labels, expanded, e)} :: e in queue ==> EntryOk(labels, expanded, e))
    && (forall v: nat {:trigger Waits(labels, queue, expanded, v)} :: Waits(labels, queue, expanded, v))
  }

  /** Everything expanded is within `d`, everything waiting beyond. */
  ghost predicate Split(labels: seq<Label>, queue: seq<Entry>, expanded: seq<nat>, d: real) {
    && (forall u {:trigger Behind(labels, u, d)} :: u in expanded ==> Behind(labels, u, d))
    && (forall e :: e in queue ==> d <= e.dist)
  }

  lemma Start(g: Graph, first: nat, labels: seq<Label>)
    requires first < |g| == |labels|
    requires labels == seq(|g|, _ => Label(Infinite, first))[first := Label(Finite(0.0), first)]
    ensures Shape(g, first, labels, []) && Queued(labels, [Entry(0.0, first)], [])
    ensures Split(labels, [Entry(0.0, first)], [], 0.0)
  {
    forall v: nat | v < |labels|
      ensures TreeAt(g, first, labels, [], v)
    {
    }
    forall v: nat
      ensures Waits(labels, [Entry(0.0, first)], [], v)
    {
    }
  }

  /** An entry overtaken by a shorter way is dropped. */
  lemma DropStale(labels: seq<Label>, queue: seq<Entry>, expanded: seq<nat>, e: Entry, rest: seq<Entry>)
    requires Queued(labels, queue, expanded) && e in queue
    requires exists i :: 0 <= i < |queue| && queue[i] == e && rest == Without(queue, i)
    requires Reached(labels, e.node) && labels[e.node].dist.d < e.dist
    ensures Queued(labels, rest, expanded)
  {
    PopRest(queue, e, rest);
    forall x | x in rest
      ensures EntryOk(labels, expanded, x)
    {
      assert EntryOk(labels, expanded, x);
    }
    forall v: nat
      ensures Waits(labels, rest, expanded, v)
    {
      assert Waits(labels, queue, expanded, v);
    }
  }

  /** A node popped up to date is expanded, for the first time. */
  lemma ExpandNode(g: Graph, first: nat, labels: seq<Label>, queue: seq<Entry>, expanded: seq<nat>, d: real,
                   e: Entry, rest: seq<Entry>)
    requires Shape(g, first, labels, expanded) && Queued(labels, queue, expanded) && Split(labels, queue, expanded, d)
    requires e in queue && forall x :: x in queue ==> !Less(x, e)
    requires exists i :: 0 <= i < |queue| && queue[i] == e && rest == Without(queue, i)
    requires Reached(labels, e.node) && labels[e.node].dist.d == e.dist
    ensures e.node !in expanded && Shape(g, first, labels, expanded + [e.node])
    ensures Queued(labels, rest, expanded + [e.node]) && Split(labels, rest, expanded + [e.node], e.dist)
  {
    PopRest(queue, e, rest);
    assert EntryOk(labels, expanded, e);
    var now := expanded + [e.node];
    forall v: nat | v < |labels|
      ensures TreeAt(g, first, labels, now, v)
    {
      assert TreeAt(g, first, labels, expanded, v);
    }
    forall i: nat | i < |now|
      ensures OrderAt(first, labels, now, i)
    {
      if i < |expanded| {
        assert OrderAt(first, labels, expanded, i);
        assert now[..i] == expanded[..i];
      } else {
        assert TreeAt(g, first, labels, expanded, e.node);
        assert now[..i] == expanded;
      }
    }
    forall x | x in rest
      ensures EntryOk(labels, now, x) && e.dist <= x.dist
    {
      assert EntryOk(labels, expanded, x);
      assert x.node == e.node && x.dist == e.dist ==> x == e;
    }
    forall v: nat
      ensures Waits(labels, rest, now, v)
    {
      assert Waits(labels, queue, expanded, v);
    }
    forall u | u in now
      ensures Behind(labels, u, e.dist)
    {
      assert u in expanded ==> Behind(labels, u, d);
    }
  }

  /** A shorter way to `v` through the node being expanded; `v` itself was not expanded yet. */
  lemma Improve(g: Graph, first: nat, labels: seq<Label>, queue: seq<Entry>, expanded: seq<nat>, u: nat, v: nat, w: real)
    requires Shape(g, first, labels, expanded) && Queued(labels, queue, expanded)
    requires u in expanded && Reached(labels, u) && Split(labels, queue, expanded, labels[u].dist.d)
    requires v < |g| && HasArc(g, u, v, w) && w >= 0.0
    requires labels[v].dist.Infinite? || labels[u].dist.d + w < labels[v].dist.d
    ensures var total := labels[u].dist.d + w; var now := labels[v := Label(Finite(total), u)];
      && v != first && v !in expanded && Shape(g, first, now, expanded)
      && Queued(now, queue + [Entry(total, v)], expanded)
      && now[u] == labels[u] && Split(now, queue + [Entry(total, v)], expanded, labels[u].dist.d)
  {
    var total := labels[u].dist.d + w;
    var now, all := labels[v := Label(Finite(total), u)], queue + [Entry(total, v)];
    assert TreeAt(g, first, labels, expanded, u) && TreeAt(g, first, labels, expanded, v);
    ExpandedReached(g, first, labels, expanded);
    NotExpanded(labels, queue, expanded, labels[u].dist.d, v);
    ImproveShape(g, first, labels, expanded, u, v, w);
    ImproveQueue(labels, queue, expanded, v, Label(Finite(total), u));
    forall x | x in expanded
      ensures Behind(now, x, labels[u].dist.d)
    {
      assert Behind(labels, x, labels[u].dist.d);
    }
  }

  lemma NotExpanded(labels: seq<Label>, queue: seq<Entry>, expanded: seq<nat>, d: real, v: nat)
    requires Split(labels, queue, expanded, d) && v < |labels| && (labels[v].dist.Infinite? || d < labels[v].dist.d)
    requires forall x :: x in expanded ==> Reached(labels, x)
    ensures v !in expanded
  {
    assert v in expanded ==> Behind(labels, v, d);
  }

  lemma ExpandedReached(g: Graph, first: nat, labels: seq<Label>, expanded: seq<nat>)
    requires Shape(g, first, labels, expanded)
    ensures forall x :: x in expanded ==> Reached(labels, x)
  {
    forall x | x in expanded
      ensures Reached(labels, x)
    {
      var i :| 0 <= i < |expanded| && expanded[i] == x;
      assert OrderAt(first, labels, expanded, i);
    }
  }

  lemma ImproveShape(g: Graph, first: nat, labels: seq<Label>, expanded: seq<nat>, u: nat, v: nat, w: real)
    requires Shape(g, first, labels, expanded) && v < |g| && v != first && v !in expanded
    requires u in expanded && Reached(labels, u) && labels[u].dist.d >= 0.0 && HasArc(g, u, v, w) && w >= 0.0
    ensures Shape(g, first, labels[v := Label(Finite(labels[u].dist.d + w), u)], expanded)
  {
    var now := labels[v := Label(Finite(labels[u].dist.d + w), u)];
    forall x: nat | x < |now|
      ensures TreeAt(g, first, now, expanded, x)
    {
      assert TreeAt(g, first, labels, expanded, x);
    }
    forall i: nat | i < |expanded|
      ensures OrderAt(first, now, expanded, i)
    {
      assert OrderAt(first, labels, expanded, i);
      assert expanded[i] in expanded;
    }
  }

  lemma ImproveQueue(labels: seq<Label>, queue: seq<Entry>, expanded: seq<nat>, v: nat, l: Label)
    requires Queued(labels, queue, expanded) && v < |labels| && v !in expanded && l.dist.Finite?
    requires labels[v].dist.Infinite? || l.dist.d < labels[v].dist.d
    ensures Queued(labels[v := l], queue + [Entry(l.dist.d, v)], expanded)
  {
    var now, all := labels[v := l], queue + [Entry(l.dist.d, v)];
    assert Entry(l.dist.d, v) in queue ==> EntryOk(labels, expanded, Entry(l.dist.d, v));
    forall e | e in all
      ensures EntryOk(now, expanded, e)
    {
      assert e in queue ==> EntryOk(labels, expanded, e);
    }
    forall x: nat
      ensures Waits(now, all, expanded, x)
    {
      assert Waits(labels, queue, expanded, x);
    }
  }

  // ---------- child slots

  /** How many of the first `m` nodes hang on node `u`. */
  ghost function Kids(labels: seq<Label>, first: nat, u: nat, m: nat): nat
    requires m <= |labels|
  {
    if m == 0 then 0 else Kids(labels, first, u, m - 1) + One(Hangs(labels, first, u, m - 1))
  }

  ghost predicate Hangs(labels: seq<Label>, first: nat, u: nat, v: nat)
    requires v < |labels|
  {
    v != first && labels[v].dist.Finite? && labels[v].pred == u
  }

  lemma {:induction false} KidsChange(labels: seq<Label>, first: nat, u: nat, m: nat, v: nat, l: Label)
    requires m <= |labels| && v < |labels|
    ensures Kids(labels[v := l], first, u, m) <= Kids(labels, first, u, m) + One(v < m && l.pred == u)
  {
    if m == 0 {
    } else {
      KidsChange(labels, first, u, m - 1, v, l);
    }
  }

  /** A node has no more children than slots it has spent, and no slot beyond the limit was spent. */
  ghost predicate Budget(labels: seq<Label>, first: nat, names: seq<nat>, before: seq<nat>, child: seq<nat>, limit: nat, u: nat)
    requires u < |labels| == |names|
  {
    && names[u] < |child| == |before|
    && before[names[u]] + Kids(labels, first, u, |labels|) <= child[names[u]]
    && child[names[u]] <= if before[names[u]] < limit then limit else before[names[u]]
  }

  ghost predicate Budgets(labels: seq<Label>, first: nat, names: seq<nat>, before: seq<nat>, child: seq<nat>, limit: nat) {
    && |labels| == |names| && |child| == |before|
    && (forall u: nat {:trigger Budget(labels, first, names, before, child, limit, u)} ::
          u < |labels| ==> Budget(labels, first, names, before, child, limit, u))
  }

  lemma SpendSlot(labels: seq<Label>, first: nat, names: seq<nat>, before: seq<nat>, child: seq<nat>, limit: nat,
                  v: nat, l: Label)
    requires Budgets(labels, first, names, before, child, limit) && v < |labels| && l.pred < |names|
    requires names[l.pred] < |child| && child[names[l.pred]] < limit
    ensures var x := names[l.pred]; Budgets(labels[v := l], first, names, before, child[x := child[x] + 1], limit)
  {
    var x := names[l.pred];
    var now, spent := labels[v := l], child[x := child[x] + 1];
    forall u: nat | u < |labels|
      ensures Budget(now, first, names, before, spent, limit, u)
    {
      assert Budget(labels, first, names, before, child, limit, u);
      KidsChange(labels, first, u, |labels|, v, l);
    }
  }

  /** The slots that can still be spent. */
  ghost function Slots(names: seq<nat>, child: seq<nat>, limit: nat): nat {
    if names == [] then 0
    else
      var x := names[|names| - 1];
      Slots(names[..|names| - 1], child, limit) + (if x < |child| && child[x] < limit then limit - child[x] else 0)
  }

  lemma {:induction false} SlotsSpent(names: seq<nat>, child: seq<nat>, limit: nat, x: nat)
    requires x < |child| && child[x] < limit
    ensures Slots(names, child[x := child[x] + 1], limit) <= Slots(names, child, limit)
    ensures x in names ==> Slots(names, child[x := child[x] + 1], limit) < Slots(names, child, limit)
  {
    if names == [] {
    } else {
      SlotsSpent(names[..|names| - 1], child, limit, x);
      assert names == names[..|names| - 1] + [names[|names| - 1]];
    }
  }

  // ---------- arcs that no longer offer a shorter way

  ghost predicate RelaxedArc(labels: seq<Label>, u: nat, a: Arc) {
    Reached(labels, u) && Reached(labels, a.to) && labels[a.to].dist.d <= labels[u].dist.d + a.weight
  }

  ghost predicate Relaxed(g: Graph, labels: seq<Label>, u: nat, k: nat)
    requires u < |g| && k <= |g[u]|
  {
    forall j {:trigger g[u][j]} :: 0 <= j < k ==> RelaxedArc(labels, u, g[u][j])
  }

  /** An expanded node with slots left has nothing to offer. */
  ghost predicate Settled(g: Graph, labels: seq<Label>, names: seq<nat>, child: seq<nat>, limit: nat, u: nat) {
    u < |g| && u < |names| && names[u] < |child| && (child[names[u]] < limit ==> Relaxed(g, labels, u, |g[u]|))
  }

  ghost predicate AllSettled(g: Graph, labels: seq<Label>, names: seq<nat>, child: seq<nat>, limit: nat, nodes: seq<nat>) {
    forall u {:trigger Settled(g, labels, names, child, limit, u)} :: u in nodes ==> Settled(g, labels, names, child, limit, u)
  }

  /** Shorter ways and spent slots leave settled nodes settled, as long as their own distances stay. */
  lemma StillSettled(g: Graph, labels: seq<Label>, names: seq<nat>, child: seq<nat>, limit: nat, nodes: seq<nat>,
                     v: nat, l: Label, x: nat)
    requires AllSettled(g, labels, names, child, limit, nodes) && x < |child|
    requires v < |labels| && v !in nodes && l.dist.Finite? && (labels[v].dist.Infinite? || l.dist.d < labels[v].dist.d)
    ensures AllSettled(g, labels[v := l], names, child[x := child[x] + 1], limit, nodes)
  {
    var now, spent := labels[v := l], child[x := child[x] + 1];
    forall u | u in nodes
      ensures Settled(g, now, names, spent, limit, u)
    {
      assert Settled(g, labels, names, child, limit, u);
      if spent[names[u]] < limit {
        StillRelaxed(g, labels, u, |g[u]|, v, l);
      }
    }
  }

  lemma StillRelaxed(g: Graph, labels: seq<Label>, u: nat, k: nat, v: nat, l: Label)
    requires u < |g| && k <= |g[u]| && Relaxed(g, labels, u, k) && v != u
    requires v < |labels| && l.dist.Finite? && (labels[v].dist.Infinite? || l.dist.d < labels[v].dist.d)
    ensures Relaxed(g, labels[v := l], u, k)
  {
    forall j | 0 <= j < k
      ensures RelaxedArc(labels[v := l], u, g[u][j])
    {
      assert RelaxedArc(labels, u, g[u][j]);
    }
  }

  // ---------- the search

  ghost predicate Searching(g: Graph, first: nat, names: seq<nat>, before: seq<nat>, child: seq<nat>, limit: nat,
                            labels: seq<Label>, queue: seq<Entry>, expanded: seq<nat>, d: real)
  {
    && Shape(g, first, labels, expanded) && Queued(labels, queue, expanded) && Split(labels, queue, expanded, d)
    && Budgets(labels, first, names, before, child, limit)
  }

  /** The measure of the search: slots left to spend, then entries left to pop. */
  ghost predicate Progress(slots: nat, queue: seq<Entry>, slots': nat, queue': seq<Entry>) {
    slots' < slots || (slots' == slots && queue' == queue)
  }

  // ---------- which offers are taken

  ghost predicate Shorter(labels: seq<Label>, v: nat, total: real) {
    v < |labels| && (labels[v].dist.Infinite? || total < labels[v].dist.d)
  }

  ghost function Count(taken: seq<bool>): nat {
    if taken == [] then 0 else Count(taken[..|taken| - 1]) + One(taken[|taken| - 1])
  }

  ghost function Answered(labels: seq<Label>, arc: Arc, l: Label, took: bool): (r: seq<Label>)
    ensures |r| == |labels|
  {
    if took && arc.to < |labels| then labels[arc.to := l] else labels
  }

  /** The labels once node `u` has offered the way over its first arcs, of which some were taken. */
  ghost function Offered(g: Graph, labels: seq<Label>, u: nat, taken: seq<bool>): (r: seq<Label>)
    requires u < |g| && |taken| <= |g[u]| && Reached(labels, u)
    ensures |r| == |labels|
  {
    if taken == [] then labels
    else
      var k := |taken| - 1;
      Answered(Offered(g, labels, u, taken[..k]), g[u][k], Label(Finite(labels[u].dist.d + g[u][k].weight), u), taken[k])
  }

  /** An offer is taken if and only if it is shorter than what is recorded then, and a slot is left then. */
  ghost predicate TakenAt(g: Graph, labels: seq<Label>, u: nat, spent: nat, limit: nat, taken: seq<bool>, k: nat)
    requires u < |g| && k < |taken| <= |g[u]| && Reached(labels, u)
  {
    taken[k] <==>
      && Shorter(Offered(g, labels, u, taken[..k]), g[u][k].to, labels[u].dist.d + g[u][k].weight)
      && spent + Count(taken[..k]) < limit
  }

  ghost predicate Turn(g: Graph, labels: seq<Label>, u: nat, spent: nat, limit: nat, taken: seq<bool>) {
    && u < |g| && |taken| <= |g[u]| && Reached(labels, u)
    && (forall k: nat {:trigger TakenAt(g, labels, u, spent, limit, taken, k)} ::
          k < |taken| ==> TakenAt(g, labels, u, spent, limit, taken, k))
  }

  lemma OfferedMore(g: Graph, labels: seq<Label>, u: nat, taken: seq<bool>, took: bool)
    requires u < |g| && |taken| < |g[u]| && Reached(labels, u)
    ensures Count(taken + [took]) == Count(taken) + One(took)
    ensures var arc := g[u][|taken|];
      Offered(g, labels, u, taken + [took]) ==
        Answered(Offered(g, labels, u, taken), arc, Label(Finite(labels[u].dist.d + arc.weight), u), took)
  {
    var all := taken + [took];
    assert all[..|taken|] == taken;
  }

  lemma TurnMore(g: Graph, labels: seq<Label>, u: nat, spent: nat, limit: nat, taken: seq<bool>, took: bool)
    requires Turn(g, labels, u, spent, limit, taken) && |taken| < |g[u]| && g[u][|taken|].to < |labels|
    requires var arc := g[u][|taken|];
      took <==>
        && Shorter(Offered(g, labels, u, taken), arc.to, labels[u].dist.d + arc.weight)
        && spent + Count(taken) < limit
    ensures Turn(g, labels, u, spent, limit, taken + [took])
  {
    var all := taken + [took];
    assert all[..|taken|] == taken;
    forall k: nat | k < |all|
      ensures TakenAt(g, labels, u, spent, limit, all, k)
    {
      if k < |taken| {
        assert TakenAt(g, labels, u, spent, limit, taken, k);
        assert all[..k] == taken[..k];
      }
    }
  }

  ghost predicate Keeps(labels: seq<Label>, labels': seq<Label>, nodes: seq<nat>) {
    |labels| == |labels'| && forall x :: x in nodes && x < |labels| ==> labels'[x] == labels[x]
  }

  /** Offers the way over one arc of `u`. */
  method Offer(g: Graph, first: nat, names: seq<nat>, child: array<nat>, limit: nat, u: nat, k: nat,
               labels0: seq<Label>, queue0: seq<Entry>, ghost expanded: seq<nat>, ghost others: seq<nat>,
               ghost before: seq<nat>)
    returns (labels: seq<Label>, queue: seq<Entry>, took: bool)
    requires IsGraph(g) && u in expanded && Reached(labels0, u) && (forall x :: x in others ==> x in expanded)
    requires Searching(g, first, names, before, child[..], limit, labels0, queue0, expanded, labels0[u].dist.d)
    requires AllSettled(g, labels0, names, child[..], limit, others) && u < |g| && k < |g[u]| && names[u] < child.Length
    requires child[names[u]] < limit ==> Relaxed(g, labels0, u, k)
    modifies child
    ensures Reached(labels, u) && labels[u] == labels0[u]
    ensures Searching(g, first, names, before, child[..], limit, labels, queue, expanded, labels[u].dist.d)
    ensures AllSettled(g, labels, names, child[..], limit, others)
    ensures child[names[u]] < limit ==> Relaxed(g, labels, u, k + 1)
    ensures Keeps(labels0, labels, expanded)
    ensures took <==>
      Shorter(labels0, g[u][k].to, labels0[u].dist.d + g[u][k].weight) && old(child[names[u]]) < limit
    ensures if took then
              && labels == labels0[g[u][k].to := Label(Finite(labels0[u].dist.d + g[u][k].weight), u)]
              && child[..] == old(child[..])[names[u] := old(child[names[u]]) + 1]
              && Slots(names, child[..], limit) < Slots(names, old(child[..]), limit)
            else labels == labels0 && queue == queue0 && child[..] == old(child[..])
  {
    labels, queue, took := labels0, queue0, false;
    var arc := g[u][k];
    assert HasArc(g, u, arc.to, arc.weight) && arc.to < |g|;
    var total := labels[u].dist.d + arc.weight;
    if (labels[arc.to].dist.Infinite? || total < labels[arc.to].dist.d) && child[names[u]] < limit {
      ghost var l := Label(Finite(total), u);
      Improve(g, first, labels, queue, expanded, u, arc.to, arc.weight);
      SpendSlot(labels, first, names, before, child[..], limit, arc.to, l);
      SlotsSpent(names, child[..], limit, names[u]);
      StillSettled(g, labels, names, child[..], limit, others, arc.to, l, names[u]);
      StillRelaxed(g, labels, u, k, arc.to, l);
      ghost var spent := child[..][names[u] := child[names[u]] + 1];
      labels := labels[arc.to := Label(Finite(total), u)];
      queue := queue + [Entry(total, arc.to)];
      child[names[u]] := child[names[u]] + 1;
      took := true;
      assert child[..] == spent;
    }
  }

  /**
   Offers the way through `u` to all its neighbours. Each arc in turn is taken if and only if it is shorter then
   and `u` has a slot left then; only a taken one costs a slot.
   */
  method Expand(g: Graph, first: nat, names: seq<nat>, child: array<nat>, limit: nat, u: nat,
                labels0: seq<Label>, queue0: seq<Entry>, ghost expanded: seq<nat>, ghost others: seq<nat>,
                ghost before: seq<nat>)
    returns (labels: seq<Label>, queue: seq<Entry>, ghost taken: seq<bool>)
    requires IsGraph(g) && u in expanded && Reached(labels0, u) && (forall x :: x in others ==> x in expanded)
    requires Searching(g, first, names, before, child[..], limit, labels0, queue0, expanded, labels0[u].dist.d)
    requires AllSettled(g, labels0, names, child[..], limit, others)
    modifies child
    ensures Reached(labels, u) && labels[u] == labels0[u]
    ensures Searching(g, first, names, before, child[..], limit, labels, queue, expanded, labels[u].dist.d)
    ensures AllSettled(g, labels, names, child[..], limit, others) && Settled(g, labels, names, child[..], limit, u)
    ensures Progress(Slots(names, old(child[..]), limit), queue0, Slots(names, child[..], limit), queue)
    ensures Keeps(labels0, labels, expanded)
    ensures u < |g| && u < |names| && names[u] < child.Length && |taken| == |g[u]|
    ensures Turn(g, labels0, u, old(child[..])[names[u]], limit, taken) && labels == Offered(g, labels0, u, taken)
    ensures child[..] == old(child[..])[names[u] := old(child[..])[names[u]] + Count(taken)]
  {
    labels, queue, taken := labels0, queue0, [];
    var k := 0;
    ghost var start := child[..];
    assert Budget(labels, first, names, before, child[..], limit, u);
    while k < |g[u]|
      invariant 0 <= k <= |g[u]| && |child[..]| == |before| && Reached(labels, u) && labels[u] == labels0[u]
      invariant Searching(g, first, names, before, child[..], limit, labels, queue, expanded, labels[u].dist.d)
      invariant AllSettled(g, labels, names, child[..], limit, others)
      invariant names[u] < child.Length && (child[names[u]] < limit ==> Relaxed(g, labels, u, k))
      invariant Progress(Slots(names, start, limit), queue0, Slots(names, child[..], limit), queue)
      invariant |taken| == k && Turn(g, labels0, u, start[names[u]], limit, taken)
      invariant labels == Offered(g, labels0, u, taken) && Keeps(labels0, labels, expanded)
      invariant child[..] == start[names[u] := start[names[u]] + Count(taken)]
    {
      var took;
      labels, queue, took := Offer(g, first, names, child, limit, u, k, labels, queue, expanded, others, before);
      TurnMore(g, labels0, u, start[names[u]], limit, taken, took);
      OfferedMore(g, labels0, u, taken, took);
      taken := taken + [took];
      k := k + 1;
    }
  }

  // ---------- the history of a search

  /** A node was expanded, and some of the offers over its arcs were taken. */
  datatype Expansion = Expansion(node: nat, taken: seq<bool>)

  ghost function StartLabels(n: nat, first: nat): seq<Label>
    requires first < n
  {
    seq(n, _ => Label(Infinite, first))[first := Label(Finite(0.0), first)]
  }

  /** The labels after these expansions. */
  ghost function After(g: Graph, first: nat, history: seq<Expansion>): (r: seq<Label>)
    requires first < |g|
    ensures |r| == |g|
  {
    if history == [] then StartLabels(|g|, first)
    else
      var n := |history| - 1;
      var before, x := After(g, first, history[..n]), history[n];
      if x.node < |g| && |x.taken| <= |g[x.node]| && Reached(before, x.node)
      then Offered(g, before, x.node, x.taken) else before
  }

  /** The slots spent under a name: one for each offer taken. */
  ghost function Spent(names: seq<nat>, history: seq<Expansion>, name: nat): nat {
    if history == [] then 0
    else
      var n := |history| - 1;
      var x := history[n];
      Spent(names, history[..n], name) + (if x.node < |names| && names[x.node] == name then Count(x.taken) else 0)
  }

  /** In the i-th expansion every arc was offered, and taken exactly when it was shorter then and a slot was left. */
  ghost predicate ExpansionAt(g: Graph, first: nat, names: seq<nat>, before: seq<nat>, limit: nat,
                              history: seq<Expansion>, i: nat)
    requires first < |g| && i < |history|
  {
    var x := history[i];
    && x.node < |g| && x.node < |names| && names[x.node] < |before| && |x.taken| == |g[x.node]|
    && Turn(g, After(g, first, history[..i]), x.node,
            before[names[x.node]] + Spent(names, history[..i], names[x.node]), limit, x.taken)
  }

  /** What the search did, expansion by expansion, accounts for all labels and all slots. */
  ghost predicate History(g: Graph, first: nat, names: seq<nat>, before: seq<nat>, limit: nat, labels: seq<Label>,
                          child: seq<nat>, expanded: seq<nat>, history: seq<Expansion>)
  {
    && first < |g| && |child| == |before| && |history| == |expanded| && labels == After(g, first, history)
    && (forall i :: 0 <= i < |history| ==> history[i].node == expanded[i])
    && (forall i: nat {:trigger ExpansionAt(g, first, names, before, limit, history, i)} ::
          i < |history| ==> ExpansionAt(g, first, names, before, limit, history, i))
    && (forall x :: 0 <= x < |child| ==> child[x] == before[x] + Spent(names, history, x))
  }

  lemma HistoryMore(g: Graph, first: nat, names: seq<nat>, before: seq<nat>, limit: nat, labels: seq<Label>,
                    child: seq<nat>, expanded: seq<nat>, history: seq<Expansion>, u: nat, taken: seq<bool>)
    requires History(g, first, names, before, limit, labels, child, expanded, history)
    requires u < |g| && u < |names| && names[u] < |child| && |taken| == |g[u]|
    requires Turn(g, labels, u, child[names[u]], limit, taken)
    ensures History(g, first, names, before, limit, Offered(g, labels, u, taken),
                    child[names[u] := child[names[u]] + Count(taken)], expanded + [u], history + [Expansion(u, taken)])
  {
    var all := history + [Expansion(u, taken)];
    assert all[..|history|] == history;
    forall i: nat | i < |all|
      ensures ExpansionAt(g, first, names, before, limit, all, i)
    {
      if i < |history| {
        assert ExpansionAt(g, first, names, before, limit, history, i);
        assert all[..i] == history[..i];
      }
    }
    forall x | 0 <= x < |child|
      ensures child[names[u] := child[names[u]] + Count(taken)][x] == before[x] + Spent(names, all, x)
    {
      SpentMore(names, history, Expansion(u, taken), x);
    }
  }

  lemma SpentMore(names: seq<nat>, history: seq<Expansion>, e: Expansion, x: nat)
    requires e.node < |names|
    ensures Spent(names, history + [e], x) == Spent(names, history, x) + if names[e.node] == x then Count(e.taken) else 0
  {
    assert (history + [e])[..|history|] == history;
  }

  /** A node expanded once has spent exactly one slot for each offer of its own that was taken. */
  lemma {:induction false} SpentOnce(names: seq<nat>, history: seq<Expansion>, i: nat, n: nat)
    requires NoRepeat(names) && n <= |history| && i < |history|
    requires forall j :: 0 <= j < |history| ==> history[j].node < |names|
    requires forall j :: 0 <= j < |history| && j != i ==> history[j].node != history[i].node
    ensures Spent(names, history[..n], names[history[i].node]) == if i < n then Count(history[i].taken) else 0
  {
    if n == 0 {
    } else {
      SpentOnce(names, history, i, n - 1);
      assert history[..n][..n - 1] == history[..n - 1];
    }
  }

  /** Nodes are expanded in the order of their distances. */
  ghost predicate ByDistance(labels: seq<Label>, expanded: seq<nat>) {
    forall i, j :: 0 <= i < j < |expanded| ==>
      Reached(labels, expanded[i]) && Reached(labels, expanded[j]) && labels[expanded[i]].dist.d <= labels[expanded[j]].dist.d
  }

  lemma FartherLast(labels: seq<Label>, labels': seq<Label>, expanded: seq<nat>, u: nat)
    requires ByDistance(labels, expanded) && Keeps(labels, labels', expanded + [u]) && Reached(labels, u)
    requires forall x :: x in expanded ==> Reached(labels, x) && Behind(labels, x, labels[u].dist.d)
    ensures ByDistance(labels', expanded + [u])
  {
    var now := expanded + [u];
    forall i | 0 <= i < |now|
      ensures Reached(labels', now[i]) && labels'[now[i]] == labels[now[i]] && labels[now[i]].dist.d <= labels[u].dist.d
    {
      assert now[i] in now;
      assert i < |expanded| ==> expanded[i] in expanded && Behind(labels, expanded[i], labels[u].dist.d);
    }
  }

  lemma NoSlotLeft(g: Graph, names: seq<nat>, child: seq<nat>, limit: nat, labels: seq<Label>, u: nat, v: nat, w: real)
    requires Settled(g, labels, names, child, limit, u) && HasArc(g, u, v, w) && !Reached(labels, v)
    ensures limit <= child[names[u]]
  {
    var k :| 0 <= k < |g[u]| && g[u][k] == Arc(v, w);
  }

  /**
   A node that was never reached can be offered a way only by nodes that have no slot left, and those have spent
   all they had on shorter ways.
   */
  lemma Unreached(g: Graph, first: nat, names: seq<nat>, before: seq<nat>, limit: nat, labels: seq<Label>, child: seq<nat>,
                  expanded: seq<nat>, history: seq<Expansion>, i: nat, v: nat, w: real)
    requires History(g, first, names, before, limit, labels, child, expanded, history) && NoRepeat(names)
    requires Shape(g, first, labels, expanded) && AllSettled(g, labels, names, child, limit, expanded)
    requires i < |history| && HasArc(g, expanded[i], v, w) && v < |g| && !Reached(labels, v)
    ensures expanded[i] < |names| && names[expanded[i]] < |child|
    ensures limit <= child[names[expanded[i]]] == before[names[expanded[i]]] + Count(history[i].taken)
  {
    var u := expanded[i];
    assert ExpansionAt(g, first, names, before, limit, history, i);
    assert u in expanded && Settled(g, labels, names, child, limit, u);
    NoSlotLeft(g, names, child, limit, labels, u, v, w);
    forall j: nat | j < |history|
      ensures history[j].node < |names|
    {
      assert ExpansionAt(g, first, names, before, limit, history, j);
    }
    SpentOnce(names, history, i, |history|);
    assert history[..|history|] == history;
  }

  method Search(g: Graph, first: nat, names: seq<nat>, child: array<nat>, limit: nat)
    returns (labels: seq<Label>, expanded: seq<nat>, ghost history: seq<Expansion>)
    requires IsGraph(g) && first < |g| == |names| && forall u :: 0 <= u < |g| ==> names[u] < child.Length
    modifies child
    ensures Shape(g, first, labels, expanded) && (forall v: nat :: Reached(labels, v) <==> v in expanded)
    ensures Budgets(labels, first, names, old(child[..]), child[..], limit)
    ensures AllSettled(g, labels, names, child[..], limit, expanded) && ByDistance(labels, expanded)
    ensures History(g, first, names, old(child[..]), limit, labels, child[..], expanded, history)
  {
    labels := seq(|g|, _ => Label(Infinite, first))[first := Label(Finite(0.0), first)];
    var queue := [Entry(0.0, first)];
    expanded, history := [], [];
    ghost var before, d := child[..], 0.0;
    Start(g, first, labels);
    StartBudgets(labels, first, names, before, limit);
    while queue != []
      invariant Searching(g, first, names, before, child[..], limit, labels, queue, expanded, d)
      invariant AllSettled(g, labels, names, child[..], limit, expanded) && ByDistance(labels, expanded)
      invariant History(g, first, names, before, limit, labels, child[..], expanded, history)
      decreases Slots(names, child[..], limit), |queue|
    {
      var e, rest := Pop(queue);
      PopRest(queue, e, rest);
      assert EntryOk(labels, expanded, e);
      if labels[e.node].dist.d < e.dist {
        DropStale(labels, queue, expanded, e, rest);
        queue := rest;
      } else {
        labels, queue, expanded, history, d :=
          Settle(g, first, names, child, limit, labels, queue, expanded, history, d, before, e, rest);
      }
    }
    ExpandedReached(g, first, labels, expanded);
    forall v: nat | Reached(labels, v)
      ensures v in expanded
    {
      assert Waits(labels, queue, expanded, v);
    }
  }

  /** An entry that is up to date: its node is expanded. */
  method Settle(g: Graph, first: nat, names: seq<nat>, child: array<nat>, limit: nat, labels0: seq<Label>,
                ghost queue0: seq<Entry>, expanded0: seq<nat>, ghost history0: seq<Expansion>, ghost d0: real,
                ghost before: seq<nat>, e: Entry, rest: seq<Entry>)
    returns (labels: seq<Label>, queue: seq<Entry>, expanded: seq<nat>, ghost history: seq<Expansion>, ghost d: real)
    requires IsGraph(g) && Searching(g, first, names, before, child[..], limit, labels0, queue0, expanded0, d0)
    requires AllSettled(g, labels0, names, child[..], limit, expanded0) && ByDistance(labels0, expanded0)
    requires History(g, first, names, before, limit, labels0, child[..], expanded0, history0)
    requires e in queue0 && forall x :: x in queue0 ==> !Less(x, e)
    requires exists i :: 0 <= i < |queue0| && queue0[i] == e && rest == Without(queue0, i)
    requires Reached(labels0, e.node) && labels0[e.node].dist.d == e.dist
    modifies child
    ensures Searching(g, first, names, before, child[..], limit, labels, queue, expanded, d)
    ensures AllSettled(g, labels, names, child[..], limit, expanded) && ByDistance(labels, expanded)
    ensures History(g, first, names, before, limit, labels, child[..], expanded, history)
    ensures Progress(Slots(names, old(child[..]), limit), rest, Slots(names, child[..], limit), queue)
  {
    ExpandNode(g, first, labels0, queue0, expanded0, d0, e, rest);
    ghost var spent := child[..];
    expanded := expanded0 + [e.node];
    d := e.dist;
    ghost var taken;
    labels, queue, taken := Expand(g, first, names, child, limit, e.node, labels0, rest, expanded, expanded0, before);
    HistoryMore(g, first, names, before, limit, labels0, spent, expanded0, history0, e.node, taken);
    history := history0 + [Expansion(e.node, taken)];
    ExpandedReached(g, first, labels0, expanded0);
    FartherLast(labels0, labels, expanded0, e.node);
  }

  lemma {:induction false} NoKids(labels: seq<Label>, first: nat, u: nat, m: nat)
    requires m <= |labels| && forall v :: 0 <= v < |labels| && v != first ==> labels[v].dist.Infinite?
    ensures Kids(labels, first, u, m) == 0
  {
    if m == 0 {
    } else {
      NoKids(labels, first, u, m - 1);
    }
  }

  lemma StartBudgets(labels: seq<Label>, first: nat, names: seq<nat>, child: seq<nat>, limit: nat)
    requires |labels| == |names| && forall u :: 0 <= u < |names| ==> names[u] < |child|
    requires forall v :: 0 <= v < |labels| && v != first ==> labels[v].dist.Infinite?
    ensures Budgets(labels, first, names, child, child, limit)
  {
    forall u: nat | u < |labels|
      ensures Budget(labels, first, names, child, child, limit, u)
    {
      NoKids(labels, first, u, |labels|);
    }
  }

  // ---------- what the labels mean

  /** A walk over arcs of the graph, and its length. */
  ghost predicate IsWalk(g: Graph, p: seq<nat>, length: real)
    decreases |p|
  {
    && p != []
    && if |p| == 1 then length == 0.0
       else
         var n := |p| - 1;
         exists w {:trigger HasArc(g, p[n - 1], p[n], w)} :: HasArc(g, p[n - 1], p[n], w) && IsWalk(g, p[..n], length - w)
  }

  /** No walk through nodes with slots left is shorter than the distance recorded. */
  lemma {:induction false} Shortest(g: Graph, first: nat, names: seq<nat>, child: seq<nat>, limit: nat,
                                    labels: seq<Label>, expanded: seq<nat>, p: seq<nat>, length: real)
    requires Shape(g, first, labels, expanded) && (forall v: nat :: Reached(labels, v) <==> v in expanded)
    requires AllSettled(g, labels, names, child, limit, expanded)
    requires IsWalk(g, p, length) && p[0] == first
    requires forall i :: 0 <= i < |p| - 1 ==> p[i] < |names| && names[p[i]] < |child| && child[names[p[i]]] < limit
    ensures Reached(labels, p[|p| - 1]) && labels[p[|p| - 1]].dist.d <= length
    decreases |p|
  {
    if |p| <= 1 {
    } else {
      var n := |p| - 1;
      var u := p[n - 1];
      var w :| HasArc(g, u, p[n], w) && IsWalk(g, p[..n], length - w);
      Shortest(g, first, names, child, limit, labels, expanded, p[..n], length - w);
      assert Settled(g, labels, names, child, limit, u);
      var j :| 0 <= j < |g[u]| && g[u][j] == Arc(p[n], w);
      assert RelaxedArc(labels, u, g[u][j]);
    }
  }

  /** The graph's weights are the delays between the nodes' positions. */
  ghost predicate Matches(g: Graph, delay: (nat, nat) -> real) {
    forall u, k {:trigger g[u][k]} :: 0 <= u < |g| && 0 <= k < |g[u]| ==> g[u][k].weight == delay(g[u][k].to, u)
  }

  lemma ArcDelay(g: Graph, u: nat, v: nat, w: real, delay: (nat, nat) -> real)
    requires HasArc(g, u, v, w) && Matches(g, delay)
    ensures w == delay(v, u)
  {
    var k :| 0 <= k < |g[u]| && g[u][k] == Arc(v, w);
  }

  /**
   Follows the nodes before `last` back to the first one: the way exists, and the delays along it add up to the
   distance recorded.
   */
  method WalkBack(ghost g: Graph, first: nat, labels: seq<Label>, ghost expanded: seq<nat>, last: nat,
                  delay: (nat, nat) -> real)
    returns (path: seq<nat>, sum: real)
    requires Shape(g, first, labels, expanded) && last < |g| && last != first
    requires forall v: nat :: Reached(labels, v) <==> v in expanded
    ensures |path| >= 2 && path[0] == last && path[|path| - 1] == first
    ensures forall i :: 0 <= i < |path| - 1 ==> path[i] < |labels| && path[i + 1] == labels[path[i]].pred
    ensures !Reached(labels, last) ==> sum == delay(last, first)
    ensures Reached(labels, last) && Matches(g, delay) ==> sum == labels[last].dist.d
  {
    path, sum := [last], 0.0;
    var a := last;
    ghost var i: nat := if last in expanded then Place(expanded, last) else 0;
    while labels[a].pred != first
      invariant a < |g| && a != first && path != [] && path[0] == last && path[|path| - 1] == a
      invariant forall j :: 0 <= j < |path| - 1 ==> path[j] < |labels| && path[j + 1] == labels[path[j]].pred
      invariant if Reached(labels, last) then Reached(labels, a) && i < |expanded| && expanded[i] == a
                else a == last && sum == 0.0
      invariant Reached(labels, last) && Matches(g, delay) ==> sum + labels[a].dist.d == labels[last].dist.d
      decreases i
    {
      assert TreeAt(g, first, labels, expanded, a) && OrderAt(first, labels, expanded, i);
      var b := labels[a].pred;
      if Matches(g, delay) {
        ArcDelay(g, b, a, labels[a].dist.d - labels[b].dist.d, delay);
      }
      sum := sum + delay(a, b);
      path := path + [b];
      i := Place(expanded[..i], b);
      a := b;
    }
    assert TreeAt(g, first, labels, expanded, a);
    if Reached(labels, a) && Matches(g, delay) {
      ArcDelay(g, first, a, labels[a].dist.d, delay);
    }
    sum := sum + delay(a, first);
    path := path + [first];
  }

  ghost function Place(s: seq<nat>, x: nat): (i: nat)
    requires x in s
    ensures i < |s| && s[i] == x
  {
    if s[0] == x then 0 else 1 + Place(s[1..], x)
  }

  // ---------- parents

  /** The parent a node gets: the one it has, or the node before it. */
  ghost function ParentOf(first: nat, names: seq<nat>, labels: seq<Label>, before: seq<int>, v: nat): int
    requires v < |labels| == |names| && names[v] < |before| && labels[v].pred < |names|
  {
    if v != first && before[names[v]] < 0 && labels[v].dist.Finite? then names[labels[v].pred] else before[names[v]]
  }

  /** How many of the first `m` nodes had no parent and got `x`. */
  ghost function Adopted(names: seq<nat>, before: seq<int>, after: seq<int>, x: int, m: nat): nat
    requires m <= |names| && |before| == |after| && forall v :: 0 <= v < |names| ==> names[v] < |before|
  {
    if m == 0 then 0
    else Adopted(names, before, after, x, m - 1) + One(before[names[m - 1]] < 0 && after[names[m - 1]] == x)
  }

  lemma {:induction false} AdoptedKids(first: nat, names: seq<nat>, labels: seq<Label>, before: seq<int>, after: seq<int>,
                                       u: nat, m: nat)
    requires m <= |names| == |labels| && |before| == |after| && u < |names| && NoRepeat(names)
    requires forall v :: 0 <= v < |names| ==> names[v] < |before| && labels[v].pred < |names|
    requires forall v: nat :: v < |names| ==> after[names[v]] == ParentOf(first, names, labels, before, v)
    ensures Adopted(names, before, after, names[u], m) <= Kids(labels, first, u, m)
  {
    if m == 0 {
    } else {
      AdoptedKids(first, names, labels, before, after, u, m - 1);
      var v := m - 1;
      assert names[labels[v].pred] == names[u] ==> labels[v].pred == u;
    }
  }

  lemma PredsInside(g: Graph, first: nat, labels: seq<Label>, expanded: seq<nat>)
    requires Shape(g, first, labels, expanded)
    ensures forall v :: 0 <= v < |labels| ==> labels[v].pred < |labels|
  {
    forall v: nat | v < |labels|
      ensures labels[v].pred < |labels|
    {
      assert TreeAt(g, first, labels, expanded, v);
    }
  }

  method SetParent(first: nat, names: seq<nat>, parent: array<int>, labels: seq<Label>, v: nat, ghost before: seq<int>)
    requires v < |labels| == |names| && v != first && labels[v].pred < |labels| && names[v] < parent.Length == |before|
    requires parent[names[v]] == before[names[v]]
    modifies parent
    ensures parent[names[v]] == ParentOf(first, names, labels, before, v)
    ensures forall x :: 0 <= x < parent.Length && x != names[v] ==> parent[x] == old(parent[x])
  {
    if parent[names[v]] < 0 && labels[v].dist.Finite? {
      parent[names[v]] := names[labels[v].pred];
    }
  }

  /** Nodes without a parent get the node before them; every node's way back is walked. */
  method SetParents(ghost g: Graph, first: nat, names: seq<nat>, parent: array<int>, labels: seq<Label>,
                    ghost expanded: seq<nat>, delay: (nat, nat) -> real)
    requires Shape(g, first, labels, expanded) && (forall v: nat :: Reached(labels, v) <==> v in expanded)
    requires |names| == |labels| && NoRepeat(names) && forall v :: 0 <= v < |names| ==> names[v] < parent.Length
    requires forall v :: 0 <= v < |labels| ==> labels[v].pred < |labels|
    modifies parent
    ensures forall v: nat :: v < |names| ==> parent[names[v]] == ParentOf(first, names, labels, old(parent[..]), v)
    ensures forall x :: 0 <= x < parent.Length && x !in names ==> parent[x] == old(parent[x])
  {
    ghost var before := parent[..];
    var last := 0;
    while last < |labels|
      invariant 0 <= last <= |labels| && |before| == parent.Length
      invariant forall v: nat :: v < last ==> parent[names[v]] == ParentOf(first, names, labels, before, v)
      invariant forall v: nat :: last <= v < |names| ==> parent[names[v]] == before[names[v]]
      invariant forall x :: 0 <= x < parent.Length && x !in names ==> parent[x] == before[x]
    {
      if last != first {
        assert forall v: nat :: v < |names| && v != last ==> names[v] != names[last];
        SetParent(first, names, parent, labels, last, before);
        var _, _ := WalkBack(g, first, labels, expanded, last, delay);
      }
      last := last + 1;
    }
  }

  /**
   The whole of it. Every node reached was expanded, once; the nodes before it lead to the first one over arcs
   that make up its distance; a node gains no more children than it spent slots, and spends none beyond the
   limit; an expanded node with slots left offers nobody a shorter way. Labels and slots are exactly those of a
   history in which nodes are expanded in the order of their distances, each offers all its arcs in order, and an
   offer is taken, at the cost of one slot, if and only if it is shorter then and a slot is left then.
   */
  method Dijkstra(parent: array<int>, g: Graph, names: seq<nat>, child: array<nat>, first: nat,
                  delay: (nat, nat) -> real, limit: nat)
    returns (labels: seq<Label>, ghost expanded: seq<nat>, ghost history: seq<Expansion>)
    requires IsGraph(g) && first < |g| == |names| && NoRepeat(names)
    requires forall u :: 0 <= u < |g| ==> names[u] < child.Length && names[u] < parent.Length
    modifies parent, child
    ensures Shape(g, first, labels, expanded) && (forall v: nat :: Reached(labels, v) <==> v in expanded)
    ensures Budgets(labels, first, names, old(child[..]), child[..], limit)
    ensures AllSettled(g, labels, names, child[..], limit, expanded) && ByDistance(labels, expanded)
    ensures History(g, first, names, old(child[..]), limit, labels, child[..], expanded, history)
    ensures forall v :: 0 <= v < |labels| ==> labels[v].pred < |labels|
    ensures forall v: nat :: v < |names| ==> parent[names[v]] == ParentOf(first, names, labels, old(parent[..]), v)
    ensures forall u: nat :: u < |g| ==>
      old(child[names[u]]) + Adopted(names, old(parent[..]), parent[..], names[u], |g|) <= child[names[u]]
  {
    ghost var before := parent[..];
    labels, expanded, history := Search(g, first, names, child, limit);
    PredsInside(g, first, labels, expanded);
    SetParents(g, first, names, parent, labels, expanded, delay);
    forall u: nat | u < |g|
      ensures old(child[names[u]]) + Adopted(names, before, parent[..], names[u], |g|) <= child[names[u]]
    {
      AdoptedKids(first, names, labels, before, parent[..], u, |g|);
      assert Budget(labels, first, names, old(child[..]), child[..], limit, u);
    }
  }
}
