/** Walks, distances and the invariant of breadth-first search, for one edge type and direction. */
module Paths {
  import opened Prelude
  import opened Graph
  import opened Edges

  /** What a single-type traversal sees of the graph. */
  datatype View = View(edges: set<Edge>, lbl: Name, direction: Direction) {
    function Next(n: u64): set<u64> {
      Neighborhood(edges, n, lbl, direction)
    }

    ghost function List(n: u64): (r: seq<u64>)
      ensures NoDup(r) && Elems(r) == Next(n)
    {
      NeighborListSpec(edges, n, lbl, direction);
      NeighborList(edges, n, lbl, direction)
    }
  }

  /** `n` is `k` hops from `start` along some walk. */
  ghost predicate Reach(v: View, start: u64, n: u64, k: nat)
    decreases k
  {
    if k == 0 then n == start
    else exists m: u64 :: Reach(v, start, m, k - 1) && n in v.Next(m)
  }

  /** `k` is the distance from `start` to `n`. */
  /** One hop in full: some edge of the type leads from `n` to `m`, in a direction asked for. */
  ghost predicate Hop(v: View, n: u64, m: u64) {
    exists e :: e in v.edges && e.lbl == v.lbl &&
                ((v.direction != Incoming && e.src == n && e.dst == m) ||
                 (v.direction != Outgoing && e.src == m && e.dst == n))
  }

  lemma NextWritten(v: View, n: u64, m: u64)
    ensures m in v.Next(n) <==> Hop(v, n, m)
  {
  }

  ghost predicate IsDist(v: View, start: u64, n: u64, k: nat) {
    Reach(v, start, n, k) && forall j: nat :: j < k ==> !Reach(v, start, n, j)
  }

  /** A walk given by its nodes. */
  ghost predicate IsPath(v: View, start: u64, end: u64, p: seq<u64>) {
    p != [] && p[0] == start && p[|p| - 1] == end &&
    forall i :: 0 < i < |p| ==> p[i] in v.Next(p[i - 1])
  }

  lemma {:induction false} PathReaches(v: View, start: u64, end: u64, p: seq<u64>)
    requires IsPath(v, start, end, p)
    ensures Reach(v, start, end, |p| - 1)
    decreases |p|
  {
    if |p| > 1 {
      var q := p[..|p| - 1];
      assert forall i :: 0 <= i < |q| ==> q[i] == p[i];
      PathReaches(v, start, q[|q| - 1], q);
      assert p[|p| - 1] in v.Next(q[|q| - 1]);
    }
  }

  lemma {:induction false} ReachHasPath(v: View, start: u64, end: u64, k: nat) returns (p: seq<u64>)
    requires Reach(v, start, end, k)
    ensures IsPath(v, start, end, p) && |p| == k + 1
    decreases k
  {
    if k == 0 {
      p := [start];
    } else {
      var m: u64 :| Reach(v, start, m, k - 1) && end in v.Next(m);
      var q := ReachHasPath(v, start, m, k - 1);
      p := q + [end];
    }
  }

  /** A walk in full: each node of the list is one hop from the one before. */
  ghost predicate IsWalk(v: View, start: u64, end: u64, p: seq<u64>) {
    |p| > 0 && p[0] == start && p[|p| - 1] == end && forall i :: 0 <= i < |p| - 1 ==> Hop(v, p[i], p[i + 1])
  }

  /** Paths are walks, and what is reached in `k` hops is the end of a walk of `k` hops. */
  lemma PathWritten(v: View, start: u64, end: u64, p: seq<u64>)
    ensures IsPath(v, start, end, p) <==> IsWalk(v, start, end, p)
  {
    hide Hop, View.Next;
    forall i | 0 <= i < |p| - 1 ensures p[i + 1] in v.Next(p[i]) <==> Hop(v, p[i], p[i + 1]) {
      NextWritten(v, p[i], p[i + 1]);
    }
    assert forall i :: 0 < i < |p| ==> p[i] == p[(i - 1) + 1];
  }

  lemma ReachWritten(v: View, start: u64, end: u64, k: nat)
    ensures Reach(v, start, end, k) <==> exists p :: IsWalk(v, start, end, p) && |p| == k + 1
  {
    hide IsPath, IsWalk, Reach;
    if Reach(v, start, end, k) {
      var p := ReachHasPath(v, start, end, k);
      PathWritten(v, start, end, p);
    }
    if p :| IsWalk(v, start, end, p) && |p| == k + 1 {
      PathWritten(v, start, end, p);
      PathReaches(v, start, end, p);
    }
  }

  /** A node that is reached has a distance. */
  lemma {:induction false} DistExists(v: View, start: u64, n: u64, k: nat) returns (d: nat)
    requires Reach(v, start, n, k)
    ensures d <= k && IsDist(v, start, n, d)
    decreases k
  {
    if j: nat :| j < k && Reach(v, start, n, j) {
      d := DistExists(v, start, n, j);
    } else {
      d := k;
    }
  }

  lemma DistUnique(v: View, start: u64, n: u64, j: nat, k: nat)
    requires IsDist(v, start, n, j) && IsDist(v, start, n, k)
    ensures j == k
  {
  }

  // ---------------------------------------------------------------- finiteness

  /** All nodes a traversal can meet. */
  function Universe(v: View, start: u64): set<u64> {
    {start} + (set e | e in v.edges :: e.src) + (set e | e in v.edges :: e.dst)
  }

  lemma NextInUniverse(v: View, start: u64, n: u64)
    ensures v.Next(n) <= Universe(v, start)
  {
  }

  // ---------------------------------------------------------------- the search invariant

  type Queue = seq<(u64, nat)>

  type Depths = map<u64, nat>

  function Queued(queue: Queue): set<u64> {
    set i | 0 <= i < |queue| :: queue[i].0
  }

  ghost predicate Expanded(v: View, depths: Depths, m: u64) {
    m in depths && forall n :: n in v.Next(m) ==> n in depths && depths[n] <= depths[m] + 1
  }

  ghost predicate QueueOk(depths: Depths, queue: Queue) {
    (forall i :: 0 <= i < |queue| ==> queue[i].0 in depths && depths[queue[i].0] == queue[i].1) &&
    (forall i, j :: 0 <= i <= j < |queue| ==> queue[i].1 <= queue[j].1 <= queue[0].1 + 1)
  }

  /** Every node seen has a walk of its depth; every node not queued any more was expanded, but
      for those at depth `limit` or beyond. */
  ghost predicate SearchOk(v: View, start: u64, depths: Depths, queue: Queue, limit: nat) {
    && start in depths && depths[start] == 0
    && depths.Keys <= Universe(v, start)
    && QueueOk(depths, queue)
    && HaveWalks(v, start, depths)
    && (queue != [] ==> AllAtMost(depths, queue[0].1 + 1))
    && DoneExpanded(v, depths, Queued(queue), limit)
  }

  ghost predicate HaveWalks(v: View, start: u64, depths: Depths) {
    forall n :: n in depths ==> Reach(v, start, n, depths[n])
  }

  ghost predicate AllAtMost(depths: Depths, d: nat) {
    forall n :: n in depths ==> depths[n] <= d
  }

  ghost predicate DoneExpanded(v: View, depths: Depths, waiting: set<u64>, limit: nat) {
    forall m :: m in depths && m !in waiting && depths[m] < limit ==> Expanded(v, depths, m)
  }

  lemma SearchStarts(v: View, start: u64, limit: nat)
    ensures SearchOk(v, start, map[start := 0], [(start, 0)], limit)
  {
    assert [(start, 0 as nat)][0].0 in Queued([(start, 0)]);
  }

  /** The depths after every node of `found` was given depth `d`. */
  function Discovered(depths: Depths, found: seq<u64>, d: nat): Depths {
    map n | n in depths.Keys + Elems(found) :: if n in depths then depths[n] else d
  }

  function Tagged(nodes: seq<u64>, d: nat): (q: Queue)
    ensures |q| == |nodes|
    ensures forall i :: 0 <= i < |q| ==> q[i] == (nodes[i], d)
  {
    seq(|nodes|, i requires 0 <= i < |nodes| => (nodes[i], d))
  }

  /** Taking the head off the queue and giving its new neighbours the next depth. The ones in
      `pushed` join the queue; the others may stay out if they lie at the limit. */
  lemma SearchExpands(v: View, start: u64, depths: Depths, queue: Queue, limit: nat, limit': nat, pushed: seq<u64>)
    requires SearchOk(v, start, depths, queue, limit)
    requires queue != [] && queue[0].1 < limit' <= limit
    requires Elems(pushed) <= v.Next(queue[0].0) - depths.Keys
    requires queue[0].1 + 1 < limit' ==> Elems(pushed) == v.Next(queue[0].0) - depths.Keys
    ensures var found := Excluding(v.List(queue[0].0), depths.Keys);
            SearchOk(v, start, Discovered(depths, found, queue[0].1 + 1),
                     queue[1..] + Tagged(pushed, queue[0].1 + 1), limit')
  {
    hide View.Next, View.List, Expanded, Universe, QueueOk, Excluding, Queued, Discovered, HaveWalks, DoneExpanded,
         Elems, NoDup, Tagged, Reach;
    var m, d := queue[0].0, queue[0].1;
    var found := Excluding(v.List(m), depths.Keys);
    ExcludingSpec(v.List(m), depths.Keys);
    DiscoveredSpec(depths, found, d + 1);
    NextInUniverse(v, start, m);
    HeadOf(depths, queue);
    WalksExtended(v, start, depths, m, d, found);
    ExpandedQueueOk(depths, queue, pushed, Discovered(depths, found, d + 1), d);
    QueuedSplit(queue, pushed, d + 1);
    AllExpanded(v, depths, m, d, found, pushed, Queued(queue), Queued(queue[1..] + Tagged(pushed, d + 1)), limit,
                limit');
  }

  lemma DiscoveredSpec(depths: Depths, found: seq<u64>, d: nat)
    ensures Discovered(depths, found, d).Keys == depths.Keys + Elems(found)
    ensures forall n :: n in depths ==> Discovered(depths, found, d)[n] == depths[n]
    ensures forall n :: n in Elems(found) && n !in depths ==> Discovered(depths, found, d)[n] == d
  {
  }

  lemma WalksExtended(v: View, start: u64, depths: Depths, m: u64, d: nat, found: seq<u64>)
    requires HaveWalks(v, start, depths)
    requires m in depths && depths[m] == d && Elems(found) <= v.Next(m)
    ensures HaveWalks(v, start, Discovered(depths, found, d + 1))
  {
    hide View.Next, Reach;
    forall n | n in found ensures Reach(v, start, n, d + 1) {
      assert n in Elems(found);
      ReachStep(v, start, m, n, d);
    }
  }

  lemma AllExpanded(v: View, depths: Depths, m: u64, d: nat, found: seq<u64>, pushed: seq<u64>,
                    waiting: set<u64>, waiting': set<u64>, limit: nat, limit': nat)
    requires m in depths && depths[m] == d && found == Excluding(v.List(m), depths.Keys)
    requires AllAtMost(depths, d + 1) && DoneExpanded(v, depths, waiting, limit)
    requires waiting - {m} <= waiting' && Elems(pushed) <= waiting'
    requires limit' <= limit && (d + 1 < limit' ==> Elems(pushed) == Elems(found))
    ensures DoneExpanded(v, Discovered(depths, found, d + 1), waiting', limit')
    ensures AllAtMost(Discovered(depths, found, d + 1), d + 1)
  {
    hide View.Next, View.List, Expanded, Excluding, Discovered;
    var depths' := Discovered(depths, found, d + 1);
    DiscoveredSpec(depths, found, d + 1);
    forall x | x in depths' && x !in waiting' && depths'[x] < limit' ensures Expanded(v, depths', x) {
      if x == m {
        HeadExpanded(v, depths, m, d);
      } else {
        StaysExpanded(v, depths, depths', x);
      }
    }
  }

  lemma HeadOf(depths: Depths, queue: Queue)
    requires QueueOk(depths, queue) && queue != []
    ensures queue[0].0 in depths && depths[queue[0].0] == queue[0].1
  {
  }

  lemma ReachStep(v: View, start: u64, m: u64, n: u64, d: nat)
    requires Reach(v, start, m, d) && n in v.Next(m)
    ensures Reach(v, start, n, d + 1)
  {
  }

  lemma HeadExpanded(v: View, depths: Depths, m: u64, d: nat)
    requires m in depths && depths[m] == d
    requires forall n :: n in depths && n in v.Next(m) ==> depths[n] <= d + 1
    ensures Expanded(v, Discovered(depths, Excluding(v.List(m), depths.Keys), d + 1), m)
  {
    hide View.Next, View.List;
    ExcludingSpec(v.List(m), depths.Keys);
  }

  lemma StaysExpanded(v: View, depths: Depths, depths': Depths, x: u64)
    requires Expanded(v, depths, x)
    requires forall n :: n in depths ==> n in depths' && depths'[n] == depths[n]
    ensures Expanded(v, depths', x)
  {
  }

  lemma ExpandedQueueOk(depths: Depths, queue: Queue, pushed: seq<u64>, depths': Depths, d: nat)
    requires QueueOk(depths, queue) && queue != [] && d == queue[0].1
    requires forall n :: n in depths ==> n in depths' && depths'[n] == depths[n]
    requires forall n :: n in Elems(pushed) ==> n in depths' && depths'[n] == d + 1
    ensures var queue' := queue[1..] + Tagged(pushed, d + 1);
            QueueOk(depths', queue') && (queue' != [] ==> queue'[0].1 >= d)
  {
    var rest, added := queue[1..], Tagged(pushed, d + 1);
    var queue' := rest + added;
    forall i | 0 <= i < |queue'| ensures queue'[i].0 in depths' && depths'[queue'[i].0] == queue'[i].1 {
      if i < |rest| {
        assert queue'[i] == queue[i + 1];
      } else {
        assert queue'[i] == (pushed[i - |rest|], d + 1) && pushed[i - |rest|] in Elems(pushed);
      }
    }
    DepthsInOrder(queue, added, d);
  }

  lemma DepthsInOrder(queue: Queue, added: Queue, d: nat)
    requires queue != [] && d == queue[0].1 && forall i :: 0 <= i < |added| ==> added[i].1 == d + 1
    requires forall i, j :: 0 <= i <= j < |queue| ==> queue[i].1 <= queue[j].1 <= queue[0].1 + 1
    ensures var queue' := queue[1..] + added;
            && (forall i, j :: 0 <= i <= j < |queue'| ==> queue'[i].1 <= queue'[j].1 <= queue'[0].1 + 1)
            && (queue' != [] ==> queue'[0].1 >= d)
  {
    var queue' := queue[1..] + added;
    forall i | 0 <= i < |queue'| ensures d <= queue'[i].1 <= d + 1 {
      assert i < |queue| - 1 ==> queue'[i] == queue[i + 1];
    }
    forall i, j | 0 <= i <= j < |queue| - 1 ensures queue'[i].1 <= queue'[j].1 {
      assert queue'[i] == queue[i + 1] && queue'[j] == queue[j + 1];
    }
  }

  lemma QueuedSplit(queue: Queue, pushed: seq<u64>, d: nat)
    requires queue != []
    ensures Queued(queue) - {queue[0].0} <= Queued(queue[1..] + Tagged(pushed, d))
    ensures Elems(pushed) <= Queued(queue[1..] + Tagged(pushed, d))
  {
    var queue' := queue[1..] + Tagged(pushed, d);
    forall x | x in Queued(queue) && x != queue[0].0 ensures x in Queued(queue') {
      var i :| 0 <= i < |queue| && queue[i].0 == x;
      assert queue'[i - 1] == queue[i];
    }
    forall x | x in pushed ensures x in Queued(queue') {
      var i :| 0 <= i < |pushed| && pushed[i] == x;
      assert queue'[|queue| - 1 + i] == (x, d);
    }
  }

  /** Taking a head off that lies at the limit. */
  lemma SearchSkips(v: View, start: u64, depths: Depths, queue: Queue, limit: nat)
    requires SearchOk(v, start, depths, queue, limit)
    requires queue != [] && queue[0].1 >= limit
    ensures SearchOk(v, start, depths, queue[1..], limit)
  {
    assert queue[1..] + Tagged([], 0) == queue[1..];
    QueuedSplit(queue, [], 0);
    assert forall i :: 0 <= i < |queue[1..]| ==> queue[1..][i] == queue[i + 1];
  }

  /** Nodes shallower than the head of the queue are expanded. */
  ghost predicate ExpandedBelow(v: View, depths: Depths, bound: nat) {
    forall m :: m in depths && depths[m] < bound ==> Expanded(v, depths, m)
  }

  lemma HeadBounds(v: View, start: u64, depths: Depths, queue: Queue, limit: nat)
    requires SearchOk(v, start, depths, queue, limit)
    ensures queue != [] && queue[0].1 <= limit ==> ExpandedBelow(v, depths, queue[0].1)
    ensures queue == [] ==> ExpandedBelow(v, depths, limit)
  {
    forall m | m in Queued(queue) ensures m in depths && queue[0].1 <= depths[m] {
      var i :| 0 <= i < |queue| && queue[i].0 == m;
      assert queue[0].1 <= queue[i].1;
    }
  }

  /** When all nodes shallower than `bound` are expanded, the depths are no larger than any walk
      of length up to `bound`. */
  lemma {:induction false} DepthsLeast(v: View, start: u64, depths: Depths, bound: nat, n: u64, k: nat)
    requires start in depths && depths[start] == 0 && ExpandedBelow(v, depths, bound)
    requires k <= bound && Reach(v, start, n, k)
    ensures n in depths && depths[n] <= k
    decreases k
  {
    if k > 0 {
      var m: u64 :| Reach(v, start, m, k - 1) && n in v.Next(m);
      DepthsLeast(v, start, depths, bound, m, k - 1);
      assert Expanded(v, depths, m);
    }
  }

  /** Depths up to the bound are distances. */
  lemma DepthsAreDistances(v: View, start: u64, depths: Depths, queue: Queue, limit: nat, bound: nat, n: u64)
    requires SearchOk(v, start, depths, queue, limit) && ExpandedBelow(v, depths, bound)
    requires n in depths && depths[n] <= bound
    ensures IsDist(v, start, n, depths[n])
  {
    forall j: nat | j < depths[n] ensures !Reach(v, start, n, j) {
      if Reach(v, start, n, j) {
        DepthsLeast(v, start, depths, bound, n, j);
      }
    }
  }

  // ---------------------------------------------------------------- expanded nodes

  /** The expanded nodes: those out of the queue that lie below the limit. */
  ghost predicate DoneOk(depths: Depths, queue: Queue, limit: nat, done: set<u64>) {
    && (forall m :: m in done ==> m in depths && m !in Queued(queue) && depths[m] < limit)
    && (forall m :: m in depths && m !in Queued(queue) && depths[m] < limit ==> m in done)
    && (queue != [] ==> forall m :: m in done ==> depths[m] <= queue[0].1)
    && (forall i, j :: 0 <= i < j < |queue| ==> queue[i].0 != queue[j].0)
  }

  lemma DoneAfterRound(depths: Depths, queue: Queue, limit: nat, done: set<u64>, depths': Depths, pushed: seq<u64>,
                       limit': nat)
    requires QueueOk(depths, queue) && DoneOk(depths, queue, limit, done) && queue != []
    requires queue[0].1 < limit' <= limit && NoDup(pushed) && Elems(pushed) !! depths.Keys
    requires forall n :: n in depths ==> n in depths' && depths'[n] == depths[n]
    requires forall n :: n in depths' && n !in depths ==> depths'[n] == queue[0].1 + 1
    requires Elems(pushed) <= depths'.Keys
    requires queue[0].1 + 1 < limit' ==> forall n :: n in depths' && n !in depths ==> n in Elems(pushed)
    ensures DoneOk(depths', queue[1..] + Tagged(pushed, queue[0].1 + 1), limit', done + {queue[0].0})
  {
    var d, rest, tagged := queue[0].1, queue[1..], Tagged(pushed, queue[0].1 + 1);
    var queue' := rest + tagged;
    QueuedSplit(queue, pushed, d + 1);
    forall i | 0 <= i < |queue'| ensures queue'[i].1 >= d && queue'[i].0 !in done + {queue[0].0} {
      if i < |rest| {
        assert queue'[i] == queue[i + 1] && queue[i + 1].0 in Queued(queue);
      } else {
        assert pushed[i - |rest|] in Elems(pushed);
      }
    }
    forall i, j | 0 <= i < j < |queue'| ensures queue'[i].0 != queue'[j].0 {
      if i < |rest| {
        assert queue'[i] == queue[i + 1];
        if j < |rest| {
          assert queue'[j] == queue[j + 1];
        } else {
          assert pushed[j - |rest|] in Elems(pushed);
        }
      }
    }
  }

  lemma DoneAfterSkip(depths: Depths, queue: Queue, limit: nat, done: set<u64>)
    requires QueueOk(depths, queue) && DoneOk(depths, queue, limit, done) && queue != [] && queue[0].1 >= limit
    ensures DoneOk(depths, queue[1..], limit, done)
  {
    QueuedSplit(queue, [], 0);
    assert queue[1..] + Tagged([], 0) == queue[1..];
    var rest := queue[1..];
    forall i | 0 <= i < |rest| ensures rest[i] == queue[i + 1] && rest[i].0 !in done {
      assert queue[i + 1].0 in Queued(queue);
    }
  }
}
