/** The three traversals agree on which nodes can be reached (src/storage/edge.rs:398-809). */
module Reachability {
  import opened Prelude
  import opened Graph
  import opened Edges
  import opened Paths
  import opened Traverse
  import opened Trails
  import opened TrailsExact

  /** The path query that goes with a single-type traversal: one label, no filters. */
  ghost predicate SameSearch(q: Query, v: View) {
    q.labels == [v.lbl] && q.direction == v.direction && q.edges.Keys == v.edges && q.filters == map[]
  }

  lemma StepIsHop(q: Query, v: View, n: u64, c: Step)
    requires SameSearch(q, v)
    ensures Allowed(q, n, c) ==> c.dst in v.Next(n)
  {
    hide Connects, Neighborhood;
    if Allowed(q, n, c) {
      ConnectedIsNeighbor(q.edges.Keys, c.edge, n, c.dst, q.direction);
    }
  }

  lemma HopIsStep(q: Query, v: View, n: u64, m: u64) returns (c: Step)
    requires SameSearch(q, v) && m in v.Next(n)
    ensures Allowed(q, n, c) && c.dst == m && (c.edge.src == m || c.edge.dst == m)
  {
    FarEndsIffParallel(v.edges, n, m, v.lbl);
    FarEndsIffParallel(v.edges, m, n, v.lbl);
    var e: Edge;
    if Parallel(v.edges, n, m, v.lbl) != {} && v.direction != Incoming {
      e :| e in Parallel(v.edges, n, m, v.lbl);
    } else {
      e :| e in Parallel(v.edges, m, n, v.lbl);
    }
    c := Step(e, m);
  }

  lemma {:induction false} TrailReaches(q: Query, v: View, path: Trail)
    requires SameSearch(q, v) && IsTrail(q, path)
    ensures Reach(v, q.start, End(q.start, path), |path|)
    decreases |path|
  {
    hide Allowed, View.Next;
    if path != [] {
      var init, c := path[..|path| - 1], path[|path| - 1];
      assert path == init + [c];
      TrailGrew(q, init, c);
      TrailPrefix(q, path, |path| - 1);
      TrailReaches(q, v, init);
      StepIsHop(q, v, End(q.start, init), c);
      ReachStep(v, q.start, End(q.start, init), c.dst, |init|);
    }
  }

  ghost predicate Within(v: View, start: u64, n: u64, k: nat) {
    exists j: nat :: j <= k && IsDist(v, start, n, j)
  }

  /** A node at distance `k` ends a trail of `k` steps: a shortest walk uses no edge twice, because
      each new edge has an end that is farther away than all before. */
  lemma {:induction false} DistTrail(q: Query, v: View, n: u64, k: nat) returns (path: Trail)
    requires SameSearch(q, v) && IsDist(v, q.start, n, k)
    ensures IsTrail(q, path) && |path| == k && End(q.start, path) == n
    ensures forall e :: e in EdgesOf(path) ==> Within(v, q.start, e.src, k) && Within(v, q.start, e.dst, k)
    decreases k
  {
    hide Allowed, View.Next, Reach;
    if k == 0 {
      path := [];
      ZeroDist(v, q.start, n);
    } else {
      var m := DistStepBack(v, q.start, n, k);
      var init := DistTrail(q, v, m, k - 1);
      var c := HopIsStep(q, v, m, n);
      if c.edge in EdgesOf(init) {
        FartherThan(v, q.start, n, k);
        assert false;
      }
      TrailGrows(q, init, c);
      path := init + [c];
      StepEnds(q, v, m, c);
      assert Within(v, q.start, m, k) && Within(v, q.start, n, k);
      forall e | e in EdgesOf(path) ensures Within(v, q.start, e.src, k) && Within(v, q.start, e.dst, k) {
        if e != c.edge {
          var i :| 0 <= i < |path| && path[i].edge == e;
          assert init[i].edge in EdgesOf(init);
          WithinMore(v, q.start, e.src, k - 1);
          WithinMore(v, q.start, e.dst, k - 1);
        }
      }
    }
  }

  lemma ZeroDist(v: View, start: u64, n: u64)
    requires IsDist(v, start, n, 0)
    ensures n == start
  {
  }

  lemma StepEnds(q: Query, v: View, n: u64, c: Step)
    requires Allowed(q, n, c)
    ensures c.edge.src in {n, c.dst} && c.edge.dst in {n, c.dst}
  {
  }

  lemma WithinMore(v: View, start: u64, n: u64, k: nat)
    requires Within(v, start, n, k)
    ensures Within(v, start, n, k + 1)
  {
    hide IsDist;
  }

  lemma FartherThan(v: View, start: u64, n: u64, k: nat)
    requires k > 0 && IsDist(v, start, n, k)
    ensures !Within(v, start, n, k - 1)
  {
    hide Reach;
    forall j: nat | j <= k - 1 ensures !IsDist(v, start, n, j) {
      assert !Reach(v, start, n, j);
    }
  }

  lemma DistStepBack(v: View, start: u64, n: u64, k: nat) returns (m: u64)
    requires k > 0 && IsDist(v, start, n, k)
    ensures IsDist(v, start, m, k - 1) && n in v.Next(m)
  {
    hide View.Next;
    m :| Reach(v, start, m, k - 1) && n in v.Next(m);
    forall j: nat | j < k - 1 ensures !Reach(v, start, m, j) {
      if Reach(v, start, m, j) {
        ReachStep(v, start, m, n, j);
      }
    }
  }

  /** The node can be reached in at most `maxHops` hops. */
  ghost predicate Reachable(v: View, start: u64, n: u64, maxHops: nat) {
    exists k: nat :: k <= maxHops && Reach(v, start, n, k)
  }

  /** The end of some answer of the path query. */
  ghost predicate EndsATrail(q: Query, n: u64) {
    exists f: Found :: IsAnswer(q, f) && f.0 == n
  }

  /** Path enumeration ends in exactly the nodes that can be reached. */
  lemma TrailsReachAll(q: Query, v: View, n: u64)
    requires SameSearch(q, v) && q.minHops <= 1 && n != q.start
    ensures EndsATrail(q, n) <==> Reachable(v, q.start, n, q.maxHops)
  {
    hide IsTrail, Reach, SameSearch;
    if EndsATrail(q, n) {
      var f: Found :| IsAnswer(q, f) && f.0 == n;
      TrailReaches(q, v, f.1);
    }
    if Reachable(v, q.start, n, q.maxHops) {
      var k: nat :| k <= q.maxHops && Reach(v, q.start, n, k);
      var d := DistExists(v, q.start, n, k);
      var path := DistTrail(q, v, n, d);
      assert IsAnswer(q, (n, path));
    }
  }

  /** Breadth-first traversal finds exactly the nodes that can be reached. */
  lemma HitsReachAll(v: View, start: u64, minHops: nat, maxHops: nat, n: u64)
    requires minHops <= 1 && n != start
    ensures n in Nodes(AllHits(v, start, minHops, maxHops)) <==> Reachable(v, start, n, maxHops)
  {
    hide AllHits, Reach;
    var hits := AllHits(v, start, minHops, maxHops);
    if n in Nodes(hits) {
      var i :| 0 <= i < |hits| && hits[i].0 == n;
      assert hits[i] in hits && hits[i] == (n, hits[i].1);
      HitsAreDistances(v, start, minHops, maxHops, n, hits[i].1);
    }
    if Reachable(v, start, n, maxHops) {
      var k: nat :| k <= maxHops && Reach(v, start, n, k);
      var d := DistExists(v, start, n, k);
      HitsAreDistances(v, start, minHops, maxHops, n, d);
      var i :| 0 <= i < |hits| && hits[i] == (n, d);
    }
  }

  /** What `shortest_path` answers for two nodes (the contract of `Shortest.ShortestPath`). */
  ghost predicate IsShortestAnswer(v: View, start: u64, n: u64, maxHops: nat, path: Option<seq<u64>>) {
    match path
    case Some(p) => IsPath(v, start, n, p) && |p| - 1 <= maxHops && IsDist(v, start, n, |p| - 1)
    case None => forall k: nat :: k <= maxHops ==> !Reach(v, start, n, k)
  }

  /** All three searches compared: `shortest_path` to a node other than the start succeeds exactly
      when `traverse` lists the node, and exactly when some path of `traverse_paths` ends there. */
  lemma SearchesAgree(q: Query, v: View, n: u64, path: Option<seq<u64>>)
    requires SameSearch(q, v) && q.minHops <= 1 && n != q.start
    requires IsShortestAnswer(v, q.start, n, q.maxHops, path)
    ensures path.Some? <==> n in NodeList(AllHits(v, q.start, q.minHops, q.maxHops))
    ensures path.Some? <==> exists f: Found :: f in AllRows(q) && f.0 == n
  {
    hide AllHits, Reach, SameSearch, IsTrail, AllRows;
    PathMeansReachable(v, q.start, n, q.maxHops, path);
    HitsReachAll(v, q.start, q.minHops, q.maxHops, n);
    ListedNodes(AllHits(v, q.start, q.minHops, q.maxHops), n);
    TrailsReachAll(q, v, n);
    OneLabel(q, v);
    AnswersExact(q);
    if EndsATrail(q, n) {
      var f: Found :| IsAnswer(q, f) && f.0 == n;
      assert f in AllRows(q);
    }
  }

  lemma OneLabel(q: Query, v: View)
    requires SameSearch(q, v)
    ensures NoDup(q.labels)
  {
  }

  lemma PathMeansReachable(v: View, start: u64, n: u64, maxHops: nat, path: Option<seq<u64>>)
    requires IsShortestAnswer(v, start, n, maxHops, path)
    ensures path.Some? <==> Reachable(v, start, n, maxHops)
  {
    hide Reach;
  }

  lemma ListedNodes(hits: Hits, n: u64)
    ensures n in NodeList(hits) <==> n in Nodes(hits)
  {
    if n in Nodes(hits) {
      var i :| 0 <= i < |hits| && hits[i].0 == n;
      assert NodeList(hits)[i] == n;
    }
  }
}
