/** Breadth-first variable-length traversal (src/storage/edge.rs:390-496). */
module Traverse {
  import opened Prelude
  import opened Graph
  import opened Db
  import opened Edges
  import opened Paths
  import opened Shortest

  /** A node met on the way, with the hop count at which it was first taken into the result. */
  type Hits = seq<(u64, nat)>

  function Nodes(hits: Hits): set<u64> {
    set i | 0 <= i < |hits| :: hits[i].0
  }

  function NodeList(hits: Hits): (r: seq<u64>)
    ensures |r| == |hits|
    ensures forall i :: 0 <= i < |r| ==> r[i] == hits[i].0
  {
    seq(|hits|, i requires 0 <= i < |hits| => hits[i].0)
  }

  /** The new hits among the neighbours of a node at `d - 1` hops. */
  ghost function NewHits(nbrs: seq<u64>, start: u64, known: set<u64>, d: nat, minHops: nat): Hits {
    if d >= minHops then Tagged(Excluding(nbrs, known + {start}), d) else []
  }

  /** The hits of the whole search from a given state on. */
  ghost function Search(v: View, start: u64, minHops: nat, maxHops: nat, depths: Depths, queue: Queue, hits: Hits): Hits
    requires depths.Keys <= Universe(v, start)
    decreases Universe(v, start) - depths.Keys, |queue|
  {
    if queue == [] then hits
    else if queue[0].1 >= maxHops then Search(v, start, minHops, maxHops, depths, queue[1..], hits)
    else
      var (m, d) := queue[0];
      var found := Excluding(v.List(m), depths.Keys);
      SearchStep(v, start, depths, queue, found);
      Search(v, start, minHops, maxHops, Discovered(depths, found, d + 1), queue[1..] + Tagged(found, d + 1),
             hits + NewHits(v.List(m), start, Nodes(hits), d + 1, minHops))
  }

  lemma SearchStep(v: View, start: u64, depths: Depths, queue: Queue, found: seq<u64>)
    requires queue != [] && depths.Keys <= Universe(v, start)
    requires found == Excluding(v.List(queue[0].0), depths.Keys)
    ensures var depths' := Discovered(depths, found, queue[0].1 + 1);
            && depths'.Keys <= Universe(v, start)
            && (Universe(v, start) - depths'.Keys < Universe(v, start) - depths.Keys ||
                (depths'.Keys == depths.Keys && |queue[1..] + Tagged(found, queue[0].1 + 1)| < |queue|))
  {
    hide View.Next, View.List, Universe, Excluding, Discovered, Tagged;
    ExcludingSpec(v.List(queue[0].0), depths.Keys);
    NextInUniverse(v, start, queue[0].0);
    DiscoveredSpec(depths, found, queue[0].1 + 1);
    Progress(v, start, depths, Discovered(depths, found, queue[0].1 + 1), queue,
             queue[1..] + Tagged(found, queue[0].1 + 1), found, queue[0].1 + 1);
  }

  /** All hits of a traversal. */
  ghost function AllHits(v: View, start: u64, minHops: nat, maxHops: nat): Hits {
    Search(v, start, minHops, maxHops, map[start := 0], [(start, 0)], [])
  }

  /** The first `cap` hits; a cap of 0 acts like 1, for it is compared after a hit was stored. */
  function Capped<T>(all: seq<T>, cap: Option<nat>): seq<T> {
    if cap.None? then all
    else
      var c := if cap.value == 0 then 1 else cap.value;
      if |all| <= c then all else all[..c]
  }

  /** A cap leaves a prefix: everything, or as many as the cap says, at least one. */
  lemma CapLeavesPrefix<T>(all: seq<T>, cap: Option<nat>)
    ensures Capped(all, cap) <= all
    ensures cap.None? ==> Capped(all, cap) == all
    ensures cap.Some? && cap.value > 0 ==> |Capped(all, cap)| == if |all| < cap.value then |all| else cap.value
    ensures cap == Some(0) ==> |Capped(all, cap)| == if |all| < 1 then |all| else 1
  {
  }

  function Full(n: nat, cap: Option<nat>): bool {
    cap.Some? && n >= cap.value && n > 0
  }

  /** The search only ever adds to its hits. */
  lemma {:induction false} SearchExtends(v: View, start: u64, minHops: nat, maxHops: nat, depths: Depths, queue: Queue,
                                         hits: Hits)
    requires depths.Keys <= Universe(v, start)
    ensures hits <= Search(v, start, minHops, maxHops, depths, queue, hits)
    decreases Universe(v, start) - depths.Keys, |queue|
  {
    hide View.Next, View.List, Universe, NewHits, Discovered, Excluding, Tagged, Nodes;
    if queue == [] {
    } else if queue[0].1 >= maxHops {
      SearchExtends(v, start, minHops, maxHops, depths, queue[1..], hits);
    } else {
      var (m, d) := queue[0];
      var found := Excluding(v.List(m), depths.Keys);
      SearchStep(v, start, depths, queue, found);
      SearchExtends(v, start, minHops, maxHops, Discovered(depths, found, d + 1), queue[1..] + Tagged(found, d + 1),
                    hits + NewHits(v.List(m), start, Nodes(hits), d + 1, minHops));
    }
  }

  // ---------------------------------------------------------------- the loops

  lemma NodesAppend(a: Hits, b: seq<u64>, d: nat)
    ensures Nodes(a + Tagged(b, d)) == Nodes(a) + Elems(b)
  {
    var s := a + Tagged(b, d);
    forall x | x in Nodes(a) ensures x in Nodes(s) {
      var i :| 0 <= i < |a| && a[i].0 == x;
      assert s[i] == a[i];
    }
    forall x | x in b ensures x in Nodes(s) {
      var i :| 0 <= i < |b| && b[i] == x;
      assert s[|a| + i] == (x, d);
    }
    forall x | x in Nodes(s) ensures x in Nodes(a) + Elems(b) {
      var i :| 0 <= i < |s| && s[i].0 == x;
      if i < |a| {
        assert s[i] == a[i];
      } else {
        assert s[i] == (b[i - |a|], d);
      }
    }
  }

  /** Whether the next neighbour is a new hit, judged by the hits stored so far. */
  lemma HitOne(nbrs: seq<u64>, i: nat, start: u64, hits0: Hits, d: nat, minHops: nat)
    requires NoDup(nbrs) && i < |nbrs| && d >= minHops
    ensures var hits := hits0 + NewHits(nbrs[..i], start, Nodes(hits0), d, minHops);
            var isNew := nbrs[i] != start && nbrs[i] !in Nodes(hits);
            hits0 + NewHits(nbrs[..i + 1], start, Nodes(hits0), d, minHops) ==
            if isNew then hits + [(nbrs[i], d)] else hits
  {
    hide Elems, NoDup, Nodes;
    var known := Nodes(hits0) + {start};
    var before := Excluding(nbrs[..i], known);
    assert nbrs[..i + 1][..i] == nbrs[..i];
    assert Excluding(nbrs[..i + 1], known) == if nbrs[i] in known then before else before + [nbrs[i]];
    NodesAppend(hits0, before, d);
    ExcludingPrefixSpec(nbrs, i, known);
    TaggedOneMore(before, nbrs[i], d);
    var one := [(nbrs[i], d)];
    assert nbrs[i] !in known ==> hits0 + (Tagged(before, d) + one) == (hits0 + Tagged(before, d)) + one;
  }

  lemma ExcludingPrefixSpec(nbrs: seq<u64>, i: nat, known: set<u64>)
    requires NoDup(nbrs) && i < |nbrs|
    ensures Elems(Excluding(nbrs[..i], known)) == Elems(nbrs[..i]) - known
    ensures nbrs[i] !in Elems(Excluding(nbrs[..i], known))
  {
    ExcludingSpec(nbrs[..i], known);
    assert nbrs[i] !in Elems(nbrs[..i]);
  }

  lemma NoNewHits(start: u64, hits: Hits, d: nat, minHops: nat)
    ensures hits + NewHits([], start, Nodes(hits), d, minHops) == hits
  {
  }

  lemma {:induction false} ExcludingPrefix(s: seq<u64>, i: nat, known: set<u64>)
    requires i <= |s|
    ensures Excluding(s[..i], known) <= Excluding(s, known)
    decreases |s|
  {
    if i == |s| {
      assert s[..i] == s;
    } else {
      ExcludingPrefix(s[..|s| - 1], i, known);
      assert s[..|s| - 1][..i] == s[..i];
    }
  }

  /** What is stored in the middle of a round is a prefix of the final hits. */
  lemma MidRoundPrefix(v: View, start: u64, minHops: nat, maxHops: nat, depths0: Depths, queue0: Queue, hits0: Hits,
                       i: nat, hits: Hits)
    requires depths0.Keys <= Universe(v, start) && queue0 != [] && queue0[0].1 < maxHops
    requires i <= |v.List(queue0[0].0)|
    requires hits == hits0 + NewHits(v.List(queue0[0].0)[..i], start, Nodes(hits0), queue0[0].1 + 1, minHops)
    ensures hits <= Search(v, start, minHops, maxHops, depths0, queue0, hits0)
  {
    hide View.Next, View.List, Universe, Discovered, Nodes, NewHits, Excluding, Search;
    var (m, d) := queue0[0];
    var found := Excluding(v.List(m), depths0.Keys);
    SearchStep(v, start, depths0, queue0, found);
    var hits' := hits0 + NewHits(v.List(m), start, Nodes(hits0), d + 1, minHops);
    NewHitsPrefix(v.List(m), i, start, Nodes(hits0), d + 1, minHops);
    assert hits <= hits';
    SearchExtends(v, start, minHops, maxHops, Discovered(depths0, found, d + 1), queue0[1..] + Tagged(found, d + 1),
                  hits');
    SearchUnfold(v, start, minHops, maxHops, depths0, queue0, hits0);
  }

  lemma NewHitsPrefix(nbrs: seq<u64>, i: nat, start: u64, known: set<u64>, d: nat, minHops: nat)
    requires i <= |nbrs|
    ensures NewHits(nbrs[..i], start, known, d, minHops) <= NewHits(nbrs, start, known, d, minHops)
  {
    ExcludingPrefix(nbrs, i, known + {start});
  }

  /** `traverse_with_depth`: the hits of the search, or as many first ones as the cap allows. */
  method TraverseWithDepth(conn: Connection, start: u64, lbl: Name, direction: Direction, minHops: nat, maxHops: nat,
                           cap: Option<nat>)
    returns (result: Hits)
    requires conn.EdgesValid()
    ensures result == Capped(AllHits(View(conn.edgeSet.Keys, lbl, direction), start, minHops, maxHops), cap)
  {
    hide EdgesOk, View.Next, View.List, NeighborList, NewHits, Discovered, Excluding, Tagged, Universe, Elems,
         Search, Nodes;
    ghost var v := View(conn.edgeSet.Keys, lbl, direction);
    result := [];
    var visited: set<u64>, inResult: set<u64>, queue: Queue := {start}, {}, [(start, 0)];
    ghost var depths: Depths := map[start := 0];
    StartKnown(v, start);
    assert Nodes([]) == {} by { NoHits(); }
    while queue != []
      invariant visited == depths.Keys <= Universe(v, start) && inResult == Nodes(result)
      invariant Search(v, start, minHops, maxHops, depths, queue, result) == AllHits(v, start, minHops, maxHops)
      invariant !Full(|result|, cap)
      decreases Universe(v, start) - depths.Keys, |queue|
    {
      var (current, depth) := queue[0];
      ghost var depths0, queue0, result0 := depths, queue, result;
      SearchUnfold(v, start, minHops, maxHops, depths, queue, result);
      queue := queue[1..];
      if depth >= maxHops {
        continue;
      }
      var neighbors := GetNeighbors(conn, current, lbl, direction);
      var nextDepth := depth + 1;
      ListIs(v, current);
      RoundBegins(start, depths, result, neighbors, nextDepth, minHops);
      for i := 0 to |neighbors|
        invariant depths == Discovered(depths0, Excluding(neighbors[..i], depths0.Keys), nextDepth)
        invariant visited == depths.Keys
        invariant queue == queue0[1..] + Tagged(Excluding(neighbors[..i], depths0.Keys), nextDepth)
        invariant result == result0 + NewHits(neighbors[..i], start, Nodes(result0), nextDepth, minHops)
        invariant inResult == Nodes(result) && !Full(|result|, cap)
      {
        var neighbor := neighbors[i];
        ghost var stored := result;
        if nextDepth >= minHops && neighbor != start && neighbor !in inResult {
          inResult := inResult + {neighbor};
          result := result + [(neighbor, nextDepth)];
          HitOne(neighbors, i, start, result0, nextDepth, minHops);
          NodesOneMore(stored, neighbor, nextDepth);
          if cap.Some? && |result| >= cap.value {
            MidRoundPrefix(v, start, minHops, maxHops, depths0, queue0, result0, i + 1, result);
            return result;
          }
        } else {
          NoHit(neighbors, i, start, result0, nextDepth, minHops);
        }
        DiscoverOne(depths0, neighbors, i, nextDepth);
        if neighbor !in visited {
          visited := visited + {neighbor};
          depths := depths[neighbor := nextDepth];
          TaggedOneMore(Excluding(neighbors[..i], depths0.Keys), neighbor, nextDepth);
          queue := queue + [(neighbor, nextDepth)];
        }
      }
      assert neighbors[..|neighbors|] == neighbors;
      SearchStep(v, start, depths0, queue0, Excluding(neighbors, depths0.Keys));
    }
    SearchDone(v, start, minHops, maxHops, depths, result);
  }

  /** `traverse`: the same search without the hop counts. */
  method TraverseNodes(conn: Connection, start: u64, lbl: Name, direction: Direction, minHops: nat, maxHops: nat,
                       cap: Option<nat>)
    returns (result: seq<u64>)
    requires conn.EdgesValid()
    ensures result == NodeList(Capped(AllHits(View(conn.edgeSet.Keys, lbl, direction), start, minHops, maxHops), cap))
  {
    hide EdgesOk, View.Next, View.List, NeighborList, NewHits, Discovered, Excluding, Tagged, Universe, Elems,
         Search, Nodes;
    ghost var v := View(conn.edgeSet.Keys, lbl, direction);
    result := [];
    var visited: set<u64>, inResult: set<u64>, queue: Queue := {start}, {}, [(start, 0)];
    ghost var depths: Depths, hits: Hits := map[start := 0], [];
    StartKnown(v, start);
    assert Nodes([]) == {} by { NoHits(); }
    while queue != []
      invariant visited == depths.Keys <= Universe(v, start) && inResult == Nodes(hits) && result == NodeList(hits)
      invariant Search(v, start, minHops, maxHops, depths, queue, hits) == AllHits(v, start, minHops, maxHops)
      invariant !Full(|hits|, cap)
      decreases Universe(v, start) - depths.Keys, |queue|
    {
      var (current, depth) := queue[0];
      ghost var depths0, queue0, hits0 := depths, queue, hits;
      SearchUnfold(v, start, minHops, maxHops, depths, queue, hits);
      queue := queue[1..];
      if depth >= maxHops {
        continue;
      }
      var neighbors := GetNeighbors(conn, current, lbl, direction);
      var nextDepth := depth + 1;
      ListIs(v, current);
      RoundBegins(start, depths, hits, neighbors, nextDepth, minHops);
      for i := 0 to |neighbors|
        invariant depths == Discovered(depths0, Excluding(neighbors[..i], depths0.Keys), nextDepth)
        invariant visited == depths.Keys
        invariant queue == queue0[1..] + Tagged(Excluding(neighbors[..i], depths0.Keys), nextDepth)
        invariant hits == hits0 + NewHits(neighbors[..i], start, Nodes(hits0), nextDepth, minHops)
        invariant inResult == Nodes(hits) && result == NodeList(hits) && !Full(|hits|, cap)
      {
        var neighbor := neighbors[i];
        ghost var stored := hits;
        if nextDepth >= minHops && neighbor != start && neighbor !in inResult {
          inResult := inResult + {neighbor};
          result := result + [neighbor];
          hits := hits + [(neighbor, nextDepth)];
          HitOne(neighbors, i, start, hits0, nextDepth, minHops);
          NodesOneMore(stored, neighbor, nextDepth);
          if cap.Some? && |result| >= cap.value {
            MidRoundPrefix(v, start, minHops, maxHops, depths0, queue0, hits0, i + 1, hits);
            return result;
          }
        } else {
          NoHit(neighbors, i, start, hits0, nextDepth, minHops);
        }
        DiscoverOne(depths0, neighbors, i, nextDepth);
        if neighbor !in visited {
          visited := visited + {neighbor};
          depths := depths[neighbor := nextDepth];
          TaggedOneMore(Excluding(neighbors[..i], depths0.Keys), neighbor, nextDepth);
          queue := queue + [(neighbor, nextDepth)];
        }
      }
      assert neighbors[..|neighbors|] == neighbors;
      SearchStep(v, start, depths0, queue0, Excluding(neighbors, depths0.Keys));
    }
    SearchDone(v, start, minHops, maxHops, depths, hits);
  }

  lemma StartKnown(v: View, start: u64)
    ensures start in Universe(v, start)
  {
  }

  lemma NoHits()
    ensures Nodes([]) == {}
  {
  }

  lemma NodesOneMore(hits: Hits, n: u64, d: nat)
    ensures Nodes(hits + [(n, d)]) == Nodes(hits) + {n}
    ensures NodeList(hits + [(n, d)]) == NodeList(hits) + [n]
  {
    assert Tagged([n], d) == [(n, d)];
    NodesAppend(hits, [n], d);
    ElemsSingle(n);
  }

  lemma NoHit(nbrs: seq<u64>, i: nat, start: u64, hits0: Hits, d: nat, minHops: nat)
    requires NoDup(nbrs) && i < |nbrs|
    requires var hits := hits0 + NewHits(nbrs[..i], start, Nodes(hits0), d, minHops);
             d < minHops || nbrs[i] == start || nbrs[i] in Nodes(hits)
    ensures hits0 + NewHits(nbrs[..i + 1], start, Nodes(hits0), d, minHops) ==
            hits0 + NewHits(nbrs[..i], start, Nodes(hits0), d, minHops)
  {
    if d >= minHops {
      HitOne(nbrs, i, start, hits0, d, minHops);
    }
  }

  lemma RoundBegins(start: u64, depths: Depths, hits: Hits, nbrs: seq<u64>, d: nat, minHops: nat)
    ensures nbrs[..0] == [] && Excluding(nbrs[..0], depths.Keys) == []
    ensures depths == Discovered(depths, [], d) && Tagged([], d) == []
    ensures hits + NewHits(nbrs[..0], start, Nodes(hits), d, minHops) == hits
  {
    NoneDiscovered(depths, d);
    NoNewHits(start, hits, d, minHops);
  }

  lemma SearchUnfold(v: View, start: u64, minHops: nat, maxHops: nat, depths: Depths, queue: Queue, hits: Hits)
    requires depths.Keys <= Universe(v, start) && queue != []
    ensures queue[0].1 >= maxHops ==>
              Search(v, start, minHops, maxHops, depths, queue, hits) ==
              Search(v, start, minHops, maxHops, depths, queue[1..], hits)
    ensures queue[0].1 < maxHops ==>
              var (m, d) := queue[0];
              var found := Excluding(v.List(m), depths.Keys);
              Discovered(depths, found, d + 1).Keys <= Universe(v, start) &&
              Search(v, start, minHops, maxHops, depths, queue, hits) ==
              Search(v, start, minHops, maxHops, Discovered(depths, found, d + 1), queue[1..] + Tagged(found, d + 1),
                     hits + NewHits(v.List(m), start, Nodes(hits), d + 1, minHops))
  {
    hide View.List, View.Next, Universe, Discovered, Excluding, Tagged, NewHits, Nodes;
    SearchStep(v, start, depths, queue, Excluding(v.List(queue[0].0), depths.Keys));
  }

  lemma SearchDone(v: View, start: u64, minHops: nat, maxHops: nat, depths: Depths, hits: Hits)
    requires depths.Keys <= Universe(v, start)
    ensures Search(v, start, minHops, maxHops, depths, [], hits) == hits
  {
  }

  // ---------------------------------------------------------------- what the hits are

  /** `n` is met after `k` hops: it is next to a node at distance `k - 1`. */
  ghost predicate Hit(v: View, start: u64, minHops: nat, maxHops: nat, n: u64, k: nat) {
    n != start && 1 <= k && minHops <= k <= maxHops && exists u: u64 :: IsDist(v, start, u, k - 1) && n in v.Next(u)
  }

  ghost predicate HitBy(v: View, depths: Depths, done: set<u64>, minHops: nat, n: u64, k: nat) {
    k >= minHops && exists u :: u in done && u in depths && depths[u] + 1 == k && n in v.Next(u)
  }

  ghost predicate Covered(hits: Hits, n: u64, k: nat) {
    exists i :: 0 <= i < |hits| && hits[i].0 == n && hits[i].1 <= k
  }

  ghost predicate InOrder(hits: Hits) {
    (forall i, j :: 0 <= i < j < |hits| ==> hits[i].0 != hits[j].0) &&
    (forall i, j :: 0 <= i < j < |hits| ==> hits[i].1 <= hits[j].1)
  }

  ghost predicate AllHitBy(v: View, start: u64, depths: Depths, done: set<u64>, minHops: nat, hits: Hits) {
    forall i :: 0 <= i < |hits| ==> hits[i].0 != start && HitBy(v, depths, done, minHops, hits[i].0, hits[i].1)
  }

  ghost predicate AllCovered(v: View, start: u64, depths: Depths, done: set<u64>, minHops: nat, hits: Hits) {
    forall u, n :: u in done && u in depths && depths[u] + 1 >= minHops && n in v.Next(u) && n != start ==>
      Covered(hits, n, depths[u] + 1)
  }

  /** The hits are those found from the expanded nodes, each once, nearest first. */
  ghost predicate HitsOk(v: View, start: u64, minHops: nat, depths: Depths, queue: Queue, done: set<u64>, hits: Hits) {
    && InOrder(hits)
    && AllHitBy(v, start, depths, done, minHops, hits)
    && AllCovered(v, start, depths, done, minHops, hits)
    && (queue != [] ==> forall i :: 0 <= i < |hits| ==> hits[i].1 <= queue[0].1 + 1)
  }

  lemma HitsStayInOrder(nbrs: seq<u64>, start: u64, hits: Hits, d: nat, minHops: nat)
    requires InOrder(hits) && NoDup(nbrs) && forall i :: 0 <= i < |hits| ==> hits[i].1 <= d
    ensures InOrder(hits + NewHits(nbrs, start, Nodes(hits), d, minHops))
  {
    var extra := Excluding(nbrs, Nodes(hits) + {start});
    ExcludingSpec(nbrs, Nodes(hits) + {start});
    assert forall i :: 0 <= i < |extra| ==> extra[i] in Elems(extra);
    assert forall i :: 0 <= i < |hits| ==> hits[i].0 in Nodes(hits);
  }

  lemma HitsStayHit(v: View, start: u64, minHops: nat, depths: Depths, depths': Depths, done: set<u64>, m: u64, d: nat,
                    hits: Hits)
    requires AllHitBy(v, start, depths, done, minHops, hits)
    requires forall n :: n in depths ==> n in depths' && depths'[n] == depths[n]
    requires m in depths && depths[m] == d
    ensures AllHitBy(v, start, depths', done + {m}, minHops, hits +
            NewHits(v.List(m), start, Nodes(hits), d + 1, minHops))
  {
    hide View.Next, View.List;
    var extra := Excluding(v.List(m), Nodes(hits) + {start});
    ExcludingSpec(v.List(m), Nodes(hits) + {start});
    var hits' := hits + NewHits(v.List(m), start, Nodes(hits), d + 1, minHops);
    forall i | 0 <= i < |hits'| ensures hits'[i].0 != start &&
        HitBy(v, depths', done + {m}, minHops, hits'[i].0, hits'[i].1) {
      if i < |hits| {
        assert HitBy(v, depths, done, minHops, hits[i].0, hits[i].1);
      } else {
        assert extra[i - |hits|] in Elems(extra);
        assert m in done + {m} && hits'[i].0 in v.Next(m);
      }
    }
  }

  lemma HitsStayCovered(v: View, start: u64, minHops: nat, depths: Depths, depths': Depths, done: set<u64>, m: u64,
                        d: nat, hits: Hits)
    requires AllCovered(v, start, depths, done, minHops, hits)
    requires done <= depths.Keys && forall n :: n in depths ==> n in depths' && depths'[n] == depths[n]
    requires m in depths && depths[m] == d
    requires forall i :: 0 <= i < |hits| ==> hits[i].1 <= d + 1
    ensures AllCovered(v, start, depths', done + {m}, minHops, hits +
            NewHits(v.List(m), start, Nodes(hits), d + 1, minHops))
  {
    hide View.Next, View.List;
    var extra := Excluding(v.List(m), Nodes(hits) + {start});
    ExcludingSpec(v.List(m), Nodes(hits) + {start});
    var hits' := hits + NewHits(v.List(m), start, Nodes(hits), d + 1, minHops);
    assert forall i :: 0 <= i < |hits| ==> hits'[i] == hits[i];
    forall u, n | u in done + {m} && depths'[u] + 1 >= minHops && n in v.Next(u) && n != start
      ensures Covered(hits', n, depths'[u] + 1)
    {
      if u in done {
        assert Covered(hits, n, depths[u] + 1);
      } else if n in Nodes(hits) {
        var i :| 0 <= i < |hits| && hits[i].0 == n;
        assert hits'[i].1 <= d + 1;
      } else {
        assert n in Elems(extra);
        var i :| 0 <= i < |extra| && extra[i] == n;
        assert hits'[|hits| + i] == (n, d + 1);
      }
    }
  }

  /** The next state of the search when the head of the queue is expanded. */
  lemma ExpandHead(v: View, start: u64, maxHops: nat, depths: Depths, queue: Queue, done: set<u64>,
                   depths': Depths, queue': Queue)
    requires SearchOk(v, start, depths, queue, maxHops) && DoneOk(depths, queue, maxHops, done)
    requires queue != [] && queue[0].1 < maxHops
    requires depths' == Discovered(depths, Excluding(v.List(queue[0].0), depths.Keys), queue[0].1 + 1)
    requires queue' == queue[1..] + Tagged(Excluding(v.List(queue[0].0), depths.Keys), queue[0].1 + 1)
    ensures SearchOk(v, start, depths', queue', maxHops)
    ensures DoneOk(depths', queue', maxHops, done + {queue[0].0})
    ensures queue' != [] ==> queue'[0].1 >= queue[0].1
    ensures forall n :: n in depths ==> n in depths' && depths'[n] == depths[n]
  {
    hide View.Next, View.List, SearchOk, DoneOk, QueueOk, NoDup, Discovered, Excluding, Tagged, Queued;
    var found := Excluding(v.List(queue[0].0), depths.Keys);
    ExcludingSpec(v.List(queue[0].0), depths.Keys);
    DiscoveredSpec(depths, found, queue[0].1 + 1);
    QueueOfSearch(v, start, depths, queue, maxHops, done);
    SearchExpands(v, start, depths, queue, maxHops, maxHops, found);
    ExpandedQueueOk(depths, queue, found, depths', queue[0].1);
    DoneAfterRound(depths, queue, maxHops, done, depths', found, maxHops);
  }

  lemma HitsAfterRound(v: View, start: u64, minHops: nat, depths: Depths, queue: Queue, done: set<u64>, hits: Hits,
                       depths': Depths, queue': Queue, m: u64, d: nat)
    requires HitsOk(v, start, minHops, depths, queue, done, hits)
    requires queue != [] && queue[0] == (m, d) && m in depths && depths[m] == d && done <= depths.Keys
    requires forall n :: n in depths ==> n in depths' && depths'[n] == depths[n]
    requires queue' != [] ==> queue'[0].1 >= d
    ensures HitsOk(v, start, minHops, depths', queue', done + {m}, hits +
            NewHits(v.List(m), start, Nodes(hits), d + 1, minHops))
  {
    hide View.Next, View.List, InOrder, AllHitBy, AllCovered, Elems, Nodes, Excluding;
    HitsStayInOrder(v.List(m), start, hits, d + 1, minHops);
    HitsStayHit(v, start, minHops, depths, depths', done, m, d, hits);
    HitsStayCovered(v, start, minHops, depths, depths', done, m, d, hits);
  }

  lemma QueueOfSearch(v: View, start: u64, depths: Depths, queue: Queue, limit: nat, done: set<u64>)
    requires SearchOk(v, start, depths, queue, limit) && DoneOk(depths, queue, limit, done) && queue != []
    ensures QueueOk(depths, queue) && done <= depths.Keys
    ensures queue[0].0 in depths && depths[queue[0].0] == queue[0].1
  {
    HeadOf(depths, queue);
  }

  /** What the final hits are: every node met, with the least hop count it is met at. */
  ghost predicate HitsExact(v: View, start: u64, minHops: nat, maxHops: nat, hits: Hits) {
    && InOrder(hits)
    && (forall i :: 0 <= i < |hits| ==> Hit(v, start, minHops, maxHops, hits[i].0, hits[i].1))
    && (forall n: u64, k: nat :: Hit(v, start, minHops, maxHops, n, k) ==> Covered(hits, n, k))
  }

  lemma {:induction false} SearchExact(v: View, start: u64, minHops: nat, maxHops: nat, depths: Depths, queue: Queue,
                                       done: set<u64>, hits: Hits)
    requires SearchOk(v, start, depths, queue, maxHops) && DoneOk(depths, queue, maxHops, done)
    requires HitsOk(v, start, minHops, depths, queue, done, hits)
    requires depths.Keys <= Universe(v, start)
    ensures HitsExact(v, start, minHops, maxHops, Search(v, start, minHops, maxHops, depths, queue, hits))
    decreases Universe(v, start) - depths.Keys, |queue|
  {
    hide View.Next, View.List, SearchOk, DoneOk, HitsExact, QueueOk, Discovered, Excluding, Tagged, Universe,
         NewHits, Nodes, Elems, InOrder, AllHitBy, AllCovered;
    if queue == [] {
      FinalHits(v, start, minHops, maxHops, depths, done, hits);
    } else if queue[0].1 >= maxHops {
      QueueOfSearch(v, start, depths, queue, maxHops, done);
      SearchSkips(v, start, depths, queue, maxHops);
      DoneAfterSkip(depths, queue, maxHops, done);
      NextHead(depths, queue);
      SearchExact(v, start, minHops, maxHops, depths, queue[1..], done, hits);
    } else {
      var (m, d) := queue[0];
      var found := Excluding(v.List(m), depths.Keys);
      SearchStep(v, start, depths, queue, found);
      QueueOfSearch(v, start, depths, queue, maxHops, done);
      ExpandHead(v, start, maxHops, depths, queue, done, Discovered(depths, found, d + 1), queue[1..] +
                 Tagged(found, d + 1));
      HitsAfterRound(v, start, minHops, depths, queue, done, hits, Discovered(depths, found, d + 1),
                     queue[1..] + Tagged(found, d + 1), m, d);
      SearchExact(v, start, minHops, maxHops, Discovered(depths, found, d + 1), queue[1..] + Tagged(found, d + 1),
                  done + {m}, hits + NewHits(v.List(m), start, Nodes(hits), d + 1, minHops));
    }
  }

  lemma NextHead(depths: Depths, queue: Queue)
    requires QueueOk(depths, queue) && queue != []
    ensures queue[1..] != [] ==> queue[0].1 <= queue[1..][0].1
  {
  }

  lemma FinalHits(v: View, start: u64, minHops: nat, maxHops: nat, depths: Depths, done: set<u64>, hits: Hits)
    requires SearchOk(v, start, depths, [], maxHops) && DoneOk(depths, [], maxHops, done)
    requires HitsOk(v, start, minHops, depths, [], done, hits)
    ensures HitsExact(v, start, minHops, maxHops, hits)
  {
    hide View.Next, InOrder, Reach;
    HeadBounds(v, start, depths, [], maxHops);
    forall i | 0 <= i < |hits| ensures Hit(v, start, minHops, maxHops, hits[i].0, hits[i].1) {
      assert HitBy(v, depths, done, minHops, hits[i].0, hits[i].1);
      HitByExact(v, start, minHops, maxHops, depths, done, hits[i].0, hits[i].1);
    }
    forall n: u64, k: nat | Hit(v, start, minHops, maxHops, n, k) ensures Covered(hits, n, k) {
      var u: u64 :| IsDist(v, start, u, k - 1) && n in v.Next(u);
      DepthsLeast(v, start, depths, maxHops, u, k - 1);
      assert Reach(v, start, u, depths[u]);
      assert depths[u] == k - 1;
      assert u !in Queued([]);
      assert u in done;
    }
  }

  lemma HitByExact(v: View, start: u64, minHops: nat, maxHops: nat, depths: Depths, done: set<u64>, n: u64, k: nat)
    requires SearchOk(v, start, depths, [], maxHops) && DoneOk(depths, [], maxHops, done)
    requires HitBy(v, depths, done, minHops, n, k) && n != start
    ensures Hit(v, start, minHops, maxHops, n, k)
  {
    hide View.Next, Reach;
    var u :| u in done && u in depths && depths[u] + 1 == k && n in v.Next(u);
    DepthsAreDistances(v, start, depths, [], maxHops, maxHops, u);
  }

  /** `traverse` and `traverse_with_depth` without a cap return exactly the nodes next to a node at
      distance `k - 1` for some `k` in the hop range, once each, with the least such `k`, nearest
      first; with a cap they return as long a prefix of that as the cap allows. */
  lemma AllHitsExact(v: View, start: u64, minHops: nat, maxHops: nat)
    ensures HitsExact(v, start, minHops, maxHops, AllHits(v, start, minHops, maxHops))
  {
    hide View.Next, View.List, HitsExact;
    SearchStarts(v, start, maxHops);
    StartKnown(v, start);
    assert [(start, 0 as nat)][0].0 in Queued([(start, 0)]);
    SearchExact(v, start, minHops, maxHops, map[start := 0], [(start, 0)], {}, []);
  }

  /** With a lower bound of at most one hop the hop counts are distances, and the nodes are all
      those within `maxHops`. */
  lemma HitsAreDistances(v: View, start: u64, minHops: nat, maxHops: nat, n: u64, k: nat)
    requires minHops <= 1
    ensures (n, k) in AllHits(v, start, minHops, maxHops) <==> n != start && IsDist(v, start, n, k) && k <= maxHops
  {
    AllHitsExact(v, start, minHops, maxHops);
    if (n, k) in AllHits(v, start, minHops, maxHops) {
      HitAtDistance(v, start, minHops, maxHops, AllHits(v, start, minHops, maxHops), n, k);
    }
    if n != start && IsDist(v, start, n, k) && k <= maxHops {
      HitFound(v, start, minHops, maxHops, AllHits(v, start, minHops, maxHops), n, k);
    }
  }

  lemma HitReaches(v: View, start: u64, minHops: nat, maxHops: nat, n: u64, k: nat)
    requires Hit(v, start, minHops, maxHops, n, k)
    ensures Reach(v, start, n, k)
  {
    hide View.Next;
    var u: u64 :| IsDist(v, start, u, k - 1) && n in v.Next(u);
    ReachStep(v, start, u, n, k - 1);
  }

  lemma HitIndex(v: View, start: u64, minHops: nat, maxHops: nat, hits: Hits, n: u64, k: nat) returns (i: nat)
    requires HitsExact(v, start, minHops, maxHops, hits) && Hit(v, start, minHops, maxHops, n, k)
    ensures i < |hits| && hits[i].0 == n && hits[i].1 <= k && Hit(v, start, minHops, maxHops, n, hits[i].1)
  {
    hide View.Next, Hit;
    assert Covered(hits, n, k);
    i :| 0 <= i < |hits| && hits[i].0 == n && hits[i].1 <= k;
    assert Hit(v, start, minHops, maxHops, hits[i].0, hits[i].1);
  }

  lemma HitFound(v: View, start: u64, minHops: nat, maxHops: nat, hits: Hits, n: u64, k: nat)
    requires HitsExact(v, start, minHops, maxHops, hits) && minHops <= 1
    requires n != start && IsDist(v, start, n, k) && k <= maxHops
    ensures (n, k) in hits
  {
    hide View.Next, Hit, Reach, HitsExact;
    DistIsHit(v, start, minHops, maxHops, n, k);
    var i := HitIndex(v, start, minHops, maxHops, hits, n, k);
    HitReaches(v, start, minHops, maxHops, n, hits[i].1);
    assert hits[i] == (n, k);
  }

  lemma HitAtDistance(v: View, start: u64, minHops: nat, maxHops: nat, hits: Hits, n: u64, k: nat)
    requires HitsExact(v, start, minHops, maxHops, hits) && minHops <= 1 && (n, k) in hits
    ensures n != start && IsDist(v, start, n, k) && k <= maxHops
  {
    hide View.Next, Reach;
    var i :| 0 <= i < |hits| && hits[i] == (n, k);
    assert Hit(v, start, minHops, maxHops, hits[i].0, hits[i].1);
    HitReaches(v, start, minHops, maxHops, n, k);
    var d := DistExists(v, start, n, k);
    HitFound(v, start, minHops, maxHops, hits, n, d);
    var j :| 0 <= j < |hits| && hits[j] == (n, d);
    assert i == j;
  }

  lemma DistIsHit(v: View, start: u64, minHops: nat, maxHops: nat, n: u64, k: nat)
    requires n != start && IsDist(v, start, n, k) && minHops <= 1 && k <= maxHops
    ensures Hit(v, start, minHops, maxHops, n, k)
  {
    hide View.Next;
    var u: u64 :| Reach(v, start, u, k - 1) && n in v.Next(u);
    forall j: nat | j < k - 1 ensures !Reach(v, start, u, j) {
      if Reach(v, start, u, j) {
        ReachStep(v, start, u, n, j);
      }
    }
    assert IsDist(v, start, u, k - 1);
  }
}
