/** Single and all shortest paths (src/storage/edge.rs:756-902). */
module Shortest {
  import opened Prelude
  import opened Graph
  import opened Db
  import opened Edges
  import opened Paths

  function Reversed<T>(s: seq<T>): (r: seq<T>)
    ensures |r| == |s|
    ensures forall i :: 0 <= i < |s| ==> r[i] == s[|s| - 1 - i]
  {
    seq(|s|, i requires 0 <= i < |s| => s[|s| - 1 - i])
  }

  // ---------------------------------------------------------------- one node at a time

  /** Looking at one more neighbour: a node not seen before gets the next depth, and no node
      is met twice in one neighbour list. */
  lemma DiscoverOne(depths: Depths, nbrs: seq<u64>, i: nat, d: nat)
    requires NoDup(nbrs) && i < |nbrs|
    ensures var before, after := Excluding(nbrs[..i], depths.Keys), Excluding(nbrs[..i + 1], depths.Keys);
            && (nbrs[i] in Discovered(depths, before, d) <==> nbrs[i] in depths)
            && after == (if nbrs[i] in depths then before else before + [nbrs[i]])
            && Discovered(depths, after, d) ==
               (if nbrs[i] in depths then Discovered(depths, before, d)
                else Discovered(depths, before, d)[nbrs[i] := d])
  {
    var before := Excluding(nbrs[..i], depths.Keys);
    assert nbrs[..i + 1][..i] == nbrs[..i];
    ExcludingSpec(nbrs[..i], depths.Keys);
    assert nbrs[i] !in Elems(nbrs[..i]);
    ElemsConcat(before, [nbrs[i]]);
    ElemsSingle(nbrs[i]);
  }

  lemma TaggedOneMore(nodes: seq<u64>, n: u64, d: nat)
    ensures Tagged(nodes + [n], d) == Tagged(nodes, d) + [(n, d)]
  {
  }

  lemma NoneDiscovered(depths: Depths, d: nat)
    ensures Discovered(depths, [], d) == depths && Tagged([], d) == []
  {
    assert Elems<u64>([]) == {};
  }

  // ---------------------------------------------------------------- shortest_path

  /** Every node but the start was first met from its parent, one level up. */
  ghost predicate ParentsOk(v: View, start: u64, depths: Depths, parent: map<u64, u64>) {
    parent.Keys == depths.Keys &&
    forall n :: n in parent && n != start ==>
      parent[n] in depths && depths[n] == depths[parent[n]] + 1 && n in v.Next(parent[n])
  }

  /** The walk back along the parents; it ends because depths fall on the way. */
  method Reconstruct(parent: map<u64, u64>, start: u64, end: u64, ghost v: View, ghost depths: Depths)
    returns (path: seq<u64>)
    requires ParentsOk(v, start, depths, parent)
    requires start in depths && depths[start] == 0 && end in depths
    ensures IsPath(v, start, end, path) && |path| == depths[end] + 1
  {
    hide View.Next;
    path := [end];
    var cur := end;
    while cur != start
      invariant cur in depths && |path| + depths[cur] == depths[end] + 1
      invariant IsPath(v, cur, end, Reversed(path))
      decreases depths[cur]
    {
      ghost var before := path;
      var p := parent[cur];
      path := path + [p];
      assert Reversed(path) == [p] + Reversed(before);
      cur := p;
    }
    path := Reversed(path);
  }

  lemma ParentAdded(v: View, start: u64, depths: Depths, parent: map<u64, u64>, n: u64, m: u64)
    requires ParentsOk(v, start, depths, parent) && n !in depths && m in depths && n in v.Next(m)
    ensures ParentsOk(v, start, depths[n := depths[m] + 1], parent[n := m])
  {
  }

  /** Nothing met up to now is nearer to the end than the node that reaches it first. */
  lemma FirstMeeting(v: View, start: u64, end: u64, depths: Depths, queue: Queue, limit: nat)
    requires SearchOk(v, start, depths, queue, limit) && queue != [] && queue[0].1 < limit
    requires end !in depths && end in v.Next(queue[0].0)
    ensures IsDist(v, start, end, queue[0].1 + 1)
  {
    hide View.Next;
    var m, d := queue[0].0, queue[0].1;
    HeadBounds(v, start, depths, queue, limit);
    HeadOf(depths, queue);
    assert Reach(v, start, m, depths[m]);
    ReachStep(v, start, m, end, d);
    forall j: nat | j <= d ensures !Reach(v, start, end, j) {
      if Reach(v, start, end, j) {
        DepthsLeast(v, start, depths, d, end, j);
      }
    }
  }

  lemma NotFound(v: View, start: u64, end: u64, depths: Depths, limit: nat)
    requires SearchOk(v, start, depths, [], limit) && end !in depths
    ensures forall k: nat :: k <= limit ==> !Reach(v, start, end, k)
  {
    HeadBounds(v, start, depths, [], limit);
    forall k: nat | k <= limit ensures !Reach(v, start, end, k) {
      if Reach(v, start, end, k) {
        DepthsLeast(v, start, depths, limit, end, k);
      }
    }
  }

  /** `shortest_path`: a path of least length when one of at most `maxHops` hops exists, and none
      exactly when there is no such path. */
  method ShortestPath(conn: Connection, start: u64, end: u64, lbl: Name, direction: Direction, maxHops: nat)
    returns (r: Option<seq<u64>>)
    requires conn.EdgesValid()
    ensures var v := View(conn.edgeSet.Keys, lbl, direction);
            match r
            case Some(p) => IsPath(v, start, end, p) && |p| - 1 <= maxHops && IsDist(v, start, end, |p| - 1)
            case None => forall k: nat :: k <= maxHops ==> !Reach(v, start, end, k)
  {
    hide SearchOk, EdgesOk, View.Next, View.List, NeighborList, ParentsOk, Discovered, Tagged, Excluding, IsPath,
         Reach, IsDist, Elems, Meeting;
    ghost var v := View(conn.edgeSet.Keys, lbl, direction);
    if start == end {
      TrivialPath(v, start);
      return Some([start]);
    }
    var parent: map<u64, u64>, queue: Queue := map[start := start], [(start, 0)];
    ghost var depths: Depths := map[start := 0];
    SearchStarts(v, start, maxHops);
    FirstParent(v, start);
    while queue != []
      invariant SearchOk(v, start, depths, queue, maxHops) && ParentsOk(v, start, depths, parent)
      invariant end !in depths
      decreases Universe(v, start) - depths.Keys, |queue|
    {
      var (current, depth) := queue[0];
      if depth >= maxHops {
        SearchSkips(v, start, depths, queue, maxHops);
        queue := queue[1..];
        continue;
      }
      ghost var depths0, queue0 := depths, queue;
      HeadFacts(v, start, depths, queue, maxHops);
      StartDepth(v, start, depths, queue, maxHops);
      queue := queue[1..];
      var neighbors := GetNeighbors(conn, current, lbl, direction);
      ListIs(v, current);
      MeetingStarts(v, start, depths, queue, neighbors, current, depth + 1, parent);
      for i := 0 to |neighbors|
        invariant Meeting(v, start, depths0, queue0[1..], neighbors, current, depth + 1, i, depths, queue, parent)
        invariant end !in depths
      {
        MeetOne(v, start, depths0, queue0[1..], neighbors, current, depth + 1, i, depths, queue, parent);
        if neighbors[i] in parent {
          continue;
        }
        parent := parent[neighbors[i] := current];
        depths := depths[neighbors[i] := depth + 1];
        ghost var queued := queue + [(neighbors[i], depth + 1)];
        if neighbors[i] == end {
          FirstMeeting(v, start, end, depths0, queue0, maxHops);
          MeetingParents(v, start, depths0, queue0[1..], neighbors, current, depth + 1, i + 1, depths, queued, parent);
          var path := Reconstruct(parent, start, end, v, depths);
          return Some(path);
        }
        queue := queue + [(neighbors[i], depth + 1)];
      }
      MeetingDone(v, start, depths0, queue0[1..], neighbors, current, depth + 1, depths, queue, parent);
      SearchExpands(v, start, depths0, queue0, maxHops, maxHops, Excluding(neighbors, depths0.Keys));
      StartDepth(v, start, depths, queue, maxHops);
      Progress(v, start, depths0, depths, queue0, queue, Excluding(neighbors, depths0.Keys), depth + 1);
    }
    NotFound(v, start, end, depths, maxHops);
    return None;
  }

  /** The neighbours of `cur` met so far, `i` of them: they have depth `d` and are queued behind `rest`. */
  ghost predicate Meeting(v: View, start: u64, depths0: Depths, rest: Queue, nbrs: seq<u64>, cur: u64, d: nat, i: nat,
                          depths: Depths, queue: Queue, parent: map<u64, u64>) {
    && i <= |nbrs|
    && depths == Discovered(depths0, Excluding(nbrs[..i], depths0.Keys), d)
    && queue == rest + Tagged(Excluding(nbrs[..i], depths0.Keys), d)
    && ParentsOk(v, start, depths, parent)
    && cur in depths && depths[cur] + 1 == d && start in depths && depths[start] == 0
  }

  lemma MeetingStarts(v: View, start: u64, depths: Depths, rest: Queue, nbrs: seq<u64>, cur: u64, d: nat,
                      parent: map<u64, u64>)
    requires ParentsOk(v, start, depths, parent)
    requires cur in depths && depths[cur] + 1 == d && start in depths && depths[start] == 0
    ensures Meeting(v, start, depths, rest, nbrs, cur, d, 0, depths, rest, parent)
  {
    hide ParentsOk, Discovered, Tagged;
    NoneDiscovered(depths, d);
    assert nbrs[..0] == [];
    EmptyExcluding(depths.Keys);
    assert rest + [] == rest;
  }

  lemma MeetOne(v: View, start: u64, depths0: Depths, rest: Queue, nbrs: seq<u64>, cur: u64, d: nat, i: nat,
                depths: Depths, queue: Queue, parent: map<u64, u64>)
    requires Meeting(v, start, depths0, rest, nbrs, cur, d, i, depths, queue, parent)
    requires nbrs == v.List(cur) && i < |nbrs| && NoDup(nbrs)
    ensures nbrs[i] in v.Next(cur) && (nbrs[i] in parent <==> nbrs[i] in depths)
    ensures nbrs[i] in parent ==> Meeting(v, start, depths0, rest, nbrs, cur, d, i + 1, depths, queue, parent)
    ensures nbrs[i] !in parent ==>
              Meeting(v, start, depths0, rest, nbrs, cur, d, i + 1, depths[nbrs[i] := d],
                      queue + [(nbrs[i], d)], parent[nbrs[i] := cur])
  {
    hide ParentsOk, Discovered, Tagged, Excluding, View.Next, View.List;
    var n, found := nbrs[i], Excluding(nbrs[..i], depths0.Keys);
    DiscoverOne(depths0, nbrs, i, d);
    ParentKeys(v, start, depths, parent);
    NeighborIn(v, nbrs, cur, i);
    DiscoveredKeeps(depths0, found, d);
    if n !in depths {
      ParentAdded(v, start, depths, parent, n, cur);
      TaggedOneMore(found, n, d);
      assert queue + [(n, d)] == rest + (Tagged(found, d) + [(n, d)]);
    }
  }

  lemma DiscoveredKeeps(depths: Depths, found: seq<u64>, d: nat)
    ensures forall n :: n in depths ==> n in Discovered(depths, found, d)
  {
  }

  lemma MeetingParents(v: View, start: u64, depths0: Depths, rest: Queue, nbrs: seq<u64>, cur: u64, d: nat, i: nat,
                       depths: Depths, queue: Queue, parent: map<u64, u64>)
    requires Meeting(v, start, depths0, rest, nbrs, cur, d, i, depths, queue, parent)
    ensures ParentsOk(v, start, depths, parent) && start in depths && depths[start] == 0
  {
  }

  lemma MeetingDone(v: View, start: u64, depths0: Depths, rest: Queue, nbrs: seq<u64>, cur: u64, d: nat,
                    depths: Depths, queue: Queue, parent: map<u64, u64>)
    requires Meeting(v, start, depths0, rest, nbrs, cur, d, |nbrs|, depths, queue, parent) && nbrs == v.List(cur)
    ensures var found := Excluding(nbrs, depths0.Keys);
            && depths == Discovered(depths0, found, d) && queue == rest + Tagged(found, d)
            && ParentsOk(v, start, depths, parent) && Elems(found) == v.Next(cur) - depths0.Keys
  {
    hide ParentsOk, Discovered, Tagged, Excluding, View.Next, View.List;
    assert nbrs[..|nbrs|] == nbrs;
    AllPushed(v, nbrs, cur, depths0);
  }

  lemma TrivialPath(v: View, start: u64)
    ensures IsPath(v, start, start, [start]) && IsDist(v, start, start, 0)
  {
  }

  lemma FirstParent(v: View, start: u64)
    ensures ParentsOk(v, start, map[start := 0], map[start := start])
  {
  }

  lemma HeadFacts(v: View, start: u64, depths: Depths, queue: Queue, limit: nat)
    requires SearchOk(v, start, depths, queue, limit) && queue != []
    ensures queue[0].0 in depths && depths[queue[0].0] == queue[0].1
  {
    HeadOf(depths, queue);
  }

  lemma StartDepth(v: View, start: u64, depths: Depths, queue: Queue, limit: nat)
    requires SearchOk(v, start, depths, queue, limit)
    ensures start in depths && depths[start] == 0 && depths.Keys <= Universe(v, start)
  {
  }

  lemma ListIs(v: View, n: u64)
    ensures v.List(n) == NeighborList(v.edges, n, v.lbl, v.direction)
    ensures NoDup(v.List(n)) && Elems(v.List(n)) == v.Next(n)
  {
  }

  lemma EmptyExcluding(known: set<u64>)
    ensures Excluding([], known) == []
  {
  }

  lemma ParentKeys(v: View, start: u64, depths: Depths, parent: map<u64, u64>)
    requires ParentsOk(v, start, depths, parent)
    ensures parent.Keys == depths.Keys
  {
  }

  lemma NeighborIn(v: View, nbrs: seq<u64>, n: u64, i: nat)
    requires nbrs == v.List(n) && i < |nbrs|
    ensures nbrs[i] in v.Next(n)
  {
    assert nbrs[i] in Elems(nbrs);
  }

  lemma AllPushed(v: View, nbrs: seq<u64>, n: u64, depths: Depths)
    requires nbrs == v.List(n)
    ensures Elems(Excluding(nbrs, depths.Keys)) == v.Next(n) - depths.Keys
  {
    ExcludingSpec(nbrs, depths.Keys);
  }

  /** A round of the search either meets new nodes or shortens the queue. */
  lemma Progress(v: View, start: u64, depths: Depths, depths': Depths, queue: Queue, queue': Queue,
                 found: seq<u64>, d: nat)
    requires queue != [] && depths' == Discovered(depths, found, d) && depths'.Keys <= Universe(v, start)
    requires queue' == queue[1..] + Tagged(found, d) && Elems(found) !! depths.Keys
    ensures Universe(v, start) - depths'.Keys < Universe(v, start) - depths.Keys ||
            (depths'.Keys == depths.Keys && |queue'| < |queue|)
  {
    if found == [] {
      NoneDiscovered(depths, d);
    } else {
      assert found[0] in Elems(found);
      assert found[0] in depths' && found[0] in Universe(v, start);
    }
  }
}
