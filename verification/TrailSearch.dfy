/** The loops of `traverse_paths` (src/storage/edge.rs:560-754). */
module TrailSearch {
  import opened Prelude
  import opened Graph
  import opened Db
  import opened Edges
  import opened Traverse
  import opened Trails

  /** A stack frame: the node reached, the path to it and the edges on that path. */
  datatype Frame = Frame(node: u64, path: Trail, visited: set<Edge>)

  function FrameOf(start: u64, path: Trail): Frame {
    Frame(End(start, path), path, EdgesOf(path))
  }

  function FramesOf(start: u64, paths: seq<Trail>): (r: seq<Frame>)
    ensures |r| == |paths|
    ensures forall i :: 0 <= i < |r| ==> r[i] == FrameOf(start, paths[i])
  {
    seq(|paths|, i requires 0 <= i < |paths| => FrameOf(start, paths[i]))
  }

  // ---------------------------------------------------------------- algebra of visits

  lemma VisitsConcat(q: Query, path: Trail, a: seq<Step>, b: seq<Step>)
    ensures Visits(q, path, a + b) == Visits(q, path, a) + Visits(q, path, b)
  {
  }

  lemma {:induction false} KidsConcat(q: Query, path: Trail, a: seq<Step>, b: seq<Step>)
    ensures Kids(q, path, a + b) == Kids(q, path, a) + Kids(q, path, b)
    decreases |b|
  {
    hide Accepted;
    if b == [] {
      assert a + b == a;
    } else {
      assert (a + b)[..|a + b| - 1] == a + b[..|b| - 1];
      KidsConcat(q, path, a, b[..|b| - 1]);
    }
  }

  lemma {:induction false} StackOfKids(q: Query, path: Trail, rest: seq<Trail>, kids: seq<Trail>, i: nat)
    requires i <= |kids| && |path| < q.maxHops
    requires forall k :: 0 <= k < |kids| ==> |kids[k]| == |path| + 1
    ensures StackTrace(q, rest + kids[..i]) == KidTraces(q, path, kids, i) + StackTrace(q, rest)
    ensures StackFrames(q, rest + kids[..i]) == KidFrames(q, path, kids, i) + StackFrames(q, rest)
    decreases i
  {
    hide Trace, Frames;
    if i == 0 {
      assert rest + kids[..0] == rest;
      assert KidTraces(q, path, kids, 0) + StackTrace(q, rest) == StackTrace(q, rest);
    } else {
      StackOfKids(q, path, rest, kids, i - 1);
      var stack := rest + kids[..i];
      assert stack[..|stack| - 1] == rest + kids[..i - 1];
      assert stack[|stack| - 1] == kids[i - 1];
      assert Trace(q, kids[i - 1]) + (KidTraces(q, path, kids, i - 1) + StackTrace(q, rest)) ==
             KidTraces(q, path, kids, i) + StackTrace(q, rest);
    }
  }

  lemma OneVisit(q: Query, path: Trail, cands: seq<Step>, i: nat)
    requires i < |cands|
    ensures Visits(q, path, cands[..i + 1]) == Visits(q, path, cands[..i]) + [VisitOf(q, path, cands[i])]
    ensures Kids(q, path, cands[..i + 1]) ==
            Kids(q, path, cands[..i]) + NewKid(q, path, cands[i])
  {
    assert cands[..i + 1][..i] == cands[..i];
  }

  lemma FeedOne(s: Run, visits: seq<Option<Found>>, visit: Option<Found>, cap: Option<nat>)
    ensures FeedAll(s, visits + [visit], cap) == Feed(FeedAll(s, visits, cap), visit, cap)
  {
    assert (visits + [visit])[..|visits|] == visits;
  }

  lemma EdgesOfOneMore(path: Trail, c: Step)
    ensures EdgesOf(path + [c]) == EdgesOf(path) + {c.edge}
  {
    var p := path + [c];
    forall e | e in EdgesOf(path) ensures e in EdgesOf(p) {
      var i :| 0 <= i < |path| && path[i].edge == e;
      assert p[i] == path[i];
    }
    assert p[|path|].edge in EdgesOf(p);
  }

  // ---------------------------------------------------------------- one neighbour

  /** The property filters, checked one by one. */
  method CheckFilters(props: Props, filters: Props) returns (matches: bool)
    ensures matches == Matches(props, filters)
    ensures matches <==> filters.Items <= props.Items
  {
    FiltersAmong(props, filters);
    var left := filters.Keys;
    while left != {}
      invariant left <= filters.Keys
      invariant forall k :: k in filters.Keys - left ==> k in props && props[k] == filters[k]
      decreases left
    {
      var k :| k in left;
      if k !in props || props[k] != filters[k] {
        return false;
      }
      left := left - {k};
    }
    return true;
  }

  /** An edge passes when every filter is one of its entries: a missing property fails. */
  lemma FiltersAmong(props: Props, filters: Props)
    ensures Matches(props, filters) <==> filters.Items <= props.Items
  {
    if Matches(props, filters) {
      forall item | item in filters.Items ensures item in props.Items {
        assert item.0 in filters.Keys;
      }
    }
    if filters.Items <= props.Items {
      forall k | k in filters.Keys ensures k in props && props[k] == filters[k] {
        assert (k, filters[k]) in filters.Items;
      }
    }
  }

  /** A row of `directed_edges`: a parallel edge with its properties. */
  ghost predicate Fetched(edges: map<Edge, Props>, rows: seq<(Edge, Props)>, es: seq<Edge>) {
    |rows| == |es| &&
    forall i :: 0 <= i < |rows| ==> rows[i].0 == es[i] && es[i] in edges && rows[i].1 == edges[es[i]]
  }

  method FetchParallel(conn: Connection, src: u64, dst: u64, lbl: Name) returns (rows: seq<(Edge, Props)>)
    requires conn.EdgesValid() && NulFree(lbl)
    ensures Fetched(conn.edgeSet, rows, ParallelEdges(conn.edgeSet.Keys, src, dst, lbl))
  {
    hide EdgesOk, Parallel, ParallelSeqs;
    var all := GetAllEdgeProps(conn, src, dst, lbl);
    rows := seq(|all|, i requires 0 <= i < |all| => (Edge(src, dst, lbl, all[i].0), all[i].1));
    ghost var nums := SortedWords(ParallelSeqs(conn.edgeSet.Keys, src, dst, lbl));
    forall i | 0 <= i < |nums| ensures Edge(src, dst, lbl, nums[i]) in conn.edgeSet {
      assert nums[i] in Elems(nums);
      ParallelSeqsIff(conn.edgeSet.Keys, src, dst, lbl, nums[i]);
    }
  }

  lemma ParallelNonEmpty(edges: set<Edge>, src: u64, dst: u64, lbl: Name)
    requires Parallel(edges, src, dst, lbl) != {}
    ensures ParallelEdges(edges, src, dst, lbl) != []
  {
    var e :| e in Parallel(edges, src, dst, lbl);
    assert e.num in ParallelSeqs(edges, src, dst, lbl);
    assert e.num in Elems(SortedWords(ParallelSeqs(edges, src, dst, lbl)));
  }

  /** A neighbour in an adjacency list has an edge row in a matching direction. */
  lemma NeighborHasEdge(edges: set<Edge>, n: u64, m: u64, lbl: Name, direction: Direction)
    requires m in Neighborhood(edges, n, lbl, direction)
    ensures Directed(edges, n, m, lbl, direction) != []
  {
    FarEndsIffParallel(edges, n, m, lbl);
    FarEndsIffParallel(edges, m, n, lbl);
    if Parallel(edges, n, m, lbl) != {} && direction != Incoming {
      ParallelNonEmpty(edges, n, m, lbl);
    } else {
      ParallelNonEmpty(edges, m, n, lbl);
    }
  }

  /** Whatever label is asked for, a neighbour is there only along a stored type, and those have no NUL
      byte. */
  lemma NeighborNulFree(t: EdgeTables, edges: map<Edge, Props>, n: u64, m: u64, lbl: Name, direction: Direction)
    requires EdgesOk(t, edges) && m in Neighborhood(edges.Keys, n, lbl, direction)
    ensures NulFree(lbl)
  {
    hide EdgesOk, EdgeRowsOk, AdjOk, NumbersOk, TypeCountsOk, Neighborhood, ValidName, NulFree;
    EdgesOkParts(t, edges);
    var e := EdgeToNeighbor(edges.Keys, n, m, lbl, direction);
    ValidIsNulFree(e.lbl);
  }

  lemma EdgeToNeighbor(edges: set<Edge>, n: u64, m: u64, lbl: Name, direction: Direction) returns (e: Edge)
    requires m in Neighborhood(edges, n, lbl, direction)
    ensures e in edges && e.lbl == lbl
  {
    if m in FarEnds(edges, n, lbl, true) {
      e :| e in edges && Near(e, true) == n && e.lbl == lbl && Far(e, true) == m;
    } else {
      e :| e in edges && Near(e, false) == n && e.lbl == lbl && Far(e, false) == m;
    }
  }

  lemma ValidIsNulFree(name: Name)
    requires ValidName(name)
    ensures NulFree(name)
  {
  }

  /** `directed_edges` of one neighbour. Every adjacency entry has a row, so the fallback to an
      edge without one is never taken. */
  method DirectedEdges(conn: Connection, current: u64, neighbor: u64, lbl: Name, direction: Direction)
    returns (rows: seq<(Edge, Props)>)
    requires conn.EdgesValid()
    requires neighbor in Neighborhood(conn.edgeSet.Keys, current, lbl, direction)
    ensures Fetched(conn.edgeSet, rows, Directed(conn.edgeSet.Keys, current, neighbor, lbl, direction))
  {
    hide EdgesOk, ParallelEdges, Neighborhood, NulFree;
    NeighborNulFree(conn.EdgeState(), conn.edgeSet, current, neighbor, lbl, direction);
    match direction {
      case Outgoing => rows := FetchParallel(conn, current, neighbor, lbl);
      case Incoming => rows := FetchParallel(conn, neighbor, current, lbl);
      case Both =>
        rows := FetchParallel(conn, current, neighbor, lbl);
        if current != neighbor {
          var reverse := FetchParallel(conn, neighbor, current, lbl);
          rows := rows + reverse;
        }
    }
    NeighborHasEdge(conn.edgeSet.Keys, current, neighbor, lbl, direction);
    if rows == [] {
      // An entry without a row: the tables rule it out.
      assert false;
    }
  }

  /** One edge visit: charges the work cap, checks uniqueness and filters, stores the result row
      and gives the frame to push, if any. */
  method VisitEdge(row: (Edge, Props), neighbor: u64, frame: Frame, state: Run,
                   minHops: nat, maxHops: nat, filters: Props, cap: Option<nat>, ghost q: Query)
    returns (state': Run, pushed: seq<Frame>)
    requires q.minHops == minHops && q.maxHops == maxHops && q.filters == filters
    requires row.0 in q.edges && row.1 == q.edges[row.0] && frame == FrameOf(q.start, frame.path) && state.Running?
    ensures state' == Feed(state, VisitOf(q, frame.path, Step(row.0, neighbor)), cap)
    ensures state'.Running? ==>
              pushed == FramesOf(q.start, NewKid(q, frame.path, Step(row.0, neighbor)))
  {
    hide Matches, EdgesOf, Full;
    state', pushed := state, [];
    if state.fuel == Some(0) {
      state' := Ended(Err(WorkLimit));
      return;
    }
    if state.fuel.Some? {
      state' := state.(fuel := Some(state.fuel.value - 1));
    }
    var step := Step(row.0, neighbor);
    if step.edge in frame.visited {
      return;
    }
    var matches := CheckFilters(row.1, filters);
    if !matches {
      return;
    }
    var newPath := frame.path + [step];
    EdgesOfOneMore(frame.path, step);
    if |newPath| >= minHops {
      var results := state'.results + [(neighbor, newPath)];
      if cap.Some? && |results| >= cap.value {
        FullHere(|results|, cap);
        state' := Ended(Ok(results));
        return;
      }
      NotFull(|results|, cap);
      state' := state'.(results := results);
    }
    if |newPath| < maxHops {
      pushed := [Frame(neighbor, newPath, frame.visited + {step.edge})];
    }
  }

  ghost function NewKid(q: Query, path: Trail, c: Step): seq<Trail> {
    if Accepted(q, path, c) && |path| + 1 < q.maxHops then [path + [c]] else []
  }

  lemma FramesConcat(start: u64, a: seq<Trail>, b: seq<Trail>)
    ensures FramesOf(start, a + b) == FramesOf(start, a) + FramesOf(start, b)
  {
  }

  /** The visits of the edges to one neighbour. Stops as soon as a cap ends the run. */
  method VisitEdges(rows: seq<(Edge, Props)>, neighbor: u64, frame: Frame, state: Run, stack: seq<Frame>,
                    minHops: nat, maxHops: nat, filters: Props, cap: Option<nat>, ghost q: Query, ghost es: seq<Edge>)
    returns (state': Run, stack': seq<Frame>)
    requires q.minHops == minHops && q.maxHops == maxHops && q.filters == filters
    requires Fetched(q.edges, rows, es) && frame == FrameOf(q.start, frame.path) && state.Running?
    ensures state' == FeedAll(state, Visits(q, frame.path, StepsTo(es, neighbor)), cap)
    ensures state'.Running? ==> stack' == stack + FramesOf(q.start, Kids(q, frame.path, StepsTo(es, neighbor)))
  {
    hide VisitOf, Feed, FrameOf, NewKid;
    ghost var cands := StepsTo(es, neighbor);
    state', stack' := state, stack;
    for i := 0 to |rows|
      invariant state'.Running?
      invariant state' == FeedAll(state, Visits(q, frame.path, cands[..i]), cap)
      invariant stack' == stack + FramesOf(q.start, Kids(q, frame.path, cands[..i]))
    {
      OneVisit(q, frame.path, cands, i);
      FeedOne(state, Visits(q, frame.path, cands[..i]), VisitOf(q, frame.path, cands[i]), cap);
      FramesConcat(q.start, Kids(q, frame.path, cands[..i]), NewKid(q, frame.path, cands[i]));
      var pushed;
      state', pushed := VisitEdge(rows[i], neighbor, frame, state', minHops, maxHops, filters, cap, q);
      if state'.Ended? {
        VisitsGoOn(state, q, frame.path, cands, i + 1, cap);
        return;
      }
      stack' := stack' + pushed;
    }
    assert cands[..|rows|] == cands;
  }

  lemma FullHere(n: nat, cap: Option<nat>)
    requires cap.Some? && n >= cap.value && n > 0
    ensures Full(n, cap)
  {
  }

  lemma NotFull(n: nat, cap: Option<nat>)
    requires !(cap.Some? && n >= cap.value)
    ensures !Full(n, cap)
  {
  }

  /** Once a run has ended, further visits change nothing. */
  lemma VisitsGoOn(s: Run, q: Query, path: Trail, cands: seq<Step>, i: nat, cap: Option<nat>)
    requires i <= |cands|
    ensures var mid := FeedAll(s, Visits(q, path, cands[..i]), cap);
            mid.Ended? ==> FeedAll(s, Visits(q, path, cands), cap) == mid
  {
    assert cands == cands[..i] + cands[i..];
    VisitsConcat(q, path, cands[..i], cands[i..]);
    FeedConcat(s, Visits(q, path, cands[..i]), Visits(q, path, cands[i..]), cap);
    var mid := FeedAll(s, Visits(q, path, cands[..i]), cap);
    if mid.Ended? {
      FeedEnded(mid, Visits(q, path, cands[i..]), cap);
    }
  }

  // ---------------------------------------------------------------- one frame

  /** The fixed arguments of a call, as the loops carry them around. */
  datatype Args = Args(start: u64, labels: seq<Name>, direction: Direction, minHops: nat, maxHops: nat, filters: Props,
                       cap: Option<nat>)

  ghost function QueryOf(a: Args, edges: map<Edge, Props>): Query {
    Query(edges, a.start, a.labels, a.direction, a.minHops, a.maxHops, a.filters)
  }

  /** The run and the stack after the visits to `cands`, seen from the frame's path. */
  ghost predicate After(q: Query, path: Trail, cands: seq<Step>, state: Run, stack: seq<Frame>, cap: Option<nat>,
                        state': Run, stack': seq<Frame>)
  {
    state' == FeedAll(state, Visits(q, path, cands), cap) &&
    (state'.Running? ==> stack' == stack + FramesOf(q.start, Kids(q, path, cands)))
  }

  lemma AfterNothing(q: Query, path: Trail, state: Run, stack: seq<Frame>, cap: Option<nat>)
    ensures After(q, path, [], state, stack, cap, state, stack)
  {
  }

  lemma AfterMore(q: Query, path: Trail, a: seq<Step>, b: seq<Step>, s0: Run, k0: seq<Frame>, cap: Option<nat>,
                  s1: Run, k1: seq<Frame>, s2: Run, k2: seq<Frame>)
    requires After(q, path, a, s0, k0, cap, s1, k1) && s1.Running? && After(q, path, b, s1, k1, cap, s2, k2)
    ensures After(q, path, a + b, s0, k0, cap, s2, k2)
  {
    hide VisitOf, Feed, FrameOf;
    VisitsConcat(q, path, a, b);
    KidsConcat(q, path, a, b);
    FeedConcat(s0, Visits(q, path, a), Visits(q, path, b), cap);
    FramesConcat(q.start, Kids(q, path, a), Kids(q, path, b));
  }

  lemma AfterEnded(q: Query, path: Trail, a: seq<Step>, b: seq<Step>, s0: Run, k0: seq<Frame>, cap: Option<nat>,
                   s1: Run, k1: seq<Frame>)
    requires After(q, path, a, s0, k0, cap, s1, k1) && s1.Ended? && a <= b
    ensures After(q, path, b, s0, k0, cap, s1, k1)
  {
    hide VisitOf, Feed, FrameOf;
    assert b[..|a|] == a;
    VisitsGoOn(s0, q, path, b, |a|, cap);
  }

  lemma {:induction false} StepsAlongGrow(q: Query, n: u64, lbl: Name, nbrs: seq<u64>, i: nat, j: nat)
    requires i <= j <= |nbrs|
    ensures StepsAlong(q, n, lbl, nbrs, i) <= StepsAlong(q, n, lbl, nbrs, j)
    decreases j
  {
    hide Directed;
    if i < j {
      StepsAlongGrow(q, n, lbl, nbrs, i, j - 1);
    }
  }

  lemma {:induction false} AlongLabelsGrow(q: Query, n: u64, labels: seq<Name>, i: nat, j: nat)
    requires i <= j <= |labels|
    ensures AlongLabels(q, n, labels, i) <= AlongLabels(q, n, labels, j)
    decreases j
  {
    hide AlongLabel;
    if i < j {
      AlongLabelsGrow(q, n, labels, i, j - 1);
    }
  }

  lemma NeighborOf(edges: set<Edge>, n: u64, lbl: Name, direction: Direction, i: nat)
    requires i < |NeighborList(edges, n, lbl, direction)|
    ensures NeighborList(edges, n, lbl, direction)[i] in Neighborhood(edges, n, lbl, direction)
  {
    hide NeighborList, Neighborhood;
    NeighborListSpec(edges, n, lbl, direction);
    assert NeighborList(edges, n, lbl, direction)[i] in Elems(NeighborList(edges, n, lbl, direction));
  }

  /** The visits along one label. */
  method VisitLabel(conn: Connection, lbl: Name, frame: Frame, state: Run, stack: seq<Frame>, args: Args)
    returns (state': Run, stack': seq<Frame>)
    requires conn.EdgesValid() && frame == FrameOf(args.start, frame.path) && state.Running?
    ensures var q := QueryOf(args, conn.edgeSet);
            After(q, frame.path, AlongLabel(q, frame.node, lbl), state, stack, args.cap, state', stack')
  {
    hide EdgesOk, After, Directed, NeighborList, Neighborhood, FrameOf, FeedAll, Visits, Kids, Fetched;
    ghost var q := QueryOf(args, conn.edgeSet);
    var neighbors := GetNeighbors(conn, frame.node, lbl, args.direction);
    state', stack' := state, stack;
    AfterNothing(q, frame.path, state, stack, args.cap);
    for i := 0 to |neighbors|
      invariant state'.Running?
      invariant After(q, frame.path, StepsAlong(q, frame.node, lbl, neighbors, i), state, stack, args.cap, state',
                stack')
    {
      NeighborOf(conn.edgeSet.Keys, frame.node, lbl, args.direction, i);
      var rows := DirectedEdges(conn, frame.node, neighbors[i], lbl, args.direction);
      ghost var es := Directed(conn.edgeSet.Keys, frame.node, neighbors[i], lbl, args.direction);
      ghost var before, kept := state', stack';
      state', stack' := VisitEdges(rows, neighbors[i], frame, state', stack', args.minHops, args.maxHops, args.filters,
                                   args.cap, q, es);
      IsAfter(q, frame.path, StepsTo(es, neighbors[i]), before, kept, args.cap, state', stack');
      AfterMore(q, frame.path, StepsAlong(q, frame.node, lbl, neighbors, i), StepsTo(es, neighbors[i]), state, stack,
                args.cap, before, kept, state', stack');
      if state'.Ended? {
        StepsAlongGrow(q, frame.node, lbl, neighbors, i + 1, |neighbors|);
        AfterEnded(q, frame.path, StepsAlong(q, frame.node, lbl, neighbors, i + 1), AlongLabel(q, frame.node, lbl),
                   state,
                   stack, args.cap, state', stack');
        return;
      }
    }
  }

  lemma IsAfter(q: Query, path: Trail, cands: seq<Step>, state: Run, stack: seq<Frame>, cap: Option<nat>,
                state': Run, stack': seq<Frame>)
    requires state' == FeedAll(state, Visits(q, path, cands), cap)
    requires state'.Running? ==> stack' == stack + FramesOf(q.start, Kids(q, path, cands))
    ensures After(q, path, cands, state, stack, cap, state', stack')
  {
  }

  /** All visits from one frame: each effective label, each neighbour, each parallel edge. */
  method ExpandFrame(conn: Connection, frame: Frame, state: Run, stack: seq<Frame>, args: Args)
    returns (state': Run, stack': seq<Frame>)
    requires conn.EdgesValid() && frame == FrameOf(args.start, frame.path) && state.Running?
    ensures var q := QueryOf(args, conn.edgeSet);
            After(q, frame.path, Candidates(q, frame.node), state, stack, args.cap, state', stack')
  {
    hide EdgesOk, After, AlongLabel, FrameOf, FeedAll, Visits, Kids, AllLabels;
    ghost var q := QueryOf(args, conn.edgeSet);
    var labels := args.labels;
    if labels == [] {
      labels := GetAllEdgeLabels(conn, frame.node, args.direction);
    }
    assert labels == EffectiveLabels(q, frame.node);
    state', stack' := state, stack;
    AfterNothing(q, frame.path, state, stack, args.cap);
    for i := 0 to |labels|
      invariant state'.Running?
      invariant After(q, frame.path, AlongLabels(q, frame.node, labels, i), state, stack, args.cap, state', stack')
    {
      ghost var before, kept := state', stack';
      state', stack' := VisitLabel(conn, labels[i], frame, state', stack', args);
      AfterMore(q, frame.path, AlongLabels(q, frame.node, labels, i), AlongLabel(q, frame.node, labels[i]), state,
                stack,
                args.cap, before, kept, state', stack');
      if state'.Ended? {
        AlongLabelsGrow(q, frame.node, labels, i + 1, |labels|);
        AfterEnded(q, frame.path, AlongLabels(q, frame.node, labels, i + 1), Candidates(q, frame.node), state, stack,
                   args.cap, state', stack');
        return;
      }
    }
  }

  // ---------------------------------------------------------------- the whole call

  /** Popping and expanding a frame moves its visits from the stack's trace to the run. */
  lemma FramePopped(q: Query, paths: seq<Trail>, s: Run, s': Run, cap: Option<nat>)
    requires paths != [] && |paths[|paths| - 1]| < q.maxHops && s.Running?
    requires var path := paths[|paths| - 1];
             s' == FeedAll(s, Visits(q, path, Candidates(q, End(q.start, path))), cap)
    ensures var path, rest := paths[|paths| - 1], paths[..|paths| - 1];
            var kids := Kids(q, path, Candidates(q, End(q.start, path)));
            && FeedAll(s, StackTrace(q, paths), cap) == FeedAll(s', StackTrace(q, rest + kids), cap)
            && StackFrames(q, rest + kids) < StackFrames(q, paths)
  {
    hide Candidates, Visits, Kids, Feed;
    var path, rest := paths[|paths| - 1], paths[..|paths| - 1];
    var cands := Candidates(q, End(q.start, path));
    var kids := Kids(q, path, cands);
    var visits, below, tail := Visits(q, path, cands), KidTraces(q, path, kids, |kids|), StackTrace(q, rest);
    StackOfKids(q, path, rest, kids, |kids|);
    assert kids[..|kids|] == kids;
    assert StackTrace(q, paths) == (visits + below) + tail;
    assert (visits + below) + tail == visits + (below + tail);
    FeedConcat(s, visits, below + tail, cap);
  }

  lemma DeepFramePopped(q: Query, paths: seq<Trail>)
    requires paths != [] && |paths[|paths| - 1]| >= q.maxHops
    ensures StackTrace(q, paths) == StackTrace(q, paths[..|paths| - 1])
    ensures StackFrames(q, paths[..|paths| - 1]) < StackFrames(q, paths)
  {
    assert [] + StackTrace(q, paths[..|paths| - 1]) == StackTrace(q, paths[..|paths| - 1]);
  }

  lemma RunEnded(s: Run, visits: seq<Option<Found>>, cap: Option<nat>)
    requires s.Ended?
    ensures Finish(FeedAll(s, visits, cap)) == s.outcome
  {
    FeedEnded(s, visits, cap);
  }

  lemma OnlyRoot(q: Query)
    ensures StackTrace(q, [[]]) == Trace(q, [])
    ensures FrameOf(q.start, []) == Frame(q.start, [], {})
    ensures q.maxHops == 0 ==> Trace(q, []) == []
  {
    hide Candidates, Visits, Kids;
    var stack: seq<Trail> := [[]];
    assert stack[..0] == [];
    assert Trace(q, []) + [] == Trace(q, []);
  }

  /** `traverse_paths`: for every graph and all arguments the call ends, and it returns what the
      visits of the search amount to under the two caps. A work cap of 0 means none. */
  method TraversePaths(conn: Connection, start: u64, labels: seq<Name>, direction: Direction, minHops: nat,
                       maxHops: nat, filters: Props, maxResults: Option<nat>, maxWork: nat)
    returns (r: Result<seq<Found>>)
    requires conn.EdgesValid()
    ensures r == Expected(Query(conn.edgeSet, start, labels, direction, minHops, maxHops, filters), maxResults, maxWork)
  {
    hide EdgesOk, Candidates, Trace, Visits, Kids, FeedAll, FrameOf, StackTrace, StackFrames, NulFree;
    ghost var q := Query(conn.edgeSet, start, labels, direction, minHops, maxHops, filters);
    var args := Args(start, labels, direction, minHops, maxHops, filters, maxResults);
    var results: seq<Found> := [];
    if minHops == 0 {
      results := [(start, [])];
      if maxResults.Some? && |results| >= maxResults.value {
        return Ok(results);
      }
    }
    var state := Running(results, if maxWork == 0 then None else Some(maxWork));
    OnlyRoot(q);
    if maxHops == 0 {
      NothingFed(state, maxResults);
      return Ok(results);
    }
    var stack := [Frame(start, [], {})];
    ghost var paths: seq<Trail> := [[]];
    while stack != []
      invariant state.Running? && stack == FramesOf(start, paths)
      invariant Finish(FeedAll(state, StackTrace(q, paths), maxResults)) == Expected(q, maxResults, maxWork)
      decreases StackFrames(q, paths)
    {
      var frame := stack[|stack| - 1];
      ghost var path, rest := paths[|paths| - 1], paths[..|paths| - 1];
      FrameFields(start, path);
      stack := stack[..|stack| - 1];
      if |frame.path| >= maxHops {
        DeepFramePopped(q, paths);
        paths := rest;
        continue;
      }
      ghost var before := state;
      state, stack := ExpandFrame(conn, frame, state, stack, args);
      FramePopped(q, paths, before, state, maxResults);
      if state.Ended? {
        RunEnded(state, StackTrace(q, rest + Kids(q, path, Candidates(q, frame.node))), maxResults);
        return state.outcome;
      }
      FramesConcat(start, rest, Kids(q, path, Candidates(q, frame.node)));
      paths := rest + Kids(q, path, Candidates(q, frame.node));
    }
    assert paths == [];
    EmptyStack(q, state, maxResults);
    return Ok(state.results);
  }

  lemma NothingFed(s: Run, cap: Option<nat>)
    ensures FeedAll(s, [], cap) == s
  {
  }

  lemma EmptyStack(q: Query, s: Run, cap: Option<nat>)
    ensures FeedAll(s, StackTrace(q, []), cap) == s
  {
  }

  lemma FrameFields(start: u64, path: Trail)
    ensures FrameOf(start, path).path == path && FrameOf(start, path).node == End(start, path)
  {
  }
}
