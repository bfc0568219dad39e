/** All shortest paths (src/storage/edge.rs:811-902). */
module AllShortest {
  import opened Prelude
  import opened Graph
  import opened Db
  import opened Edges
  import opened Paths
  import opened Shortest

  type Parents = map<u64, seq<u64>>

  /** While `cur` is being expanded and its neighbours `met` were looked at: the parents of a node
      are the expanded nodes one level up that have it as a neighbour, each once. */
  ghost predicate ParentsExact(v: View, depths: Depths, parents: Parents, done: set<u64>, cur: u64, met: set<u64>) {
    parents.Keys == depths.Keys &&
    forall n :: n in parents ==> NoDup(parents[n]) && IsParentSet(v, depths, Elems(parents[n]), done, cur, met, n)
  }

  ghost predicate IsParentSet(v: View, depths: Depths, ps: set<u64>, done: set<u64>, cur: u64, met: set<u64>, n: u64) {
    n in depths &&
    forall u :: u in ps <==>
      (u in done || (u == cur && n in met)) && u in depths && n in v.Next(u) && depths[u] + 1 == depths[n]
  }

  // ---------------------------------------------------------------- one neighbour

  lemma AddSameLevel(v: View, depths: Depths, parents: Parents, done: set<u64>, cur: u64, met: set<u64>, x: u64)
    requires ParentsExact(v, depths, parents, done, cur, met)
    requires cur in depths && cur !in done && x !in met && x in v.Next(cur) && x in depths
    requires depths[x] == depths[cur] + 1
    ensures ParentsExact(v, depths, parents[x := parents[x] + [cur]], done, cur, met + {x})
  {
    hide View.Next;
    var parents' := parents[x := parents[x] + [cur]];
    assert IsParentSet(v, depths, Elems(parents[x]), done, cur, met, x);
    ElemsConcat(parents[x], [cur]);
    ElemsSingle(cur);
    assert cur !in Elems(parents[x]);
    NoDupConcat(parents[x], [cur]);
    forall n | n in parents' ensures NoDup(parents'[n]) &&
        IsParentSet(v, depths, Elems(parents'[n]), done, cur, met + {x}, n) {
      assert IsParentSet(v, depths, Elems(parents[n]), done, cur, met, n);
    }
  }

  lemma OtherLevel(v: View, depths: Depths, parents: Parents, done: set<u64>, cur: u64, met: set<u64>, x: u64)
    requires ParentsExact(v, depths, parents, done, cur, met)
    requires cur in depths && cur !in done && x in depths && depths[x] != depths[cur] + 1
    ensures ParentsExact(v, depths, parents, done, cur, met + {x})
  {
    hide View.Next;
    forall n | n in parents ensures IsParentSet(v, depths, Elems(parents[n]), done, cur, met + {x}, n) {
      assert IsParentSet(v, depths, Elems(parents[n]), done, cur, met, n);
    }
  }

  lemma AddFirst(v: View, depths: Depths, parents: Parents, done: set<u64>, cur: u64, met: set<u64>, x: u64)
    requires ParentsExact(v, depths, parents, done, cur, met)
    requires cur in depths && cur !in done && x in v.Next(cur) && x !in depths
    requires forall u :: u in done ==> u in depths && x !in v.Next(u)
    requires met <= depths.Keys
    ensures ParentsExact(v, depths[x := depths[cur] + 1], parents[x := [cur]], done, cur, met + {x})
  {
    hide View.Next;
    var depths', parents' := depths[x := depths[cur] + 1], parents[x := [cur]];
    ElemsSingle(cur);
    forall n | n in parents' ensures NoDup(parents'[n]) &&
        IsParentSet(v, depths', Elems(parents'[n]), done, cur, met + {x}, n) {
      if n != x {
        assert IsParentSet(v, depths, Elems(parents[n]), done, cur, met, n);
      }
    }
  }

  lemma RoundOver(v: View, depths: Depths, parents: Parents, done: set<u64>, cur: u64, next: u64)
    requires ParentsExact(v, depths, parents, done, cur, v.Next(cur))
    ensures ParentsExact(v, depths, parents, done + {cur}, next, {})
  {
    hide View.Next;
    forall n | n in parents ensures IsParentSet(v, depths, Elems(parents[n]), done + {cur}, next, {}, n) {
      assert IsParentSet(v, depths, Elems(parents[n]), done, cur, v.Next(cur), n);
    }
  }

  lemma NoRound(v: View, depths: Depths, parents: Parents, done: set<u64>, cur: u64, next: u64)
    requires ParentsExact(v, depths, parents, done, cur, {})
    ensures ParentsExact(v, depths, parents, done, next, {})
  {
    hide View.Next;
    forall n | n in parents ensures IsParentSet(v, depths, Elems(parents[n]), done, next, {}, n) {
      assert IsParentSet(v, depths, Elems(parents[n]), done, cur, {}, n);
    }
  }

  // ---------------------------------------------------------------- reading the paths off

  ghost predicate Descends(depths: Depths, parents: Parents) {
    parents.Keys == depths.Keys &&
    forall n, u :: n in parents && u in parents[n] ==> u in depths && depths[u] + 1 == depths[n]
  }

  type Frame = (u64, seq<u64>)

  /** The paths the reconstruction puts out below one stack frame. */
  ghost function Below(depths: Depths, parents: Parents, start: u64, n: u64, path: seq<u64>): seq<seq<u64>>
    requires Descends(depths, parents) && n in depths
    decreases depths[n], 1, 0
  {
    if n == start then [Reversed(path)] else BelowParents(depths, parents, start, n, path, |parents[n]|)
  }

  /** The same for the first `i` parents pushed; the last one pushed is popped first. */
  ghost function BelowParents(depths: Depths, parents: Parents, start: u64, n: u64, path: seq<u64>,
                              i: nat): seq<seq<u64>>
    requires Descends(depths, parents) && n in depths && i <= |parents[n]|
    decreases depths[n], 0, i
  {
    if i == 0 then []
    else
      var u := parents[n][i - 1];
      Below(depths, parents, start, u, path + [u]) + BelowParents(depths, parents, start, n, path, i - 1)
  }

  ghost predicate FramesOk(depths: Depths, stack: seq<Frame>) {
    forall i :: 0 <= i < |stack| ==> stack[i].0 in depths
  }

  ghost function BelowAll(depths: Depths, parents: Parents, start: u64, stack: seq<Frame>): seq<seq<u64>>
    requires Descends(depths, parents) && FramesOk(depths, stack)
  {
    if stack == [] then []
    else
      var top := stack[|stack| - 1];
      Below(depths, parents, start, top.0, top.1) + BelowAll(depths, parents, start, stack[..|stack| - 1])
  }

  /** The number of frames still to be popped for a node, itself included. */
  ghost function Work(depths: Depths, parents: Parents, start: u64, n: u64): nat
    requires Descends(depths, parents) && n in depths
    decreases depths[n], 1, 0
  {
    if n == start then 1 else 1 + WorkParents(depths, parents, start, n, |parents[n]|)
  }

  ghost function WorkParents(depths: Depths, parents: Parents, start: u64, n: u64, i: nat): nat
    requires Descends(depths, parents) && n in depths && i <= |parents[n]|
    decreases depths[n], 0, i
  {
    if i == 0 then 0
    else Work(depths, parents, start, parents[n][i - 1]) + WorkParents(depths, parents, start, n, i - 1)
  }

  ghost function WorkAll(depths: Depths, parents: Parents, start: u64, stack: seq<Frame>): nat
    requires Descends(depths, parents) && FramesOk(depths, stack)
  {
    if stack == [] then 0
    else Work(depths, parents, start, stack[|stack| - 1].0) + WorkAll(depths, parents, start, stack[..|stack| - 1])
  }

  /** The reconstruction loop puts out what `Below` says, in that order, and ends. */
  method AllPaths(parents: Parents, start: u64, end: u64, ghost depths: Depths) returns (all: seq<seq<u64>>)
    requires Descends(depths, parents) && end in depths
    ensures all == Below(depths, parents, start, end, [end])
  {
    all := [];
    var stack: seq<Frame> := [(end, [end])];
    assert stack[..0] == [];
    while stack != []
      invariant FramesOk(depths, stack)
      invariant all + BelowAll(depths, parents, start, stack) == Below(depths, parents, start, end, [end])
      decreases WorkAll(depths, parents, start, stack)
    {
      var (node, path) := stack[|stack| - 1];
      ghost var full, rest, done := stack, stack[..|stack| - 1], all;
      stack := stack[..|stack| - 1];
      if node == start {
        all := all + [Reversed(path)];
        assert done + ([Reversed(path)] + BelowAll(depths, parents, start, rest)) ==
               all + BelowAll(depths, parents, start, rest);
        continue;
      }
      for i := 0 to |parents[node]|
        invariant FramesOk(depths, stack)
        invariant BelowAll(depths, parents, start, stack) ==
                  BelowParents(depths, parents, start, node, path, i) + BelowAll(depths, parents, start, rest)
        invariant WorkAll(depths, parents, start, stack) ==
                  WorkParents(depths, parents, start, node, i) + WorkAll(depths, parents, start, rest)
      {
        var p := parents[node][i];
        ghost var before := stack;
        stack := stack + [(p, path + [p])];
        assert stack[..|stack| - 1] == before;
        PushedFrame(Below(depths, parents, start, p, path + [p]), BelowParents(depths, parents, start, node, path, i),
                    BelowAll(depths, parents, start, rest));
      }
    }
  }

  lemma PushedFrame<T>(a: seq<T>, b: seq<T>, c: seq<T>)
    ensures a + (b + c) == (a + b) + c
  {
  }

  // ---------------------------------------------------------------- which paths those are

  /** Parents and depths as they are once the end was found at depth `bound`. */
  ghost predicate Complete(v: View, start: u64, depths: Depths, parents: Parents, bound: nat) {
    && Descends(depths, parents)
    && start in depths && depths[start] == 0
    && (forall n :: n in depths && depths[n] == 0 ==> n == start)
    && ExpandedBelow(v, depths, bound)
    && (forall n :: n in parents ==> NoDup(parents[n]))
    && (forall n, u :: n in depths && depths[n] <= bound && u in depths && n in v.Next(u) && depths[u] + 1 == depths[n]
          ==> u in parents[n])
    && (forall n, u :: n in parents && u in parents[n] ==> n in v.Next(u))
  }

  /** `x` is a shortest path to `n` followed by what the frame's path (noted back to front) holds. */
  ghost predicate Completes(v: View, start: u64, depths: Depths, n: u64, path: seq<u64>, x: seq<u64>)
    requires n in depths
  {
    && path != [] && path[|path| - 1] == n
    && |x| == depths[n] + |path|
    && IsPath(v, start, n, x[..depths[n] + 1])
    && x[depths[n]..] == Reversed(path)
  }

  lemma StepUp(v: View, start: u64, depths: Depths, parents: Parents, bound: nat, n: u64, path: seq<u64>, u: u64,
               x: seq<u64>)
    requires Complete(v, start, depths, parents, bound) && n in depths && u in parents[n]
    requires path != [] && path[|path| - 1] == n && Completes(v, start, depths, u, path + [u], x)
    ensures Completes(v, start, depths, n, path, x) && x[depths[n] - 1] == u
  {
    hide View.Next;
    var d := depths[n];
    assert Reversed(path + [u]) == [u] + Reversed(path);
    assert x[d - 1..][1..] == x[d..];
    assert x[d - 1..][0] == x[d - 1] == u;
    assert x[d] == x[d..][0] == n;
    var q := x[..d + 1];
    assert forall i :: 0 <= i < d ==> q[i] == x[..d][i];
  }

  lemma StepDown(v: View, start: u64, depths: Depths, parents: Parents, bound: nat, n: u64, path: seq<u64>, x: seq<u64>)
    requires Complete(v, start, depths, parents, bound) && n in depths && 0 < depths[n] <= bound
    requires Completes(v, start, depths, n, path, x)
    ensures var u := x[depths[n] - 1]; u in parents[n] && Completes(v, start, depths, u, path + [u], x)
  {
    hide View.Next;
    var d := depths[n];
    var u, q := x[d - 1], x[..d];
    var full := x[..d + 1];
    assert full[d] == n && full[d - 1] == u && n in v.Next(u);
    assert forall i :: 0 <= i < d ==> q[i] == full[i];
    assert IsPath(v, start, u, q);
    PathReaches(v, start, u, q);
    DepthsLeast(v, start, depths, bound, u, d - 1);
    assert Expanded(v, depths, u);
    assert Reversed(path + [u]) == [u] + Reversed(path);
    assert x[d - 1..] == [u] + x[d..];
  }

  /** Below a frame come exactly the shortest paths that end in its path, each once. */
  lemma {:induction false} BelowExact(v: View, start: u64, depths: Depths, parents: Parents, bound: nat, n: u64,
                                      path: seq<u64>)
    requires Complete(v, start, depths, parents, bound) && n in depths && depths[n] <= bound
    requires path != [] && path[|path| - 1] == n
    ensures var r := Below(depths, parents, start, n, path);
            NoDup(r) && forall x :: x in r <==> Completes(v, start, depths, n, path, x)
    decreases depths[n], 1, 0
  {
    if n == start {
      forall x | Completes(v, start, depths, n, path, x) ensures x == Reversed(path) {
        assert x == x[0..];
      }
      var x := Reversed(path);
      assert x[0..] == x && x[0] == n;
      assert IsPath(v, start, n, x[..1]);
    } else {
      BelowParentsExact(v, start, depths, parents, bound, n, path, |parents[n]|);
      forall x | Completes(v, start, depths, n, path, x) ensures x[depths[n] - 1] in parents[n][..|parents[n]|] {
        StepDown(v, start, depths, parents, bound, n, path, x);
      }
    }
  }

  lemma {:induction false} BelowParentsExact(v: View, start: u64, depths: Depths, parents: Parents, bound: nat, n: u64,
                                             path: seq<u64>, i: nat)
    requires Complete(v, start, depths, parents, bound) && n in depths && 0 < depths[n] <= bound
    requires path != [] && path[|path| - 1] == n && i <= |parents[n]|
    ensures var r := BelowParents(depths, parents, start, n, path, i);
            NoDup(r) &&
            forall x :: x in r <==> Completes(v, start, depths, n, path, x) && x[depths[n] - 1] in parents[n][..i]
    decreases depths[n], 0, i
  {
    hide View.Next;
    if i > 0 {
      var u := parents[n][i - 1];
      var a, b := Below(depths, parents, start, u, path + [u]), BelowParents(depths, parents, start, n, path, i - 1);
      BelowExact(v, start, depths, parents, bound, u, path + [u]);
      BelowParentsExact(v, start, depths, parents, bound, n, path, i - 1);
      TakeOneMore(parents[n], i - 1, u);
      forall x | x in a ensures Completes(v, start, depths, n, path, x) && x[depths[n] - 1] == u {
        StepUp(v, start, depths, parents, bound, n, path, u, x);
      }
      forall x | Completes(v, start, depths, n, path, x) && x[depths[n] - 1] == u ensures x in a {
        StepDown(v, start, depths, parents, bound, n, path, x);
      }
      assert u !in parents[n][..i - 1];
      NoDupConcat(a, b);
    }
  }

  // ---------------------------------------------------------------- the search

  /** The depth from which on nodes are not expanded: that of the end once it was met. */
  function Limit(found: Option<nat>, maxHops: nat): nat {
    if found.Some? then found.value else maxHops
  }

  /** What the search loop keeps. */
  ghost predicate LoopOk(v: View, start: u64, end: u64, depths: Depths, parents: Parents, queue: Queue,
                         done: set<u64>, found: Option<nat>, maxHops: nat)
  {
    var limit := Limit(found, maxHops);
    && SearchOk(v, start, depths, queue, limit)
    && DoneOk(depths, queue, limit, done)
    && ParentsExact(v, depths, parents, done, start, {})
    && FoundOk(end, depths, queue, found, maxHops)
    && OnlyStartAtZero(start, depths)
  }

  ghost predicate OnlyStartAtZero(start: u64, depths: Depths) {
    forall n :: n in depths && depths[n] == 0 ==> n == start
  }

  ghost predicate FoundOk(end: u64, depths: Depths, queue: Queue, found: Option<nat>, maxHops: nat) {
    match found
    case None => end !in depths
    case Some(fd) =>
      end in depths && depths[end] == fd && fd <= maxHops && (queue != [] ==> fd <= queue[0].1 + 1)
  }

  lemma LoopStarts(v: View, start: u64, end: u64, maxHops: nat)
    requires start != end
    ensures LoopOk(v, start, end, map[start := 0], map[start := []], [(start, 0)], {}, None, maxHops)
  {
    SearchStarts(v, start, maxHops);
    var queue: Queue := [(start, 0)];
    assert queue[0].0 in Queued(queue);
    assert Elems<u64>([]) == {};
    assert IsParentSet(v, map[start := 0], {}, {}, start, {}, start);
  }

  lemma LoopSkips(v: View, start: u64, end: u64, depths: Depths, parents: Parents, queue: Queue,
                  done: set<u64>, found: Option<nat>, maxHops: nat)
    requires LoopOk(v, start, end, depths, parents, queue, done, found, maxHops) && queue != []
    requires queue[0].1 >= Limit(found, maxHops)
    ensures LoopOk(v, start, end, depths, parents, queue[1..], done, found, maxHops)
  {
    hide View.Next, ParentsExact;
    var limit := Limit(found, maxHops);
    SearchSkips(v, start, depths, queue, limit);
    DoneAfterSkip(depths, queue, limit, done);
    assert forall i :: 0 <= i < |queue[1..]| ==> queue[1..][i] == queue[i + 1];
  }

  /** What holds inside a round, after the neighbours `met` of the head of `queue0`. */
  ghost predicate RoundOk(v: View, end: u64, depths0: Depths, queue0: Queue, done: set<u64>,
                          found0: Option<nat>, found: Option<nat>, nbrs: seq<u64>, i: nat,
                          depths: Depths, parents: Parents, pushed: seq<u64>)
    requires i <= |nbrs| && queue0 != []
  {
    var cur, next := queue0[0].0, queue0[0].1 + 1;
    && depths == Discovered(depths0, Excluding(nbrs[..i], depths0.Keys), next)
    && ParentsExact(v, depths, parents, done, cur, Elems(nbrs[..i]))
    && NoDup(pushed) && Elems(pushed) <= depths.Keys - depths0.Keys
    && (found.None? ==> found0.None? && end !in depths && Elems(pushed) == depths.Keys - depths0.Keys)
    && (found.Some? ==> end in depths && depths[end] == found.value == next)
    && Elems(nbrs[..i]) <= depths.Keys
  }

  lemma RoundStarts(v: View, start: u64, end: u64, depths: Depths, parents: Parents, queue: Queue, done: set<u64>,
                    found: Option<nat>, maxHops: nat, nbrs: seq<u64>)
    requires LoopOk(v, start, end, depths, parents, queue, done, found, maxHops) && queue != []
    requires queue[0].1 < Limit(found, maxHops)
    ensures RoundOk(v, end, depths, queue, done, found, found, nbrs, 0, depths, parents, [])
  {
    hide View.Next, IsParentSet, SearchOk, DoneOk;
    assert nbrs[..0] == [];
    NoneDiscovered(depths, queue[0].1 + 1);
    assert Elems(nbrs[..0]) == {};
    NoRound(v, depths, parents, done, start, queue[0].0);
  }

  /** The facts about the head of the queue that a round rests on. */
  ghost predicate HeadOk(v: View, depths0: Depths, queue0: Queue, done: set<u64>, nbrs: seq<u64>) {
    && queue0 != [] && queue0[0].0 in depths0 && depths0[queue0[0].0] == queue0[0].1
    && queue0[0].0 !in done
    && nbrs == v.List(queue0[0].0)
    && forall u :: u in done ==> u in depths0 && v.Next(u) <= depths0.Keys
  }

  lemma HeadOkHolds(v: View, start: u64, end: u64, depths: Depths, parents: Parents, queue: Queue, done: set<u64>,
                    found: Option<nat>, maxHops: nat, nbrs: seq<u64>)
    requires LoopOk(v, start, end, depths, parents, queue, done, found, maxHops) && queue != []
    requires nbrs == v.List(queue[0].0)
    ensures HeadOk(v, depths, queue, done, nbrs)
  {
    hide View.Next, ParentsExact, NeighborList;
    HeadOf(depths, queue);
    assert queue[0].0 in Queued(queue);
    forall u | u in done ensures u in depths && v.Next(u) <= depths.Keys {
      assert Expanded(v, depths, u);
    }
  }

  /** A neighbour met before: it gains a parent if it lies on the next level. */
  lemma RoundKnown(v: View, start: u64, end: u64, depths0: Depths, queue0: Queue, done: set<u64>,
                   found0: Option<nat>, found: Option<nat>, nbrs: seq<u64>, i: nat,
                   depths: Depths, parents: Parents, pushed: seq<u64>)
    requires i < |nbrs| && HeadOk(v, depths0, queue0, done, nbrs)
    requires RoundOk(v, end, depths0, queue0, done, found0, found, nbrs, i, depths, parents, pushed)
    requires nbrs[i] in depths
    ensures RoundOk(v, end, depths0, queue0, done, found0, found, nbrs, i + 1, depths,
                    if depths[nbrs[i]] == queue0[0].1 + 1
                    then parents[nbrs[i] := parents[nbrs[i]] + [queue0[0].0]] else parents,
                    pushed)
  {
    hide View.Next, IsParentSet, Discovered, Excluding, ParentsExact;
    var cur, x := queue0[0].0, nbrs[i];
    DiscoverOne(depths0, nbrs, i, queue0[0].1 + 1);
    NeighborIn(v, nbrs, cur, i);
    DiscoveredSpec(depths0, Excluding(nbrs[..i], depths0.Keys), queue0[0].1 + 1);
    TakeOneMore(nbrs, i, x);
    ElemsConcat(nbrs[..i], [x]);
    ElemsSingle(x);
    assert x !in Elems(nbrs[..i]);
    if depths[x] == queue0[0].1 + 1 {
      AddSameLevel(v, depths, parents, done, cur, Elems(nbrs[..i]), x);
    } else {
      OtherLevel(v, depths, parents, done, cur, Elems(nbrs[..i]), x);
    }
  }

  /** A neighbour met for the first time; it is queued unless the end was met. */
  lemma RoundNew(v: View, start: u64, end: u64, depths0: Depths, queue0: Queue, done: set<u64>,
                 found0: Option<nat>, found: Option<nat>, nbrs: seq<u64>, i: nat,
                 depths: Depths, parents: Parents, pushed: seq<u64>)
    requires i < |nbrs| && HeadOk(v, depths0, queue0, done, nbrs)
    requires RoundOk(v, end, depths0, queue0, done, found0, found, nbrs, i, depths, parents, pushed)
    requires nbrs[i] !in depths
    ensures var x, next := nbrs[i], queue0[0].1 + 1;
            RoundOk(v, end, depths0, queue0, done, found0, if x == end then Some(next) else found, nbrs, i + 1,
                    depths[x := next], parents[x := [queue0[0].0]],
                    if x != end && found.None? then pushed + [x] else pushed)
  {
    hide View.Next, IsParentSet, Discovered, Excluding;
    var cur, x, next := queue0[0].0, nbrs[i], queue0[0].1 + 1;
    DiscoverOne(depths0, nbrs, i, next);
    NeighborIn(v, nbrs, cur, i);
    DiscoveredSpec(depths0, Excluding(nbrs[..i], depths0.Keys), next);
    TakeOneMore(nbrs, i, x);
    ElemsConcat(nbrs[..i], [x]);
    ElemsSingle(x);
    AddFirst(v, depths, parents, done, cur, Elems(nbrs[..i]), x);
    ElemsConcat(pushed, [x]);
    NoDupConcat(pushed, [x]);
  }

  /** What a whole round has done to the depths, the parents and the queue. */
  ghost predicate Rounded(v: View, end: u64, depths0: Depths, queue0: Queue, done: set<u64>,
                          found0: Option<nat>, found: Option<nat>, depths: Depths, parents: Parents, pushed: seq<u64>)
  {
    && queue0 != [] && queue0[0].0 !in done
    && depths == Discovered(depths0, Excluding(v.List(queue0[0].0), depths0.Keys), queue0[0].1 + 1)
    && ParentsExact(v, depths, parents, done, queue0[0].0, v.Next(queue0[0].0))
    && depths.Keys - depths0.Keys == v.Next(queue0[0].0) - depths0.Keys && depths0.Keys <= depths.Keys
    && (forall n :: n in depths0 ==> n in depths && depths[n] == depths0[n])
    && (forall n :: n in depths && n !in depths0 ==> depths[n] == queue0[0].1 + 1)
    && NoDup(pushed) && Elems(pushed) <= depths.Keys - depths0.Keys
    && (found.None? ==> found0.None? && end !in depths && Elems(pushed) == depths.Keys - depths0.Keys)
    && (found.Some? ==> end in depths && depths[end] == found.value == queue0[0].1 + 1)
  }

  lemma RoundResult(v: View, end: u64, depths0: Depths, queue0: Queue, done: set<u64>,
                    found0: Option<nat>, found: Option<nat>, nbrs: seq<u64>,
                    depths: Depths, parents: Parents, pushed: seq<u64>)
    requires HeadOk(v, depths0, queue0, done, nbrs)
    requires RoundOk(v, end, depths0, queue0, done, found0, found, nbrs, |nbrs|, depths, parents, pushed)
    ensures Rounded(v, end, depths0, queue0, done, found0, found, depths, parents, pushed)
  {
    hide View.Next, ParentsExact, Discovered, Excluding;
    assert nbrs[..|nbrs|] == nbrs;
    ExcludingSpec(nbrs, depths0.Keys);
    DiscoveredSpec(depths0, Excluding(nbrs, depths0.Keys), queue0[0].1 + 1);
  }

  lemma RoundEnds(v: View, start: u64, end: u64, depths0: Depths, parents0: Parents, queue0: Queue, done: set<u64>,
                  found0: Option<nat>, found: Option<nat>, maxHops: nat,
                  depths: Depths, parents: Parents, pushed: seq<u64>, queue: Queue)
    requires LoopOk(v, start, end, depths0, parents0, queue0, done, found0, maxHops) && queue0 != []
    requires queue0[0].1 < Limit(found0, maxHops)
    requires Rounded(v, end, depths0, queue0, done, found0, found, depths, parents, pushed)
    requires queue == queue0[1..] + Tagged(pushed, queue0[0].1 + 1)
    ensures LoopOk(v, start, end, depths, parents, queue, done + {queue0[0].0}, found, maxHops)
  {
    hide View.Next, SearchOk, DoneOk, Tagged, ParentsExact, FoundOk, OnlyStartAtZero, Limit, Rounded;
    var limit0 := Limit(found0, maxHops);
    HeadDepths(v, start, end, depths0, queue0, done, found0, found, limit0, depths, parents, pushed, queue);
    FoundAfterRound(v, start, end, depths0, queue0, done, found0, found, maxHops, depths, parents, pushed, queue);
    SearchAfterRound(v, start, end, depths0, queue0, done, found0, found, maxHops, depths, parents, pushed, queue);
    DoneRounded(v, start, end, depths0, queue0, done, found0, found, maxHops, depths, parents, pushed, queue);
    ParentsRounded(v, start, end, depths0, queue0, done, found0, found, depths, parents, pushed);
  }

  lemma HeadDepths(v: View, start: u64, end: u64, depths0: Depths, queue0: Queue, done: set<u64>,
                   found0: Option<nat>, found: Option<nat>, limit0: nat, depths: Depths, parents: Parents,
                   pushed: seq<u64>, queue: Queue)
    requires SearchOk(v, start, depths0, queue0, limit0)
    requires Rounded(v, end, depths0, queue0, done, found0, found, depths, parents, pushed)
    requires queue == queue0[1..] + Tagged(pushed, queue0[0].1 + 1)
    ensures queue != [] ==> queue[0].1 >= queue0[0].1
  {
    hide View.Next, View.List, Discovered, Excluding, ParentsExact;
    ExpandedQueueOk(depths0, queue0, pushed, depths, queue0[0].1);
  }

  lemma ParentsRounded(v: View, start: u64, end: u64, depths0: Depths, queue0: Queue, done: set<u64>,
                       found0: Option<nat>, found: Option<nat>, depths: Depths, parents: Parents, pushed: seq<u64>)
    requires Rounded(v, end, depths0, queue0, done, found0, found, depths, parents, pushed)
    ensures ParentsExact(v, depths, parents, done + {queue0[0].0}, start, {})
  {
    hide View.Next, View.List, Discovered, Excluding, ParentsExact;
    RoundOver(v, depths, parents, done, queue0[0].0, start);
  }

  lemma DoneRounded(v: View, start: u64, end: u64, depths0: Depths, queue0: Queue, done: set<u64>,
                    found0: Option<nat>, found: Option<nat>, maxHops: nat, depths: Depths, parents: Parents,
                    pushed: seq<u64>, queue: Queue)
    requires SearchOk(v, start, depths0, queue0, Limit(found0, maxHops)) && queue0 != []
    requires DoneOk(depths0, queue0, Limit(found0, maxHops), done)
    requires queue0[0].1 < Limit(found, maxHops) <= Limit(found0, maxHops)
    requires Rounded(v, end, depths0, queue0, done, found0, found, depths, parents, pushed)
    requires queue == queue0[1..] + Tagged(pushed, queue0[0].1 + 1)
    ensures DoneOk(depths, queue, Limit(found, maxHops), done + {queue0[0].0})
  {
    hide View.Next, View.List, Discovered, Excluding, ParentsExact, DoneOk, SearchOk, QueueOk, Tagged;
    SearchParts(v, start, depths0, queue0, Limit(found0, maxHops));
    DoneAfterRound(depths0, queue0, Limit(found0, maxHops), done, depths, pushed, Limit(found, maxHops));
  }

  lemma SearchAfterRound(v: View, start: u64, end: u64, depths0: Depths, queue0: Queue, done: set<u64>,
                         found0: Option<nat>, found: Option<nat>, maxHops: nat, depths: Depths, parents: Parents,
                         pushed: seq<u64>, queue: Queue)
    requires SearchOk(v, start, depths0, queue0, Limit(found0, maxHops)) && queue0 != []
    requires queue0[0].1 < Limit(found, maxHops) <= Limit(found0, maxHops)
    requires Rounded(v, end, depths0, queue0, done, found0, found, depths, parents, pushed)
    requires queue == queue0[1..] + Tagged(pushed, queue0[0].1 + 1)
    ensures SearchOk(v, start, depths, queue, Limit(found, maxHops))
  {
    hide View.Next, View.List, SearchOk, Discovered, Excluding, Tagged, Elems, ParentsExact;
    SearchExpands(v, start, depths0, queue0, Limit(found0, maxHops), Limit(found, maxHops), pushed);
  }

  lemma FoundAfterRound(v: View, start: u64, end: u64, depths0: Depths, queue0: Queue, done: set<u64>,
                        found0: Option<nat>, found: Option<nat>, maxHops: nat, depths: Depths, parents: Parents,
                        pushed: seq<u64>, queue: Queue)
    requires FoundOk(end, depths0, queue0, found0, maxHops) && OnlyStartAtZero(start, depths0) && queue0 != []
    requires queue0[0].1 < Limit(found0, maxHops)
    requires Rounded(v, end, depths0, queue0, done, found0, found, depths, parents, pushed)
    requires queue != [] ==> queue[0].1 >= queue0[0].1
    ensures FoundOk(end, depths, queue, found, maxHops) && OnlyStartAtZero(start, depths)
    ensures queue0[0].1 < Limit(found, maxHops) <= Limit(found0, maxHops)
  {
    hide View.Next, View.List, Discovered, Excluding, ParentsExact;
  }

  lemma SearchParts(v: View, start: u64, depths: Depths, queue: Queue, limit: nat)
    requires SearchOk(v, start, depths, queue, limit)
    ensures QueueOk(depths, queue) && depths.Keys <= Universe(v, start)
  {
  }

  lemma RoundMeasure(v: View, start: u64, end: u64, depths0: Depths, queue0: Queue, done: set<u64>,
                     found0: Option<nat>, found: Option<nat>, limit: nat, depths: Depths, parents: Parents,
                     pushed: seq<u64>, queue: Queue)
    requires Rounded(v, end, depths0, queue0, done, found0, found, depths, parents, pushed)
    requires SearchOk(v, start, depths, queue, limit) && queue == queue0[1..] + Tagged(pushed, queue0[0].1 + 1)
    ensures Universe(v, start) - depths.Keys < Universe(v, start) - depths0.Keys ||
            (depths.Keys == depths0.Keys && |queue| < |queue0|)
  {
    hide View.Next, View.List, Discovered, Excluding, ParentsExact, Universe;
    if pushed != [] {
      assert pushed[0] in Elems(pushed);
      assert pushed[0] in Universe(v, start) - depths0.Keys && pushed[0] !in Universe(v, start) - depths.Keys;
    } else if depths.Keys != depths0.Keys {
      var n :| n in depths.Keys && n !in depths0.Keys;
      assert n in Universe(v, start) - depths0.Keys && n !in Universe(v, start) - depths.Keys;
    }
  }

  lemma ParentsDescend(v: View, start: u64, depths: Depths, parents: Parents, done: set<u64>)
    requires ParentsExact(v, depths, parents, done, start, {}) && OnlyStartAtZero(start, depths)
    ensures Descends(depths, parents)
  {
    hide View.Next;
    forall n, u | n in parents && u in parents[n] ensures u in depths && depths[u] + 1 == depths[n] && n in v.Next(u) {
      assert IsParentSet(v, depths, Elems(parents[n]), done, start, {}, n);
      assert u in Elems(parents[n]);
    }
  }

  lemma ParentsComplete(v: View, start: u64, depths: Depths, parents: Parents, done: set<u64>, limit: nat)
    requires ParentsExact(v, depths, parents, done, start, {}) && DoneOk(depths, [], limit, done)
    requires SearchOk(v, start, depths, [], limit) && OnlyStartAtZero(start, depths)
    ensures Complete(v, start, depths, parents, limit)
  {
    hide View.Next, Reach;
    HeadBounds(v, start, depths, [], limit);
    ParentsDescend(v, start, depths, parents, done);
    forall n, u | n in parents && u in parents[n] ensures n in v.Next(u) {
      assert IsParentSet(v, depths, Elems(parents[n]), done, start, {}, n);
      assert u in Elems(parents[n]);
    }
    forall n, u | n in depths && depths[n] <= limit && u in depths && n in v.Next(u) && depths[u] + 1 == depths[n]
      ensures u in parents[n]
    {
      assert IsParentSet(v, depths, Elems(parents[n]), done, start, {}, n);
      assert Queued([]) == {};
      assert u in Elems(parents[n]);
    }
  }

  lemma SearchOver(v: View, start: u64, end: u64, depths: Depths, parents: Parents, done: set<u64>,
                   found: Option<nat>, maxHops: nat)
    requires LoopOk(v, start, end, depths, parents, [], done, found, maxHops)
    ensures Descends(depths, parents)
    ensures end !in depths ==> forall k: nat :: k <= maxHops ==> !Reach(v, start, end, k)
    ensures end in depths ==> found == Some(depths[end]) && depths[end] <= maxHops &&
                              Complete(v, start, depths, parents, depths[end]) && IsDist(v, start, end, depths[end])
  {
    hide View.Next, Reach;
    var limit := Limit(found, maxHops);
    HeadBounds(v, start, depths, [], limit);
    ParentsDescend(v, start, depths, parents, done);
    if end !in depths {
      NotFound(v, start, end, depths, maxHops);
    } else {
      assert Queued([]) == {};
      ParentsComplete(v, start, depths, parents, done, limit);
      DepthsAreDistances(v, start, depths, [], limit, limit, end);
    }
  }

  /** `all_shortest_paths`: exactly the paths of least length, if that is at most `maxHops`, each
      once. */
  method AllShortestPaths(conn: Connection, start: u64, end: u64, lbl: Name, direction: Direction, maxHops: nat)
    returns (all: seq<seq<u64>>)
    requires conn.EdgesValid()
    ensures var v := View(conn.edgeSet.Keys, lbl, direction);
            NoDup(all) &&
            forall p :: p in all <==> IsPath(v, start, end, p) && |p| - 1 <= maxHops && IsDist(v, start, end, |p| - 1)
  {
    hide LoopOk, RoundOk, HeadOk, Rounded, SearchOk, EdgesOk, View.Next, View.List, NeighborList, IsPath, Reach,
         IsDist, Tagged, Descends;
    ghost var v := View(conn.edgeSet.Keys, lbl, direction);
    if start == end {
      OnlyTrivialPath(v, start, maxHops);
      return [[start]];
    }
    var parents: Parents, depthOf: Depths, queue: Queue := map[start := []], map[start := 0], [(start, 0)];
    var found: Option<nat> := None;
    ghost var done: set<u64> := {};
    LoopStarts(v, start, end, maxHops);
    while queue != []
      invariant LoopOk(v, start, end, depthOf, parents, queue, done, found, maxHops)
      decreases Universe(v, start) - depthOf.Keys, |queue|
    {
      var (current, depth) := queue[0];
      if (found.Some? && depth >= found.value) || depth >= maxHops {
        LoopSkipsAtMax(v, start, end, depthOf, parents, queue, done, found, maxHops);
        queue := queue[1..];
        continue;
      }
      ghost var depths0, parents0, queue0, found0 := depthOf, parents, queue, found;
      queue := queue[1..];
      var neighbors := GetNeighbors(conn, current, lbl, direction);
      var nextDepth := depth + 1;
      ListIs(v, current);
      HeadOkHolds(v, start, end, depthOf, parents, queue0, done, found, maxHops, neighbors);
      RoundStarts(v, start, end, depthOf, parents, queue0, done, found, maxHops, neighbors);
      ghost var pushed: seq<u64> := [];
      NoTags(nextDepth);
      for i := 0 to |neighbors|
        invariant RoundOk(v, end, depths0, queue0, done, found0, found, neighbors, i, depthOf, parents, pushed)
        invariant queue == queue0[1..] + Tagged(pushed, nextDepth)
      {
        var neighbor := neighbors[i];
        KeysAgree(v, start, end, depths0, queue0, done, found0, found, neighbors, i, depthOf, parents, pushed);
        if neighbor in depthOf {
          RoundKnown(v, start, end, depths0, queue0, done, found0, found, neighbors, i, depthOf, parents, pushed);
          // Already visited: a second parent if it is on the next level.
          if depthOf[neighbor] == nextDepth {
            parents := parents[neighbor := parents[neighbor] + [current]];
          }
          continue;
        }
        RoundNew(v, start, end, depths0, queue0, done, found0, found, neighbors, i, depthOf, parents, pushed);
        depthOf := depthOf[neighbor := nextDepth];
        parents := parents[neighbor := [current]];
        if neighbor == end {
          found := Some(nextDepth);
        } else if found.None? {
          TaggedOneMore(pushed, neighbor, nextDepth);
          queue := queue + [(neighbor, nextDepth)];
          pushed := pushed + [neighbor];
        }
      }
      RoundResult(v, end, depths0, queue0, done, found0, found, neighbors, depthOf, parents, pushed);
      RoundEnds(v, start, end, depths0, parents0, queue0, done, found0, found, maxHops, depthOf, parents, pushed,
                queue);
      LoopSearch(v, start, end, depthOf, parents, queue, done + {current}, found, maxHops);
      RoundMeasure(v, start, end, depths0, queue0, done, found0, found, Limit(found, maxHops), depthOf, parents, pushed,
                   queue);
      done := done + {current};
    }
    SearchOver(v, start, end, depthOf, parents, done, found, maxHops);
    if end !in depthOf {
      NoPathWithin(v, start, end, maxHops);
      return [];
    }
    all := AllPaths(parents, start, end, depthOf);
    ShortestOnes(v, start, end, depthOf, parents, maxHops);
  }

  lemma LoopSearch(v: View, start: u64, end: u64, depths: Depths, parents: Parents, queue: Queue,
                   done: set<u64>, found: Option<nat>, maxHops: nat)
    requires LoopOk(v, start, end, depths, parents, queue, done, found, maxHops)
    ensures SearchOk(v, start, depths, queue, Limit(found, maxHops))
  {
  }

  lemma NoTags(d: nat)
    ensures Tagged([], d) == []
  {
  }

  lemma KeysAgree(v: View, start: u64, end: u64, depths0: Depths, queue0: Queue, done: set<u64>,
                  found0: Option<nat>, found: Option<nat>, nbrs: seq<u64>, i: nat,
                  depths: Depths, parents: Parents, pushed: seq<u64>)
    requires i <= |nbrs| && queue0 != []
    requires RoundOk(v, end, depths0, queue0, done, found0, found, nbrs, i, depths, parents, pushed)
    ensures parents.Keys == depths.Keys
  {
  }

  lemma LoopSkipsAtMax(v: View, start: u64, end: u64, depths: Depths, parents: Parents, queue: Queue,
                       done: set<u64>, found: Option<nat>, maxHops: nat)
    requires LoopOk(v, start, end, depths, parents, queue, done, found, maxHops) && queue != []
    requires (found.Some? && queue[0].1 >= found.value) || queue[0].1 >= maxHops
    ensures LoopOk(v, start, end, depths, parents, queue[1..], done, found, maxHops)
  {
    hide SearchOk, DoneOk, ParentsExact;
    assert found.Some? ==> found.value <= maxHops;
    LoopSkips(v, start, end, depths, parents, queue, done, found, maxHops);
  }

  lemma OnlyTrivialPath(v: View, start: u64, maxHops: nat)
    ensures forall p :: p in [[start]] <==>
              IsPath(v, start, start, p) && |p| - 1 <= maxHops && IsDist(v, start, start, |p| - 1)
  {
    TrivialPath(v, start);
    forall p | IsPath(v, start, start, p) && IsDist(v, start, start, |p| - 1) ensures p == [start] {
      DistUnique(v, start, start, |p| - 1, 0);
    }
  }

  lemma NoPathWithin(v: View, start: u64, end: u64, maxHops: nat)
    requires forall k: nat :: k <= maxHops ==> !Reach(v, start, end, k)
    ensures forall p :: !(IsPath(v, start, end, p) && |p| - 1 <= maxHops)
  {
    forall p | IsPath(v, start, end, p) ensures |p| - 1 > maxHops {
      PathReaches(v, start, end, p);
    }
  }

  lemma ShortestOnes(v: View, start: u64, end: u64, depths: Depths, parents: Parents, maxHops: nat)
    requires Descends(depths, parents) && end in depths && depths[end] <= maxHops
    requires Complete(v, start, depths, parents, depths[end]) && IsDist(v, start, end, depths[end])
    ensures var all := Below(depths, parents, start, end, [end]);
            NoDup(all) &&
            forall p :: p in all <==> IsPath(v, start, end, p) && |p| - 1 <= maxHops && IsDist(v, start, end, |p| - 1)
  {
    hide View.Next;
    var d := depths[end];
    BelowExact(v, start, depths, parents, d, end, [end]);
    forall p
      ensures Completes(v, start, depths, end, [end], p) <==>
              IsPath(v, start, end, p) && |p| - 1 <= maxHops && IsDist(v, start, end, |p| - 1)
    {
      if IsPath(v, start, end, p) && IsDist(v, start, end, |p| - 1) {
        DistUnique(v, start, end, |p| - 1, d);
      }
      if |p| == d + 1 {
        assert p[..d + 1] == p;
        assert p[d..] == [p[d]];
        assert Reversed([end]) == [end];
      }
    }
  }
}
