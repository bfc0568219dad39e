/** Variable-length path enumeration (src/storage/edge.rs:498-754): a depth-first search with an
    explicit stack in which no relationship occurs twice on a path. */
module Trails {
  import opened Prelude
  import opened Graph
  import opened Db
  import opened Edges
  import opened Traverse

  /** One hop: the relationship used, as it is stored, and the node reached by it. */
  datatype Step = Step(edge: Edge, dst: u64)

  type Trail = seq<Step>

  /** A result row: the node reached and the path to it. */
  type Found = (u64, Trail)

  /** What a call asks for, on a given graph. An empty label list means every type. */
  datatype Query = Query(edges: map<Edge, Props>, start: u64, labels: seq<Name>, direction: Direction,
                         minHops: nat, maxHops: nat, filters: Props)

  function End(start: u64, path: Trail): u64 {
    if path == [] then start else path[|path| - 1].dst
  }

  // ---------------------------------------------------------------- what counts as an answer

  /** The edge leads from `n` to `m` when followed in the query's direction. */
  predicate Connects(direction: Direction, e: Edge, n: u64, m: u64) {
    match direction
    case Outgoing => e.src == n && e.dst == m
    case Incoming => e.dst == n && e.src == m
    case Both => (e.src == n && e.dst == m) || (e.dst == n && e.src == m)
  }

  /** The step is possible from `n`, the property filters aside. */
  predicate Possible(q: Query, n: u64, c: Step) {
    c.edge in q.edges && Connects(q.direction, c.edge, n, c.dst) && (q.labels == [] || c.edge.lbl in q.labels)
  }

  predicate Matches(props: Props, filters: Props) {
    forall k :: k in filters.Keys ==> k in props && props[k] == filters[k]
  }

  predicate Allowed(q: Query, n: u64, c: Step) {
    Possible(q, n, c) && Matches(q.edges[c.edge], q.filters)
  }

  /** A path from the start that follows labels, direction and filters and uses no edge twice. */
  ghost predicate IsTrail(q: Query, path: Trail) {
    (forall i :: 0 <= i < |path| ==> Allowed(q, End(q.start, path[..i]), path[i])) &&
    (forall i, j :: 0 <= i < j < |path| ==> path[i].edge != path[j].edge)
  }

  ghost predicate IsAnswer(q: Query, f: Found) {
    f.0 == End(q.start, f.1) && IsTrail(q, f.1) && q.minHops <= |f.1| <= q.maxHops
  }

  // ---------------------------------------------------------------- candidate steps of a node

  ghost function ParallelEdges(edges: set<Edge>, src: u64, dst: u64, lbl: Name): seq<Edge> {
    var nums := SortedWords(ParallelSeqs(edges, src, dst, lbl));
    seq(|nums|, i requires 0 <= i < |nums| => Edge(src, dst, lbl, nums[i]))
  }

  /** The parallel edges between a node and a neighbour, forward ones first. */
  ghost function Directed(edges: set<Edge>, n: u64, m: u64, lbl: Name, direction: Direction): seq<Edge> {
    match direction
    case Outgoing => ParallelEdges(edges, n, m, lbl)
    case Incoming => ParallelEdges(edges, m, n, lbl)
    case Both => ParallelEdges(edges, n, m, lbl) + (if n != m then ParallelEdges(edges, m, n, lbl) else [])
  }

  function StepsTo(directed: seq<Edge>, m: u64): (r: seq<Step>)
    ensures |r| == |directed|
    ensures forall i :: 0 <= i < |r| ==> r[i] == Step(directed[i], m)
  {
    seq(|directed|, i requires 0 <= i < |directed| => Step(directed[i], m))
  }

  /** The steps to the first `i` neighbours along one label. */
  ghost function StepsAlong(q: Query, n: u64, lbl: Name, nbrs: seq<u64>, i: nat): seq<Step>
    requires i <= |nbrs|
  {
    if i == 0 then []
    else
      StepsAlong(q, n, lbl, nbrs, i - 1) +
      StepsTo(Directed(q.edges.Keys, n, nbrs[i - 1], lbl, q.direction), nbrs[i - 1])
  }

  ghost function AlongLabel(q: Query, n: u64, lbl: Name): seq<Step> {
    var nbrs := NeighborList(q.edges.Keys, n, lbl, q.direction);
    StepsAlong(q, n, lbl, nbrs, |nbrs|)
  }

  ghost function AlongLabels(q: Query, n: u64, labels: seq<Name>, i: nat): seq<Step>
    requires i <= |labels|
  {
    if i == 0 then [] else AlongLabels(q, n, labels, i - 1) + AlongLabel(q, n, labels[i - 1])
  }

  /** The labels followed from a node: the ones asked for, or all that occur there. */
  ghost function EffectiveLabels(q: Query, n: u64): seq<Name> {
    if q.labels == [] then AllLabels(q.edges.Keys, n, q.direction) else q.labels
  }

  /** Every edge visit the search makes from a node, in order. */
  ghost function Candidates(q: Query, n: u64): seq<Step> {
    AlongLabels(q, n, EffectiveLabels(q, n), |EffectiveLabels(q, n)|)
  }

  // ---------------------------------------------------------------- the run as a sequence of visits

  /** The edges of a path, as the visited set of its stack frame. */
  function EdgesOf(path: Trail): set<Edge> {
    set i | 0 <= i < |path| :: path[i].edge
  }

  ghost predicate Accepted(q: Query, path: Trail, c: Step) {
    c.edge !in EdgesOf(path) && c.edge in q.edges && Matches(q.edges[c.edge], q.filters)
  }

  /** One edge visit: the result row it gives, if any. */
  ghost function VisitOf(q: Query, path: Trail, c: Step): Option<Found> {
    if Accepted(q, path, c) && |path| + 1 >= q.minHops then Some((c.dst, path + [c])) else None
  }

  ghost function Visits(q: Query, path: Trail, cands: seq<Step>): seq<Option<Found>> {
    seq(|cands|, i requires 0 <= i < |cands| => VisitOf(q, path, cands[i]))
  }

  /** The paths pushed on the stack for a frame. */
  ghost function Kids(q: Query, path: Trail, cands: seq<Step>): (r: seq<Trail>)
    ensures forall i :: 0 <= i < |r| ==> |r[i]| == |path| + 1 && |r[i]| < q.maxHops
  {
    if cands == [] then []
    else
      var init, c := Kids(q, path, cands[..|cands| - 1]), cands[|cands| - 1];
      if Accepted(q, path, c) && |path| + 1 < q.maxHops then init + [path + [c]] else init
  }

  /** All visits from the frame of `path` until its whole subtree is done; the kid pushed last
      comes first. */
  ghost function Trace(q: Query, path: Trail): seq<Option<Found>>
    decreases q.maxHops - |path|, 1, 0
  {
    if |path| >= q.maxHops then []
    else
      var cands := Candidates(q, End(q.start, path));
      Visits(q, path, cands) + KidTraces(q, path, Kids(q, path, cands), |Kids(q, path, cands)|)
  }

  ghost function KidTraces(q: Query, path: Trail, kids: seq<Trail>, i: nat): seq<Option<Found>>
    requires i <= |kids| && |path| < q.maxHops
    requires forall k :: 0 <= k < |kids| ==> |kids[k]| == |path| + 1
    decreases q.maxHops - |path|, 0, i
  {
    if i == 0 then [] else Trace(q, kids[i - 1]) + KidTraces(q, path, kids, i - 1)
  }

  ghost function StackTrace(q: Query, stack: seq<Trail>): seq<Option<Found>> {
    if stack == [] then [] else Trace(q, stack[|stack| - 1]) + StackTrace(q, stack[..|stack| - 1])
  }

  /** The number of frames popped for a path and its subtree. */
  ghost function Frames(q: Query, path: Trail): nat
    decreases q.maxHops - |path|, 1, 0
  {
    if |path| >= q.maxHops then 1
    else
      var kids := Kids(q, path, Candidates(q, End(q.start, path)));
      1 + KidFrames(q, path, kids, |kids|)
  }

  ghost function KidFrames(q: Query, path: Trail, kids: seq<Trail>, i: nat): nat
    requires i <= |kids| && |path| < q.maxHops
    requires forall k :: 0 <= k < |kids| ==> |kids[k]| == |path| + 1
    decreases q.maxHops - |path|, 0, i
  {
    if i == 0 then 0 else Frames(q, kids[i - 1]) + KidFrames(q, path, kids, i - 1)
  }

  ghost function StackFrames(q: Query, stack: seq<Trail>): nat {
    if stack == [] then 0 else Frames(q, stack[|stack| - 1]) + StackFrames(q, stack[..|stack| - 1])
  }

  // ---------------------------------------------------------------- caps

  /** The state of a run: going on, with results so far and edge visits still allowed, or ended. */
  datatype Run = Running(results: seq<Found>, fuel: Option<nat>) | Ended(outcome: Result<seq<Found>>)

  /** One edge visit under the work cap and the result cap. */
  function Feed(s: Run, visit: Option<Found>, cap: Option<nat>): Run {
    match s
    case Ended(_) => s
    case Running(results, fuel) =>
      if fuel == Some(0) then Ended(Err(WorkLimit))
      else
        var fuel' := if fuel.Some? then Some(fuel.value - 1) else None;
        match visit
        case None => Running(results, fuel')
        case Some(f) =>
          if Full(|results + [f]|, cap) then Ended(Ok(results + [f])) else Running(results + [f], fuel')
  }

  ghost function FeedAll(s: Run, visits: seq<Option<Found>>, cap: Option<nat>): Run {
    if visits == [] then s else Feed(FeedAll(s, visits[..|visits| - 1], cap), visits[|visits| - 1], cap)
  }

  lemma {:induction false} FeedConcat(s: Run, a: seq<Option<Found>>, b: seq<Option<Found>>, cap: Option<nat>)
    ensures FeedAll(s, a + b, cap) == FeedAll(FeedAll(s, a, cap), b, cap)
    decreases |b|
  {
    hide Feed;
    if b == [] {
      assert a + b == a;
    } else {
      assert (a + b)[..|a + b| - 1] == a + b[..|b| - 1];
      FeedConcat(s, a, b[..|b| - 1], cap);
    }
  }

  lemma {:induction false} FeedEnded(s: Run, visits: seq<Option<Found>>, cap: Option<nat>)
    requires s.Ended?
    ensures FeedAll(s, visits, cap) == s
    decreases |visits|
  {
    if visits != [] {
      FeedEnded(s, visits[..|visits| - 1], cap);
    }
  }

  function Finish(s: Run): Result<seq<Found>> {
    match s
    case Running(results, _) => Ok(results)
    case Ended(outcome) => outcome
  }

  /** The zero-length match, when the hop range allows it. */
  function ZeroLength(q: Query): seq<Found> {
    if q.minHops == 0 then [(q.start, [])] else []
  }

  /** What a call returns: the visits of the search, run under both caps. */
  ghost function Expected(q: Query, cap: Option<nat>, maxWork: nat): Result<seq<Found>> {
    var fuel := if maxWork == 0 then None else Some(maxWork);
    if Full(|ZeroLength(q)|, cap) then Ok(ZeroLength(q))
    else Finish(FeedAll(Running(ZeroLength(q), fuel), Trace(q, []), cap))
  }
}
