/** The order in which `traverse_paths` reports (src/storage/edge.rs:640-754), which decides what a result cap
    leaves: a frame reports its own steps first, and of the frames it pushes the last is searched first. */
module TrailOrder {
  import opened Prelude
  import opened Graph
  import opened Bytes
  import opened Db
  import opened Edges
  import opened Trails
  import opened TrailsExact

  /** `x` stands before `y` in a list. */
  ghost predicate Precedes<T>(list: seq<T>, x: T, y: T) {
    exists i, j :: 0 <= i < j < |list| && list[i] == x && list[j] == y
  }

  /** Of two paths that go on from `path`: one that is a single step longer comes before a longer one, two such in
      the order of the steps from that node; of two longer ones, the one through the later step comes first, and
      on the same way the question is put to the next node. */
  ghost predicate Earlier(q: Query, path: Trail, a: Trail, b: Trail)
    requires |path| < |a| && |path| < |b|
    decreases |a| - |path|
  {
    var n := |path|;
    var steps := Candidates(q, End(q.start, path));
    if |a| == n + 1 then |b| > n + 1 || Precedes(steps, a[n], b[n])
    else |b| > n + 1 && if a[n] == b[n] then Earlier(q, path + [a[n]], a, b) else Precedes(steps, b[n], a[n])
  }

  ghost predicate AllBelow(path: Trail, rows: seq<Found>) {
    forall i :: 0 <= i < |rows| ==> |path| < |rows[i].1| && path <= rows[i].1
  }

  ghost predicate InOrder(q: Query, path: Trail, rows: seq<Found>) {
    AllBelow(path, rows) && forall i, j :: 0 <= i < j < |rows| ==> Earlier(q, path, rows[i].1, rows[j].1)
  }

  /** Every row of `a` comes before every row of `b`. */
  ghost predicate AllEarlier(q: Query, path: Trail, a: seq<Found>, b: seq<Found>)
    requires AllBelow(path, a) && AllBelow(path, b)
  {
    forall i, j :: 0 <= i < |a| && 0 <= j < |b| ==> Earlier(q, path, a[i].1, b[j].1)
  }

  lemma OrderConcat(q: Query, path: Trail, a: seq<Found>, b: seq<Found>)
    requires InOrder(q, path, a) && InOrder(q, path, b) && AllEarlier(q, path, a, b)
    ensures InOrder(q, path, a + b)
  {
    hide Earlier;
  }

  // ---------------------------------------------------------------- one frame

  /** Steps of a list without repeats precede each other as they stand. */
  ghost predicate DirectRows(path: Trail, steps: seq<Step>, rows: seq<Found>) {
    (forall i :: 0 <= i < |rows| ==>
       |rows[i].1| == |path| + 1 && path <= rows[i].1 && rows[i].1[|path|] in steps) &&
    (forall i, j :: 0 <= i < j < |rows| ==> Precedes(steps, rows[i].1[|path|], rows[j].1[|path|]))
  }

  lemma {:induction false} VisitsInOrder(q: Query, path: Trail, steps: seq<Step>)
    ensures DirectRows(path, steps, Rows(Visits(q, path, steps)))
    decreases |steps|
  {
    hide Accepted, Precedes;
    if steps != [] {
      var init, c := steps[..|steps| - 1], steps[|steps| - 1];
      VisitsInOrder(q, path, init);
      assert Visits(q, path, steps)[..|steps| - 1] == Visits(q, path, init);
      var before := Rows(Visits(q, path, init));
      PrecedesMore(init, c);
      assert steps == init + [c] && (path + [c])[|path|] == c;
    }
  }

  lemma PrecedesMore(init: seq<Step>, c: Step)
    ensures forall x: Step, y: Step :: Precedes(init, x, y) ==> Precedes(init + [c], x, y)
    ensures forall x :: x in init ==> Precedes(init + [c], x, c)
  {
    var list := init + [c];
    forall x: Step, y: Step | Precedes(init, x, y) ensures Precedes(list, x, y) {
      var i, j :| 0 <= i < j < |init| && init[i] == x && init[j] == y;
      assert list[i] == x && list[j] == y;
    }
    forall x | x in init ensures Precedes(list, x, c) {
      var i :| 0 <= i < |init| && init[i] == x;
      assert list[i] == x && list[|init|] == c;
    }
  }

  /** Kids stand in the order of the steps they take. */
  ghost predicate KidsAlong(path: Trail, steps: seq<Step>, kids: seq<Trail>) {
    (forall i :: 0 <= i < |kids| ==>
       |kids[i]| == |path| + 1 && kids[i] == path + [kids[i][|path|]] && kids[i][|path|] in steps) &&
    (forall i, j :: 0 <= i < j < |kids| ==> Precedes(steps, kids[i][|path|], kids[j][|path|]))
  }

  lemma {:induction false} KidsInOrder(q: Query, path: Trail, steps: seq<Step>)
    ensures KidsAlong(path, steps, Kids(q, path, steps))
    decreases |steps|
  {
    hide Accepted, Precedes;
    if steps != [] {
      var init, c := steps[..|steps| - 1], steps[|steps| - 1];
      KidsInOrder(q, path, init);
      PrecedesMore(init, c);
      assert steps == init + [c] && (path + [c])[|path|] == c;
    }
  }

  lemma PrecedesApart(steps: seq<Step>, x: Step, y: Step)
    requires NoDup(steps) && Precedes(steps, x, y)
    ensures x != y
  {
  }

  // ---------------------------------------------------------------- whole searches

  lemma TraceRowsBelow(q: Query, path: Trail)
    requires IsTrail(q, path) && |path| <= q.maxHops
    ensures AllBelow(path, Rows(Trace(q, path)))
  {
    hide IsTrail, Trace, Rows, IsAnswer;
    var rows := Rows(Trace(q, path));
    forall i | 0 <= i < |rows| ensures |path| < |rows[i].1| && path <= rows[i].1 {
      TraceExact(q, path, rows[i]);
      CountMember(rows, rows[i]);
    }
  }

  lemma StepsOnce(q: Query, n: u64)
    requires NoDup(q.labels)
    ensures NoDup(Candidates(q, n))
  {
    hide Candidates, Possible, NoDup;
    forall c ensures Count(Candidates(q, n), c) <= 1 {
      CandidatesSpec(q, n, c);
      CountNoDup(q.labels, c.edge.lbl);
    }
    NoDupByCount(Candidates(q, n));
  }

  /** All rows below a path come in that order, whatever the graph, for types named once. */
  lemma {:induction false} TraceInOrder(q: Query, path: Trail)
    requires NoDup(q.labels) && IsTrail(q, path) && |path| <= q.maxHops
    ensures InOrder(q, path, Rows(Trace(q, path)))
    decreases q.maxHops - |path|, 1, 0
  {
    hide IsTrail, Candidates, Visits, Kids, KidTraces, NoDup, Precedes;
    if |path| < q.maxHops {
      var steps := Candidates(q, End(q.start, path));
      var kids := Kids(q, path, steps);
      CandidatesPossible(q, path);
      KidsAreKids(q, path, steps);
      KidsInOrder(q, path, steps);
      VisitsInOrder(q, path, steps);
      KidTracesInOrder(q, path, kids, |kids|);
      RowsConcat(Visits(q, path, steps), KidTraces(q, path, kids, |kids|));
      DirectFirst(q, path, Rows(Visits(q, path, steps)), Rows(KidTraces(q, path, kids, |kids|)), kids);
    }
  }

  /** Rows below kids are two steps longer at least. */
  ghost predicate BelowKids(path: Trail, kids: seq<Trail>, i: nat, rows: seq<Found>)
    requires i <= |kids|
  {
    forall k :: 0 <= k < |rows| ==>
      |path| + 1 < |rows[k].1| && path <= rows[k].1 && rows[k].1[..|path| + 1] in kids[..i]
  }

  lemma DirectFirst(q: Query, path: Trail, direct: seq<Found>, deeper: seq<Found>, kids: seq<Trail>)
    requires DirectRows(path, Candidates(q, End(q.start, path)), direct)
    requires InOrder(q, path, deeper) && BelowKids(path, kids, |kids|, deeper)
    ensures InOrder(q, path, direct + deeper)
  {
    hide Candidates, Precedes;
    OrderConcat(q, path, direct, deeper);
  }

  lemma {:induction false} KidTracesInOrder(q: Query, path: Trail, kids: seq<Trail>, i: nat)
    requires NoDup(q.labels) && i <= |kids| && |path| < q.maxHops
    requires KidsAlong(path, Candidates(q, End(q.start, path)), kids)
    requires forall k :: 0 <= k < |kids| ==> IsKid(q, path, kids[k])
    ensures InOrder(q, path, Rows(KidTraces(q, path, kids, i)))
    ensures BelowKids(path, kids, i, Rows(KidTraces(q, path, kids, i)))
    decreases q.maxHops - |path|, 0, i
  {
    hide Candidates, Trace, NoDup, IsTrail, InOrder, AllBelow, BelowKids, KidsAlong, AllEarlier, Rows;
    NothingInOrder(q, path, kids);
    if i > 0 {
      var kid := kids[i - 1];
      assert IsKid(q, path, kid);
      KidIsTrail(q, path, kid);
      TraceInOrder(q, kid);
      TraceRowsBelow(q, kid);
      KidTracesInOrder(q, path, kids, i - 1);
      var first, rest := Rows(Trace(q, kid)), Rows(KidTraces(q, path, kids, i - 1));
      RowsConcat(Trace(q, kid), KidTraces(q, path, kids, i - 1));
      ThroughKid(q, path, kid, first);
      LastKidFirst(q, path, kids, i, first, rest);
      OrderConcat(q, path, first, rest);
      StillBelowKids(path, kids, i, first, rest);
    }
  }

  lemma NothingInOrder(q: Query, path: Trail, kids: seq<Trail>)
    ensures Rows([]) == [] && InOrder(q, path, []) && BelowKids(path, kids, 0, [])
  {
  }

  lemma KidIsTrail(q: Query, path: Trail, kid: Trail)
    requires IsKid(q, path, kid)
    ensures IsTrail(q, kid) && |kid| == |path| + 1 <= q.maxHops && path <= kid
  {
  }

  lemma StillBelowKids(path: Trail, kids: seq<Trail>, i: nat, first: seq<Found>, rest: seq<Found>)
    requires 0 < i <= |kids| && |kids[i - 1]| == |path| + 1 && path <= kids[i - 1]
    requires AllBelow(kids[i - 1], first) && BelowKids(path, kids, i - 1, rest)
    ensures BelowKids(path, kids, i, first + rest)
  {
    TakeOneMore(kids, i - 1, kids[i - 1]);
    forall k | 0 <= k < |first| ensures path <= first[k].1 && first[k].1[..|path| + 1] == kids[i - 1] {
      assert kids[i - 1] <= first[k].1;
    }
  }

  /** What is in order below a kid is in order below its parent. */
  lemma ThroughKid(q: Query, path: Trail, kid: Trail, rows: seq<Found>)
    requires |kid| == |path| + 1 && path <= kid && InOrder(q, kid, rows)
    ensures InOrder(q, path, rows)
  {
    hide Candidates, Precedes;
    assert kid == path + [kid[|path|]];
    forall i | 0 <= i < |rows| ensures rows[i].1[|path|] == kid[|path|] && path <= rows[i].1 {
      assert kid <= rows[i].1;
    }
    forall i, j | 0 <= i < j < |rows| ensures Earlier(q, path, rows[i].1, rows[j].1) {
      assert Earlier(q, kid, rows[i].1, rows[j].1);
    }
  }

  lemma LastKidFirst(q: Query, path: Trail, kids: seq<Trail>, i: nat, first: seq<Found>, rest: seq<Found>)
    requires 0 < i <= |kids| && NoDup(q.labels) && KidsAlong(path, Candidates(q, End(q.start, path)), kids)
    requires AllBelow(kids[i - 1], first) && InOrder(q, path, first) && InOrder(q, path, rest)
    requires BelowKids(path, kids, i - 1, rest)
    ensures AllBelow(path, first) && AllBelow(path, rest) && AllEarlier(q, path, first, rest)
  {
    hide Candidates, Precedes, NoDup;
    var n, steps := |path|, Candidates(q, End(q.start, path));
    StepsOnce(q, End(q.start, path));
    forall a, b | 0 <= a < |first| && 0 <= b < |rest| ensures Earlier(q, path, first[a].1, rest[b].1) {
      var x, y := first[a].1, rest[b].1;
      assert kids[i - 1] <= x && x[n] == kids[i - 1][n];
      assert y[..n + 1] in kids[..i - 1];
      var k :| 0 <= k < i - 1 && kids[k] == y[..n + 1];
      assert y[n] == kids[k][n];
      assert Precedes(steps, y[n], x[n]);
      PrecedesApart(steps, y[n], x[n]);
    }
  }

  /** The rows of a search without caps: the empty path first, if it counts, then all others in order. */
  lemma RowsInOrder(q: Query)
    requires NoDup(q.labels)
    ensures AllRows(q) == (if q.minHops == 0 then [(q.start, [])] else []) + Rows(Trace(q, []))
    ensures InOrder(q, [], Rows(Trace(q, [])))
  {
    hide Trace, IsTrail, InOrder;
    EmptyTrail(q);
    TraceInOrder(q, []);
  }

  // ---------------------------------------------------------------- the steps from one node

  /** Of two steps: by the order of their types, then of the nodes they lead to, then those along an edge before
      those against it, then by edge number. */
  ghost predicate StepBefore(q: Query, n: u64, labels: seq<Name>, x: Step, y: Step) {
    if x.edge.lbl != y.edge.lbl then Precedes(labels, x.edge.lbl, y.edge.lbl)
    else if x.dst != y.dst then Precedes(NeighborList(q.edges.Keys, n, x.edge.lbl, q.direction), x.dst, y.dst)
    else if Forward(n, x) != Forward(n, y) then Forward(n, x)
    else x.edge.num < y.edge.num
  }

  predicate Forward(n: u64, c: Step) {
    c.edge.src == n && c.edge.dst == c.dst
  }

  ghost predicate Arranged(q: Query, n: u64, labels: seq<Name>, steps: seq<Step>) {
    forall i, j :: 0 <= i < j < |steps| ==> StepBefore(q, n, labels, steps[i], steps[j])
  }

  lemma ArrangedConcat(q: Query, n: u64, labels: seq<Name>, a: seq<Step>, b: seq<Step>)
    requires Arranged(q, n, labels, a) && Arranged(q, n, labels, b)
    requires forall x, y :: x in a && y in b ==> StepBefore(q, n, labels, x, y)
    ensures Arranged(q, n, labels, a + b)
  {
    hide StepBefore;
    var s := a + b;
    forall i, j | 0 <= i < j < |s| ensures StepBefore(q, n, labels, s[i], s[j]) {
      assert i < |a| ==> s[i] in a;
      assert j >= |a| ==> s[j] in b;
      assert j < |a| ==> s[i] == a[i] && s[j] == a[j];
      assert i >= |a| ==> s[i] == b[i - |a|] && s[j] == b[j - |a|];
    }
  }

  lemma ParallelArranged(q: Query, n: u64, labels: seq<Name>, src: u64, dst: u64, lbl: Name, m: u64)
    ensures Arranged(q, n, labels, StepsTo(ParallelEdges(q.edges.Keys, src, dst, lbl), m))
  {
    hide Precedes;
  }

  lemma DirectedArranged(q: Query, n: u64, labels: seq<Name>, m: u64, lbl: Name)
    ensures Arranged(q, n, labels, StepsTo(Directed(q.edges.Keys, n, m, lbl, q.direction), m))
  {
    hide Precedes, Arranged, ParallelEdges, StepsTo;
    ParallelArranged(q, n, labels, n, m, lbl, m);
    ParallelArranged(q, n, labels, m, n, lbl, m);
    StepsToConcat(ParallelEdges(q.edges.Keys, n, m, lbl), ParallelEdges(q.edges.Keys, m, n, lbl), m);
    if q.direction == Both && n != m {
      var fwd, rev := ParallelEdges(q.edges.Keys, n, m, lbl), ParallelEdges(q.edges.Keys, m, n, lbl);
      ParallelEdgesSpec(q.edges.Keys, n, m, lbl);
      ParallelEdgesSpec(q.edges.Keys, m, n, lbl);
      var a, b := StepsTo(fwd, m), StepsTo(rev, m);
      StepsToSpec(fwd, m);
      StepsToSpec(rev, m);
      ArrangedConcat(q, n, labels, a, b);
    }
  }

  lemma StepsToConcat(a: seq<Edge>, b: seq<Edge>, m: u64)
    ensures StepsTo(a + b, m) == StepsTo(a, m) + StepsTo(b, m) && StepsTo(a + [], m) == StepsTo(a, m)
  {
    assert a + [] == a;
  }

  lemma {:induction false} AlongArranged(q: Query, n: u64, labels: seq<Name>, lbl: Name, i: nat)
    requires i <= |NeighborList(q.edges.Keys, n, lbl, q.direction)|
    ensures Arranged(q, n, labels, StepsAlong(q, n, lbl, NeighborList(q.edges.Keys, n, lbl, q.direction), i))
    decreases i
  {
    hide Directed, Connects, NeighborList, Arranged, Precedes, StepsTo;
    var nbrs := NeighborList(q.edges.Keys, n, lbl, q.direction);
    NoStepsArranged(q, n, labels);
    if i > 0 {
      var m := nbrs[i - 1];
      AlongArranged(q, n, labels, lbl, i - 1);
      DirectedArranged(q, n, labels, m, lbl);
      NeighborListSpec(q.edges.Keys, n, lbl, q.direction);
      StepsAlongSpec(q, n, lbl, nbrs, i - 1);
      var es := Directed(q.edges.Keys, n, m, lbl, q.direction);
      DirectedSpec(q.edges.Keys, n, m, lbl, q.direction);
      StepsToSpec(es, m);
      var before := StepsAlong(q, n, lbl, nbrs, i - 1);
      forall x, y | x in before && y in StepsTo(es, m) ensures StepBefore(q, n, labels, x, y) {
        assert StepTo(q, n, lbl, nbrs[..i - 1], x);
        EarlierInList(nbrs, i - 1, x.dst);
      }
      ArrangedConcat(q, n, labels, before, StepsTo(es, m));
    }
  }

  lemma NoStepsArranged(q: Query, n: u64, labels: seq<Name>)
    ensures Arranged(q, n, labels, [])
  {
  }

  /** What stands among the first `i` precedes the next, and in a list without repeats is not it. */
  lemma EarlierInList<T>(list: seq<T>, i: nat, x: T)
    requires i < |list| && x in list[..i] && NoDup(list)
    ensures Precedes(list, x, list[i]) && x != list[i]
  {
    var k :| 0 <= k < i && list[k] == x;
  }

  lemma {:induction false} LabelsArranged(q: Query, n: u64, labels: seq<Name>, i: nat)
    requires i <= |labels| && NoDup(labels)
    ensures Arranged(q, n, labels, AlongLabels(q, n, labels, i))
    ensures forall c :: c in AlongLabels(q, n, labels, i) ==> c.edge.lbl in labels[..i]
    decreases i
  {
    hide Connects, Arranged, Precedes, AlongLabel, NoDup;
    NoStepsArranged(q, n, labels);
    if i > 0 {
      var lbl := labels[i - 1];
      LabelsArranged(q, n, labels, i - 1);
      LabelArranged(q, n, labels, lbl);
      AlongLabelSpec(q, n, lbl);
      var before, last := AlongLabels(q, n, labels, i - 1), AlongLabel(q, n, lbl);
      forall x, y | x in before && y in last ensures StepBefore(q, n, labels, x, y) {
        EarlierInList(labels, i - 1, x.edge.lbl);
      }
      ArrangedConcat(q, n, labels, before, last);
      TakeOneMore(labels, i - 1, lbl);
    }
  }

  lemma LabelArranged(q: Query, n: u64, labels: seq<Name>, lbl: Name)
    ensures Arranged(q, n, labels, AlongLabel(q, n, lbl))
  {
    hide Arranged, NeighborList, StepsAlong;
    AlongArranged(q, n, labels, lbl, |NeighborList(q.edges.Keys, n, lbl, q.direction)|);
  }

  /** The steps that a frame takes, in order: types as asked for, or all types at the node in byte order. */
  lemma StepsInOrder(q: Query, n: u64)
    requires NoDup(q.labels)
    ensures Arranged(q, n, if q.labels == [] then AllLabels(q.edges.Keys, n, q.direction) else q.labels,
                     Candidates(q, n))
  {
    hide Arranged, AllLabels, AlongLabels, NoDup;
    AllLabelsSpec(q.edges.Keys, n, q.direction);
    LabelsArranged(q, n, EffectiveLabels(q, n), |EffectiveLabels(q, n)|);
  }

  // ---------------------------------------------------------------- the two lists

  /** Neighbours: one direction by id; both directions those along an edge first, then those that are met against
      one only, each by id. */
  lemma NeighborsInOrder(edges: set<Edge>, n: u64, lbl: Name, direction: Direction, x: u64, y: u64)
    requires Precedes(NeighborList(edges, n, lbl, direction), x, y)
    ensures direction != Both ==> x < y
    ensures direction == Both ==>
              (y in FarEnds(edges, n, lbl, true) ==> x in FarEnds(edges, n, lbl, true)) &&
              ((x in FarEnds(edges, n, lbl, true) <==> y in FarEnds(edges, n, lbl, true)) ==> x < y)
  {
    hide FarEnds, SortedWords, Excluding;
    var outs, ins := FarEnds(edges, n, lbl, true), FarEnds(edges, n, lbl, false);
    var a, b := SortedWords(outs), Excluding(SortedWords(ins), outs);
    var list := NeighborList(edges, n, lbl, direction);
    var i, j :| 0 <= i < j < |list| && list[i] == x && list[j] == y;
    if direction == Both {
      SortedNoDup(SortedWords(ins));
      ExcludingSpec(SortedWords(ins), outs);
      ExcludingSorted(SortedWords(ins), outs);
      assert i < |a| ==> a[i] == x && x in Elems(a);
      assert j < |a| ==> a[j] == y && y in Elems(a);
      assert i >= |a| ==> b[i - |a|] == x && x in Elems(b);
      assert j >= |a| ==> b[j - |a|] == y && y in Elems(b);
    }
  }

  lemma {:induction false} ExcludingSorted(s: seq<u64>, known: set<u64>)
    requires StrictlySorted(s)
    ensures StrictlySorted(Excluding(s, known)) && forall x :: x in Excluding(s, known) ==> x in s
  {
    if s != [] {
      var init, last := s[..|s| - 1], s[|s| - 1];
      ExcludingSorted(init, known);
      assert forall x :: x in init ==> x < last;
      var rest := Excluding(init, known);
      assert forall i :: 0 <= i < |rest| ==> rest[i] in rest;
    }
  }

  /** Types at a node likewise, in byte order. */
  lemma TypesInOrder(edges: set<Edge>, n: u64, direction: Direction, x: Name, y: Name)
    requires Precedes(AllLabels(edges, n, direction), x, y)
    ensures direction != Both ==> Less(x, y)
    ensures direction == Both ==>
              (y in LabelsAt(edges, n, true) ==> x in LabelsAt(edges, n, true)) &&
              ((x in LabelsAt(edges, n, true) <==> y in LabelsAt(edges, n, true)) ==> Less(x, y))
  {
    hide Less;
    var outs, ins := SortedKeys(LabelsAt(edges, n, true)), SortedKeys(LabelsAt(edges, n, false));
    var b := Excluding(ins, Elems(outs));
    var list := AllLabels(edges, n, direction);
    var i, j :| 0 <= i < j < |list| && list[i] == x && list[j] == y;
    if direction == Both {
      KeysSortedNoDup(ins);
      ExcludingSpec(ins, Elems(outs));
      ExcludingKeysSorted(ins, Elems(outs));
      assert i < |outs| ==> outs[i] == x && x in Elems(outs);
      assert j < |outs| ==> outs[j] == y && y in Elems(outs);
      assert i >= |outs| ==> b[i - |outs|] == x && x in Elems(b);
      assert j >= |outs| ==> b[j - |outs|] == y && y in Elems(b);
    }
  }

  lemma {:induction false} ExcludingKeysSorted(s: seq<Key>, known: set<Key>)
    requires KeysSorted(s)
    ensures KeysSorted(Excluding(s, known)) && forall x :: x in Excluding(s, known) ==> x in s
  {
    hide Less;
    if s != [] {
      var init, last := s[..|s| - 1], s[|s| - 1];
      ExcludingKeysSorted(init, known);
      assert forall x :: x in init ==> Less(x, last);
      var rest := Excluding(init, known);
      assert forall i :: 0 <= i < |rest| ==> rest[i] in rest;
    }
  }
}
